/**
 * Resolution of nomination targets to display labels: `getIdentity` and the
 * per-target logic of `getNominationData`.
 *
 * The on-chain identity registry is given as two maps: `identityOf`
 * (address to registration) and `superOf` (sub-account address to its
 * parent and raw sub-label). An address absent from a map is a query that
 * returns `None`.
 */
module Identity {
  import opened Js
  import HexLabel
  import UriDecode

  /** A registrar's judgement status, as the identity pallet defines it. */
  datatype JudgementStatus =
    | Unknown
    | FeePaid(fee: nat)
    | Reasonable
    | KnownGood
    | OutOfDate
    | LowQuality
    | Erroneous

  datatype Judgement = Judgement(registrar: nat, status: JudgementStatus)

  /** An `identityOf` entry: the raw display field (`info.display.Raw`) and the judgements. */
  datatype Registration = Registration(displayRaw: Option<string>, judgements: seq<Judgement>)

  /** A `superOf` entry: the parent account and the raw sub-label (`[1].Raw`). */
  datatype SuperRef = SuperRef(superAddress: string, subRaw: Option<string>)

  datatype Registry = Registry(identityOf: map<string, Registration>, superOf: map<string, SuperRef>)

  /** What `getIdentity` returns: `{name, verified, sub}`. */
  datatype OnChainIdentity = OnChainIdentity(name: Option<string>, verified: Option<bool>, sub: Option<string>)

  /** A configured account, as far as the override table uses it. */
  datatype Account = Account(name: string, address: string)

  /** The `nominators` entry of an account: its targets and the era it was submitted in. */
  datatype Nominations = Nominations(targets: seq<string>, submittedIn: nat)

  datatype Target = Target(address: string, identity: Option<string>)

  datatype NominationRecord = NominationRecord(targets: seq<Target>, era: nat)

  // ---------------------------------------------------------------------
  // Labels stored as hex

  predicate HasHexPrefix(s: string)
  {
    |s| >= 2 && s[..2] == "0x"
  }

  /**
   * The rule applied to both the display name and the sub-label: a truthy
   * raw value that starts with `0x` goes through `hex2a`, anything else
   * (including `undefined` and the empty string) is used as it is.
   */
  function DecodeLabel(raw: Option<string>): (r: Result<Option<string>>)
    ensures !(raw.Some? && HasHexPrefix(raw.value)) ==> r == Ok(raw)
    ensures r.Ok? && r.value != raw ==> raw.Some? && HasHexPrefix(raw.value) && r.value.Some?
  {
    if raw.Some? && HasHexPrefix(raw.value) then
      match HexLabel.Hex2a(raw.value[2..])
      case Ok(s) => Ok(Some(s))
      case Err(e) => Err(e)
    else Ok(raw)
  }

  /**
   * A label stored as `0x` followed by the hex of its UTF-8 bytes decodes
   * back to the label; `0x` alone throws (nothing for `match` to find).
   */
  lemma DecodeLabelRoundTrip(s: string)
    requires s != []
    ensures DecodeLabel(Some("0x" + HexLabel.HexEncode(UriDecode.Utf8Encode(s)))) == Ok(Some(s))
    ensures DecodeLabel(Some("0x")) == Err(TypeError)
  {
    var raw := "0x" + HexLabel.HexEncode(UriDecode.Utf8Encode(s));
    assert raw[..2] == "0x" && raw[2..] == HexLabel.HexEncode(UriDecode.Utf8Encode(s));
    HexLabel.Hex2aRoundTrip(s);
    assert "0x"[2..] == [];
  }

  /** The sub-label `0x414243` decodes to "ABC". */
  lemma DecodeLabelExample()
    ensures DecodeLabel(Some("0x414243")) == Ok(Some("ABC"))
  {
    assert "0x414243"[2..] == "414243";
    HexLabel.Hex2aExample();
  }

  // ---------------------------------------------------------------------
  // Judgements

  predicate IsGood(s: JudgementStatus)
  {
    s.Reasonable? || s.KnownGood?
  }

  /**
   * `verified`: set from each judgement in turn, so the last one decides;
   * `undefined` when there is none. A true verdict needs some good
   * judgement and a false one some judgement that is not good.
   */
  function Verdict(judgements: seq<Judgement>): (r: Option<bool>)
    ensures r.None? <==> judgements == []
    ensures r == Some(true) ==> AnyGood(judgements)
    ensures r == Some(false) ==> exists i :: 0 <= i < |judgements| && !IsGood(judgements[i].status)
  {
    if judgements == [] then None else Some(IsGood(judgements[|judgements| - 1].status))
  }

  /** The judgement loop, which overwrites `verified` on every judgement. */
  method ScanJudgements(judgements: seq<Judgement>) returns (verified: Option<bool>)
    ensures verified == Verdict(judgements)
  {
    verified := None;
    for k := 0 to |judgements|
      invariant verified == Verdict(judgements[..k])
    {
      verified := Some(IsGood(judgements[k].status));
    }
    assert judgements[..|judgements|] == judgements;
  }

  /** Some judgement in the list is "reasonable" or "known good". */
  predicate AnyGood(judgements: seq<Judgement>)
  {
    exists i :: 0 <= i < |judgements| && IsGood(judgements[i].status)
  }

  /**
   * Last-wins is not "any good judgement": a true verdict implies some good
   * judgement, but a good judgement followed by a bad one yields false, and
   * no judgement at all yields `undefined`, which is falsy.
   */
  lemma VerdictIsLastNotAny(judgements: seq<Judgement>)
    ensures Verdict(judgements) == Some(true) ==> AnyGood(judgements)
    ensures Verdict([]) == None
    ensures var js := [Judgement(0, KnownGood), Judgement(1, Erroneous)];
      AnyGood(js) && Verdict(js) == Some(false)
  {
    if Verdict(judgements) == Some(true) {
      assert IsGood(judgements[|judgements| - 1].status);
    }
    var js := [Judgement(0, KnownGood), Judgement(1, Erroneous)];
    assert IsGood(js[0].status);
  }

  // ---------------------------------------------------------------------
  // getIdentity

  /** The identity built from a registration: decoded display name, verdict and the given sub-label. */
  function Described(rec: Registration, sub: Option<string>): Result<OnChainIdentity>
  {
    match DecodeLabel(rec.displayRaw)
    case Err(e) => Err(e)
    case Ok(name) => Ok(OnChainIdentity(name, Verdict(rec.judgements), sub))
  }

  /**
   * `getIdentity(addr)`: the account's own registration if it has one;
   * otherwise, through `superOf`, the parent's registration together with
   * the decoded sub-label; with neither, the address itself, unverified.
   * A parent without a registration makes the source read a property of
   * `null`, which throws.
   */
  function GetIdentity(addr: string, reg: Registry): (r: Result<OnChainIdentity>)
    ensures addr !in reg.identityOf && addr !in reg.superOf ==>
              r == Ok(OnChainIdentity(Some(addr), Some(false), None))
    ensures addr in reg.identityOf ==>
              (r.Err? <==> DecodeLabel(reg.identityOf[addr].displayRaw).Err?)
    ensures addr in reg.identityOf && r.Ok? ==>
              && DecodeLabel(reg.identityOf[addr].displayRaw) == Ok(r.value.name)
              && r.value.sub.None? && r.value.verified == Verdict(reg.identityOf[addr].judgements)
    ensures addr !in reg.identityOf && addr in reg.superOf ==>
              var link := reg.superOf[addr];
              (r.Err? <==> || DecodeLabel(link.subRaw).Err?
                           || link.superAddress !in reg.identityOf
                           || DecodeLabel(reg.identityOf[link.superAddress].displayRaw).Err?)
    ensures addr !in reg.identityOf && addr in reg.superOf && r.Ok? ==>
              var link := reg.superOf[addr];
              && link.superAddress in reg.identityOf
              && DecodeLabel(link.subRaw) == Ok(r.value.sub)
              && DecodeLabel(reg.identityOf[link.superAddress].displayRaw) == Ok(r.value.name)
              && r.value.verified == Verdict(reg.identityOf[link.superAddress].judgements)
  {
    if addr in reg.identityOf then Described(reg.identityOf[addr], None)
    else if addr !in reg.superOf then Ok(OnChainIdentity(Some(addr), Some(false), None))
    else
      var link := reg.superOf[addr];
      match DecodeLabel(link.subRaw)
      case Err(e) => Err(e)
      case Ok(sub) =>
        if link.superAddress !in reg.identityOf then Err(TypeError)
        else Described(reg.identityOf[link.superAddress], sub)
  }

  // ---------------------------------------------------------------------
  // Per-target label in getNominationData

  /** Account i is the last configured account whose address is the target. */
  predicate IsLastMatch(accounts: seq<Account>, target: string, i: int)
  {
    && 0 <= i < |accounts|
    && accounts[i].address == target
    && forall j :: i < j < |accounts| ==> accounts[j].address != target
  }

  /** The override for a target: the name of the last configured account with its address. */
  function LastOverride(accounts: seq<Account>, target: string): (r: Option<string>)
    ensures r.None? <==> forall i :: 0 <= i < |accounts| ==> accounts[i].address != target
    ensures forall i :: IsLastMatch(accounts, target, i) ==> r == Some(accounts[i].name)
  {
    if accounts == [] then None
    else
      var n := |accounts| - 1;
      if accounts[n].address == target then Some(accounts[n].name)
      else
        LastMatchInPrefix(accounts, target);
        LastOverride(accounts[..n], target)
  }

  /** When the last account does not match, the last match lies in the accounts before it. */
  lemma LastMatchInPrefix(accounts: seq<Account>, target: string)
    requires accounts != [] && accounts[|accounts| - 1].address != target
    ensures forall i :: IsLastMatch(accounts, target, i) ==> IsLastMatch(accounts[..|accounts| - 1], target, i)
  {
  }

  /** Taking one more account into the scan: it wins when it matches. */
  lemma LastOverrideStep(accounts: seq<Account>, target: string, k: nat)
    requires k < |accounts|
    ensures LastOverride(accounts[..k + 1], target) ==
              if accounts[k].address == target then Some(accounts[k].name) else LastOverride(accounts[..k], target)
  {
    assert accounts[..k + 1][..k] == accounts[..k];
  }

  /** The override scan, which overwrites `identity` on every matching account. */
  method ScanOverrides(accounts: seq<Account>, target: string) returns (identity: Option<string>)
    ensures identity == LastOverride(accounts, target)
  {
    identity := None;
    for k := 0 to |accounts|
      invariant identity == LastOverride(accounts[..k], target)
    {
      LastOverrideStep(accounts, target, k);
      if accounts[k].address == target {
        identity := Some(accounts[k].name);
      }
    }
    assert accounts[..|accounts|] == accounts;
  }

  /**
   * The label of one nomination target: a truthy override name wins without
   * any chain query; otherwise the on-chain identity, shown as the address
   * when its name is the address, else `name`, or `name / sub` when the
   * sub-label is truthy. Only the chain lookup can throw.
   */
  function TargetLabel(accounts: seq<Account>, reg: Registry, target: string): (r: Result<Option<string>>)
    ensures r.Err? <==> !Truthy(LastOverride(accounts, target)) && GetIdentity(target, reg).Err?
    ensures Truthy(LastOverride(accounts, target)) ==> r == Ok(LastOverride(accounts, target))
  {
    var override := LastOverride(accounts, target);
    if Truthy(override) then Ok(override)
    else match GetIdentity(target, reg)
      case Err(e) => Err(e)
      case Ok(id) =>
        if id.name == Some(target) then Ok(Some(target))
        else if Truthy(id.sub) then Ok(Some(Render(id.name) + " / " + id.sub.value))
        else Ok(id.name)
  }

  /** A non-empty override name is the label whatever the chain holds: no chain query decides it. */
  lemma OverrideShortCircuits(accounts: seq<Account>, reg: Registry, target: string, i: int)
    requires IsLastMatch(accounts, target, i) && accounts[i].name != []
    ensures TargetLabel(accounts, reg, target) == Ok(Some(accounts[i].name))
  {
  }

  /** Without a truthy override, identity or super identity, the label is the address itself. */
  lemma UnregisteredLabel(accounts: seq<Account>, reg: Registry, target: string)
    requires forall i :: IsLastMatch(accounts, target, i) ==> accounts[i].name == []
    requires target !in reg.identityOf && target !in reg.superOf
    ensures TargetLabel(accounts, reg, target) == Ok(Some(target))
  {
    if LastOverride(accounts, target).Some? {
      var i :| 0 <= i < |accounts| && accounts[i].address == target;
      var last := LastMatchExists(accounts, target, i);
    }
  }

  /** A target that some account matches has a last matching account. */
  lemma {:induction false} LastMatchExists(accounts: seq<Account>, target: string, i: int) returns (last: int)
    requires 0 <= i < |accounts| && accounts[i].address == target
    ensures IsLastMatch(accounts, target, last) && i <= last
    decreases |accounts| - i
  {
    if j :| i < j < |accounts| && accounts[j].address == target {
      last := LastMatchExists(accounts, target, j);
    } else {
      last := i;
    }
  }

  /**
   * A sub-account whose parent is registered is labelled `name / sub` with
   * the parent's decoded display name, when the decoded sub-label is
   * non-empty; a parent name equal to the address is shown as the address
   * alone, since that test comes first.
   */
  lemma SubIdentityLabel(accounts: seq<Account>, reg: Registry, target: string, name: Option<string>, sub: string)
    requires !Truthy(LastOverride(accounts, target))
    requires target !in reg.identityOf && target in reg.superOf
    requires reg.superOf[target].superAddress in reg.identityOf
    requires DecodeLabel(reg.superOf[target].subRaw) == Ok(Some(sub)) && sub != []
    requires DecodeLabel(reg.identityOf[reg.superOf[target].superAddress].displayRaw) == Ok(name)
    ensures TargetLabel(accounts, reg, target) ==
              Ok(if name == Some(target) then Some(target) else Some(Render(name) + " / " + sub))
  {
  }

  /**
   * A sub-account whose sub-label is empty or undefined is labelled
   * with the parent's decoded display name alone (the address when the two
   * coincide).
   */
  lemma ParentNameLabel(accounts: seq<Account>, reg: Registry, target: string, name: Option<string>)
    requires !Truthy(LastOverride(accounts, target))
    requires target !in reg.identityOf && target in reg.superOf
    requires reg.superOf[target].superAddress in reg.identityOf
    requires !Truthy(reg.superOf[target].subRaw)
    requires DecodeLabel(reg.identityOf[reg.superOf[target].superAddress].displayRaw) == Ok(name)
    ensures TargetLabel(accounts, reg, target) == Ok(if name == Some(target) then Some(target) else name)
  {
  }

  /** A directly registered target is labelled with its decoded display name alone. */
  lemma DirectIdentityLabel(accounts: seq<Account>, reg: Registry, target: string, name: Option<string>)
    requires !Truthy(LastOverride(accounts, target))
    requires target in reg.identityOf
    requires DecodeLabel(reg.identityOf[target].displayRaw) == Ok(name)
    ensures TargetLabel(accounts, reg, target) == Ok(if name == Some(target) then Some(target) else name)
  {
  }

  // ---------------------------------------------------------------------
  // getNominationData

  /**
   * The labels of all targets, in target order; the `Promise.all` over the
   * targets rejects when any single resolution throws.
   */
  function ResolveTargets(targets: seq<string>, accounts: seq<Account>, reg: Registry): (r: Result<seq<Target>>)
    ensures r.Ok? <==> forall i :: 0 <= i < |targets| ==> TargetLabel(accounts, reg, targets[i]).Ok?
    ensures r.Ok? ==> |r.value| == |targets|
    ensures r.Ok? ==> forall i :: 0 <= i < |targets| ==>
              r.value[i] == Target(targets[i], TargetLabel(accounts, reg, targets[i]).value)
  {
    if targets == [] then Ok([])
    else match TargetLabel(accounts, reg, targets[0])
      case Err(e) => Err(e)
      case Ok(shown) =>
        match ResolveTargets(targets[1..], accounts, reg)
        case Err(e) => Err(e)
        case Ok(rest) => Ok([Target(targets[0], shown)] + rest)
  }

  /**
   * `getNominationData`: no nominations gives no targets and era 0 without
   * any identity query; otherwise the era the nominations were submitted
   * in and the resolved targets.
   */
  function NominationData(nominations: Option<Nominations>, accounts: seq<Account>, reg: Registry)
    : (r: Result<NominationRecord>)
    ensures nominations.None? ==> r == Ok(NominationRecord([], 0))
    ensures nominations.Some? ==>
              (r.Ok? <==> ResolveTargets(nominations.value.targets, accounts, reg).Ok?)
    ensures nominations.Some? && r.Ok? ==>
              r.value.era == nominations.value.submittedIn
              && |r.value.targets| == |nominations.value.targets|
              && forall i :: 0 <= i < |r.value.targets| ==>
                   && r.value.targets[i].address == nominations.value.targets[i]
                   && TargetLabel(accounts, reg, nominations.value.targets[i]) == Ok(r.value.targets[i].identity)
  {
    match nominations
    case None => Ok(NominationRecord([], 0))
    case Some(n) =>
      match ResolveTargets(n.targets, accounts, reg)
      case Err(e) => Err(e)
      case Ok(targets) => Ok(NominationRecord(targets, n.submittedIn))
  }
}
