/**
 * The short account name used in report file names:
 * `name.split(' ').map(item => /^-?\d+$/.test(item) ? item : item[0]).join('')`.
 */
module Abbreviation {
  import opened Js

  /** `s.split(' ')`: the pieces between single spaces, empty pieces included. */
  function Split(s: string): (r: seq<string>)
    ensures |r| >= 1
    ensures forall i :: 0 <= i < |r| ==> ' ' !in r[i]
    ensures Join(r, " ") == s
  {
    if s == [] then [[]]
    else
      var rest := Split(s[1..]);
      if s[0] == ' ' then
        assert ([[]] + rest)[1..] == rest;
        [[]] + rest
      else
        var r := [[s[0]] + rest[0]] + rest[1..];
        assert |rest| > 1 ==> r[1..] == rest[1..] && Join(rest, " ") == rest[0] + " " + Join(rest[1..], " ");
        r
  }

  predicate IsDigit(c: char)
  {
    '0' <= c <= '9'
  }

  /** The test `/^-?\d+$/`: an optional minus sign and then one or more decimal digits. */
  predicate IsWholeNumber(t: string)
  {
    if |t| > 0 && t[0] == '-' then AllDigits(t[1..]) else AllDigits(t)
  }

  predicate AllDigits(d: string)
  {
    |d| > 0 && forall i :: 0 <= i < |d| ==> IsDigit(d[i])
  }

  /**
   * A whole number is kept; any other token is cut to its first character.
   * `item[0]` of the empty token is `undefined`, which `join` writes as
   * nothing.
   */
  function AbbreviateToken(t: string): (r: string)
    ensures IsWholeNumber(t) ==> r == t
    ensures !IsWholeNumber(t) ==> r == (if t == [] then [] else [t[0]])
  {
    if IsWholeNumber(t) then t else if t == [] then [] else [t[0]]
  }

  function AbbreviateAll(tokens: seq<string>): (r: seq<string>)
    ensures |r| == |tokens|
  {
    seq(|tokens|, i requires 0 <= i < |tokens| => AbbreviateToken(tokens[i]))
  }

  /** `nameAbbreviation`; a name without spaces is a single token. */
  function NameAbbreviation(name: string): (r: string)
    ensures ' ' !in name ==> r == AbbreviateToken(name)
  {
    SplitToken(name);
    Join(AbbreviateAll(Split(name)), "")
  }

  // ---------------------------------------------------------------------
  // Proofs

  lemma {:induction false} JoinNothingAppend(a: seq<string>, b: seq<string>)
    ensures Join(a + b, "") == Join(a, "") + Join(b, "")
  {
    if a == [] {
      assert a + b == b;
    } else if b == [] {
      assert a + b == a;
    } else if |a| == 1 {
      assert (a + b)[1..] == b;
    } else {
      assert (a + b)[1..] == a[1..] + b;
      JoinNothingAppend(a[1..], b);
    }
  }

  /** Splitting at a space splits the token lists. */
  lemma {:induction false} SplitAppend(a: string, b: string)
    ensures Split(a + " " + b) == Split(a) + Split(b)
  {
    if a == [] {
      assert a + " " + b == [' '] + b;
      assert ([' '] + b)[1..] == b;
    } else {
      var s := a + " " + b;
      assert s[0] == a[0] && s[1..] == a[1..] + " " + b;
      SplitAppend(a[1..], b);
    }
  }

  /** Joining space-free tokens with spaces and splitting again gives the tokens back. */
  lemma {:induction false} SplitJoin(tokens: seq<string>)
    requires tokens != []
    requires forall i :: 0 <= i < |tokens| ==> ' ' !in tokens[i]
    ensures Split(Join(tokens, " ")) == tokens
  {
    if |tokens| == 1 {
      SplitToken(tokens[0]);
    } else {
      SplitJoin(tokens[1..]);
      SplitAppend(tokens[0], Join(tokens[1..], " "));
      SplitToken(tokens[0]);
    }
  }

  lemma {:induction false} SplitToken(t: string)
    ensures ' ' !in t ==> Split(t) == [t]
  {
    if t != [] && ' ' !in t {
      assert ' ' !in t[1..];
      SplitToken(t[1..]);
    }
  }

  /**
   * The abbreviation of a name is made token by token: that of the first
   * part, then that of the part after the space.
   */
  lemma NameAbbreviationAppend(a: string, b: string)
    ensures NameAbbreviation(a + " " + b) == NameAbbreviation(a) + NameAbbreviation(b)
  {
    SplitAppend(a, b);
    var ta, tb := Split(a), Split(b);
    AbbreviateAllAppend(ta, tb);
    JoinNothingAppend(AbbreviateAll(ta), AbbreviateAll(tb));
  }

  lemma AbbreviateAllAppend(ta: seq<string>, tb: seq<string>)
    ensures AbbreviateAll(ta + tb) == AbbreviateAll(ta) + AbbreviateAll(tb)
  {
    var l, r := AbbreviateAll(ta + tb), AbbreviateAll(ta) + AbbreviateAll(tb);
    forall i | 0 <= i < |l| ensures l[i] == r[i] {
      if i < |ta| {
        assert (ta + tb)[i] == ta[i];
      } else {
        assert (ta + tb)[i] == tb[i - |ta|];
      }
    }
  }

  /** The abbreviation of space-separated tokens is the tokens' abbreviations, concatenated. */
  lemma NameAbbreviationOfTokens(tokens: seq<string>)
    requires tokens != []
    requires forall i :: 0 <= i < |tokens| ==> ' ' !in tokens[i]
    ensures NameAbbreviation(Join(tokens, " ")) == Join(AbbreviateAll(tokens), "")
  {
    SplitJoin(tokens);
  }

  lemma FirstLetter(t: string)
    requires |t| > 0 && 'A' <= t[0] <= 'Z'
    ensures AbbreviateToken(t) == [t[0]]
  {
    assert !AllDigits(t) by {
      assert !IsDigit(t[0]);
    }
  }

  lemma ExampleTokens()
    ensures AbbreviateAll(["Big", "Bag", "Holder", "Stash", "223"]) == ["B", "B", "H", "S", "223"]
  {
    var tokens := ["Big", "Bag", "Holder", "Stash", "223"];
    var number := "223";
    assert AllDigits(number) by {
      assert number[0] == '2' && number[1] == '2' && number[2] == '3';
    }
    FirstLetter("Big");
    FirstLetter("Bag");
    FirstLetter("Holder");
    FirstLetter("Stash");
    var abbreviated := AbbreviateAll(tokens);
    assert abbreviated[0] == AbbreviateToken(tokens[0]);
    assert abbreviated[1] == AbbreviateToken(tokens[1]);
    assert abbreviated[2] == AbbreviateToken(tokens[2]);
    assert abbreviated[3] == AbbreviateToken(tokens[3]);
    assert abbreviated[4] == AbbreviateToken(tokens[4]);
  }

  lemma ExampleNameJoin()
    ensures Join(["Big", "Bag", "Holder", "Stash", "223"], " ") == "Big Bag Holder Stash 223"
  {
  }

  lemma ExampleAbbreviationJoin()
    ensures Join(["B", "B", "H", "S", "223"], "") == "BBHS223"
  {
  }

  /** "Big Bag Holder Stash 223" becomes "BBHS223". */
  lemma NameAbbreviationExample()
    ensures NameAbbreviation("Big Bag Holder Stash 223") == "BBHS223"
  {
    var tokens := ["Big", "Bag", "Holder", "Stash", "223"];
    ExampleNameJoin();
    assert forall i :: 0 <= i < |tokens| ==> ' ' !in tokens[i];
    NameAbbreviationOfTokens(tokens);
    ExampleTokens();
    ExampleAbbreviationJoin();
  }
}
