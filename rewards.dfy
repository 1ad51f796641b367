/**
 * Reward-event retrieval and report assembly: `getRewardData`.
 *
 * The remote reward/slash listing is an oracle `pages` from page index to
 * the list that page returns; a page that is empty ends the pagination.
 * The historical chain state is an oracle `chain` from block number to the
 * account's free and bonded amounts at that block.
 */
module Rewards {
  import opened Js
  import MarketData

  /** The `row` parameter sent with every page request. */
  const PageSize: nat := 100

  datatype RewardEvent = RewardEvent(
    blockNum: nat,
    extrinsicHash: string,
    eventIdx: nat,
    blockTimestamp: int,  // seconds
    amount: int           // smallest unit
  )

  /** Free balance and bonded (staking ledger `active`) amount at a block, smallest unit. */
  datatype Snapshot = Snapshot(free: int, bonded: int)

  /** One line of the report: the event, its aligned market data and the chain state at its block. */
  datatype Row = Row(
    event: RewardEvent,
    price: Option<real>,
    volume: Option<real>,
    balance: int,
    bonded: int
  )

  /** The body of one request to the listing: `{row, page, address}`. */
  datatype PageRequest = PageRequest(row: nat, page: nat, address: string)

  /** Pages 0 .. n-1 concatenated in order. */
  function Concat(pages: nat -> seq<RewardEvent>, n: nat): seq<RewardEvent>
  {
    if n == 0 then [] else Concat(pages, n - 1) + pages(n - 1)
  }

  /**
   * The pagination loop. Every request is logged in `requests`: the pages
   * asked for are 0, 1, 2, ... in order, the last one asked for is the first
   * empty page, and `all` holds every earlier page, concatenated in order.
   * The loop ends only because some page is empty.
   */
  method FetchAll(address: string, pages: nat -> seq<RewardEvent>)
    returns (all: seq<RewardEvent>, requests: seq<PageRequest>)
    requires exists k: nat :: pages(k) == []
    ensures |requests| >= 1
    ensures forall i :: 0 <= i < |requests| ==> requests[i] == PageRequest(PageSize, i, address)
    ensures pages(|requests| - 1) == []
    ensures forall p :: 0 <= p < |requests| - 1 ==> pages(p) != []
    ensures all == Concat(pages, |requests| - 1)
  {
    ghost var empty: nat :| pages(empty) == [];
    var page: nat := 0;
    var shouldContinue := true;
    all := [];
    requests := [];
    while shouldContinue
      invariant |requests| == page + (if shouldContinue then 0 else 1)
      invariant forall i :: 0 <= i < |requests| ==> requests[i] == PageRequest(PageSize, i, address)
      invariant forall p :: 0 <= p < page ==> pages(p) != []
      invariant !shouldContinue ==> pages(page) == []
      invariant page <= empty
      invariant all == Concat(pages, page)
      decreases empty - page, shouldContinue
    {
      requests := requests + [PageRequest(PageSize, page, address)];
      var list := pages(page);
      if |list| == 0 {
        shouldContinue := false;
      } else {
        all := all + list;
        page := page + 1;
      }
    }
  }

  /**
   * The filter predicate: a positive amount and a timestamp strictly inside
   * (from, to). An event at either bound is dropped, so a window of one
   * second or less keeps nothing.
   */
  predicate Keep(e: RewardEvent, from: int, to: int): (k: bool)
    ensures e.blockTimestamp == from || e.blockTimestamp == to ==> !k
    ensures k ==> from + 1 < to && e.amount > 0
  {
    e.amount > 0 && from < e.blockTimestamp < to
  }

  /** `list.filter(Keep)`: the kept events, in their original order. */
  function Filter(events: seq<RewardEvent>, from: int, to: int): (r: seq<RewardEvent>)
    ensures |r| <= |events|
    ensures forall i :: 0 <= i < |r| ==> Keep(r[i], from, to)
  {
    if events == [] then []
    else
      var rest := Filter(events[1..], from, to);
      if Keep(events[0], from, to) then [events[0]] + rest else rest
  }

  /** Each qualifying event is kept as often as it occurs; no other event is kept. */
  lemma {:induction false} FilterCounts(events: seq<RewardEvent>, from: int, to: int, e: RewardEvent)
    ensures multiset(Filter(events, from, to))[e] == if Keep(e, from, to) then multiset(events)[e] else 0
  {
    if events != [] {
      FilterCounts(events[1..], from, to, e);
      assert events == [events[0]] + events[1..];
    }
  }

  /** Filtering commutes with concatenation, so relative order is kept across pages. */
  lemma {:induction false} FilterAppend(a: seq<RewardEvent>, b: seq<RewardEvent>, from: int, to: int)
    ensures Filter(a + b, from, to) == Filter(a, from, to) + Filter(b, from, to)
  {
    if a != [] {
      assert (a + b)[1..] == a[1..] + b;
      FilterAppend(a[1..], b, from, to);
    } else {
      assert a + b == b;
    }
  }

  /** The kept events of all fetched pages are the kept events of each page, page after page. */
  lemma {:induction false} FilterConcat(pages: nat -> seq<RewardEvent>, n: nat, from: int, to: int)
    ensures Filter(Concat(pages, n + 1), from, to) == Filter(Concat(pages, n), from, to) + Filter(pages(n), from, to)
  {
    FilterAppend(Concat(pages, n), pages(n), from, to);
  }

  /** A position k cut down to the length of `items`. */
  function Clip(k: nat, items: seq<RewardEvent>): (c: nat)
    ensures c <= |items| && c <= k
  {
    if k <= |items| then k else |items|
  }

  /**
   * The oracle behaves like the listing of `items` in pages of `size`:
   * page p holds the items from position p*size on, at most `size` of them,
   * and nothing once p*size reaches the end.
   */
  ghost predicate Paged(pages: nat -> seq<RewardEvent>, items: seq<RewardEvent>, size: nat)
  {
    && size > 0
    && forall p: nat :: pages(p) == items[Clip(p * size, items)..Clip(p * size + size, items)]
  }

  lemma NextPageStart(n: nat, size: nat)
    requires n > 0
    ensures (n - 1) * size + size == n * size
  {
  }

  lemma SliceJoin(items: seq<RewardEvent>, lo: nat, hi: nat)
    requires lo <= hi <= |items|
    ensures items[..lo] + items[lo..hi] == items[..hi]
  {
  }

  /** Page n - 1 ends where page n starts. */
  lemma ClipStep(items: seq<RewardEvent>, size: nat, n: nat)
    requires n > 0
    ensures Clip((n - 1) * size, items) <= Clip(n * size, items)
    ensures Clip((n - 1) * size + size, items) == Clip(n * size, items)
  {
    NextPageStart(n, size);
  }

  lemma {:induction false} PagedPrefix(pages: nat -> seq<RewardEvent>, items: seq<RewardEvent>, size: nat, n: nat)
    requires Paged(pages, items, size)
    ensures Concat(pages, n) == items[..Clip(n * size, items)]
  {
    if n > 0 {
      PagedPrefix(pages, items, size, n - 1);
      ClipStep(items, size, n);
      var lo, hi := Clip((n - 1) * size, items), Clip(n * size, items);
      assert pages(n - 1) == items[lo..hi];
      SliceJoin(items, lo, hi);
    }
  }

  /**
   * With a listing of N items in pages of `size`, the pagination ends at page
   * n = ceil(N / size), so n + 1 requests are made, and what it accumulates
   * is exactly the listed items.
   */
  lemma PagedFetch(pages: nat -> seq<RewardEvent>, items: seq<RewardEvent>, size: nat, n: nat)
    requires Paged(pages, items, size)
    requires pages(n) == []
    requires forall p :: 0 <= p < n ==> pages(p) != []
    ensures (n - 1) * size < |items| <= n * size
    ensures Concat(pages, n) == items
  {
    PagedPrefix(pages, items, size, n);
    assert pages(n) == items[Clip(n * size, items)..Clip(n * size + size, items)];
    if n > 0 {
      var start := (n - 1) * size;
      NextPageStart(n, size);
      assert pages(n - 1) == items[Clip(start, items)..Clip(start + size, items)];
    }
  }

  /** The report line of one kept event, given the outcomes of its two market-data lookups. */
  function RowOf(e: RewardEvent, price: seq<MarketData.Point>, volume: seq<MarketData.Point>,
                 chain: nat -> Snapshot): Row
    requires price != [] && volume != []
  {
    var snap := chain(e.blockNum);
    Row(e, MarketData.DayValue(price, e.blockTimestamp).value,
        MarketData.DayValue(volume, e.blockTimestamp).value, snap.free, snap.bonded)
  }

  /**
   * `getRewardData`: fetch every page, keep the qualifying events and
   * enrich each one, in the order of the kept events. Any lookup that throws
   * (an empty market series) rejects the whole `Promise.all`, so the result
   * is an error exactly when some event is kept and a series is empty.
   */
  method GetRewardData(address: string, pages: nat -> seq<RewardEvent>, from: int, to: int,
                       price: seq<MarketData.Point>, volume: seq<MarketData.Point>,
                       chain: nat -> Snapshot)
    returns (r: Result<seq<Row>>, requests: seq<PageRequest>)
    requires exists k: nat :: pages(k) == []
    ensures |requests| >= 1 && forall i :: 0 <= i < |requests| ==> requests[i] == PageRequest(PageSize, i, address)
    ensures pages(|requests| - 1) == [] && forall p :: 0 <= p < |requests| - 1 ==> pages(p) != []
    ensures var kept := Filter(Concat(pages, |requests| - 1), from, to);
      && (r.Err? <==> kept != [] && (price == [] || volume == []))
      && (r.Err? ==> r.error == TypeError)
      && (r.Ok? ==> |r.value| == |kept|)
      && (r.Ok? ==> forall i :: 0 <= i < |kept| ==>
            && r.value[i].event == kept[i]
            && Ok(r.value[i].price) == MarketData.DayValue(price, kept[i].blockTimestamp)
            && Ok(r.value[i].volume) == MarketData.DayValue(volume, kept[i].blockTimestamp)
            && r.value[i].balance == chain(kept[i].blockNum).free
            && r.value[i].bonded == chain(kept[i].blockNum).bonded)
  {
    var all;
    all, requests := FetchAll(address, pages);
    var kept := Filter(all, from, to);
    if kept != [] && (price == [] || volume == []) {
      return Err(TypeError), requests;
    }
    if kept == [] {
      return Ok([]), requests;
    }
    r := Ok(seq(|kept|, i requires 0 <= i < |kept| => RowOf(kept[i], price, volume, chain)));
  }
}
