/** The statistics route (`GET /api/stats`) and its cache: a snapshot of
    the record store that is computed on the first request, handed out
    unchanged afterwards, and dropped whenever the store file changes. */
module Stats {
  import opened Wrappers
  import opened Items

  /** The cached aggregate. The response's `averagePrice` is
      `priceSum / total`; the pair is kept instead of the quotient. */
  datatype Snapshot = Snapshot(total: nat, priceSum: int)

  /** The store file could not be read or did not parse. */
  datatype ReadError = ReadError

  /** `items.reduce((acc, cur) => acc + cur.price, 0)`, folding from the
      left. */
  function SumPrices(items: seq<Item>): (r: int)
    ensures (forall i :: 0 <= i < |items| ==> items[i].price >= 0) ==> r >= 0
  {
    if items == [] then 0 else SumPrices(items[..|items| - 1]) + items[|items| - 1].price
  }

  /** The sum of a concatenation is the sum of the parts. */
  lemma {:induction false} SumPricesAppend(a: seq<Item>, b: seq<Item>)
    ensures SumPrices(a + b) == SumPrices(a) + SumPrices(b)
  {
    if b == [] {
      assert a + b == a;
    } else {
      assert (a + b)[..|a + b| - 1] == a + b[..|b| - 1];
      SumPricesAppend(a, b[..|b| - 1]);
    }
  }

  /** When every price lies in [lo, hi], so does the average: the sum lies
      between `total * lo` and `total * hi`. */
  lemma {:induction false} SumPricesBounds(items: seq<Item>, lo: int, hi: int)
    requires forall i :: 0 <= i < |items| ==> lo <= items[i].price <= hi
    ensures |items| * lo <= SumPrices(items) <= |items| * hi
  {
    if items != [] {
      var init := items[..|items| - 1];
      assert forall i :: 0 <= i < |init| ==> init[i] == items[i];
      SumPricesBounds(init, lo, hi);
      assert |items| * lo == |init| * lo + lo;
      assert |items| * hi == |init| * hi + hi;
    }
  }

  /** The snapshot the handler computes from the records it read: it
      counts every record, and an empty store gives (0, 0), the case where
      the handler's average is NaN. */
  function Compute(items: seq<Item>): (s: Snapshot)
    ensures s.total == |items|
    ensures s.total == 0 ==> s.priceSum == 0
  {
    Snapshot(|items|, SumPrices(items))
  }

  /** Appending one record (what creation does) moves a freshly computed
      snapshot by exactly that record. */
  lemma ComputeAfterAppend(store: seq<Item>, created: Item)
    ensures Compute(store + [created]).total == Compute(store).total + 1
    ensures Compute(store + [created]).priceSum == Compute(store).priceSum + created.price
  {
    SumPricesAppend(store, [created]);
    assert [created][..0] == [];
  }

  /** The module-level `cachedStats` variable: None is `null`. */
  class StatsCache {
    var cached: Option<Snapshot>

    /** The cache starts empty. */
    constructor ()
      ensures cached == None
    {
      cached := None;
    }

    /** The request handler. `read` is what reading and parsing the store
        file gives at the time of the request; it is consulted only when
        the cache is empty. A failed read leaves the cache empty. */
    method Get(read: Result<seq<Item>, ReadError>) returns (r: Result<Snapshot, ReadError>)
      modifies this
      ensures old(cached).Some? ==> r == Success(old(cached).value) && cached == old(cached)
      ensures old(cached).None? && read.Success? ==>
                r == Success(Compute(read.value)) && cached == Some(Compute(read.value))
      ensures old(cached).None? && read.Failure? ==> r == Failure(read.error) && cached == None
      ensures r.Success? ==> cached == Some(r.value)
    {
      if cached.None? {
        match read
        case Failure(e) =>
          return Failure(e);
        case Success(items) =>
          cached := Some(Compute(items));
      }
      r := Success(cached.value);
    }

    /** The file-change notification. */
    method Invalidate()
      modifies this
      ensures cached == None
    {
      cached := None;
    }
  }

  /** Two requests with no invalidation between them give the same
      snapshot once the first succeeded, whatever the store holds by the
      second. */
  method RepeatedGetsAgree(c: StatsCache, first: Result<seq<Item>, ReadError>, second: Result<seq<Item>, ReadError>)
    returns (r1: Result<Snapshot, ReadError>, r2: Result<Snapshot, ReadError>)
    modifies c
    ensures r1.Success? ==> r2 == r1
    ensures r1.Success? ==> c.cached == Some(r1.value)
  {
    r1 := c.Get(first);
    r2 := c.Get(second);
  }

  /** After an invalidation the next request recomputes from the store as
      it is then. */
  method GetAfterInvalidate(c: StatsCache, items: seq<Item>) returns (r: Result<Snapshot, ReadError>)
    modifies c
    ensures r == Success(Compute(items))
    ensures c.cached == Some(Compute(items))
  {
    c.Invalidate();
    r := c.Get(Success(items));
  }
}
