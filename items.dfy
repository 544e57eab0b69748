/** The item routes: paginated and searchable listing (`GET /api/items`),
    lookup by id (`GET /api/items/:id`) and creation (`POST /api/items`).
    Every item handler reads the whole record store; here the store is the
    sequence of records it read. */
module Items {
  import opened Wrappers
  import opened JsString

  /** One catalogue record: the fields the handlers touch. Other fields a
      record or payload carries are not represented. */
  datatype Item = Item(id: int, name: string, price: int)

  /** The body of a successful listing response. */
  datatype PageResult = PageResult(items: seq<Item>, total: nat, page: int, totalPages: nat)

  /** The outcome of a lookup: the record, or the 404 "Item not found". */
  datatype LookupResult = Found(item: Item) | NotFound

  const DefaultPage: int := 1
  const DefaultLimit: int := 50

  function Min(a: int, b: int): int { if a <= b then a else b }
  function Max(a: int, b: int): int { if a >= b then a else b }

  // ---------------------------------------------------------------------
  // Query parameters
  // ---------------------------------------------------------------------

  /** `Math.max(parseInt(raw, 10) || default, 1)`. `raw` is the parsed
      parameter: None when it is absent or does not parse (NaN). NaN and 0
      are both falsy, so both fall back to the default. */
  function NormalizeParam(raw: Option<int>, default: int): (n: int)
    requires default >= 1
    ensures n >= 1
    ensures raw == None || raw == Some(0) ==> n == default
    ensures raw.Some? && raw.value > 0 ==> n == raw.value
    ensures raw.Some? && raw.value < 0 ==> n == 1
  {
    var parsed := if raw.Some? && raw.value != 0 then raw.value else default;
    Max(parsed, 1)
  }

  // ---------------------------------------------------------------------
  // Search filter
  // ---------------------------------------------------------------------

  /** Case-insensitive substring match of the query against the name:
      the lower-cased query occurs at some offset of the lower-cased name. */
  predicate Matches(item: Item, q: string): (b: bool)
    ensures b <==> Occurs(ToLower(item.name), ToLower(q))
  {
    var name, query := ToLower(item.name), ToLower(q);
    IncludesIffOccurs(name, query);
    Includes(name, query)
  }

  /** `data.filter(item => Matches(item, q))`, scanning from the front. */
  function Select(data: seq<Item>, q: string): (r: seq<Item>)
    ensures |r| <= |data|
    ensures forall x :: x in r <==> x in data && Matches(x, q)
  {
    if data == [] then []
    else if Matches(data[0], q) then [data[0]] + Select(data[1..], q)
    else Select(data[1..], q)
  }

  /** The filtered list: an empty query is falsy and skips the filter.
      Skipping it gives the same list as filtering would, so the result is
      exactly the matching records, in store order, for every query. */
  function Filtered(data: seq<Item>, q: string): (r: seq<Item>)
    ensures r == Select(data, q)
    ensures forall x :: x in r <==> x in data && Matches(x, q)
  {
    if q == "" then
      SelectEmptyQuery(data);
      data
    else Select(data, q)
  }

  /** Filtering distributes over concatenation, so it keeps the records
      that match in their original relative order. */
  lemma {:induction false} SelectAppend(a: seq<Item>, b: seq<Item>, q: string)
    ensures Select(a + b, q) == Select(a, q) + Select(b, q)
  {
    if a == [] {
      assert a + b == b;
    } else {
      assert (a + b)[0] == a[0];
      assert (a + b)[1..] == a[1..] + b;
      SelectAppend(a[1..], b, q);
    }
  }

  /** Every record matches the empty query. */
  lemma {:induction false} SelectEmptyQuery(data: seq<Item>)
    ensures Select(data, "") == data
  {
    if data != [] {
      assert ToLower("") == "";
      SelectEmptyQuery(data[1..]);
    }
  }

  /** A record named "Laptop Pro" matches the query "laptop". */
  lemma LaptopMatches(id: int, price: int)
    ensures Matches(Item(id, "Laptop Pro", price), "laptop")
  {
    var name := ToLower("Laptop Pro");
    assert name[..6] == "laptop";
    assert ToLower("laptop") == "laptop";
    assert IsPrefix("laptop", name);
  }

  // ---------------------------------------------------------------------
  // Pagination arithmetic
  // ---------------------------------------------------------------------

  /** `Math.ceil(total / limit)` on exact integers. */
  function CeilDiv(total: nat, limit: int): (r: nat)
    requires limit >= 1
    ensures (r - 1) * limit < total <= r * limit
  {
    var r := (total + limit - 1) / limit;
    assert r * limit + (total + limit - 1) % limit == total + limit - 1;
    r
  }

  /** The ceiling is zero exactly when there is nothing to paginate, and at
      most one when everything fits in one page. */
  lemma CeilDivFacts(total: nat, limit: int)
    requires limit >= 1
    ensures CeilDiv(total, limit) == 0 <==> total == 0
    ensures total <= limit ==> CeilDiv(total, limit) <= 1
  {
    var r := CeilDiv(total, limit);
    if total == 0 {
      NegativeFactor(r - 1, limit);
    }
    if total <= limit {
      assert (r - 2) * limit == (r - 1) * limit - limit;
      NegativeFactor(r - 2, limit);
    }
  }

  lemma NegativeFactor(a: int, c: int)
    requires c >= 1 && a * c < 0
    ensures a < 0
  {
  }

  /** `Math.min(pageNum, Math.max(totalPages, 1))`. */
  function ClampPage(pageNum: int, totalPages: nat): (r: int)
    requires pageNum >= 1
    ensures 1 <= r <= Max(totalPages, 1)
    ensures pageNum <= Max(totalPages, 1) ==> r == pageNum
    ensures pageNum > Max(totalPages, 1) ==> r == Max(totalPages, 1)
  {
    Min(pageNum, Max(totalPages, 1))
  }

  /** `s.slice(start, end)` for non-negative bounds: both are cut down to
      the length, and an empty range gives an empty array. */
  function Slice<T>(s: seq<T>, start: nat, end: nat): (r: seq<T>)
    ensures |r| == if start < end && start < |s| then Min(end, |s|) - start else 0
    ensures start + |r| <= |s| || r == []
    ensures forall i :: 0 <= i < |r| ==> r[i] == s[start + i]
  {
    var lo := Min(start, |s|);
    var hi := Min(end, |s|);
    if lo < hi then s[lo..hi] else []
  }

  // ---------------------------------------------------------------------
  // GET /api/items
  // ---------------------------------------------------------------------

  /** The listing handler on the store it read. */
  function List(store: seq<Item>, page: Option<int>, limit: Option<int>, q: string): (r: PageResult)
    ensures r.total == |Filtered(store, q)|
    ensures 1 <= r.page <= Max(r.totalPages, 1)
    ensures |r.items| <= NormalizeParam(limit, DefaultLimit)
    ensures 0 <= (r.page - 1) * NormalizeParam(limit, DefaultLimit)
    ensures r.items != [] ==> (r.page - 1) * NormalizeParam(limit, DefaultLimit) + |r.items| <= r.total
    ensures forall i :: 0 <= i < |r.items| ==>
              r.items[i] == Filtered(store, q)[(r.page - 1) * NormalizeParam(limit, DefaultLimit) + i]
  {
    var pageNum := NormalizeParam(page, DefaultPage);
    var limitNum := NormalizeParam(limit, DefaultLimit);
    var filtered := Filtered(store, q);
    var total := |filtered|;
    var totalPages := CeilDiv(total, limitNum);
    var safePage := ClampPage(pageNum, totalPages);
    var start := (safePage - 1) * limitNum;
    MulMonotone(0, safePage - 1, limitNum);
    var items := Slice(filtered, start, start + limitNum);
    assert |items| <= limitNum;
    PageResult(items, total, safePage, totalPages)
  }

  /** `totalPages` is the ceiling of total over the normalised limit; it is
      0, not 1, when nothing matches. */
  lemma ListTotalPages(store: seq<Item>, page: Option<int>, limit: Option<int>, q: string)
    ensures var r := List(store, page, limit, q);
            var limitNum := NormalizeParam(limit, DefaultLimit);
            (r.totalPages - 1) * limitNum < r.total <= r.totalPages * limitNum
            && (r.totalPages == 0 <==> r.total == 0)
  {
    var r := List(store, page, limit, q);
    CeilDivFacts(r.total, NormalizeParam(limit, DefaultLimit));
  }

  /** A requested page within range is served as is; one past the end is
      clamped to the last page (page 1 when nothing matches). */
  lemma ListPage(store: seq<Item>, page: Option<int>, limit: Option<int>, q: string)
    ensures var r := List(store, page, limit, q);
            var pageNum := NormalizeParam(page, DefaultPage);
            (pageNum <= Max(r.totalPages, 1) ==> r.page == pageNum)
            && (pageNum > Max(r.totalPages, 1) ==> r.page == Max(r.totalPages, 1))
  {
  }

  /** The page starts inside the filtered list (or at 0 when it is empty). */
  lemma {:induction false} ListStartInRange(store: seq<Item>, page: Option<int>, limit: Option<int>, q: string)
    ensures var r := List(store, page, limit, q);
            var start := (r.page - 1) * NormalizeParam(limit, DefaultLimit);
            0 <= start && (r.total > 0 ==> start < r.total) && (r.total == 0 ==> start == 0)
  {
    var r := List(store, page, limit, q);
    var limitNum := NormalizeParam(limit, DefaultLimit);
    CeilDivFacts(r.total, limitNum);
    if r.total > 0 {
      assert r.page <= r.totalPages;
      MulMonotone(r.page - 1, r.totalPages - 1, limitNum);
    }
  }

  lemma MulMonotone(a: nat, b: nat, c: nat)
    requires a <= b
    ensures a * c <= b * c
  {
  }

  /** The page holds `min(limit, total - start)` records, never more than
      the limit. */
  lemma ListSliceLength(store: seq<Item>, page: Option<int>, limit: Option<int>, q: string)
    ensures var r := List(store, page, limit, q);
            var limitNum := NormalizeParam(limit, DefaultLimit);
            var start := (r.page - 1) * limitNum;
            |r.items| == Min(limitNum, r.total - start) <= limitNum
  {
    ListStartInRange(store, page, limit, q);
  }

  /** When anything matches, the page is not empty, even if the requested
      page was past the end. */
  lemma ListNonEmpty(store: seq<Item>, page: Option<int>, limit: Option<int>, q: string)
    requires Filtered(store, q) != []
    ensures List(store, page, limit, q).items != []
  {
    ListSliceLength(store, page, limit, q);
    ListStartInRange(store, page, limit, q);
  }

  /** When every match fits in one page, the page is the whole filtered
      list, whatever page was requested. */
  lemma ListWholeWhenFits(store: seq<Item>, page: Option<int>, limit: Option<int>, q: string)
    requires |Filtered(store, q)| <= NormalizeParam(limit, DefaultLimit)
    ensures List(store, page, limit, q).items == Filtered(store, q)
    ensures List(store, page, limit, q).page == 1
  {
    var r := List(store, page, limit, q);
    CeilDivFacts(r.total, NormalizeParam(limit, DefaultLimit));
    ListSliceLength(store, page, limit, q);
  }

  /** With no parameters and at most 50 records, the listing is the whole
      store on page 1. */
  lemma ListDefaults(store: seq<Item>)
    requires |store| <= DefaultLimit
    ensures List(store, None, None, "") == PageResult(store, |store|, 1, if store == [] then 0 else 1)
  {
    ListWholeWhenFits(store, None, None, "");
    ListTotalPages(store, None, None, "");
    var r := List(store, None, None, "");
    assert r.total == |store|;
    assert r.totalPages == if store == [] then 0 else 1 by {
      CeilDivFacts(|store|, DefaultLimit);
    }
  }

  /** `limit=2` on a store with at least two records gives two records. */
  lemma ListLimitTwo(store: seq<Item>, q: string)
    requires |Filtered(store, q)| >= 2
    ensures |List(store, None, Some(2), q).items| == 2
  {
    ListSliceLength(store, None, Some(2), q);
  }

  /** Every match can be reached: the record at position `p * limit + i`
      of the filtered list (with `i < limit`) is served as the i-th item
      of page `p + 1`. */
  lemma ListReachesEveryMatch(store: seq<Item>, limit: Option<int>, q: string, p: nat, i: nat)
    requires i < NormalizeParam(limit, DefaultLimit)
    requires p * NormalizeParam(limit, DefaultLimit) + i < |Filtered(store, q)|
    ensures var r := List(store, Some(p + 1), limit, q);
            r.page == p + 1 && i < |r.items| &&
            r.items[i] == Filtered(store, q)[p * NormalizeParam(limit, DefaultLimit) + i]
  {
    var limitNum := NormalizeParam(limit, DefaultLimit);
    var r := List(store, Some(p + 1), limit, q);
    PageBelowCeil(p, i, r.total, limitNum);
    assert r.page == p + 1;
    ListSliceLength(store, Some(p + 1), limit, q);
  }

  /** A position below the total lies on a page below the page count. */
  lemma PageBelowCeil(p: nat, i: nat, total: nat, limit: int)
    requires limit >= 1 && p * limit + i < total
    ensures p < CeilDiv(total, limit)
  {
    var c := CeilDiv(total, limit);
    if c <= p {
      MulMonotone(c, p, limit);
    }
  }

  // ---------------------------------------------------------------------
  // GET /api/items/:id
  // ---------------------------------------------------------------------

  /** `data.find(i => i.id === id)`: the first record with that id. */
  function FindById(data: seq<Item>, id: int): (r: Option<Item>)
    ensures r.None? <==> forall j :: 0 <= j < |data| ==> data[j].id != id
    ensures r.Some? ==> exists i :: 0 <= i < |data| && data[i] == r.value && r.value.id == id &&
                          forall j :: 0 <= j < i ==> data[j].id != id
  {
    if data == [] then None
    else if data[0].id == id then Some(data[0])
    else
      var r := FindById(data[1..], id);
      assert forall j :: 1 <= j < |data| ==> data[j] == data[1..][j - 1];
      r
  }

  /** The lookup handler on the store it read. `id` is
      `parseInt(req.params.id, 10)`, None for NaN, which equals no id. */
  function Lookup(store: seq<Item>, id: Option<int>): (r: LookupResult)
    ensures r.NotFound? <==> id.None? || forall j :: 0 <= j < |store| ==> store[j].id != id.value
    ensures r.Found? ==> r.item in store && id == Some(r.item.id)
  {
    if id.None? then NotFound
    else match FindById(store, id.value)
      case Some(item) => Found(item)
      case None => NotFound
  }

  /** The lookup answers with the first record carrying the id. */
  lemma {:induction false} LookupFirst(store: seq<Item>, i: nat)
    requires i < |store|
    requires forall j :: 0 <= j < i ==> store[j].id != store[i].id
    ensures Lookup(store, Some(store[i].id)) == Found(store[i])
  {
    var r := FindById(store, store[i].id);
    var k :| 0 <= k < |store| && store[k] == r.value && r.value.id == store[i].id &&
             forall j :: 0 <= j < k ==> store[j].id != store[i].id;
    assert !(k < i) && !(i < k);
  }

  // ---------------------------------------------------------------------
  // POST /api/items
  // ---------------------------------------------------------------------

  /** The record store file: the handlers read it whole, and creation
      rewrites it whole with one more record at the end. */
  class ItemStore {
    var records: seq<Item>

    constructor (initial: seq<Item>)
      ensures records == initial
    {
      records := initial;
    }

    /** Stamps the payload with `now` (the caller's `Date.now()`), replacing
        any id it carried, appends it and returns the appended record. */
    method Create(payload: Item, now: int) returns (created: Item)
      modifies this
      ensures created == payload.(id := now)
      ensures records == old(records) + [created]
    {
      var item := payload.(id := now);
      records := records + [item];
      created := item;
    }
  }

  /** After appending `created`, a lookup of its id finds it unless an
      earlier record already had that id; every other lookup that
      succeeded before answers the same. */
  lemma {:induction false} LookupAfterAppend(store: seq<Item>, created: Item, id: int)
    ensures Lookup(store, Some(id)).Found? ==> Lookup(store + [created], Some(id)) == Lookup(store, Some(id))
    ensures Lookup(store, Some(id)).NotFound? && id == created.id ==>
              Lookup(store + [created], Some(id)) == Found(created)
    ensures Lookup(store, Some(id)).NotFound? && id != created.id ==>
              Lookup(store + [created], Some(id)).NotFound?
  {
    var s := store + [created];
    if Lookup(store, Some(id)).Found? {
      var r := FindById(store, id);
      var k :| 0 <= k < |store| && store[k] == r.value && r.value.id == id &&
               forall j :: 0 <= j < k ==> store[j].id != id;
      assert s[k] == store[k];
      LookupFirst(s, k);
    } else if id == created.id {
      assert s[|store|] == created;
      LookupFirst(s, |store|);
    } else {
      assert forall j :: 0 <= j < |s| ==> s[j].id != id by {
        forall j | 0 <= j < |s| ensures s[j].id != id {
          if j < |store| { assert s[j] == store[j]; }
        }
      }
    }
  }

  /** After appending `created`, the number of matches grows by one exactly
      when it matches the query, and the earlier matches keep their order. */
  lemma ListAfterAppend(store: seq<Item>, created: Item, q: string)
    ensures Filtered(store + [created], q) ==
              Filtered(store, q) + (if Matches(created, q) then [created] else [])
    ensures List(store + [created], None, None, q).total ==
              List(store, None, None, q).total + (if Matches(created, q) then 1 else 0)
  {
    SelectAppend(store, [created], q);
    assert Select([created], q) == (if Matches(created, q) then [created] else []) by {
      assert [created][1..] == [];
    }
  }
}
