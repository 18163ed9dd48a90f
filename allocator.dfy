/**
 * The index allocation rule shared by the REST client (__make_another_index)
 * and the database client (create_new_index): the least index at or above a
 * start value that is neither used by the record nor reserved for another
 * special type. Index 1 is reserved for URL and 100..199 for HS_ADMIN.
 */
module IndexAllocator {
  import opened HandleRecord

  /** Where the search begins: 1 for a URL, else 100 for HS_ADMIN, else 2. */
  function Start(url: bool, hsAdmin: bool): int
  {
    if url then 1 else if hsAdmin then 100 else 2
  }

  /** k is reserved for a special type other than the one being allocated. */
  predicate Reserved(k: int, url: bool, hsAdmin: bool)
  {
    (k == 1 && !url) || (100 <= k < 200 && (url || !hsAdmin))
  }

  /** The largest reserved index still prohibited in this mode. */
  function ReservedMax(url: bool, hsAdmin: bool): (m: int)
    ensures Reserved(m, url, hsAdmin)
    ensures forall k :: Reserved(k, url, hsAdmin) ==> k <= m
  {
    if !url && hsAdmin then 1 else 199
  }

  /** k may not be handed out: it is used, or reserved. */
  predicate Prohibited(k: int, used: seq<int>, url: bool, hsAdmin: bool)
  {
    k in used || Reserved(k, url, hsAdmin)
  }

  /** The maximum of d and the elements of xs. */
  function MaxOf(xs: seq<int>, d: int): (m: int)
    ensures m >= d && forall i :: 0 <= i < |xs| ==> xs[i] <= m
    ensures m == d || m in xs
  {
    if xs == [] then d
    else
      var m' := MaxOf(xs[1..], d);
      if xs[0] > m' then xs[0] else m'
  }

  lemma {:induction false} MaxOfSnoc(xs: seq<int>, x: int, d: int)
    ensures MaxOf(xs + [x], d) == (if x > MaxOf(xs, d) then x else MaxOf(xs, d))
  {
    if xs == [] {
      assert [x][1..] == [];
    } else {
      assert (xs + [x])[1..] == xs[1..] + [x];
      MaxOfSnoc(xs[1..], x, d);
    }
  }

  /** max(start, max(used ∪ reserved)) + 2, the exclusive bound of the search. */
  function SearchMax(used: seq<int>, url: bool, hsAdmin: bool): int
  {
    var top := MaxOf(used, ReservedMax(url, hsAdmin));
    (if Start(url, hsAdmin) > top then Start(url, hsAdmin) else top) + 2
  }

  /** Every index above all used and reserved indices is free. */
  lemma AboveMaxIsFree(used: seq<int>, url: bool, hsAdmin: bool, k: int)
    requires k > MaxOf(used, ReservedMax(url, hsAdmin))
    ensures !Prohibited(k, used, url, hsAdmin)
  {
    assert forall i :: 0 <= i < |used| ==> used[i] < k;
  }

  /** set(range(lo, hi)). */
  function RangeSet(lo: int, hi: int): (r: set<int>)
    ensures forall k :: k in r <==> lo <= k < hi
    decreases hi - lo
  {
    if lo >= hi then {} else {lo} + RangeSet(lo + 1, hi)
  }

  /** The scan of range(k, searchmax), with everything before k already known to be prohibited. */
  function Scan(used: seq<int>, url: bool, hsAdmin: bool, k: int): (r: int)
    requires Start(url, hsAdmin) <= k < SearchMax(used, url, hsAdmin)
    requires forall j :: Start(url, hsAdmin) <= j < k ==> Prohibited(j, used, url, hsAdmin)
    ensures k <= r < SearchMax(used, url, hsAdmin)
    ensures !Prohibited(r, used, url, hsAdmin)
    ensures forall j :: Start(url, hsAdmin) <= j < r ==> Prohibited(j, used, url, hsAdmin)
    decreases SearchMax(used, url, hsAdmin) - k
  {
    if !Prohibited(k, used, url, hsAdmin) then k
    else
      assert k + 1 < SearchMax(used, url, hsAdmin) by {
        if k + 1 >= SearchMax(used, url, hsAdmin) {
          AboveMaxIsFree(used, url, hsAdmin, k);
        }
      }
      Scan(used, url, hsAdmin, k + 1)
  }

  /**
   * The index __make_another_index returns for a record whose indices are
   * used: found before searchmax, free, and the least free one from start on.
   */
  function NextIndex(used: seq<int>, url: bool, hsAdmin: bool): (r: int)
    ensures Start(url, hsAdmin) <= r < SearchMax(used, url, hsAdmin)
    ensures r !in used && !Reserved(r, url, hsAdmin)
    ensures forall k :: Start(url, hsAdmin) <= k < r ==> Prohibited(k, used, url, hsAdmin)
  {
    assert Start(url, hsAdmin) < SearchMax(used, url, hsAdmin);
    Scan(used, url, hsAdmin, Start(url, hsAdmin))
  }

  /** NextIndex is THE least free index from start on: any other such index equals it. */
  lemma NextIndexUnique(used: seq<int>, url: bool, hsAdmin: bool, r: int)
    requires r >= Start(url, hsAdmin) && !Prohibited(r, used, url, hsAdmin)
    requires forall k :: Start(url, hsAdmin) <= k < r ==> Prohibited(k, used, url, hsAdmin)
    ensures r == NextIndex(used, url, hsAdmin)
  {
    var n := NextIndex(used, url, hsAdmin);
    assert n < r ==> Prohibited(n, used, url, hsAdmin);
    assert r < n ==> Prohibited(r, used, url, hsAdmin);
  }

  /** The default mode never hands out 1 or 100..199, and never anything below 2. */
  lemma DefaultModeAvoidsReserved(used: seq<int>)
    ensures var r := NextIndex(used, false, false); r >= 2 && !(100 <= r < 200)
  {
  }

  /** The URL mode never hands out 100..199, and gives 1 whenever 1 is free. */
  lemma UrlModeAvoidsAdminRange(used: seq<int>)
    ensures var r := NextIndex(used, true, false); r >= 1 && !(100 <= r < 200)
    ensures 1 !in used ==> NextIndex(used, true, false) == 1
  {
    if 1 !in used {
      NextIndexUnique(used, true, false, 1);
    }
  }

  /** url wins over hs_admin: passing both is the URL mode. */
  lemma UrlWinsOverAdmin(used: seq<int>)
    ensures NextIndex(used, true, true) == NextIndex(used, true, false)
  {
    var r := NextIndex(used, true, true);
    forall k | 1 <= k < r
      ensures Prohibited(k, used, true, false)
    {
      assert Prohibited(k, used, true, true);
    }
    NextIndexUnique(used, true, false, r);
  }

  /** The HS_ADMIN mode hands out the least unused index from 100 on, so 100 itself whenever it is free. */
  lemma AdminModeFromHundred(used: seq<int>)
    ensures NextIndex(used, false, true) >= 100
    ensures 100 !in used ==> NextIndex(used, false, true) == 100
    ensures forall k :: 100 <= k < NextIndex(used, false, true) ==> k in used
  {
    forall k | 100 <= k < NextIndex(used, false, true)
      ensures k in used
    {
      assert Prohibited(k, used, false, true) && !Reserved(k, false, true);
    }
    if 100 !in used {
      NextIndexUnique(used, false, true, 100);
    }
  }

  /** On a record without entries: url gives 1, hs_admin gives 100, the default gives 2. */
  lemma EmptyRecordIndices()
    ensures NextIndex([], true, false) == 1
    ensures NextIndex([], false, true) == 100
    ensures NextIndex([], false, false) == 2
  {
    NextIndexUnique([], true, false, 1);
    NextIndexUnique([], false, true, 100);
    NextIndexUnique([], false, false, 2);
  }

  /** The same indices, in any order or multiplicity, give the same index. */
  lemma NextIndexDependsOnSetOnly(a: seq<int>, b: seq<int>, url: bool, hsAdmin: bool)
    requires forall k :: k in a <==> k in b
    ensures NextIndex(a, url, hsAdmin) == NextIndex(b, url, hsAdmin)
  {
    var r := NextIndex(a, url, hsAdmin);
    forall k | Start(url, hsAdmin) <= k < r
      ensures Prohibited(k, b, url, hsAdmin)
    {
      assert Prohibited(k, a, url, hsAdmin);
    }
    NextIndexUnique(b, url, hsAdmin, r);
  }

  /** The start value and the reserved indices still prohibited, as both allocators set them up. */
  method StartAndReserved(url: bool, hsAdmin: bool) returns (start: int, prohibited: set<int>)
    ensures start == Start(url, hsAdmin)
    ensures forall k :: k in prohibited <==> Reserved(k, url, hsAdmin)
  {
    start := 2;
    var reservedForUrl: set<int> := {1};
    var reservedForAdmin: set<int> := RangeSet(100, 200);
    prohibited := reservedForUrl + reservedForAdmin;
    if url {
      prohibited := prohibited - reservedForUrl;
      start := 1;
    } else if hsAdmin {
      prohibited := prohibited - reservedForAdmin;
      start := 100;
    }
  }

  /**
   * __make_another_index over a list of entries: collect the used indices
   * into a set, then scan range(start, searchmax) for the first one that is
   * not prohibited.
   */
  method MakeAnotherIndex(entries: seq<Entry>, url: bool, hsAdmin: bool) returns (index: int)
    ensures index == NextIndex(Indices(entries), url, hsAdmin)
  {
    var start, prohibited := StartAndReserved(url, hsAdmin);
    var existing, top := CollectUsed(entries, ReservedMax(url, hsAdmin));
    var all := existing + prohibited;
    var searchmax := (if start > top then start else top) + 2;
    index := FirstFree(all, start, searchmax, Indices(entries), url, hsAdmin);
  }

  /** The first loop of __make_another_index: the set of indices in use and the largest of them and the reserved ones. */
  method CollectUsed(entries: seq<Entry>, reservedMax: int) returns (existing: set<int>, top: int)
    ensures forall k :: k in existing <==> k in Indices(entries)
    ensures top == MaxOf(Indices(entries), reservedMax)
  {
    ghost var used := Indices(entries);
    existing := {};
    top := reservedMax;
    var i := 0;
    while i < |entries|
      invariant 0 <= i <= |entries|
      invariant forall k :: k in existing <==> k in used[..i]
      invariant top == MaxOf(used[..i], reservedMax)
    {
      assert used[..i + 1] == used[..i] + [entries[i].index];
      MaxOfSnoc(used[..i], entries[i].index, reservedMax);
      existing := existing + {entries[i].index};
      top := if entries[i].index > top then entries[i].index else top;
      i := i + 1;
    }
    assert used[..i] == used;
  }

  /**
   * The search loop of __make_another_index and of create_new_index:
   * for index in range(start, searchmax), the first one not in the set of
   * prohibited indices. The loop always returns; falling off its end (which
   * would return None) cannot happen.
   */
  method FirstFree(all: set<int>, start: int, searchmax: int, ghost used: seq<int>, url: bool, hsAdmin: bool) returns (index: int)
    requires start == Start(url, hsAdmin) && searchmax == SearchMax(used, url, hsAdmin)
    requires forall k :: k in all <==> Prohibited(k, used, url, hsAdmin)
    ensures index == NextIndex(used, url, hsAdmin)
  {
    index := start;
    while index < searchmax
      invariant start <= index < searchmax
      invariant forall k :: start <= k < index ==> Prohibited(k, used, url, hsAdmin)
      decreases searchmax - index
    {
      if index !in all {
        NextIndexUnique(used, url, hsAdmin, index);
        return;
      }
      if index + 1 == searchmax {
        AboveMaxIsFree(used, url, hsAdmin, index);
      }
      index := index + 1;
    }
    assert false;
  }
}
