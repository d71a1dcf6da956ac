/** The decision logic of the admin page (client/src/pages/AdminView.tsx):
    recalling the previous ticket, the call-specific form, the filtered and
    searched ticket list, and its pagination. */
module AdminView {
  import opened Common
  import opened Schema
  import opened Sorting

  const ItemsPerPage := 5

  function Max(a: int, b: int): (m: int) { if a >= b then a else b }
  function Min(a: int, b: int): (m: int) { if a <= b then a else b }

  // ---------------------------------------------------------------- recall previous

  /** `completedItems.reduce((prev, current) => current.number > prev.number ? current : prev)`,
      started from `acc`; ties keep the earlier item. */
  function ReduceLatest(acc: ItemView, rest: seq<ItemView>): (r: ItemView)
    ensures r == acc || r in rest
    ensures r.number >= acc.number
    ensures forall x :: x in rest ==> x.number <= r.number
    decreases |rest|
  {
    if rest == [] then acc
    else
      var r := ReduceLatest(if rest[0].number > acc.number then rest[0] else acc, rest[1..]);
      assert rest == [rest[0]] + rest[1..];
      r
  }

  predicate CompletedBelow(x: ItemView, current: int) {
    x.status == Completed && x.number < current
  }

  /** `handleCallPrevious`: the number to call again, the largest completed
      ticket below the current one; `None` when there is no such ticket and
      nothing is called. */
  function RecallPrevious(items: seq<ItemView>, current: int): (r: Option<int>)
    ensures r.None? <==> forall x :: x in items ==> !CompletedBelow(x, current)
    ensures r.Some? ==>
              (exists x :: x in items && CompletedBelow(x, current) && x.number == r.value)
              && forall x :: x in items && CompletedBelow(x, current) ==> x.number <= r.value
  {
    var f := x => CompletedBelow(x, current);
    var completed := Filter(items, f);
    if |completed| > 0 then
      var latest := ReduceLatest(completed[0], completed[1..]);
      assert completed == [completed[0]] + completed[1..];
      assert latest in completed && f(latest);
      assert forall x :: x in items && CompletedBelow(x, current) ==> x in completed && x.number <= latest.number by {
        forall x | x in items && CompletedBelow(x, current) ensures x in completed && x.number <= latest.number {
          assert f(x);
          assert x == completed[0] || x in completed[1..];
        }
      }
      Some(latest.number)
    else
      assert forall x :: x in items ==> !CompletedBelow(x, current) by {
        forall x | x in items ensures !CompletedBelow(x, current) {
          assert f(x) == CompletedBelow(x, current);
        }
      }
      None
  }

  // ---------------------------------------------------------------- call-specific form

  /** `handleCallSpecific`, given `parseInt` of the field: the number called,
      if any, and the field's next text (cleared only after a call). */
  function CallSpecificFromForm(text: string, parsed: Option<int>): (r: (Option<int>, string))
    ensures r.0.Some? <==> parsed.Some?
    ensures r.0.Some? ==> r.0.value == parsed.value && r.1 == ""
    ensures r.0.None? ==> r.1 == text
  {
    match parsed
    case None => (None, text)
    case Some(n) => (Some(n), "")
  }

  // ---------------------------------------------------------------- filter and search

  /** The status select: one of the three status names keeps only that status;
      any other value (`"all"`) keeps every status. */
  function StatusMatches(status: Status, filterType: string): (b: bool)
    ensures b <==> (filterType != "waiting" && filterType != "serving" && filterType != "completed")
                   || filterType == StatusName(status)
  {
    !(filterType == "waiting" && StatusName(status) != "waiting")
    && !(filterType == "serving" && StatusName(status) != "serving")
    && !(filterType == "completed" && StatusName(status) != "completed")
  }

  /** The search box: an empty query matches everything, otherwise the
      ticket's decimal number must contain the query text. */
  predicate SearchMatches(number: int, query: string)
    ensures |query| > |IntToString(number)| ==> !SearchMatches(number, query)
  {
    query == "" || Contains(IntToString(number), query)
  }

  predicate Matches(x: ItemView, filterType: string, query: string) {
    StatusMatches(x.status, filterType) && SearchMatches(x.number, query)
  }

  function Descending(x: ItemView): (k: int) { -x.number }

  /** `filteredItems`: the matching items, sorted by number, highest first. */
  function FilterItems(items: seq<ItemView>, filterType: string, query: string): (r: seq<ItemView>)
    ensures forall x :: x in r <==> x in items && Matches(x, filterType, query)
    ensures forall x :: multiset(r)[x] == if Matches(x, filterType, query) then multiset(items)[x] else 0
    ensures forall i, j :: 0 <= i < j < |r| ==> r[i].number >= r[j].number
  {
    var f := x => Matches(x, filterType, query);
    var kept := Filter(items, f);
    FilterCount(items, f);
    var r := SortBy(kept, Descending);
    SortedDescending(r);
    MultisetSameElements(r, kept);
    r
  }

  lemma SortedDescending(r: seq<ItemView>)
    requires SortedBy(r, Descending)
    ensures forall i, j :: 0 <= i < j < |r| ==> r[i].number >= r[j].number
  {
    forall i, j | 0 <= i < j < |r| ensures r[i].number >= r[j].number {
      assert Descending(r[i]) <= Descending(r[j]);
    }
  }

  lemma MultisetSameElements<T>(a: seq<T>, b: seq<T>)
    requires multiset(a) == multiset(b)
    ensures forall x :: x in a <==> x in b
  {
    forall x ensures x in a <==> x in b {
      assert x in a <==> x in multiset(a);
      assert x in b <==> x in multiset(b);
    }
  }

  /** With the `"all"` filter and an empty search every item is listed, as
      often as it occurs. */
  lemma FilterAllKeepsEverything(items: seq<ItemView>)
    ensures multiset(FilterItems(items, "all", "")) == multiset(items)
  {
    var r := FilterItems(items, "all", "");
    forall x ensures multiset(r)[x] == multiset(items)[x] {
      assert Matches(x, "all", "");
    }
  }

  /** A status filter lists only tickets of that status. */
  lemma FilterByStatusExact(items: seq<ItemView>, status: Status, query: string)
    ensures forall x :: x in FilterItems(items, StatusName(status), query) ==> x.status == status
  {
    var r := FilterItems(items, StatusName(status), query);
    forall x | x in r ensures x.status == status {
      assert StatusMatches(x.status, StatusName(status));
      if StatusName(x.status) == StatusName(status) {
        StatusNameInjective(x.status, status);
      }
    }
  }

  /** Searching for a ticket's full number always finds that ticket. */
  lemma SearchFindsOwnNumber(x: ItemView)
    ensures SearchMatches(x.number, IntToString(x.number))
  {
    ContainsItself(IntToString(x.number));
  }

  // ---------------------------------------------------------------- pagination

  /** `Math.ceil(len / itemsPerPage)` */
  function TotalPages(len: nat): (n: nat)
    ensures len == 0 <==> n == 0
    ensures ItemsPerPage * (n - 1) < len <= ItemsPerPage * n || len == 0
  {
    (len + ItemsPerPage - 1) / ItemsPerPage
  }

  /** JavaScript's index normalisation in `slice`: negative positions count from
      the end, then everything is clamped to `[0, len]`. */
  function SliceIndex(i: int, len: nat): (k: nat)
    ensures k <= len
    ensures 0 <= i ==> k == Min(i, len)
    ensures i < 0 ==> k == Max(len + i, 0)
  {
    if i < 0 then Max(len + i, 0) else Min(i, len)
  }

  /** `s.slice(start, end)` */
  function JsSlice<T>(s: seq<T>, start: int, end: int): (r: seq<T>)
    ensures start <= end ==> |r| <= end - start
    ensures 0 <= start <= end ==> r == s[Min(start, |s|)..Min(end, |s|)]
  {
    var from, to := SliceIndex(start, |s|), SliceIndex(end, |s|);
    if from < to then s[from..to] else []
  }

  /** The items shown on page `p` (1-based). */
  function Page<T>(s: seq<T>, p: int): (r: seq<T>)
    ensures |r| <= ItemsPerPage
    ensures p >= 1 ==> r == s[Min((p - 1) * ItemsPerPage, |s|)..Min(p * ItemsPerPage, |s|)]
  {
    JsSlice(s, (p - 1) * ItemsPerPage, p * ItemsPerPage)
  }

  /** Every page before the last one is full. */
  lemma FullPagesBeforeLast<T>(s: seq<T>, p: int)
    requires 1 <= p < TotalPages(|s|)
    ensures |Page(s, p)| == ItemsPerPage
  {
  }

  /** Pages 1 to `k`, one after the other. */
  function Pages<T>(s: seq<T>, k: nat): (r: seq<T>) {
    if k == 0 then [] else Pages(s, k - 1) + Page(s, k)
  }

  lemma {:induction false} PagesPrefix<T>(s: seq<T>, k: nat)
    ensures Pages(s, k) == s[..Min(k * ItemsPerPage, |s|)]
  {
    if k > 0 {
      PagesPrefix(s, k - 1);
      var a, b := Min((k - 1) * ItemsPerPage, |s|), Min(k * ItemsPerPage, |s|);
      assert s[..a] + s[a..b] == s[..b];
    }
  }

  /** Reading all pages in order gives back the whole filtered list. */
  lemma PagesCoverList<T>(s: seq<T>)
    ensures Pages(s, TotalPages(|s|)) == s
  {
    PagesPrefix(s, TotalPages(|s|));
    assert s[..|s|] == s;
  }

  /** The "Previous" button: `Math.max(currentPage - 1, 1)`. */
  function PrevPage(p: int): (q: int)
    ensures q >= 1
    ensures p > 1 ==> q == p - 1
    ensures p <= 1 ==> q == 1
  {
    Max(p - 1, 1)
  }

  /** The "Next" button: `Math.min(currentPage + 1, totalPages)`. */
  function NextPage(p: int, total: int): (q: int)
    ensures q <= total
    ensures p < total ==> q == p + 1
    ensures p >= total ==> q == total
  {
    Min(p + 1, total)
  }

  /** Navigation from a page in range stays in range. */
  lemma NavigationStaysInRange(p: int, total: int)
    requires 1 <= p <= total
    ensures 1 <= PrevPage(p) <= total
    ensures 1 <= NextPage(p, total) <= total
  {
  }
}
