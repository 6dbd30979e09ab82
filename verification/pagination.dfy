/** The admin table search and pagination of public/js/admin-search.js (`TablePagination`):
    the state it keeps and the arithmetic behind what it shows. Rows are their cell texts;
    the filtered list is kept as increasing indices into the full row list, so "which rows
    are shown" is a set of positions in the table. DOM writes are not modelled. */
module Pagination {
  import opened Strings

  /** A table row, as the text content of its cells. */
  type Row = seq<string>

  /** The fields of a `TablePagination` instance. `column` is the cell the search reads
      (the script always reads `cells[1]`); `perPage` is `itemsPerPage`. */
  datatype Table = Table(allRows: seq<Row>, column: nat, perPage: nat,
                         filtered: seq<nat>, currentPage: int, searchTerm: string)

  /** Every row has the searched cell. */
  predicate HasColumn(rows: seq<Row>, column: nat) {
    forall j :: 0 <= j < |rows| ==> column < |rows[j]|
  }

  /** `s` lists positions below `bound` in strictly increasing order. */
  predicate Increasing(s: seq<nat>, bound: nat) {
    && (forall k :: 0 <= k < |s| ==> s[k] < bound)
    && (forall a, b :: 0 <= a < b < |s| ==> s[a] < s[b])
  }

  /** `Math.ceil(a / n)` for a positive page size: the fewest pages of `n` that hold `a` items. */
  function CeilDiv(a: nat, n: nat): (r: nat)
    requires n > 0
    ensures r * n >= a
    ensures r == 0 || (r - 1) * n < a
  {
    (a + n - 1) / n
  }

  function TotalPages(t: Table): (r: nat)
    requires t.perPage > 0
    ensures r * t.perPage >= |t.filtered|
    ensures r == 0 || (r - 1) * t.perPage < |t.filtered|
  {
    CeilDiv(|t.filtered|, t.perPage)
  }

  /** The state every operation keeps: a positive page size, a searchable column in every
      row, a filtered list that is an ordered selection of the rows, and a current page that
      exists (or is page 1 of an empty list). */
  predicate Valid(t: Table) {
    && t.perPage > 0
    && HasColumn(t.allRows, t.column)
    && Increasing(t.filtered, |t.allRows|)
    && t.currentPage >= 1
    && (t.currentPage == 1 || t.currentPage <= TotalPages(t))
  }

  /** The positions `lo .. hi - 1`, in order. */
  function Range(lo: nat, hi: nat): (r: seq<nat>)
    requires lo <= hi
    ensures |r| == hi - lo && forall k :: 0 <= k < |r| ==> r[k] == lo + k
    decreases hi - lo
  {
    if lo == hi then [] else [lo] + Range(lo + 1, hi)
  }

  /** The positions `0 .. n - 1`. */
  function AllIndices(n: nat): (r: seq<nat>)
    ensures |r| == n && forall k :: 0 <= k < n ==> r[k] == k
    ensures forall k :: 0 <= k < n ==> k in r
  {
    var r := Range(0, n);
    assert forall k | 0 <= k < n :: r[k] == k;
    assert forall k | 0 <= k < n :: k in r by {
      forall k | 0 <= k < n ensures k in r {
        assert r[k] == k;
      }
    }
    r
  }

  /** `constructor` and `init`: every row is in the filtered list and page 1 is current. */
  function Init(rows: seq<Row>, column: nat, perPage: nat): (t: Table)
    requires perPage > 0 && HasColumn(rows, column)
    ensures Valid(t)
    ensures t.filtered == AllIndices(|rows|) && t.currentPage == 1 && t.searchTerm == ""
  {
    Table(rows, column, perPage, AllIndices(|rows|), 1, "")
  }

  /** The row test of `filter`: the searched cell, lower-cased, contains the term. */
  predicate Matches(row: Row, column: nat, term: string)
    requires column < |row|
  {
    Contains(ToLower(row[column]), term)
  }

  /** The positions from `i` on whose row matches `term`, in table order. */
  function MatchingFrom(rows: seq<Row>, column: nat, term: string, i: nat): (r: seq<nat>)
    requires i <= |rows| && HasColumn(rows, column)
    ensures Increasing(r, |rows|)
    ensures forall k :: 0 <= k < |r| ==> i <= r[k]
    ensures forall j :: i <= j < |rows| ==> (j in r <==> Matches(rows[j], column, term))
    decreases |rows| - i
  {
    if i == |rows| then []
    else
      var rest := MatchingFrom(rows, column, term, i + 1);
      if Matches(rows[i], column, term) then
        Prepend(i, rest, |rows|);
        [i] + rest
      else rest
  }

  /** Putting a position below all others in front keeps the list increasing. */
  lemma Prepend(i: nat, rest: seq<nat>, bound: nat)
    requires Increasing(rest, bound) && i < bound
    requires forall k :: 0 <= k < |rest| ==> i < rest[k]
    ensures Increasing([i] + rest, bound)
    ensures forall j :: j in [i] + rest <==> j == i || j in rest
  {
    var r := [i] + rest;
    assert forall k :: 1 <= k < |r| ==> r[k] == rest[k - 1];
  }

  /** `filter(searchTerm)`. The term is lower-cased, then trimmed; an empty term restores
      every row, any other keeps the rows whose searched cell contains it, in order; the
      page always goes back to 1. */
  function Filter(t: Table, searchTerm: string): (r: Table)
    requires Valid(t)
    ensures Valid(r)
    ensures r.allRows == t.allRows && r.column == t.column && r.perPage == t.perPage
    ensures r.currentPage == 1
    ensures r.searchTerm == Trim(ToLower(searchTerm))
    ensures r.searchTerm == "" ==> r.filtered == AllIndices(|t.allRows|)
    ensures forall j :: 0 <= j < |t.allRows| ==>
              (j in r.filtered <==> r.searchTerm == "" || Matches(t.allRows[j], t.column, r.searchTerm))
  {
    var term := Trim(ToLower(searchTerm));
    var filtered := if term == "" then AllIndices(|t.allRows|) else MatchingFrom(t.allRows, t.column, term, 0);
    t.(filtered := filtered, currentPage := 1, searchTerm := term)
  }

  /** The empty term needs no special case: every cell contains it, so the general branch of
      `filter` would keep every row too. */
  lemma {:induction false} EmptyTermMatchesAll(rows: seq<Row>, column: nat, i: nat)
    requires i <= |rows| && HasColumn(rows, column)
    ensures MatchingFrom(rows, column, "", i) == Range(i, |rows|)
    decreases |rows| - i
  {
    if i < |rows| {
      EmptyTermMatchesAll(rows, column, i + 1);
      assert OccursAt(ToLower(rows[i][column]), "", 0);
    }
  }

  /** `goToPage(page)`: a page outside `1 .. totalPages` is ignored. */
  function GoToPage(t: Table, page: int): (r: Table)
    requires Valid(t)
    ensures Valid(r)
    ensures r.(currentPage := t.currentPage) == t
    ensures r.currentPage == (if 1 <= page <= TotalPages(t) then page else t.currentPage)
  {
    if page < 1 || page > TotalPages(t) then t else t.(currentPage := page)
  }

  /** A page-number button of `updatePageNumbers`: its number and whether it is highlighted. */
  datatype PageButton = PageButton(number: nat, current: bool)

  /** Everything `updateDisplay` derives from the state: the positions of the rows made
      visible, the "Showing start-end of total" counters, the page buttons, the enablement of
      the previous and next buttons, and whether the "no results" panel is shown. */
  datatype Display = Display(visible: seq<nat>, start: int, end: int, total: nat,
                             pageButtons: seq<PageButton>, prevDisabled: bool, nextDisabled: bool,
                             noResults: bool)

  /** `Array.prototype.slice(a, b)` for non-negative bounds: both clamp to the length. */
  function Slice(s: seq<nat>, a: nat, b: nat): (r: seq<nat>)
    ensures |r| == if a < b && a < |s| then (if b < |s| then b else |s|) - a else 0
    ensures forall k :: 0 <= k < |r| ==> r[k] == s[a + k]
  {
    var hi := if b < |s| then b else |s|;
    if a < hi then s[a..hi] else []
  }

  function Min(a: int, b: int): int {
    if a < b then a else b
  }

  /** `updateDisplay` with `updatePageNumbers`, `updateButtonStates` and `handleNoResults`. */
  function View(t: Table): (d: Display)
    requires Valid(t)
    ensures d.total == |t.filtered|
    ensures |d.pageButtons| == TotalPages(t)
    ensures forall k :: 0 <= k < |d.pageButtons| ==>
              d.pageButtons[k].number == k + 1 && (d.pageButtons[k].current <==> k + 1 == t.currentPage)
  {
    var startIndex := (t.currentPage - 1) * t.perPage;
    var endIndex := startIndex + t.perPage;
    var total := TotalPages(t);
    var n := |t.filtered|;
    Display(
      Slice(t.filtered, startIndex, endIndex),
      if n > 0 then startIndex + 1 else 0,
      Min(endIndex, n),
      n,
      seq(total, k requires 0 <= k < total => PageButton(k + 1, k + 1 == t.currentPage)),
      t.currentPage == 1,
      t.currentPage == total || total == 0,
      n == 0 && t.searchTerm != "")
  }

  /** The rows shown on a page are the filtered rows of that page's window, in order: the
      `perPage`-long window starting at `(page - 1) * perPage`, cut at the end of the list. */
  lemma VisibleWindow(t: Table)
    requires Valid(t)
    ensures var d, lo := View(t), (t.currentPage - 1) * t.perPage;
            && |d.visible| <= t.perPage
            && forall k :: 0 <= k < |t.filtered| ==>
                 (t.filtered[k] in d.visible <==> lo <= k < lo + t.perPage)
  {
    var d, lo := View(t), (t.currentPage - 1) * t.perPage;
    forall k | 0 <= k < |t.filtered|
      ensures t.filtered[k] in d.visible <==> lo <= k < lo + t.perPage
    {
      if t.filtered[k] in d.visible {
        var m :| 0 <= m < |d.visible| && d.visible[m] == t.filtered[k];
        InjectiveIndex(t.filtered, |t.allRows|, lo + m, k);
      }
      if lo <= k < lo + t.perPage {
        assert d.visible[k - lo] == t.filtered[k];
      }
    }
  }

  lemma InjectiveIndex(s: seq<nat>, n: nat, a: nat, b: nat)
    requires Increasing(s, n) && a < |s| && b < |s| && s[a] == s[b]
    ensures a == b
  {
  }

  /** The "Showing start-end of total" counters agree with the rows shown: `0-0` for an
      empty list, otherwise the 1-based positions of the first and last visible rows. */
  lemma CountersMatchVisible(t: Table)
    requires Valid(t)
    ensures var d := View(t);
            if |t.filtered| == 0 then d.start == 0 && d.end == 0 && d.visible == []
            else 1 <= d.start <= d.end <= |t.filtered| && |d.visible| == d.end - d.start + 1
                 && d.visible[0] == t.filtered[d.start - 1] && d.visible[|d.visible| - 1] == t.filtered[d.end - 1]
  {
    var n, lo := |t.filtered|, (t.currentPage - 1) * t.perPage;
    if n > 0 {
      if t.currentPage > 1 {
        var total := TotalPages(t);
        MulMono(t.currentPage - 1, total - 1, t.perPage);
      }
      assert lo < n;
      var d := View(t);
      var hi := if lo + t.perPage < n then lo + t.perPage else n;
      assert d.start == lo + 1 && d.end == hi;
      assert d.visible == t.filtered[lo..hi];
    }
  }

  /** Every filtered row is on exactly one page: position `k` is visible on page `p` iff
      `p == k / perPage + 1`. */
  lemma {:induction false} EachRowOnOnePage(t: Table, k: nat, p: int)
    requires Valid(t) && k < |t.filtered| && 1 <= p <= TotalPages(t)
    ensures t.filtered[k] in View(t.(currentPage := p)).visible <==> p == k / t.perPage + 1
  {
    VisibleWindow(t.(currentPage := p));
    WindowIsQuotient(k, t.perPage, p - 1);
  }

  /** `k` lies in the window `[a * n, a * n + n)` iff `a` is the quotient `k / n`. */
  lemma {:induction false} WindowIsQuotient(k: nat, n: nat, a: int)
    requires n > 0
    ensures a * n <= k < a * n + n <==> a == k / n
  {
    var q := k / n;
    assert q * n <= k < q * n + n;
    if a < q {
      MulMono(a + 1, q, n);
    } else if a > q {
      MulMono(q + 1, a, n);
    }
  }

  lemma MulMono(a: int, b: int, n: nat)
    requires a <= b
    ensures a * n <= b * n
  {
  }

  /** The previous button is disabled exactly when clicking it (`goToPage(currentPage - 1)`)
      would change nothing. */
  lemma PrevDisabledIffNoOp(t: Table)
    requires Valid(t)
    ensures View(t).prevDisabled <==> GoToPage(t, t.currentPage - 1) == t
  {
  }

  /** The next button is disabled exactly when clicking it (`goToPage(currentPage + 1)`)
      would change nothing. */
  lemma NextDisabledIffNoOp(t: Table)
    requires Valid(t)
    ensures View(t).nextDisabled <==> GoToPage(t, t.currentPage + 1) == t
  {
    var total := TotalPages(t);
    if total == 0 {
      assert t.currentPage == 1;
    }
  }

  /** The "no results" panel shows exactly when a non-blank search matched no row. */
  lemma NoResultsIff(t: Table, searchTerm: string)
    requires Valid(t)
    ensures var r := Filter(t, searchTerm);
            View(r).noResults <==>
              && !AllWhitespace(ToLower(searchTerm))
              && forall j :: 0 <= j < |t.allRows| ==> !Matches(t.allRows[j], t.column, r.searchTerm)
  {
    var r := Filter(t, searchTerm);
    TrimEmptyIff(ToLower(searchTerm));
    if r.searchTerm != "" && |r.filtered| > 0 {
      assert r.filtered[0] in r.filtered;
    }
  }
}
