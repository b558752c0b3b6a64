/** `paginate_questions`: a fixed page of ten taken from a selection with a
    Python slice `[(page - 1) * 10 : (page - 1) * 10 + 10]`. */
module Pagination {

  const QuestionsPerPage: nat := 10

  function Min(a: int, b: int): int { if a <= b then a else b }
  function Max(a: int, b: int): int { if a <= b then b else a }

  /** Python's normalisation of one bound of a step-1 slice of a sequence of
      length `n`: a negative bound counts from the end, then the bound is
      clamped into `[0, n]`. */
  function SliceBound(i: int, n: nat): (k: nat)
    ensures k <= n
  {
    if i < 0 then Max(0, i + n) else Min(i, n)
  }

  /** Python's `s[start:stop]`: empty when the normalised stop is not past the
      normalised start, never an error. */
  function Slice<T>(s: seq<T>, start: int, stop: int): (r: seq<T>)
    ensures |r| <= |s|
  {
    var lo, hi := SliceBound(start, |s|), SliceBound(stop, |s|);
    if lo < hi then s[lo..hi] else []
  }

  /** The page `page` of `items`, for any integer page number. */
  function Paginate<T>(items: seq<T>, page: int): (r: seq<T>)
    ensures |r| <= QuestionsPerPage
  {
    var start := (page - 1) * QuestionsPerPage;
    Slice(items, start, start + QuestionsPerPage)
  }

  /** `r` is the run of `items` that starts at index `lo`. */
  ghost predicate RunAt<T>(items: seq<T>, r: seq<T>, lo: int)
  {
    0 <= lo && lo + |r| <= |items| && r == items[lo..lo + |r|]
  }

  /** Every page, whatever its number, is a contiguous run of the selection in
      its original order. */
  lemma PageIsRun<T>(items: seq<T>, page: int)
    ensures exists lo :: RunAt(items, Paginate(items, page), lo)
  {
    var start := (page - 1) * QuestionsPerPage;
    var lo, hi := SliceBound(start, |items|), SliceBound(start + QuestionsPerPage, |items|);
    if lo < hi {
      assert RunAt(items, Paginate(items, page), lo);
    } else {
      assert RunAt(items, Paginate(items, page), 0);
    }
  }

  /** Every element of a page comes from the selection. */
  lemma PageElementsFromItems<T>(items: seq<T>, page: int, x: T)
    requires x in Paginate(items, page)
    ensures x in items
  {
    PageIsRun(items, page);
    var lo :| RunAt(items, Paginate(items, page), lo);
    var k :| 0 <= k < |Paginate(items, page)| && Paginate(items, page)[k] == x;
    assert items[lo + k] == x;
  }

  /** For a page number of one or more: the page starts at `10 * (page - 1)` and
      holds `min(10, max(0, n - 10 * (page - 1)))` elements. */
  lemma PositivePage<T>(items: seq<T>, page: int)
    requires page >= 1
    ensures |Paginate(items, page)| == Min(QuestionsPerPage, Max(0, |items| - QuestionsPerPage * (page - 1)))
    ensures var start := QuestionsPerPage * (page - 1);
            start <= |items| ==> Paginate(items, page) == items[start..start + |Paginate(items, page)|]
  {
  }

  /** A page past the end of the selection is empty, without an error. */
  lemma PastTheEndIsEmpty<T>(items: seq<T>, page: int)
    requires page >= 1 && |items| <= QuestionsPerPage * (page - 1)
    ensures Paginate(items, page) == []
  {
  }

  /** Page 0 is the slice `[-10:0]`, which is always empty. */
  lemma PageZeroIsEmpty<T>(items: seq<T>)
    ensures Paginate(items, 0) == []
  {
  }

  /** A negative page counts pages back from the end of the selection (Python's
      negative slice bounds): page `-k` ends `10 * k` elements before the end. */
  lemma NegativePage<T>(items: seq<T>, page: int)
    requires page < 0
    ensures var n := |items|;
            Paginate(items, page) == items[Max(0, n - QuestionsPerPage * (1 - page))..Max(0, n + QuestionsPerPage * page)]
  {
  }

  /** A negative page is not page 1: with at least twenty elements, page -1
      holds elements 10 to 20 counted from the end. */
  lemma MinusOneIsNotPageOne<T>(items: seq<T>)
    requires |items| >= 2 * QuestionsPerPage
    ensures Paginate(items, -1) == items[|items| - 20..|items| - 10]
    ensures Paginate(items, 1) == items[..10]
  {
    NegativePage(items, -1);
    PositivePage(items, 1);
  }

  /** The pages 1, 2, ... cover the selection: element `i` is at position
      `i % 10` of page `i / 10 + 1`. */
  lemma PageOfIndex<T>(items: seq<T>, i: int)
    requires 0 <= i < |items|
    ensures i % QuestionsPerPage < |Paginate(items, i / QuestionsPerPage + 1)|
    ensures Paginate(items, i / QuestionsPerPage + 1)[i % QuestionsPerPage] == items[i]
  {
    var page := i / QuestionsPerPage + 1;
    var start := QuestionsPerPage * (page - 1);
    assert start + i % QuestionsPerPage == i;
    PositivePage(items, page);
  }
}
