/** `paginated_questions`: a page of ten, cut with Python's slice `selection[start:end]`. */
module Pagination {

  const QuestionsPerPage := 10

  function Min(a: int, b: int): int { if a <= b then a else b }

  function Max(a: int, b: int): int { if a <= b then b else a }

  /** Where a Python slice bound lands in a list of length `n`:
      a negative bound counts from the end, and either way it is clamped to `0..n`. */
  function SliceBound(i: int, n: nat): (r: nat)
    ensures r <= n
  {
    if i < 0 then (if n + i < 0 then 0 else n + i)
    else if i < n then i
    else n
  }

  /** Python's `s[start:stop]` (step 1): it never fails, and is empty when the bounds cross. */
  function PySlice<T>(s: seq<T>, start: int, stop: int): (r: seq<T>)
    ensures |r| <= |s|
    ensures 0 <= start <= stop ==> r == s[Min(start, |s|)..Min(stop, |s|)]
    ensures start <= stop < 0 ==> r == s[Max(0, |s| + start)..Max(0, |s| + stop)]
    ensures 0 <= stop <= start || stop <= start < 0 ==> r == []
  {
    var lo, hi := SliceBound(start, |s|), SliceBound(stop, |s|);
    if lo < hi then s[lo..hi] else []
  }

  /** Where page `page` of a list of length `n` starts: the landing point of the bound `(page-1)*10`. */
  function PageStart(n: nat, page: int): (r: nat)
    ensures r <= n
  {
    SliceBound((page - 1) * QuestionsPerPage, n)
  }

  /** Page `page` of `selection`; each record is its own formatted form. */
  function Paginate<T>(selection: seq<T>, page: int): (r: seq<T>)
    ensures |r| <= QuestionsPerPage
    ensures PageStart(|selection|, page) + |r| <= |selection|
    ensures r == selection[PageStart(|selection|, page)..PageStart(|selection|, page) + |r|]
  {
    var start := (page - 1) * QuestionsPerPage;
    PySlice(selection, start, start + QuestionsPerPage)
  }

  /** For a page of 1 or more: the elements from `(page-1)*10` up to `page*10`, cut at the end of the list. */
  lemma PageOfPositive<T>(s: seq<T>, page: int)
    requires page >= 1
    ensures Paginate(s, page) == s[Min((page - 1) * QuestionsPerPage, |s|)..Min(page * QuestionsPerPage, |s|)]
    ensures |Paginate(s, page)| == Min(QuestionsPerPage, Max(0, |s| - (page - 1) * QuestionsPerPage))
  {
  }

  /** Page 0 is the slice `[-10:0]`, which is always empty. */
  lemma PageZeroIsEmpty<T>(s: seq<T>)
    ensures Paginate(s, 0) == []
  {
  }

  /** A negative page counts ten-element blocks back from the end of the list. */
  lemma PageOfNegative<T>(s: seq<T>, page: int)
    requires page <= -1
    ensures Paginate(s, page) ==
      s[Max(0, |s| + (page - 1) * QuestionsPerPage)..Max(0, |s| + page * QuestionsPerPage)]
  {
  }

  /** On 25 items, page -1 is `[-20:-10]`: items 5 to 14. */
  lemma PageMinusOneOfTwentyFive<T>(s: seq<T>)
    requires |s| == 25
    ensures Paginate(s, -1) == s[5..15]
  {
    PageOfNegative(s, -1);
  }

  /** When a page comes back empty, for every page number. */
  ghost predicate PageIsEmpty(n: nat, page: int)
  {
    || (page >= 1 && (page - 1) * QuestionsPerPage >= n)
    || page == 0
    || (page <= -1 && n + page * QuestionsPerPage <= 0)
  }

  lemma PageEmptyIff<T>(s: seq<T>, page: int)
    ensures Paginate(s, page) == [] <==> PageIsEmpty(|s|, page)
  {
    if page >= 1 {
      PageOfPositive(s, page);
    } else if page <= -1 {
      PageOfNegative(s, page);
    }
  }

  /** Pages `page`, `page + 1`, … concatenated, stopping at the first empty page. */
  function CollectPages<T>(s: seq<T>, page: int): (r: seq<T>)
    requires page >= 1
    decreases |s| - (page - 1) * QuestionsPerPage
  {
    var p := Paginate(s, page);
    PageEmptyIff(s, page);
    if p == [] then [] else p + CollectPages(s, page + 1)
  }

  lemma {:induction false} CollectPagesFrom<T>(s: seq<T>, page: int)
    requires page >= 1 && (page - 1) * QuestionsPerPage <= |s|
    ensures CollectPages(s, page) == s[(page - 1) * QuestionsPerPage..]
    decreases |s| - (page - 1) * QuestionsPerPage
  {
    PageOfPositive(s, page);
    var start := (page - 1) * QuestionsPerPage;
    if start < |s| {
      var stop := Min(page * QuestionsPerPage, |s|);
      if page * QuestionsPerPage <= |s| {
        CollectPagesFrom(s, page + 1);
      } else {
        PageEmptyIff(s, page + 1);
      }
      assert s[start..] == s[start..stop] + s[stop..];
    }
  }

  /** Concatenating pages 1, 2, … up to the first empty one gives back the whole selection:
      nothing is repeated and nothing is missed. */
  lemma PagesReassemble<T>(s: seq<T>)
    ensures CollectPages(s, 1) == s
  {
    CollectPagesFrom(s, 1);
  }

  /** Every element of the selection is on some page numbered 1 or more. */
  lemma {:induction false} EveryElementOnSomePage<T>(s: seq<T>, page: int, x: T)
    requires page >= 1
    requires x in CollectPages(s, page)
    ensures exists p :: p >= page && x in Paginate(s, p)
    decreases |s| - (page - 1) * QuestionsPerPage
  {
    var first := Paginate(s, page);
    PageEmptyIff(s, page);
    if x !in first {
      EveryElementOnSomePage(s, page + 1, x);
    }
  }
}
