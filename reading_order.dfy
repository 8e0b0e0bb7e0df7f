/**
 * Reading order on a page: `page_elements.sort(key=lambda e: (e.markdown_line, e.word_offset))`
 * (backend/app/pdf_embedder.py). Python's `list.sort` is a stable sort; it is modelled
 * by its contract, through an insertion sort that keeps equal keys in input order.
 */
module ReadingOrder {
  import opened Docstrange

  /** `(a.markdown_line, a.word_offset) <= (b.markdown_line, b.word_offset)` as Python compares tuples. */
  predicate KeyLe(a: BoundingBoxElement, b: BoundingBoxElement) {
    a.markdownLine < b.markdownLine
    || (a.markdownLine == b.markdownLine && a.wordOffset <= b.wordOffset)
  }

  predicate HasKey(e: BoundingBoxElement, line: int, offset: int) {
    e.markdownLine == line && e.wordOffset == offset
  }

  /** Ascending in `(markdown_line, word_offset)`. */
  predicate Sorted(s: seq<BoundingBoxElement>) {
    forall i, j :: 0 <= i < j < |s| ==> KeyLe(s[i], s[j])
  }

  /** The elements of `s` whose key is `(line, offset)`, in their order in `s`. */
  function WithKey(s: seq<BoundingBoxElement>, line: int, offset: int): (r: seq<BoundingBoxElement>)
    ensures forall e :: e in r ==> e in s && HasKey(e, line, offset)
  {
    if s == [] then []
    else (if HasKey(s[0], line, offset) then [s[0]] else []) + WithKey(s[1..], line, offset)
  }

  /** Puts `x` in front of the first element whose key is not smaller than its own. */
  function Insert(x: BoundingBoxElement, s: seq<BoundingBoxElement>): (r: seq<BoundingBoxElement>)
    ensures multiset(r) == multiset(s) + multiset{x}
    ensures |r| == |s| + 1
    decreases |s|
  {
    if s == [] || KeyLe(x, s[0]) then [x] + s
    else
      assert s == [s[0]] + s[1..];
      [s[0]] + Insert(x, s[1..])
  }

  /** Inserting into a sorted sequence keeps it sorted. */
  lemma {:induction false} InsertKeepsSorted(x: BoundingBoxElement, s: seq<BoundingBoxElement>)
    requires Sorted(s)
    ensures Sorted(Insert(x, s))
    decreases |s|
  {
    if s != [] && !KeyLe(x, s[0]) {
      var rest := Insert(x, s[1..]);
      InsertKeepsSorted(x, s[1..]);
      assert s == [s[0]] + s[1..];
      forall j | 0 <= j < |rest|
        ensures KeyLe(s[0], rest[j])
      {
        assert rest[j] in multiset(rest);
        if rest[j] != x {
          assert rest[j] in multiset(s[1..]);
          var k :| 1 <= k < |s| && s[k] == rest[j];
        }
      }
    }
  }

  /** The page's elements in reading order. */
  function SortByReadingOrder(s: seq<BoundingBoxElement>): (r: seq<BoundingBoxElement>)
    ensures |r| == |s|
    decreases |s|
  {
    if s == [] then []
    else Insert(s[0], SortByReadingOrder(s[1..]))
  }

  /** The sort is a permutation of its input. */
  lemma {:induction false} SortIsPermutation(s: seq<BoundingBoxElement>)
    ensures multiset(SortByReadingOrder(s)) == multiset(s)
    decreases |s|
  {
    if s != [] {
      SortIsPermutation(s[1..]);
      assert s == [s[0]] + s[1..];
    }
  }

  /** The sort's result is ascending in reading order. */
  lemma {:induction false} SortIsSorted(s: seq<BoundingBoxElement>)
    ensures Sorted(SortByReadingOrder(s))
    decreases |s|
  {
    if s != [] {
      SortIsSorted(s[1..]);
      InsertKeepsSorted(s[0], SortByReadingOrder(s[1..]));
    }
  }

  lemma {:induction false} InsertWithKey(x: BoundingBoxElement, s: seq<BoundingBoxElement>, line: int, offset: int)
    ensures WithKey(Insert(x, s), line, offset)
            == (if HasKey(x, line, offset) then [x] else []) + WithKey(s, line, offset)
    decreases |s|
  {
    if s == [] || KeyLe(x, s[0]) {
      assert ([x] + s)[1..] == s;
    } else {
      var rest := Insert(x, s[1..]);
      assert ([s[0]] + rest)[1..] == rest;
      InsertWithKey(x, s[1..], line, offset);
      // s[0] sorts strictly before x, so the two never share a key
      assert HasKey(x, line, offset) ==> !HasKey(s[0], line, offset);
    }
  }

  /** The sort is stable: elements with equal keys keep their input order. */
  lemma {:induction false} SortIsStable(s: seq<BoundingBoxElement>, line: int, offset: int)
    ensures WithKey(SortByReadingOrder(s), line, offset) == WithKey(s, line, offset)
    decreases |s|
  {
    if s != [] {
      SortIsStable(s[1..], line, offset);
      InsertWithKey(s[0], SortByReadingOrder(s[1..]), line, offset);
    }
  }
}
