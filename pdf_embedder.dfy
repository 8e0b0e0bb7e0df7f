/**
 * The text-layer placement planner (backend/app/pdf_embedder.py).
 *
 * A PDF page is seen through what the planner asks of it: its rectangle and the
 * placements of its first embedded image. This module holds the geometry, what is
 * written for one word and the plan of one page; the document-level loop is in module
 * `EmbedDocument`. PDF parsing, glyph shaping and saving are not modelled.
 */
module PdfEmbedder {
  import opened Wrappers
  import opened Json
  import opened Docstrange
  import opened ReadingOrder

  // ---------------------------------------------------------------------------
  // Geometry

  /** A PyMuPDF rectangle, in PDF points, top-left origin. */
  datatype Rect = Rect(x0: real, y0: real, x1: real, y1: real) {
    /** PyMuPDF's `Rect.width`: `max(x1 - x0, 0)`. */
    function Width(): real {
      if x1 > x0 then x1 - x0 else 0.0
    }

    /** PyMuPDF's `Rect.height`: `max(y1 - y0, 0)`. */
    function Height(): real {
      if y1 > y0 then y1 - y0 else 0.0
    }

    predicate Ordered() {
      x0 <= x1 && y0 <= y1
    }

    predicate Contains(p: (real, real)) {
      x0 <= p.0 <= x1 && y0 <= p.1 <= y1
    }
  }

  /**
   * A page: its rectangle and, when `page.get_images()` is non-empty, the placements
   * `page.get_image_rects(...)` reports for the first image.
   */
  datatype Page = Page(rect: Rect, firstImageRects: Option<seq<Rect>>)

  /** `_get_page_content_rect`: the first placement of the first image, else the page rect. */
  function ContentRect(page: Page): (r: Rect)
    ensures page.firstImageRects.Some? && page.firstImageRects.value != []
            ==> r == page.firstImageRects.value[0]
    ensures (page.firstImageRects.None? || page.firstImageRects.value == [])
            ==> r == page.rect
  {
    match page.firstImageRects
    case Some(rects) => if rects != [] then rects[0] else page.rect
    case None => page.rect
  }

  /**
   * `_normalized_to_pdf_point`: a normalized box (fractions, top-left origin) to the
   * insertion point (x, baseline y) inside the content rectangle. The baseline is the
   * bottom edge of the box; `width` plays no part.
   */
  function NormalizedToPdfPoint(x: real, y: real, width: real, height: real, rect: Rect)
    : (r: (real, real))
  {
    var pdfX := rect.x0 + x * rect.Width();
    var contentHeight := rect.Height();
    var baselineY := rect.y0 + (y + height) * contentHeight;
    (pdfX, baselineY)
  }

  /** A box at the top-left with no height is placed at the content rect's top-left corner. */
  lemma PointAtOrigin(x: real, y: real, width: real, height: real, rect: Rect)
    requires x == 0.0 && y + height == 0.0
    ensures NormalizedToPdfPoint(x, y, width, height, rect) == (rect.x0, rect.y0)
  {
    // both offsets from the top-left corner vanish
    assert x * rect.Width() == 0.0 && (y + height) * rect.Height() == 0.0;
  }

  /** A box whose bottom-right edge is at (1, 1) is placed at the content rect's bottom-right corner. */
  lemma PointAtFarCorner(x: real, y: real, width: real, height: real, rect: Rect)
    requires rect.Ordered() && x == 1.0 && y + height == 1.0
    ensures NormalizedToPdfPoint(x, y, width, height, rect) == (rect.x1, rect.y1)
  {
    // both offsets are the full sides, which an ordered rect spans exactly
    assert x * rect.Width() == rect.Width() && (y + height) * rect.Height() == rect.Height();
    var p := NormalizedToPdfPoint(x, y, width, height, rect);
    assert p.0 == rect.x1 && p.1 == rect.y1;
  }

  /** A box whose left edge and bottom edge lie in [0, 1] is placed inside the content rect. */
  lemma PointStaysInContent(x: real, y: real, width: real, height: real, rect: Rect)
    requires rect.Ordered() && 0.0 <= x <= 1.0 && 0.0 <= y + height <= 1.0
    ensures rect.Contains(NormalizedToPdfPoint(x, y, width, height, rect))
  {
    SidesSpan(rect);
    OffsetStaysWithin(rect.x0, rect.Width(), rect.x1, x);
    OffsetStaysWithin(rect.y0, rect.Height(), rect.y1, y + height);
  }

  /** An ordered rect spans exactly its width and its height. */
  lemma SidesSpan(rect: Rect)
    requires rect.Ordered()
    ensures rect.x0 + rect.Width() == rect.x1 && rect.y0 + rect.Height() == rect.y1
  {
  }

  /** `lo + t * length` lies in [lo, hi] for `t` in [0, 1] when `length` spans [lo, hi]. */
  lemma OffsetStaysWithin(lo: real, length: real, hi: real, t: real)
    requires 0.0 <= length && lo + length == hi && 0.0 <= t <= 1.0
    ensures lo <= lo + t * length <= hi
  {
    ScaleStaysWithin(t, length);
  }

  /** A fraction in [0, 1] of a non-negative length stays within [0, length]. */
  lemma ScaleStaysWithin(t: real, length: real)
    requires 0.0 <= t <= 1.0 && 0.0 <= length
    ensures 0.0 <= t * length <= length
  {
    assert (1.0 - t) * length >= 0.0;
  }

  /** The box's width never moves the insertion point. */
  lemma WidthIsIgnored(x: real, y: real, w1: real, w2: real, height: real, rect: Rect)
    ensures NormalizedToPdfPoint(x, y, w1, height, rect) == NormalizedToPdfPoint(x, y, w2, height, rect)
  {
  }

  /**
   * Moving a box right, or moving its bottom edge down, never moves its insertion point left
   * or up, whatever the boxes' widths and heights (top-left origin, no flip).
   */
  lemma PointIsMonotone(x1: real, y1: real, w1: real, h1: real,
                        x2: real, y2: real, w2: real, h2: real, rect: Rect)
    requires x1 <= x2 && y1 + h1 <= y2 + h2
    ensures NormalizedToPdfPoint(x1, y1, w1, h1, rect).0 <= NormalizedToPdfPoint(x2, y2, w2, h2, rect).0
    ensures NormalizedToPdfPoint(x1, y1, w1, h1, rect).1 <= NormalizedToPdfPoint(x2, y2, w2, h2, rect).1
  {
    assert (x2 - x1) * rect.Width() >= 0.0;
    assert ((y2 + h2) - (y1 + h1)) * rect.Height() >= 0.0;
  }

  const MinFontSize: real := 4.0
  const MaxFontSize: real := 72.0

  /** `_font_size_from_height`: the box height in points, clamped to [4, 72]. */
  function FontSizeFromHeight(heightNorm: real, pageHeight: real): (r: real)
    ensures MinFontSize <= r <= MaxFontSize
  {
    var size := heightNorm * pageHeight;
    var capped := if size < MaxFontSize then size else MaxFontSize;
    if MinFontSize > capped then MinFontSize else capped
  }

  /** The size is the box height in points when that lies in [4, 72], else the bound it passes. */
  lemma FontSizeClamps(heightNorm: real, pageHeight: real)
    ensures MinFontSize <= heightNorm * pageHeight <= MaxFontSize
            ==> FontSizeFromHeight(heightNorm, pageHeight) == heightNorm * pageHeight
    ensures heightNorm * pageHeight < MinFontSize ==> FontSizeFromHeight(heightNorm, pageHeight) == MinFontSize
    ensures heightNorm * pageHeight > MaxFontSize ==> FontSizeFromHeight(heightNorm, pageHeight) == MaxFontSize
  {
  }

  /** On a page of non-negative height, a taller box never gets a smaller font. */
  lemma FontSizeIsMonotone(h1: real, h2: real, pageHeight: real)
    requires h1 <= h2 && 0.0 <= pageHeight
    ensures FontSizeFromHeight(h1, pageHeight) <= FontSizeFromHeight(h2, pageHeight)
  {
    var d := h2 - h1;
    assert d * pageHeight >= 0.0;
    assert h2 * pageHeight == h1 * pageHeight + d * pageHeight;
  }

  /** Box heights 0.5 and 0.001 on a 792-point content rect give 72 and 4 points. */
  lemma FontSizeExamples()
    ensures FontSizeFromHeight(0.5, 792.0) == 72.0
    ensures FontSizeFromHeight(0.001, 792.0) == 4.0
  {
  }

  // ---------------------------------------------------------------------------
  // What is written for one word

  /** One `TextWriter.append`: insertion point, font size and text (font "helv"). */
  datatype Glyph = Glyph(x: real, y: real, fontSize: real, text: string)

  /** Python's `str.isspace()` for one character. */
  predicate IsSpace(c: char) {
    var n := c as int;
    || n == 0x20 || 0x09 <= n <= 0x0D || 0x1C <= n <= 0x1F || n == 0x85 || n == 0xA0
    || n == 0x1680 || 0x2000 <= n <= 0x200A || n == 0x2028 || n == 0x2029
    || n == 0x202F || n == 0x205F || n == 0x3000
  }

  /** `s.strip() == ""` */
  predicate Blank(s: string) {
    forall i :: 0 <= i < |s| ==> IsSpace(s[i])
  }

  /** What the loop body does with one element. */
  datatype WordStep =
    | Raise            // `el.content.strip()` raises: the content is not a string
    | Skip             // whitespace-only content: `continue`
    | Emit(glyph: Glyph)

  function PlanWord(el: BoundingBoxElement, rect: Rect): (r: WordStep)
    ensures r.Raise? <==> !el.content.JStr?
    ensures r.Skip? <==> el.content.JStr? && Blank(el.content.s)
  {
    var b := el.boundingBox;
    var point := NormalizedToPdfPoint(b.x, b.y, b.width, b.height, rect);
    var fontSize := FontSizeFromHeight(b.height, rect.Height());
    match el.content
    case JStr(s) => if Blank(s) then Skip else Emit(Glyph(point.0, point.1, fontSize, s))
    case _ => Raise
  }

  /**
   * A word that is placed is placed at its box's mapped point, with the font size of its
   * box height in points of the content rect, and carries its own text.
   */
  lemma PlanWordPlacement(el: BoundingBoxElement, rect: Rect)
    requires PlanWord(el, rect).Emit?
    ensures
      var b := el.boundingBox;
      var p := NormalizedToPdfPoint(b.x, b.y, b.width, b.height, rect);
      && el.content.JStr? && !Blank(el.content.s)
      && PlanWord(el, rect).glyph == Glyph(p.0, p.1, FontSizeFromHeight(b.height, rect.Height()), el.content.s)
  {
  }

  /**
   * The placement loop over a page's sorted elements, as a function of the elements
   * seen so far: `None` once a content raised, otherwise the glyphs the writer holds.
   * `fails` tells which appends raise (and are swallowed).
   */
  function PlaceWords(els: seq<BoundingBoxElement>, rect: Rect, fails: Glyph -> bool)
    : Option<seq<Glyph>>
    decreases |els|
  {
    if els == [] then Some([])
    else
      match PlaceWords(els[..|els| - 1], rect, fails)
      case None => None
      case Some(glyphs) =>
        match PlanWord(els[|els| - 1], rect)
        case Raise => None
        case Skip => Some(glyphs)
        case Emit(g) => if fails(g) then Some(glyphs) else Some(glyphs + [g])
  }

  /** One more iteration of the placement loop. */
  lemma PlaceWordsStep(els: seq<BoundingBoxElement>, i: int, rect: Rect, fails: Glyph -> bool, glyphs: seq<Glyph>)
    requires 0 <= i < |els| && PlaceWords(els[..i], rect, fails) == Some(glyphs)
    ensures PlaceWords(els[..i + 1], rect, fails)
            == match PlanWord(els[i], rect)
               case Raise => None
               case Skip => Some(glyphs)
               case Emit(g) => if fails(g) then Some(glyphs) else Some(glyphs + [g])
  {
    assert els[..i + 1][..i] == els[..i];
  }

  /** Once a content has raised, the loop's outcome stays `None`. */
  lemma {:induction false} PlaceWordsStaysNone(els: seq<BoundingBoxElement>, i: int, rect: Rect, fails: Glyph -> bool)
    requires 0 <= i <= |els| && PlaceWords(els[..i], rect, fails).None?
    ensures PlaceWords(els, rect, fails).None?
    decreases |els|
  {
    if i < |els| {
      var init := els[..|els| - 1];
      assert init[..i] == els[..i];
      PlaceWordsStaysNone(init, i, rect, fails);
    } else {
      assert els[..i] == els;
    }
  }

  /** The glyph an element contributes when its append succeeds. */
  function Placed(el: BoundingBoxElement, rect: Rect, fails: Glyph -> bool): seq<Glyph> {
    match PlanWord(el, rect)
    case Emit(g) => if fails(g) then [] else [g]
    case _ => []
  }

  /**
   * Reference definition: the glyphs of the non-blank words whose append succeeds,
   * one per word, in the given order.
   */
  function Expected(els: seq<BoundingBoxElement>, rect: Rect, fails: Glyph -> bool): seq<Glyph> {
    if els == [] then [] else Placed(els[0], rect, fails) + Expected(els[1..], rect, fails)
  }

  predicate AllText(els: seq<BoundingBoxElement>) {
    forall el :: el in els ==> el.content.JStr?
  }

  lemma {:induction false} ExpectedConcat(a: seq<BoundingBoxElement>, b: seq<BoundingBoxElement>,
                                          rect: Rect, fails: Glyph -> bool)
    ensures Expected(a + b, rect, fails) == Expected(a, rect, fails) + Expected(b, rect, fails)
    decreases |a|
  {
    if a != [] {
      assert (a + b)[1..] == a[1..] + b;
      ExpectedConcat(a[1..], b, rect, fails);
    } else {
      assert a + b == b;
    }
  }

  /**
   * The loop places exactly the expected glyphs when every content is a string, and
   * raises otherwise: a failed append skips only its own word.
   */
  lemma {:induction false} PlaceWordsIsExpected(els: seq<BoundingBoxElement>, rect: Rect, fails: Glyph -> bool)
    ensures PlaceWords(els, rect, fails)
            == if AllText(els) then Some(Expected(els, rect, fails)) else None
    decreases |els|
  {
    if els != [] {
      var init, last := els[..|els| - 1], els[|els| - 1];
      assert els == init + [last];
      PlaceWordsIsExpected(init, rect, fails);
      ExpectedConcat(init, [last], rect, fails);
      assert Expected([last], rect, fails) == Placed(last, rect, fails) + Expected([], rect, fails) by {
        assert [last][1..] == [];
      }
      assert AllText(els) <==> AllText(init) && last.content.JStr? by {
        assert forall el :: el in els <==> el in init || el == last;
      }
      if AllText(init) {
        var glyphs := Expected(init, rect, fails);
        match PlanWord(last, rect)
        case Raise =>
        case Skip =>
          assert Placed(last, rect, fails) == [];
          assert glyphs + [] == glyphs;
        case Emit(g) =>
          if fails(g) {
            assert Placed(last, rect, fails) == [];
            assert glyphs + [] == glyphs;
          } else {
            assert Expected(els, rect, fails) == glyphs + [g];
          }
      }
    }
  }

  /** A glyph is expected exactly when some non-blank word produced it and its append succeeded. */
  lemma {:induction false} ExpectedMembers(els: seq<BoundingBoxElement>, rect: Rect, fails: Glyph -> bool, g: Glyph)
    ensures g in Expected(els, rect, fails) <==>
            exists el :: el in els && PlanWord(el, rect) == Emit(g) && !fails(g)
    decreases |els|
  {
    if els != [] {
      ExpectedMembers(els[1..], rect, fails, g);
      assert forall el :: el in els <==> el == els[0] || el in els[1..];
    }
  }

  /** Taking one element out of a sequence takes it out of its multiset. */
  lemma RemoveAt(b: seq<BoundingBoxElement>, i: int)
    requires 0 <= i < |b|
    ensures multiset(b) == multiset(b[..i] + b[i + 1..]) + multiset{b[i]}
  {
    assert b == b[..i] + [b[i]] + b[i + 1..];
  }

  /** Removing the same element from two permutations of each other leaves permutations. */
  lemma RemoveFromBoth(a: seq<BoundingBoxElement>, b: seq<BoundingBoxElement>, i: int)
    requires multiset(a) == multiset(b) && a != [] && 0 <= i < |b| && b[i] == a[0]
    ensures multiset(a[1..]) == multiset(b[..i] + b[i + 1..])
  {
    RemoveAt(b, i);
    RemoveAt(a, 0);
    assert a[..0] + a[1..] == a[1..];
    var rest := b[..i] + b[i + 1..];
    forall y ensures multiset(a[1..])[y] == multiset(rest)[y] {
      assert multiset(a)[y] == multiset(b)[y];
    }
  }

  /** The glyphs of a sequence, split around the element at `i`. */
  lemma ExpectedAround(b: seq<BoundingBoxElement>, i: int, rect: Rect, fails: Glyph -> bool)
    requires 0 <= i < |b|
    ensures multiset(Expected(b, rect, fails))
            == multiset(Expected(b[..i] + b[i + 1..], rect, fails)) + multiset(Placed(b[i], rect, fails))
  {
    assert b == b[..i] + ([b[i]] + b[i + 1..]);
    ExpectedConcat(b[..i], [b[i]] + b[i + 1..], rect, fails);
    ExpectedConcat([b[i]], b[i + 1..], rect, fails);
    ExpectedConcat(b[..i], b[i + 1..], rect, fails);
    assert Expected([b[i]], rect, fails) == Placed(b[i], rect, fails) + Expected([], rect, fails) by {
      assert [b[i]][1..] == [];
    }
  }

  /** Reordering the words does not change the multiset of glyphs placed. */
  lemma {:induction false} ExpectedIgnoresOrder(a: seq<BoundingBoxElement>, b: seq<BoundingBoxElement>,
                                                rect: Rect, fails: Glyph -> bool)
    requires multiset(a) == multiset(b)
    ensures multiset(Expected(a, rect, fails)) == multiset(Expected(b, rect, fails))
    decreases |a|
  {
    if a != [] {
      assert a[0] in multiset(b);
      var i :| 0 <= i < |b| && b[i] == a[0];
      RemoveFromBoth(a, b, i);
      ExpectedIgnoresOrder(a[1..], b[..i] + b[i + 1..], rect, fails);
      ExpectedAround(b, i, rect, fails);
      ExpectedAround(a, 0, rect, fails);
      assert a[..0] + a[1..] == a[1..];
    }
  }

  // ---------------------------------------------------------------------------
  // One page

  /** `[e for e in elements if e.page == page_num]` */
  function PageElements(elements: seq<BoundingBoxElement>, pageNum: int): (r: seq<BoundingBoxElement>)
    ensures |r| <= |elements|
    ensures forall e :: e in r ==> e.page == pageNum
  {
    if elements == [] then []
    else (if elements[0].page == pageNum then [elements[0]] else []) + PageElements(elements[1..], pageNum)
  }

  /** Each element of page `pageNum` is kept as often as it occurs; any other is dropped. */
  lemma {:induction false} PageElementsCount(elements: seq<BoundingBoxElement>, pageNum: int, e: BoundingBoxElement)
    ensures multiset(PageElements(elements, pageNum))[e]
            == if e.page == pageNum then multiset(elements)[e] else 0
    decreases |elements|
  {
    if elements != [] {
      assert elements == [elements[0]] + elements[1..];
      PageElementsCount(elements[1..], pageNum, e);
    }
  }

  lemma PageElementsIgnoresOrder(e1: seq<BoundingBoxElement>, e2: seq<BoundingBoxElement>, pageNum: int)
    requires multiset(e1) == multiset(e2)
    ensures multiset(PageElements(e1, pageNum)) == multiset(PageElements(e2, pageNum))
  {
    var m1, m2 := multiset(PageElements(e1, pageNum)), multiset(PageElements(e2, pageNum));
    forall e ensures m1[e] == m2[e] {
      PageElementsCount(e1, pageNum, e);
      PageElementsCount(e2, pageNum, e);
    }
  }

  /** The glyphs one page receives, or `None` when one of its contents raises. */
  function PagePlan(page: Page, pageNum: int, elements: seq<BoundingBoxElement>, fails: Glyph -> bool)
    : Option<seq<Glyph>>
  {
    PlaceWords(SortByReadingOrder(PageElements(elements, pageNum)), ContentRect(page), fails)
  }

  /** The sorted elements of page `pageNum` are exactly the input elements on that page. */
  lemma SortedPageElements(elements: seq<BoundingBoxElement>, pageNum: int)
    ensures forall e :: e in SortByReadingOrder(PageElements(elements, pageNum)) <==>
                        e in elements && e.page == pageNum
  {
    var selected := PageElements(elements, pageNum);
    var sorted := SortByReadingOrder(selected);
    SortIsPermutation(selected);
    forall e ensures e in sorted <==> e in elements && e.page == pageNum {
      PageElementsCount(elements, pageNum, e);
      assert e in sorted <==> multiset(sorted)[e] > 0;
      assert e in elements <==> multiset(elements)[e] > 0;
    }
  }

  /** A page's plan succeeds exactly when every element of that page has string content. */
  lemma PagePlanSucceeds(page: Page, pageNum: int, elements: seq<BoundingBoxElement>, fails: Glyph -> bool)
    ensures PagePlan(page, pageNum, elements, fails).Some? <==>
            forall e :: e in elements && e.page == pageNum ==> e.content.JStr?
  {
    PlaceWordsIsExpected(SortByReadingOrder(PageElements(elements, pageNum)), ContentRect(page), fails);
    SortedPageElements(elements, pageNum);
  }

  /**
   * A page whose plan succeeds receives, for each of its non-blank words whose append
   * succeeds, that word's glyph at the mapped point inside the page's content rect, and
   * nothing else.
   */
  lemma PagePlanPlacesPageWords(page: Page, pageNum: int, elements: seq<BoundingBoxElement>,
                                fails: Glyph -> bool)
    requires PagePlan(page, pageNum, elements, fails).Some?
    ensures forall g :: g in PagePlan(page, pageNum, elements, fails).value <==>
      exists e :: e in elements && e.page == pageNum
                  && PlanWord(e, ContentRect(page)) == Emit(g) && !fails(g)
  {
    var rect := ContentRect(page);
    var sorted := SortByReadingOrder(PageElements(elements, pageNum));
    PlaceWordsIsExpected(sorted, rect, fails);
    SortedPageElements(elements, pageNum);
    forall g ensures g in Expected(sorted, rect, fails) <==>
        exists e :: e in elements && e.page == pageNum && PlanWord(e, rect) == Emit(g) && !fails(g)
    {
      ExpectedMembers(sorted, rect, fails, g);
    }
  }

  /**
   * A page that succeeds receives one glyph for each of its non-blank words whose append
   * succeeds, and nothing else: the same glyphs as placing its words in input order.
   */
  lemma PagePlanHoldsPageWords(page: Page, pageNum: int, elements: seq<BoundingBoxElement>,
                               fails: Glyph -> bool)
    ensures PagePlan(page, pageNum, elements, fails).Some? ==>
      multiset(PagePlan(page, pageNum, elements, fails).value)
      == multiset(Expected(PageElements(elements, pageNum), ContentRect(page), fails))
  {
    var rect := ContentRect(page);
    var selected := PageElements(elements, pageNum);
    var sorted := SortByReadingOrder(selected);
    PlaceWordsIsExpected(sorted, rect, fails);
    SortIsPermutation(selected);
    ExpectedIgnoresOrder(sorted, selected, rect, fails);
  }

  /**
   * Only the multiset of elements matters: permuting the input changes neither whether a
   * page succeeds nor the multiset of glyphs it receives.
   */
  lemma PagePlanIgnoresInputOrder(page: Page, pageNum: int, e1: seq<BoundingBoxElement>,
                                  e2: seq<BoundingBoxElement>, fails: Glyph -> bool)
    requires multiset(e1) == multiset(e2)
    ensures PagePlan(page, pageNum, e1, fails).Some? == PagePlan(page, pageNum, e2, fails).Some?
    ensures PagePlan(page, pageNum, e1, fails).Some? ==>
      multiset(PagePlan(page, pageNum, e1, fails).value) == multiset(PagePlan(page, pageNum, e2, fails).value)
  {
    var rect := ContentRect(page);
    var s1 := SortByReadingOrder(PageElements(e1, pageNum));
    var s2 := SortByReadingOrder(PageElements(e2, pageNum));
    PageElementsIgnoresOrder(e1, e2, pageNum);
    SortIsPermutation(PageElements(e1, pageNum));
    SortIsPermutation(PageElements(e2, pageNum));
    assert multiset(s1) == multiset(s2);
    PlaceWordsIsExpected(s1, rect, fails);
    PlaceWordsIsExpected(s2, rect, fails);
    assert AllText(s1) <==> AllText(s2) by {
      assert forall e :: e in s1 <==> e in multiset(s1);
      assert forall e :: e in s2 <==> e in multiset(s2);
    }
    ExpectedIgnoresOrder(s1, s2, rect, fails);
  }

  // ---------------------------------------------------------------------------
  // Every page

  /** The plan of every page; entry `i` is page `i + 1`. */
  function Plans(pages: seq<Page>, elements: seq<BoundingBoxElement>, fails: Glyph -> bool)
    : (r: seq<Option<seq<Glyph>>>)
    ensures |r| == |pages|
  {
    seq(|pages|, i requires 0 <= i < |pages| => PagePlan(pages[i], i + 1, elements, fails))
  }

  /** Page `n`'s entry of the plans succeeds exactly when that page's contents are all strings. */
  lemma PlanSucceeds(pages: seq<Page>, elements: seq<BoundingBoxElement>, fails: Glyph -> bool, n: int)
    requires 1 <= n <= |pages|
    ensures Plans(pages, elements, fails)[n - 1].Some? <==>
            forall e :: e in elements && e.page == n ==> e.content.JStr?
  {
    assert Plans(pages, elements, fails)[n - 1] == PagePlan(pages[n - 1], n, elements, fails);
    PagePlanSucceeds(pages[n - 1], n, elements, fails);
  }

  /** Page `n`'s entry of the plans, when it succeeds, holds exactly the glyphs of page `n`'s words. */
  lemma PlanHoldsPageWords(pages: seq<Page>, elements: seq<BoundingBoxElement>, fails: Glyph -> bool, n: int)
    requires 1 <= n <= |pages| && Plans(pages, elements, fails)[n - 1].Some?
    ensures multiset(Plans(pages, elements, fails)[n - 1].value)
            == multiset(Expected(PageElements(elements, n), ContentRect(pages[n - 1]), fails))
  {
    assert Plans(pages, elements, fails)[n - 1] == PagePlan(pages[n - 1], n, elements, fails);
    PagePlanHoldsPageWords(pages[n - 1], n, elements, fails);
  }

  /** Page `n`'s entry of the plans is the plan of page `n`. */
  lemma PlanIsPagePlan(pages: seq<Page>, elements: seq<BoundingBoxElement>, fails: Glyph -> bool, n: int)
    requires 1 <= n <= |pages|
    ensures Plans(pages, elements, fails)[n - 1] == PagePlan(pages[n - 1], n, elements, fails)
  {
  }

}
