/**
 * The document-level part of the text-layer planner (backend/app/pdf_embedder.py):
 * `embed_text_layer`, with PyMuPDF's `Document` and `TextWriter` as classes.
 * What the planner does to the document is recorded, in order, as `PageOp`s: the
 * content-stream normalisation of a page and the invisible text written onto it.
 */
module EmbedDocument {
  import opened Wrappers
  import opened Docstrange
  import opened ReadingOrder
  import opened PdfEmbedder

  /** `TextWriter.write_text(page, render_mode=3, ...)`: mode 3 draws nothing but stays extractable. */
  const InvisibleRenderMode := 3

  /** What the planner does to a page of the document, in order. */
  datatype PageOp =
    | ContentsCleaned(page: int)                                                  // `page.clean_contents()`
    | TextWritten(page: int, glyphs: seq<Glyph>, renderMode: int, overlay: bool)  // `tw.write_text(page, ...)`

  /** Every page numbered below `k` was processed without an exception. */
  predicate SucceedsBelow(plans: seq<Option<seq<Glyph>>>, k: int) {
    forall i :: 0 <= i < k - 1 && i < |plans| ==> plans[i].Some?
  }

  /** The operations on page `n` with plan `plan`: normalise it, then write its text unless a content raised. */
  function PlanOps(n: int, plan: Option<seq<Glyph>>): seq<PageOp> {
    match plan
    case Some(glyphs) => [ContentsCleaned(n), TextWritten(n, glyphs, InvisibleRenderMode, true)]
    case None => [ContentsCleaned(n)]
  }

  /** The operations on page `n` of the document. */
  function PageOps(plans: seq<Option<seq<Glyph>>>, n: int): seq<PageOp>
    requires 1 <= n <= |plans|
  {
    PlanOps(n, plans[n - 1])
  }

  /** The operations on pages `1..k`, stopping after the first page whose content raised. */
  function EmbedTrace(plans: seq<Option<seq<Glyph>>>, k: nat): seq<PageOp>
    requires k <= |plans|
  {
    if k == 0 then []
    else EmbedTrace(plans, k - 1) + (if SucceedsBelow(plans, k) then PageOps(plans, k) else [])
  }

  /** A page reached with every earlier page succeeding extends the trace by its own operations. */
  lemma TraceStep(plans: seq<Option<seq<Glyph>>>, k: nat)
    requires 1 <= k <= |plans| && SucceedsBelow(plans, k)
    ensures plans[k - 1].Some? ==> SucceedsBelow(plans, k + 1)
    ensures EmbedTrace(plans, k) == EmbedTrace(plans, k - 1) + PageOps(plans, k)
  {
  }


  /** After a page raised, later pages add nothing. */
  lemma {:induction false} TraceStopsAtFailure(plans: seq<Option<seq<Glyph>>>, m: nat, k: nat)
    requires 1 <= m <= k <= |plans|
    requires plans[m - 1].None?
    ensures EmbedTrace(plans, k) == EmbedTrace(plans, m)
    decreases k
  {
    if k > m {
      TraceStopsAtFailure(plans, m, k - 1);
      assert !SucceedsBelow(plans, k);
    }
  }

  /**
   * When every page succeeds, page `n` is normalised exactly once, at position `2n-2`,
   * and its text is written right after, invisibly and as an overlay.
   */
  lemma {:induction false} TraceIsCleanThenWrite(plans: seq<Option<seq<Glyph>>>, k: nat)
    requires k <= |plans|
    requires SucceedsBelow(plans, k + 1)
    ensures |EmbedTrace(plans, k)| == 2 * k
    ensures forall n :: 1 <= n <= k ==>
      && EmbedTrace(plans, k)[2 * n - 2] == ContentsCleaned(n)
      && EmbedTrace(plans, k)[2 * n - 1] == TextWritten(n, plans[n - 1].value, InvisibleRenderMode, true)
    decreases k
  {
    if k > 0 {
      TraceIsCleanThenWrite(plans, k - 1);
      assert SucceedsBelow(plans, k);
      assert plans[k - 1].Some?;
    }
  }

  /** Every text written is the plan of a page `1..k`, written invisibly as an overlay. */
  lemma {:induction false} WrittenTextIsPagePlan(plans: seq<Option<seq<Glyph>>>, k: nat, op: PageOp)
    requires k <= |plans|
    requires op in EmbedTrace(plans, k) && op.TextWritten?
    ensures 1 <= op.page <= k && plans[op.page - 1] == Some(op.glyphs)
    ensures op.renderMode == InvisibleRenderMode && op.overlay
    decreases k
  {
    if op in EmbedTrace(plans, k - 1) {
      WrittenTextIsPagePlan(plans, k - 1, op);
    }
  }

  /** `fitz.TextWriter`: collects glyph runs, then writes them to a page. */
  class TextWriter {
    const pageRect: Rect
    var glyphs: seq<Glyph>

    constructor (pageRect: Rect)
      ensures this.pageRect == pageRect && glyphs == []
    {
      this.pageRect := pageRect;
      glyphs := [];
    }

    /** `tw.append(...)`; `fails` says whether shaping the run raises, leaving the writer as it was. */
    method Append(g: Glyph, fails: bool) returns (appended: bool)
      modifies this
      ensures appended == !fails
      ensures glyphs == if appended then old(glyphs) + [g] else old(glyphs)
    {
      appended := !fails;
      if appended {
        glyphs := glyphs + [g];
      }
    }

    /** `tw.write_text(page, render_mode=..., overlay=...)` */
    method WriteText(doc: Document, pageNum: int, renderMode: int, overlay: bool)
      modifies doc
      ensures doc.ops == old(doc.ops) + [TextWritten(pageNum, glyphs, renderMode, overlay)]
    {
      doc.ops := doc.ops + [TextWritten(pageNum, glyphs, renderMode, overlay)];
    }
  }

  /** An open `fitz.Document`: its pages and the operations applied to them so far. */
  class Document {
    const pages: seq<Page>
    var ops: seq<PageOp>

    constructor (pages: seq<Page>)
      ensures this.pages == pages && ops == []
    {
      this.pages := pages;
      ops := [];
    }

    /** `doc[pageNum - 1].clean_contents()` */
    method CleanContents(pageNum: int)
      modifies this
      ensures ops == old(ops) + [ContentsCleaned(pageNum)]
    {
      ops := ops + [ContentsCleaned(pageNum)];
    }
  }

  /** `_get_page_dimensions`: (width, height) of every page, keyed by 1-based page number. */
  method PageDimensions(doc: Document) returns (dims: map<int, (real, real)>)
    ensures forall n :: n in dims <==> 1 <= n <= |doc.pages|
    ensures forall n :: 1 <= n <= |doc.pages| ==>
      dims[n] == (doc.pages[n - 1].rect.Width(), doc.pages[n - 1].rect.Height())
  {
    dims := map[];
    var i := 0;
    while i < |doc.pages|
      invariant 0 <= i <= |doc.pages|
      invariant forall n :: n in dims <==> 1 <= n <= i
      invariant forall n :: 1 <= n <= i ==>
        dims[n] == (doc.pages[n - 1].rect.Width(), doc.pages[n - 1].rect.Height())
    {
      var rect := doc.pages[i].rect;
      dims := dims[i + 1 := (rect.Width(), rect.Height())];
      i := i + 1;
    }
  }

  /** `_get_page_content_bounds`: the content rect of every page, keyed by 1-based page number. */
  method PageContentBounds(doc: Document) returns (bounds: map<int, Rect>)
    ensures forall n :: n in bounds <==> 1 <= n <= |doc.pages|
    ensures forall n :: 1 <= n <= |doc.pages| ==> bounds[n] == ContentRect(doc.pages[n - 1])
  {
    bounds := map[];
    var i := 0;
    while i < |doc.pages|
      invariant 0 <= i <= |doc.pages|
      invariant forall n :: n in bounds <==> 1 <= n <= i
      invariant forall n :: 1 <= n <= i ==> bounds[n] == ContentRect(doc.pages[n - 1])
    {
      bounds := bounds[i + 1 := ContentRect(doc.pages[i])];
      i := i + 1;
    }
  }

  /**
   * The word loop of one page: place `els` in order on `tw`. `ok` is false when a content
   * raised; the writer then holds what was appended before it and is never written.
   */
  method PlaceWordsOn(tw: TextWriter, els: seq<BoundingBoxElement>, appendFails: Glyph -> bool)
    returns (ok: bool)
    requires tw.glyphs == []
    modifies tw
    ensures ok <==> PlaceWords(els, tw.pageRect, appendFails).Some?
    ensures ok ==> PlaceWords(els, tw.pageRect, appendFails) == Some(tw.glyphs)
  {
    var rect := tw.pageRect;
    for i := 0 to |els|
      invariant PlaceWords(els[..i], rect, appendFails) == Some(tw.glyphs)
    {
      var el := els[i];
      var box := el.boundingBox;
      var point := NormalizedToPdfPoint(box.x, box.y, box.width, box.height, rect);
      var fontSize := FontSizeFromHeight(box.height, rect.Height());
      PlaceWordsStep(els, i, rect, appendFails, tw.glyphs);

      if !el.content.JStr? {
        // `el.content.strip()` raises outside the `try`: the whole call fails here
        PlaceWordsStaysNone(els, i + 1, rect, appendFails);
        return false;
      }
      if Blank(el.content.s) {
        continue;
      }
      var glyph := Glyph(point.0, point.1, fontSize, el.content.s);
      var _ := tw.Append(glyph, appendFails(glyph));
    }
    assert els[..|els|] == els;
    return true;
  }

  /**
   * One pass of `embed_text_layer`'s page loop: normalise page `pageNum`, place its sorted
   * words and write them. `ok` is false when a content raised before the write.
   */
  method EmbedPage(doc: Document, elements: seq<BoundingBoxElement>, appendFails: Glyph -> bool,
                   pageNum: int)
    returns (ok: bool)
    requires 1 <= pageNum <= |doc.pages|
    modifies doc
    ensures ok <==> PagePlan(doc.pages[pageNum - 1], pageNum, elements, appendFails).Some?
    ensures doc.ops == old(doc.ops) + PlanOps(pageNum, PagePlan(doc.pages[pageNum - 1], pageNum, elements, appendFails))
  {
    var page := doc.pages[pageNum - 1];
    doc.CleanContents(pageNum);

    var pageElements := PageElements(elements, pageNum);
    pageElements := SortByReadingOrder(pageElements);

    var contentRect := ContentRect(page);
    var tw := new TextWriter(contentRect);
    ok := PlaceWordsOn(tw, pageElements, appendFails);
    if ok {
      tw.WriteText(doc, pageNum, InvisibleRenderMode, true);
    }
  }

  /**
   * `embed_text_layer`: open the input document (`pdf`, its pages), then normalise each page
   * and write its words. `ok` is false when a content raised; the document is then abandoned
   * with what was done up to that point. `doc` stands for the saved output.
   */
  method EmbedTextLayer(pdf: seq<Page>, elements: seq<BoundingBoxElement>, appendFails: Glyph -> bool)
    returns (ok: bool, doc: Document)
    ensures doc.pages == pdf
    ensures ok <==> SucceedsBelow(Plans(pdf, elements, appendFails), |pdf| + 1)
    ensures doc.ops == EmbedTrace(Plans(pdf, elements, appendFails), |pdf|)
  {
    doc := new Document(pdf);
    ghost var plans := Plans(pdf, elements, appendFails);
    var pdfDims := PageDimensions(doc);
    var pageNum := 1;
    while pageNum <= |pdf|
      invariant 1 <= pageNum <= |pdf| + 1
      invariant doc.pages == pdf
      invariant SucceedsBelow(plans, pageNum)
      invariant doc.ops == EmbedTrace(plans, pageNum - 1)
    {
      assert pageNum in pdfDims;
      PlanIsPagePlan(pdf, elements, appendFails, pageNum);
      TraceStep(plans, pageNum);
      var pageOk := EmbedPage(doc, elements, appendFails, pageNum);
      if !pageOk {
        TraceStopsAtFailure(plans, pageNum, |pdf|);
        return false, doc;
      }
      pageNum := pageNum + 1;
    }
    return true, doc;
  }

  /** `embed_text_layer_from_result`: the elements of an extraction result. */
  method EmbedTextLayerFromResult(pdf: seq<Page>, result: ExtractResult, appendFails: Glyph -> bool)
    returns (ok: bool, doc: Document)
    ensures doc.pages == pdf
    ensures ok <==> SucceedsBelow(Plans(pdf, result.elements, appendFails), |pdf| + 1)
    ensures doc.ops == EmbedTrace(Plans(pdf, result.elements, appendFails), |pdf|)
  {
    ok, doc := EmbedTextLayer(pdf, result.elements, appendFails);
  }
}
