/**
 * What `embed_text_layer` guarantees about the whole document (backend/app/pdf_embedder.py),
 * stated over the operation trace that `EmbedDocument.EmbedTextLayer` is proved to produce.
 */
module EmbedProperties {
  import opened Wrappers
  import opened Docstrange
  import opened ReadingOrder
  import opened PdfEmbedder
  import opened EmbedDocument

  /**
   * Every text written lands on a page `1..N` of the document, invisibly and as an overlay,
   * and holds exactly the glyphs of that page's own non-blank words whose append succeeded:
   * an element whose page is outside `1..N` is never placed.
   */
  lemma WrittenTextBelongsToItsPage(pages: seq<Page>, elements: seq<BoundingBoxElement>,
                                    fails: Glyph -> bool, op: PageOp)
    requires op in EmbedTrace(Plans(pages, elements, fails), |pages|) && op.TextWritten?
    ensures 1 <= op.page <= |pages| && op.renderMode == InvisibleRenderMode && op.overlay
    ensures multiset(op.glyphs)
            == multiset(Expected(PageElements(elements, op.page), ContentRect(pages[op.page - 1]), fails))
  {
    WrittenTextIsPagePlan(Plans(pages, elements, fails), |pages|, op);
    PlanHoldsPageWords(pages, elements, fails, op.page);
  }

  /**
   * When every page succeeds, page `n` is normalised and then receives exactly the glyphs
   * of its non-blank words whose append succeeded.
   */
  lemma EveryPageIsWritten(pages: seq<Page>, elements: seq<BoundingBoxElement>, fails: Glyph -> bool, n: int)
    requires SucceedsBelow(Plans(pages, elements, fails), |pages| + 1)
    requires 1 <= n <= |pages|
    ensures |EmbedTrace(Plans(pages, elements, fails), |pages|)| == 2 * |pages|
    ensures EmbedTrace(Plans(pages, elements, fails), |pages|)[2 * n - 2] == ContentsCleaned(n)
    ensures EmbedTrace(Plans(pages, elements, fails), |pages|)[2 * n - 1].TextWritten?
    ensures EmbedTrace(Plans(pages, elements, fails), |pages|)[2 * n - 1].page == n
    ensures multiset(EmbedTrace(Plans(pages, elements, fails), |pages|)[2 * n - 1].glyphs)
            == multiset(Expected(PageElements(elements, n), ContentRect(pages[n - 1]), fails))
  {
    var plans := Plans(pages, elements, fails);
    assert plans[n - 1].Some?;
    TraceIsCleanThenWrite(plans, |pages|);
    PlanHoldsPageWords(pages, elements, fails, n);
  }

  /** The document-level call raises exactly when some element of a page `1..N` has non-string content. */
  lemma EmbedFailsOnlyOnNonTextContent(pages: seq<Page>, elements: seq<BoundingBoxElement>, fails: Glyph -> bool)
    ensures SucceedsBelow(Plans(pages, elements, fails), |pages| + 1) <==>
      forall e :: e in elements && 1 <= e.page <= |pages| ==> e.content.JStr?
  {
    var plans := Plans(pages, elements, fails);
    if SucceedsBelow(plans, |pages| + 1) {
      forall e | e in elements && 1 <= e.page <= |pages| ensures e.content.JStr? {
        assert plans[e.page - 1].Some?;
        PlanSucceeds(pages, elements, fails, e.page);
      }
    } else {
      var i :| 0 <= i < |pages| && plans[i].None?;
      PlanSucceeds(pages, elements, fails, i + 1);
    }
  }

  /** With no elements, every page is normalised and then receives an empty text layer. */
  lemma NoElementsWriteNothing(pages: seq<Page>, fails: Glyph -> bool)
    ensures SucceedsBelow(Plans(pages, [], fails), |pages| + 1)
    ensures |EmbedTrace(Plans(pages, [], fails), |pages|)| == 2 * |pages|
    ensures forall n :: 1 <= n <= |pages| ==>
      && EmbedTrace(Plans(pages, [], fails), |pages|)[2 * n - 2] == ContentsCleaned(n)
      && EmbedTrace(Plans(pages, [], fails), |pages|)[2 * n - 1] == TextWritten(n, [], InvisibleRenderMode, true)
  {
    var plans := Plans(pages, [], fails);
    forall i | 0 <= i < |pages| ensures plans[i] == Some([]) {
      assert PageElements([], i + 1) == [];
      assert SortByReadingOrder([]) == [];
    }
    TraceIsCleanThenWrite(plans, |pages|);
  }
}
