# searchable-pdf: the response adapter and the text-layer planner

This project models the two parts of the searchable-PDF backend that hold its logic:

- **The extraction-response adapter** (`backend/app/docstrange.py`). It takes the reply of
  the Docstrange sync extraction call and either raises a `DocstrangeError` or returns an
  `ExtractResult`. That result holds the markdown content, the word elements that carry a
  bounding box, and the page dimensions. The module `Json` models the Python dict and JSON
  behaviour the adapter relies on: truthiness, `get` with a default, `float()`/`int()` and
  iteration. The module `Docstrange` models the adapter. Each field is read with the
  source's default, and every status and shape check is made in the source's order, each
  with its own error message and status code.
- **The text-layer planner** (`backend/app/pdf_embedder.py`):
  - The module `PdfEmbedder` covers the geometry: the content rectangle, the mapping from
    normalized coordinates to a baseline point, and the clamped font size. It also covers
    what is written for one word, the word loop of one page as a function (`PlaceWords`)
    with a reference definition (`Expected`), and the plan of each page.
  - The module `ReadingOrder` is the stable sort by `(markdown_line, word_offset)`.
  - The module `EmbedDocument` holds the imperative part. `Document` and `TextWriter` are
    classes whose methods update their fields. `EmbedTextLayer` opens a document from the
    input pages, then runs the page loop and, nested in it, the word loop. Every method is
    proved against the plan functions.
  - The module `EmbedProperties` states what the whole call guarantees. Each page is
    normalised and then written. A written text layer holds exactly the glyphs of its own
    page's non-blank words whose append succeeded. Given that no PyMuPDF call other than
    `tw.append` raises, the call fails exactly when a word on some page 1..N has non-string
    content.

What the planner does to the document is recorded, in order, as operations
(`ContentsCleaned(n)`, `TextWritten(n, glyphs, renderMode, overlay)`). The saved output is
that record. An exception raised by `tw.append` is an oracle `fails: Glyph -> bool`. When a
content raises and aborts the call, the result is `ok == false`.

Two behaviours of the source worth knowing:

- A word whose content is not a string raises at `el.content.strip()`
  (`backend/app/pdf_embedder.py:96`). That line is outside the `try`, so it aborts the
  whole call, not just that word.
- The document is not closed on that path: the source has no `try`/`finally` around the
  page loop (`backend/app/pdf_embedder.py:71-113`).

## Model

| member | source | states |
|---|---|---|
| Json.Truncate | backend/app/docstrange.py:61 | `int()` of a float truncates toward zero: the result is within 1 of the input, on the side of zero |
| Json.ToIntTruncatesToFloat | backend/app/docstrange.py:57-61 | `int()` and `float()` accept the same decoded values, and `int()` of one is its `float()` truncated toward zero |
| Json.Items | backend/app/docstrange.py:155-157 | iteration yields a list's items; an empty dict or string yields nothing; any other value fails, a non-empty dict or string through `.get` on its keys or characters |
| Docstrange.ParseBoundingBox | backend/app/docstrange.py:54-63 | a falsy payload gives the all-defaults box (0, 0, 0, 0, page 1, normalized `True`); a truthy non-dict fails; a dict parses exactly when its numeric fields coerce, and each field is then the coerced value or its default |
| Docstrange.ParseElement | backend/app/docstrange.py:66-74 | parses exactly when the item is a dict whose `page`, `markdown_line` and `word_offset` coerce to int and whose `bounding_box` (or `{}`) parses; each field is then read with its default (content "", page 1, line 0, offset 0) |
| Docstrange.ParsePage | backend/app/docstrange.py:80-84 | one page entry: parses exactly when it is a dict whose fields coerce; its page number defaults to its position plus one, its width and height to 0 |
| Docstrange.ParsePages | backend/app/docstrange.py:79-86 | the comprehension over `enumerate(pages)` succeeds exactly when every entry parses, and then yields one dimension per entry, in order, each numbered from its own position |
| Docstrange.ParsePageDimensions | backend/app/docstrange.py:77-86 | a non-dict fails; a missing `pages` gives the empty list; a `pages` list parses exactly when each entry does, and entry k is then that entry read with page k+1 and width and height 0 as defaults; any other `pages` gives [] when it is empty (`{}`, `""`) and fails otherwise |
| Docstrange.Boxed | backend/app/docstrange.py:155-159 | the filter keeps exactly the items that are dicts with a truthy `bounding_box`, and never more items than it was given |
| Docstrange.ParseElementsSucceeds | backend/app/docstrange.py:154-159 | the element comprehension succeeds exactly when every item is a dict (`el.get` on each) and every kept item parses |
| Docstrange.ParseElementsKeepsBoxed | backend/app/docstrange.py:154-159 | a successful comprehension yields the kept items, each parsed, in their original order |
| Docstrange.ErrorDetail | backend/app/docstrange.py:112-115 | the error detail is the body's `detail` when the body is a JSON dict holding one, and the response text otherwise |
| Docstrange.StatusError | backend/app/docstrange.py:107-119 | a status of 400 or more raises, with that status code: 401 and 429 with their fixed messages, any other with the API-error detail; a status below 400 passes |
| Docstrange.CheckSuccess | backend/app/docstrange.py:123-133 | a non-dict body fails; a body whose `success` is falsy or whose `status` is "failed" raises with its own `message` (default "Extraction failed") and status 400; any other body passes |
| Docstrange.BoundingBoxBlock | backend/app/docstrange.py:135-152 | a missing or falsy `bounding_boxes` raises "No bounding boxes ..." (400); a block whose `success` is falsy raises "Bounding box extraction was not successful" (400); otherwise the block and `result.markdown.content` (default "") are passed on |
| Docstrange.ParseBoundingBoxBlock | backend/app/docstrange.py:154-162 | the block parses exactly when `elements` (default `[]`) is iterable, its comprehension succeeds and `page_dimensions` (default `{}`) parses; the elements and dimensions are then those results |
| Docstrange.ExtractWithBboxes | backend/app/docstrange.py:89-168 | status errors come first and keep their status; every other `DocstrangeError` has status 400; a body that is not JSON, or not a dict, fails; a body reporting failure raises its own message; a bounding-box block that is missing or unsuccessful raises the block's own error ("No bounding boxes ..." or "Bounding box extraction was not successful"); elements or page dimensions that do not parse fail; the call succeeds exactly when the reply passes every check and its elements and page dimensions parse |
| Docstrange.ExtractedElementsAreBoxedInputs | backend/app/docstrange.py:135-168 | a successful extraction carries the markdown content and, in the reply's order, exactly the elements with a truthy `bounding_box`, each parsed, plus the parsed page dimensions |
| Docstrange.EmptyBoxIsDropped | backend/app/docstrange.py:158 | an element whose `bounding_box` is falsy is skipped, not parsed |
| Docstrange.MissingBoundingBoxesScenario | backend/app/docstrange.py:139-146 | a 200 reply whose metadata lacks `bounding_boxes` raises "No bounding boxes ..." with status 400 |
| Docstrange.BoxlessElementScenario | backend/app/docstrange.py:154-159 | of a word with a box and an image entry without one, only the word is returned |
| ReadingOrder.Insert | backend/app/pdf_embedder.py:81 | one insertion step of the sort adds exactly the inserted element |
| ReadingOrder.InsertKeepsSorted | backend/app/pdf_embedder.py:81 | inserting into a list sorted by `(markdown_line, word_offset)` keeps it sorted |
| ReadingOrder.SortByReadingOrder | backend/app/pdf_embedder.py:81 | the sort keeps the length of the list |
| ReadingOrder.SortIsPermutation | backend/app/pdf_embedder.py:81 | the sort is a permutation of its input |
| ReadingOrder.SortIsSorted | backend/app/pdf_embedder.py:81 | the sort's result is ascending in `(markdown_line, word_offset)`, compared as tuples |
| ReadingOrder.SortIsStable | backend/app/pdf_embedder.py:81 | the sort is stable: elements with equal keys keep their input order |
| PdfEmbedder.ContentRect | backend/app/pdf_embedder.py:8-19 | the content rect is the first placement of the page's first image, or the page rect when there is no image or no placement |
| PdfEmbedder.PointAtOrigin | backend/app/pdf_embedder.py:40-54 | a box at the top-left whose bottom edge is at 0 maps to the content rect's top-left corner |
| PdfEmbedder.PointAtFarCorner | backend/app/pdf_embedder.py:40-54 | a box whose left edge is at 1 and bottom edge at 1 maps to the content rect's bottom-right corner |
| PdfEmbedder.PointStaysInContent | backend/app/pdf_embedder.py:40-54 | a box whose left edge and bottom edge lie in [0, 1] maps inside the content rect |
| PdfEmbedder.WidthIsIgnored | backend/app/pdf_embedder.py:40-54 | the box width never moves the insertion point |
| PdfEmbedder.PointIsMonotone | backend/app/pdf_embedder.py:49-53 | for boxes of any width and height, moving the left edge right or the bottom edge down never moves the point left or up (top-left origin, no flip) |
| PdfEmbedder.FontSizeFromHeight | backend/app/pdf_embedder.py:57-60 | the font size always lies in [4, 72] points |
| PdfEmbedder.FontSizeClamps | backend/app/pdf_embedder.py:57-60 | the font size is the box height in points when that lies in [4, 72], and otherwise the bound it passes |
| PdfEmbedder.FontSizeIsMonotone | backend/app/pdf_embedder.py:57-60 | on a content rect of non-negative height, a taller box never gets a smaller font |
| PdfEmbedder.FontSizeExamples | backend/app/pdf_embedder.py:57-60 | heights 0.5 and 0.001 on a 792-point rect give 72 and 4 points |
| PdfEmbedder.PlanWord | backend/app/pdf_embedder.py:88-107 | one word raises exactly when its content is not a string, and is skipped exactly when the content is whitespace only |
| PdfEmbedder.PlanWordPlacement | backend/app/pdf_embedder.py:89-105 | a placed word carries its own text, at its box's mapped point, with the font size of its box height in content-rect points |
| PdfEmbedder.PlaceWordsStaysNone | backend/app/pdf_embedder.py:96 | once a content has raised, the rest of the loop cannot undo it |
| PdfEmbedder.PlaceWordsIsExpected | backend/app/pdf_embedder.py:88-107 | the word loop raises exactly when some content is not a string; otherwise the writer holds one glyph per non-blank word whose append succeeded, in loop order, so a failed append skips only its own word |
| PdfEmbedder.ExpectedMembers | backend/app/pdf_embedder.py:99-107 | a glyph is written exactly when some non-blank word produced it and its append succeeded |
| PdfEmbedder.ExpectedIgnoresOrder | backend/app/pdf_embedder.py:81-107 | reordering the words leaves the multiset of written glyphs unchanged |
| PdfEmbedder.PageElements | backend/app/pdf_embedder.py:79 | the page filter keeps only elements of that page, and never more elements than it was given |
| PdfEmbedder.PageElementsCount | backend/app/pdf_embedder.py:79 | each element of the page is kept as often as it occurs, and every other element is dropped |
| PdfEmbedder.PageElementsIgnoresOrder | backend/app/pdf_embedder.py:79 | permuting the input permutes the page's elements |
| PdfEmbedder.SortedPageElements | backend/app/pdf_embedder.py:79-81 | the sorted elements of a page are exactly the input elements on that page |
| PdfEmbedder.PagePlanSucceeds | backend/app/pdf_embedder.py:79-107 | a page's loop finishes exactly when every element of that page has string content |
| PdfEmbedder.PagePlanPlacesPageWords | backend/app/pdf_embedder.py:79-107 | a page that finishes receives a glyph exactly when one of its own non-blank words produced it and the append succeeded |
| PdfEmbedder.PagePlanHoldsPageWords | backend/app/pdf_embedder.py:79-107 | a page that finishes receives exactly the glyphs of its words placed in input order, counted with multiplicity: the sort adds and loses nothing |
| PdfEmbedder.PagePlanIgnoresInputOrder | backend/app/pdf_embedder.py:79-107 | permuting the element list changes neither whether a page finishes nor the multiset of glyphs it receives |
| PdfEmbedder.Plans | backend/app/pdf_embedder.py:75-109 | there is one plan per page of the document |
| PdfEmbedder.PlanSucceeds | backend/app/pdf_embedder.py:75-107 | page n finishes exactly when every element of page n has string content |
| PdfEmbedder.PlanHoldsPageWords | backend/app/pdf_embedder.py:75-107 | page n, when it finishes, receives exactly the glyphs of page n's words |
| EmbedDocument.TraceStopsAtFailure | backend/app/pdf_embedder.py:96 | after a page raised, no later page is touched |
| EmbedDocument.TraceIsCleanThenWrite | backend/app/pdf_embedder.py:75-109 | when every page finishes, page n is normalised at position 2n-2 of the record, and its text is written right after |
| EmbedDocument.WrittenTextIsPagePlan | backend/app/pdf_embedder.py:109 | every text written is some page's plan, written with render mode 3 (invisible) as an overlay |
| EmbedDocument.TextWriter.constructor | backend/app/pdf_embedder.py:85 | a new writer is empty and bound to the content rect |
| EmbedDocument.TextWriter.Append | backend/app/pdf_embedder.py:99-107 | an append that does not raise adds its glyph; one that raises leaves the writer unchanged |
| EmbedDocument.TextWriter.WriteText | backend/app/pdf_embedder.py:109 | writing adds one text operation holding the writer's glyphs, with the given mode and overlay flag |
| EmbedDocument.Document.constructor | backend/app/pdf_embedder.py:71 | an opened document has the input's pages and no operations yet |
| EmbedDocument.Document.CleanContents | backend/app/pdf_embedder.py:77 | normalising a page adds exactly that one operation |
| EmbedDocument.PageDimensions | backend/app/pdf_embedder.py:22-29 | the map's keys are exactly pages 1..N, and each key maps to that page's (width, height) |
| EmbedDocument.PageContentBounds | backend/app/pdf_embedder.py:32-37 | the map's keys are exactly pages 1..N, and each key maps to that page's content rect |
| EmbedDocument.PlaceWordsOn | backend/app/pdf_embedder.py:88-107 | the word loop finishes exactly when the plan does, and the writer then holds exactly the planned glyphs |
| EmbedDocument.EmbedPage | backend/app/pdf_embedder.py:76-109 | one page pass finishes exactly when its plan does; it normalises the page, then writes the planned glyphs only if it finished |
| EmbedDocument.EmbedTextLayer | backend/app/pdf_embedder.py:63-114 | the call succeeds exactly when every page's plan does; the output holds each processed page's operations in page order, and stops after the first page that raised (no other PyMuPDF call is taken to raise) |
| EmbedDocument.EmbedTextLayerFromResult | backend/app/pdf_embedder.py:117-122 | the wrapper is the call on the result's elements |
| EmbedProperties.WrittenTextBelongsToItsPage | backend/app/pdf_embedder.py:75-109 | every text written lands on a page 1..N, invisibly and as an overlay, and holds exactly that page's own placed words; an element on a page outside 1..N is never placed |
| EmbedProperties.EveryPageIsWritten | backend/app/pdf_embedder.py:75-109 | when the call succeeds, every page is normalised and then written, with exactly its own placed words |
| EmbedProperties.EmbedFailsOnlyOnNonTextContent | backend/app/pdf_embedder.py:79-97 | the call fails exactly when some element on a page 1..N has non-string content; a failed append never fails it (no other PyMuPDF call is taken to raise) |
| EmbedProperties.NoElementsWriteNothing | backend/app/pdf_embedder.py:75-109 | with no elements, every page is normalised and receives an empty text layer |

## Left out

- The HTTP call (`httpx`, its 60-second timeout, the headers, the multipart upload and
  the API key from the settings) is not modelled. Its outcome is the `Response` value:
  status code, decoded body, text.
- `response.json()` decoding is not modelled: `Response.body` is `None` when the body is
  not JSON. On a 4xx/5xx reply the detail then falls back to the text. On a successful
  reply the call fails with `UnexpectedShape`.
- Docstrange.ErrorDetail: the message "Docstrange API error: {detail}" is kept as
  `ApiErrorDetail(detail)`, because Python's `str()` of an arbitrary JSON value is not
  modelled.
- Json.ToFloat, Json.ToInt: `float()` of a numeric string (`"0.5"`) and `int()` of an integer
  string (`"3"`) succeed in Python. Here both fail, because string parsing is not modelled.
- `UnexpectedShape` stands for every other Python exception the adapter can raise: a
  `.get` on a non-dict, iterating a non-iterable, a failed coercion, a body that is not JSON.
- Floating point: coordinates, sizes and dimensions are exact reals, so rounding is not
  modelled.
- ReadingOrder.SortByReadingOrder: `list.sort` works in place. It is modelled as a function
  that returns a new sequence, specified as a stable, sorted permutation.
- PyMuPDF is not modelled: PDF parsing, the page's images and their placements
  (`Page.firstImageRects` carries them as input), `Rect.width`/`height` (taken as
  `max(x1 - x0, 0)`), the "helv" font, glyph shaping, and what `clean_contents` and
  `write_text` do inside the PDF. What is kept is which calls are made, on which page, in
  which order and with which arguments.
- EmbedDocument.EmbedTextLayer: exceptions from PyMuPDF calls other than `tw.append` are not
  modelled. Each of `fitz.open`, `clean_contents`, `get_images`/`get_image_rects`,
  `fitz.TextWriter(...)`, `fitz.Font("helv")`, `write_text` and `save`
  (`backend/app/pdf_embedder.py:71-112`) is taken to succeed. The if-and-only-if of
  EmbedTextLayer and EmbedProperties.EmbedFailsOnlyOnNonTextContent holds only under that
  reading. PyMuPDF is not part of this model, so it is open whether `write_text` accepts a page
  whose rect differs from the writer's rect. The writer is built from the content rect
  (line 85), which differs from the page rect when the first image does not cover the page.
- EmbedDocument.TextWriter.Append: the exceptions it swallows are given by the
  `fails: Glyph -> bool` oracle, not derived from fonts or the page rect.
- EmbedDocument.EmbedTextLayer: saving (`garbage=4`, `deflate=True`), `doc.close()` and the
  output bytes are not modelled; the returned document's operation record stands for the
  output. When a content raises, the source propagates the exception without closing the
  document; here `ok` is false and the document keeps what was done so far.
- EmbedDocument.EmbedTextLayer: the page width and height that `_get_page_dimensions`
  returns are unused by the source's loop. The model also computes and ignores them; they
  only give the loop its page numbers 1..N.
- EmbedDocument.PageContentBounds: `_get_page_content_bounds` has no caller in the source.
  It is modelled on its own.
- The web layer (`main.py`), the command-line tool, the configuration, the scripts and the
  tests are not part of this model.
