/**
 * The adapter that turns the extraction service's reply into typed records
 * (backend/app/docstrange.py). The HTTP POST itself is not modelled: its outcome
 * is the `Response` value (status code, decoded JSON body, raw text).
 */
module Docstrange {
  import opened Wrappers
  import opened Json

  datatype BoundingBox = BoundingBox(
    x: real, y: real, width: real, height: real, page: int,
    normalized: Json)  // stored as the service sent it; the source never coerces it

  datatype BoundingBoxElement = BoundingBoxElement(
    content: Json,     // stored as the service sent it; a string in a well-formed reply
    page: int,
    boundingBox: BoundingBox,
    markdownLine: int,
    wordOffset: int)

  datatype PageDimension = PageDimension(page: int, width: real, height: real)

  datatype ExtractResult = ExtractResult(
    markdownContent: Json,
    elements: seq<BoundingBoxElement>,
    pageDimensions: seq<PageDimension>)

  /** The message a `DocstrangeError` carries. */
  datatype Message =
    | Literal(text: string)       // a fixed message of the adapter
    | Provided(value: Json)       // the reply's own `message` value, passed through
    | ApiErrorDetail(detail: Json) // "Docstrange API error: " followed by `str(detail)`

  datatype DocstrangeError = DocstrangeError(message: Message, statusCode: Option<int>)

  /** What `extract_with_bboxes` raises: its own error, or any other Python exception. */
  datatype ExtractError =
    | Raised(error: DocstrangeError)
    | UnexpectedShape  // `.get` on a non-dict, a non-iterable list, a failed coercion, a body that is not JSON

  /** The reply of the single POST: `body` is `None` when `response.json()` fails. */
  datatype Response = Response(statusCode: int, body: Option<Json>, text: string)

  const InvalidKeyMessage := "Invalid or missing API key"
  const RateLimitMessage := "Rate limit exceeded"
  const ExtractionFailedMessage := "Extraction failed"
  const NoBoundingBoxesMessage :=
    "No bounding boxes in response. Ensure include_metadata=bounding_boxes_word is supported."
  const BoundingBoxesFailedMessage := "Bounding box extraction was not successful"

  /** The box `_parse_bounding_box` builds from an empty dict. */
  const DefaultBox := BoundingBox(0.0, 0.0, 0.0, 0.0, 1, JBool(true))

  // ---------------------------------------------------------------------------
  // Field access with the source's defaults

  function Field(j: Json, key: string, default: Json): Result<Json, ExtractError> {
    match Get(j, key, default)
    case Some(v) => Success(v)
    case None => Failure(UnexpectedShape)
  }

  /** `float(j.get(key, default))`, where `float()` of the numeric default is that default. */
  function FloatField(j: Json, key: string, default: real): Result<real, ExtractError> {
    match j
    case JObj(m) =>
      if key !in m then Success(default)
      else (match ToFloat(m[key])
            case Some(f) => Success(f)
            case None => Failure(UnexpectedShape))
    case _ => Failure(UnexpectedShape)
  }

  /** `int(j.get(key, default))`, where `int()` of the integer default is that default. */
  function IntField(j: Json, key: string, default: int): Result<int, ExtractError> {
    match j
    case JObj(m) =>
      if key !in m then Success(default)
      else (match ToInt(m[key])
            case Some(n) => Success(n)
            case None => Failure(UnexpectedShape))
    case _ => Failure(UnexpectedShape)
  }

  /** `for x in value` where each `x` then has `.get` called on it. */
  function ItemsOf(j: Json): Result<seq<Json>, ExtractError> {
    match Items(j)
    case Some(xs) => Success(xs)
    case None => Failure(UnexpectedShape)
  }

  /** A numeric field that `float()` accepts, or that is absent. */
  predicate FloatOk(m: map<string, Json>, key: string) {
    key !in m || ToFloat(m[key]).Some?
  }

  /** A numeric field that `int()` accepts, or that is absent. */
  predicate IntOk(m: map<string, Json>, key: string) {
    key !in m || ToInt(m[key]).Some?
  }

  /** `v` is what `float(m.get(key, default))` gives. */
  predicate FloatIs(m: map<string, Json>, key: string, default: real, v: real) {
    if key in m then ToFloat(m[key]) == Some(v) else v == default
  }

  /** `v` is what `int(m.get(key, default))` gives. */
  predicate IntIs(m: map<string, Json>, key: string, default: int, v: int) {
    if key in m then ToInt(m[key]) == Some(v) else v == default
  }

  // ---------------------------------------------------------------------------
  // _parse_bounding_box, _parse_element, _parse_page_dimensions

  predicate BoxFieldsOk(m: map<string, Json>) {
    FloatOk(m, "x") && FloatOk(m, "y") && FloatOk(m, "width") && FloatOk(m, "height")
    && IntOk(m, "page")
  }

  /** `b` is the box read field by field from `m`, with the source's defaults. */
  predicate BoxReadFrom(m: map<string, Json>, b: BoundingBox) {
    && FloatIs(m, "x", 0.0, b.x)
    && FloatIs(m, "y", 0.0, b.y)
    && FloatIs(m, "width", 0.0, b.width)
    && FloatIs(m, "height", 0.0, b.height)
    && IntIs(m, "page", 1, b.page)
    && b.normalized == Lookup(m, "normalized", JBool(true))
  }

  /** `_parse_bounding_box(data)`: a falsy `data` (None, `{}`, ...) is read as `{}`. */
  function ParseBoundingBox(data: Json): (r: Result<BoundingBox, ExtractError>)
    ensures !Truthy(data) ==> r == Success(DefaultBox)
    ensures Truthy(data) && !data.JObj? ==> r == Failure(UnexpectedShape)
    ensures data.JObj? ==> (r.Success? <==> BoxFieldsOk(data.fields))
    ensures data.JObj? && r.Success? ==> BoxReadFrom(data.fields, r.value)
    ensures r.Failure? ==> r.error == UnexpectedShape
  {
    var d := if Truthy(data) then data else EmptyObject;
    var x :- FloatField(d, "x", 0.0);
    var y :- FloatField(d, "y", 0.0);
    var width :- FloatField(d, "width", 0.0);
    var height :- FloatField(d, "height", 0.0);
    var page :- IntField(d, "page", 1);
    var normalized := Lookup(d.fields, "normalized", JBool(true));
    Success(BoundingBox(x, y, width, height, page, normalized))
  }

  /** The box payload of an element dict: `data.get("bounding_box") or {}`. */
  function BoxPayload(m: map<string, Json>): Json {
    var b := Lookup(m, "bounding_box", JNull);
    if Truthy(b) then b else EmptyObject
  }

  predicate ElementFieldsOk(m: map<string, Json>) {
    IntOk(m, "page") && IntOk(m, "markdown_line") && IntOk(m, "word_offset")
    && ParseBoundingBox(BoxPayload(m)).Success?
  }

  /**
   * `e` is the element read field by field from `m`, with the source's defaults; a falsy
   * `bounding_box` gives the all-defaults box.
   */
  predicate ElementReadFrom(m: map<string, Json>, e: BoundingBoxElement) {
    && e.content == Lookup(m, "content", JStr(""))
    && IntIs(m, "page", 1, e.page)
    && IntIs(m, "markdown_line", 0, e.markdownLine)
    && IntIs(m, "word_offset", 0, e.wordOffset)
    && var b := Lookup(m, "bounding_box", JNull);
       if Truthy(b) then b.JObj? && BoxReadFrom(b.fields, e.boundingBox)
       else e.boundingBox == DefaultBox
  }

  /** `_parse_element(data)` */
  function ParseElement(data: Json): (r: Result<BoundingBoxElement, ExtractError>)
    ensures r.Success? <==> data.JObj? && ElementFieldsOk(data.fields)
    ensures r.Failure? ==> r.error == UnexpectedShape
    ensures r.Success? ==> ElementReadFrom(data.fields, r.value)
  {
    var content :- Field(data, "content", JStr(""));
    var page :- IntField(data, "page", 1);
    var boxData := Lookup(data.fields, "bounding_box", JNull);
    var box :- ParseBoundingBox(if Truthy(boxData) then boxData else EmptyObject);
    var markdownLine :- IntField(data, "markdown_line", 0);
    var wordOffset :- IntField(data, "word_offset", 0);
    Success(BoundingBoxElement(content, page, box, markdownLine, wordOffset))
  }

  /** One entry of `page_dimensions.pages`, at position `i` of the list. */
  function ParsePage(p: Json, i: nat): (r: Result<PageDimension, ExtractError>)
    ensures r.Success? <==> p.JObj? && IntOk(p.fields, "page")
                            && FloatOk(p.fields, "width") && FloatOk(p.fields, "height")
    ensures r.Failure? ==> r.error == UnexpectedShape
    ensures r.Success? ==>
      && IntIs(p.fields, "page", i + 1, r.value.page)
      && FloatIs(p.fields, "width", 0.0, r.value.width)
      && FloatIs(p.fields, "height", 0.0, r.value.height)
  {
    var page :- IntField(p, "page", i + 1);
    var width :- FloatField(p, "width", 0.0);
    var height :- FloatField(p, "height", 0.0);
    Success(PageDimension(page, width, height))
  }

  /** The comprehension over `enumerate(pages)`, from position `start` on. */
  function ParsePages(ps: seq<Json>, start: nat): (r: Result<seq<PageDimension>, ExtractError>)
    ensures r.Success? <==> forall k :: 0 <= k < |ps| ==> ParsePage(ps[k], start + k).Success?
    ensures r.Success? ==> (|r.value| == |ps|
      && forall k :: 0 <= k < |ps| ==> r.value[k] == ParsePage(ps[k], start + k).value)
    ensures r.Failure? ==> r.error == UnexpectedShape
    decreases |ps|
  {
    if ps == [] then Success([])
    else
      var first :- ParsePage(ps[0], start);
      var rest :- ParsePages(ps[1..], start + 1);
      assert forall k :: 1 <= k < |ps| ==> ps[k] == ps[1..][k - 1];
      Success([first] + rest)
  }

  /** `_parse_page_dimensions(data)` */
  function ParsePageDimensions(data: Json): (r: Result<seq<PageDimension>, ExtractError>)
    ensures !data.JObj? ==> r == Failure(UnexpectedShape)
    ensures data.JObj? && "pages" !in data.fields ==> r == Success([])
    ensures data.JObj? && "pages" in data.fields && data.fields["pages"].JArr? ==>
      var ps := data.fields["pages"].items;
      && (r.Success? <==> forall k :: 0 <= k < |ps| ==> ParsePage(ps[k], k).Success?)
      && (r.Success? ==> |r.value| == |ps|
                         && forall k :: 0 <= k < |ps| ==> r.value[k] == ParsePage(ps[k], k).value)
    ensures data.JObj? && "pages" in data.fields && !data.fields["pages"].JArr? ==>
      r == (if Items(data.fields["pages"]).Some? then Success([]) else Failure(UnexpectedShape))
    ensures r.Failure? ==> r.error == UnexpectedShape
  {
    var pages :- Field(data, "pages", JArr([]));
    var ps :- ItemsOf(pages);
    ParsePages(ps, 0)
  }

  // ---------------------------------------------------------------------------
  // Element filtering (`if el.get("bounding_box")`)

  /** An element the comprehension keeps: a dict whose `bounding_box` is truthy. */
  predicate HasBox(el: Json) {
    el.JObj? && Truthy(Lookup(el.fields, "bounding_box", JNull))
  }

  /** The elements whose `bounding_box` is truthy, in their original order. */
  function Boxed(items: seq<Json>): (r: seq<Json>)
    ensures |r| <= |items|
    ensures forall el :: el in r <==> el in items && HasBox(el)
  {
    if items == [] then []
    else (if HasBox(items[0]) then [items[0]] else []) + Boxed(items[1..])
  }

  /** The filtering comprehension of `extract_with_bboxes`. */
  function ParseElements(items: seq<Json>): (r: Result<seq<BoundingBoxElement>, ExtractError>)
    ensures r.Failure? ==> r.error == UnexpectedShape
    decreases |items|
  {
    if items == [] then Success([])
    else
      var box :- Field(items[0], "bounding_box", JNull);
      var head :- if Truthy(box) then (var e :- ParseElement(items[0]); Success([e]))
                  else Success([]);
      var rest :- ParseElements(items[1..]);
      Success(head + rest)
  }

  /** The comprehension succeeds exactly when every item is a dict and every kept item parses. */
  lemma {:induction false} ParseElementsSucceeds(items: seq<Json>)
    ensures ParseElements(items).Success? <==>
      (forall el :: el in items ==> el.JObj?) &&
      (forall el :: el in Boxed(items) ==> ParseElement(el).Success?)
    decreases |items|
  {
    if items != [] {
      ParseElementsSucceeds(items[1..]);
      assert forall el :: el in items <==> el == items[0] || el in items[1..];
    }
  }

  /** A successful comprehension yields the kept items, parsed, in their original order. */
  lemma {:induction false} ParseElementsKeepsBoxed(items: seq<Json>)
    requires ParseElements(items).Success?
    ensures
      var out := ParseElements(items).value;
      && |out| == |Boxed(items)|
      && forall i :: 0 <= i < |out| ==> Success(out[i]) == ParseElement(Boxed(items)[i])
    decreases |items|
  {
    if items != [] {
      var tail := items[1..];
      ParseElementsKeepsBoxed(tail);
      if HasBox(items[0]) {
        assert Boxed(items) == [items[0]] + Boxed(tail);
      }
    }
  }

  // ---------------------------------------------------------------------------
  // extract_with_bboxes, with the POST replaced by its `Response`

  /** `response.json().get("detail", response.text)`, falling back to the text. */
  function ErrorDetail(resp: Response): (r: Json)
    ensures (resp.body.Some? && resp.body.value.JObj? && "detail" in resp.body.value.fields)
            ==> r == resp.body.value.fields["detail"]
    ensures !(resp.body.Some? && resp.body.value.JObj? && "detail" in resp.body.value.fields)
            ==> r == JStr(resp.text)
  {
    match resp.body
    case Some(JObj(m)) => Lookup(m, "detail", JStr(resp.text))
    case _ => JStr(resp.text)
  }

  /** The status-code checks that run before the body is read. */
  function StatusError(resp: Response): (r: Option<DocstrangeError>)
    ensures r.Some? <==> resp.statusCode >= 400
    ensures r.Some? ==> r.value.statusCode == Some(resp.statusCode)
    ensures resp.statusCode == 401 ==> r.value.message == Literal(InvalidKeyMessage)
    ensures resp.statusCode == 429 ==> r.value.message == Literal(RateLimitMessage)
    ensures resp.statusCode >= 400 && resp.statusCode != 401 && resp.statusCode != 429
            ==> r.value.message == ApiErrorDetail(ErrorDetail(resp))
  {
    if resp.statusCode == 401 then
      Some(DocstrangeError(Literal(InvalidKeyMessage), Some(401)))
    else if resp.statusCode == 429 then
      Some(DocstrangeError(Literal(RateLimitMessage), Some(429)))
    else if resp.statusCode >= 400 then
      Some(DocstrangeError(ApiErrorDetail(ErrorDetail(resp)), Some(resp.statusCode)))
    else
      None
  }

  /** The error for a body that reports failure: its own `message`, status 400. */
  function ExtractionFailed(m: map<string, Json>): DocstrangeError {
    DocstrangeError(Provided(Lookup(m, "message", JStr(ExtractionFailedMessage))), Some(400))
  }

  /** The body claims success: `success` truthy and `status` not "failed". */
  predicate ReportsSuccess(m: map<string, Json>) {
    Truthy(Lookup(m, "success", JNull)) && Lookup(m, "status", JNull) != JStr("failed")
  }

  /** The `success` and `status` checks on the decoded body. */
  function CheckSuccess(body: Json): (r: Result<map<string, Json>, ExtractError>)
    ensures !body.JObj? ==> r == Failure(UnexpectedShape)
    ensures body.JObj? && !ReportsSuccess(body.fields) ==> r == Failure(Raised(ExtractionFailed(body.fields)))
    ensures body.JObj? && ReportsSuccess(body.fields) ==> r == Success(body.fields)
  {
    var success :- Field(body, "success", JNull);
    if !Truthy(success) then
      Failure(Raised(ExtractionFailed(body.fields)))
    else
      var status := Lookup(body.fields, "status", JNull);
      if status == JStr("failed") then
        Failure(Raised(ExtractionFailed(body.fields)))
      else
        Success(body.fields)
  }

  /** `result.markdown` of the body, each level defaulting to `{}`. */
  function MarkdownOf(m: map<string, Json>): Option<Json> {
    var result := Lookup(m, "result", EmptyObject);
    Get(result, "markdown", EmptyObject)
  }

  /** `result.markdown.metadata.bounding_boxes` of the body, `null` when absent. */
  function BoundingBoxesOf(m: map<string, Json>): Option<Json> {
    match MarkdownOf(m)
    case None => None
    case Some(markdown) =>
      match Get(markdown, "metadata", EmptyObject)
      case None => None
      case Some(metadata) => Get(metadata, "bounding_boxes", JNull)
  }

  /**
   * Reads `result.markdown.content` and the `bounding_boxes` block, and checks that the
   * block is present and reports success.
   */
  function BoundingBoxBlock(m: map<string, Json>): (r: Result<(Json, map<string, Json>), ExtractError>)
    ensures BoundingBoxesOf(m).None? ==> r == Failure(UnexpectedShape)
    ensures BoundingBoxesOf(m).Some? && !Truthy(BoundingBoxesOf(m).value) ==>
      r == Failure(Raised(DocstrangeError(Literal(NoBoundingBoxesMessage), Some(400))))
    ensures BoundingBoxesOf(m).Some? && Truthy(BoundingBoxesOf(m).value) && !BoundingBoxesOf(m).value.JObj? ==>
      r == Failure(UnexpectedShape)
    ensures BoundingBoxesOf(m).Some? && BoundingBoxesOf(m).value.JObj? && BoundingBoxesOf(m).value != EmptyObject ==>
      var block := BoundingBoxesOf(m).value.fields;
      if Truthy(Lookup(block, "success", JNull)) then r.Success? && r.value.1 == block
      else r == Failure(Raised(DocstrangeError(Literal(BoundingBoxesFailedMessage), Some(400))))
    ensures r.Success? ==> r.value.0 == Lookup(MarkdownOf(m).value.fields, "content", JStr(""))
  {
    var result := Lookup(m, "result", EmptyObject);
    var markdown :- Field(result, "markdown", EmptyObject);
    var content :- Field(markdown, "content", JStr(""));
    var metadata := Lookup(markdown.fields, "metadata", EmptyObject);
    var boxes :- Field(metadata, "bounding_boxes", JNull);
    if !Truthy(boxes) then
      Failure(Raised(DocstrangeError(Literal(NoBoundingBoxesMessage), Some(400))))
    else
      var blockSuccess :- Field(boxes, "success", JNull);
      if !Truthy(blockSuccess) then
        Failure(Raised(DocstrangeError(Literal(BoundingBoxesFailedMessage), Some(400))))
      else
        Success((content, boxes.fields))
  }

  /** The element list and page dimensions of a successful `bounding_boxes` block. */
  function ParseBoundingBoxBlock(block: map<string, Json>)
    : (r: Result<(seq<BoundingBoxElement>, seq<PageDimension>), ExtractError>)
    ensures r.Failure? ==> r.error == UnexpectedShape
    ensures r.Success? <==>
      var items := Lookup(block, "elements", JArr([]));
      && Items(items).Some?
      && ParseElements(Items(items).value).Success?
      && ParsePageDimensions(Lookup(block, "page_dimensions", EmptyObject)).Success?
    ensures r.Success? ==>
      var items := Lookup(block, "elements", JArr([]));
      && Items(items).Some?
      && Success(r.value.0) == ParseElements(Items(items).value)
      && Success(r.value.1) == ParsePageDimensions(Lookup(block, "page_dimensions", EmptyObject))
  {
    var elementsData := Lookup(block, "elements", JArr([]));
    var items :- ItemsOf(elementsData);
    var elements :- ParseElements(items);
    var dims :- ParsePageDimensions(Lookup(block, "page_dimensions", EmptyObject));
    Success((elements, dims))
  }

  /** `extract_with_bboxes`, given the reply of its POST. */
  function ExtractWithBboxes(resp: Response): (r: Result<ExtractResult, ExtractError>)
    ensures resp.statusCode >= 400 ==> r == Failure(Raised(StatusError(resp).value))
    ensures r.Failure? && r.error.Raised? ==>
      r.error.error.statusCode == Some(if resp.statusCode >= 400 then resp.statusCode else 400)
    ensures resp.statusCode < 400 && resp.body.None? ==> r == Failure(UnexpectedShape)
    ensures resp.statusCode < 400 && resp.body.Some? && resp.body.value.JObj?
            && !ReportsSuccess(resp.body.value.fields)
            ==> r == Failure(Raised(ExtractionFailed(resp.body.value.fields)))
    ensures resp.statusCode < 400 && resp.body.Some? && resp.body.value.JObj?
            && ReportsSuccess(resp.body.value.fields)
            && BoundingBoxesOf(resp.body.value.fields).Some?
            && !Truthy(BoundingBoxesOf(resp.body.value.fields).value)
            ==> r == Failure(Raised(DocstrangeError(Literal(NoBoundingBoxesMessage), Some(400))))
    ensures resp.statusCode < 400 && resp.body.Some? && !resp.body.value.JObj?
            ==> r == Failure(UnexpectedShape)
    ensures resp.statusCode < 400 && resp.body.Some? && resp.body.value.JObj?
            && ReportsSuccess(resp.body.value.fields)
            && BoundingBoxBlock(resp.body.value.fields).Failure?
            ==> r == Failure(BoundingBoxBlock(resp.body.value.fields).error)
    ensures resp.statusCode < 400 && resp.body.Some? && resp.body.value.JObj?
            && ReportsSuccess(resp.body.value.fields)
            && BoundingBoxBlock(resp.body.value.fields).Success?
            && ParseBoundingBoxBlock(BoundingBoxBlock(resp.body.value.fields).value.1).Failure?
            ==> r == Failure(UnexpectedShape)
    ensures r.Success? <==>
      && resp.statusCode < 400
      && resp.body.Some? && resp.body.value.JObj?
      && ReportsSuccess(resp.body.value.fields)
      && BoundingBoxBlock(resp.body.value.fields).Success?
      && ParseBoundingBoxBlock(BoundingBoxBlock(resp.body.value.fields).value.1).Success?
  {
    match StatusError(resp)
    case Some(e) => Failure(Raised(e))
    case None =>
      match resp.body
      case None => Failure(UnexpectedShape)
      case Some(body) =>
        var m :- CheckSuccess(body);
        var block :- BoundingBoxBlock(m);
        var parsed :- ParseBoundingBoxBlock(block.1);
        Success(ExtractResult(block.0, parsed.0, parsed.1))
  }

  /**
   * A successful extraction carries `result.markdown.content` (default "") and, in the
   * reply's order, exactly the elements whose `bounding_box` is truthy; it never has more
   * elements than the reply listed.
   */
  lemma ExtractedElementsAreBoxedInputs(resp: Response)
    requires ExtractWithBboxes(resp).Success?
    ensures
      var out := ExtractWithBboxes(resp).value;
      var m := resp.body.value.fields;
      var block := BoundingBoxesOf(m).value.fields;
      var items := Items(Lookup(block, "elements", JArr([]))).value;
      && out.markdownContent == Lookup(MarkdownOf(m).value.fields, "content", JStr(""))
      && |out.elements| == |Boxed(items)| <= |items|
      && (forall i :: 0 <= i < |out.elements| ==>
            Success(out.elements[i]) == ParseElement(Boxed(items)[i]))
      && Success(out.pageDimensions) == ParsePageDimensions(Lookup(block, "page_dimensions", EmptyObject))
  {
    var m := resp.body.value.fields;
    var block := BoundingBoxBlock(m).value;
    assert BoundingBoxesOf(m).value.fields == block.1;
    var items := Items(Lookup(block.1, "elements", JArr([]))).value;
    ParseElementsKeepsBoxed(items);
  }

  /** An element whose `bounding_box` is falsy (absent, null, the empty dict ...) is dropped. */
  lemma EmptyBoxIsDropped(el: Json)
    requires el.JObj? && !Truthy(Lookup(el.fields, "bounding_box", JNull))
    ensures Boxed([el]) == [] && ParseElements([el]) == Success([])
  {
    assert [el][1..] == [];
  }

  /** A 200 reply whose metadata has no `bounding_boxes` key fails with "No bounding boxes". */
  lemma MissingBoundingBoxesScenario()
    ensures
      var markdown := JObj(map["content" := JStr("x"), "metadata" := EmptyObject]);
      var body := JObj(map["success" := JBool(true), "status" := JStr("completed"),
                           "result" := JObj(map["markdown" := markdown])]);
      ExtractWithBboxes(Response(200, Some(body), ""))
        == Failure(Raised(DocstrangeError(Literal(NoBoundingBoxesMessage), Some(400))))
  {
    var markdown := JObj(map["content" := JStr("x"), "metadata" := EmptyObject]);
    var m := map["success" := JBool(true), "status" := JStr("completed"),
                 "result" := JObj(map["markdown" := markdown])];
    assert ReportsSuccess(m);
    assert BoundingBoxesOf(m) == Some(JNull);
  }

  /** Of two listed elements, the one without a `bounding_box` is dropped. */
  lemma BoxlessElementScenario(boxed: Json, boxless: Json)
    requires boxed == JObj(map["content" := JStr("Hello"),
                               "bounding_box" := JObj(map["x" := JNum(0.1)])])
    requires boxless == JObj(map["content" := JStr("[image]")])
    ensures
      var r := ParseElements([boxed, boxless]);
      r.Success? && |r.value| == 1 && r.value[0].content == JStr("Hello")
  {
    assert "bounding_box" !in boxless.fields by { assert "bounding_box" != "content"; }
    assert "x" in boxed.fields["bounding_box"].fields;
    assert HasBox(boxed) && !HasBox(boxless);
    assert [boxed, boxless][1..] == [boxless];
    assert Boxed([boxed, boxless]) == [boxed];
    assert ParseElement(boxed).Success?;
    ParseElementsSucceeds([boxed, boxless]);
    ParseElementsKeepsBoxed([boxed, boxless]);
  }
}
