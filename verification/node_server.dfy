/**
 * The Node.js service of api/server.js: `getArxivInfo` scrapes an Atom response with regular
 * expressions, `POST /api/parse` turns `sourceType`/`source` into a PDF URL for MinerU, and
 * `GET /api/token` reports the stored token masked the same way as the Python service.
 *
 * The stored token (what `getMineruToken` returned), the Atom text and the MinerU reply are
 * parameters.
 */
module NodeServer {
  import opened Wrappers
  import opened Text
  import opened ArxivUrl
  import opened AtomScrape
  import PyServer

  const TitleTag: string := "title"
  const SummaryTag: string := "summary"
  const PublishedTag: string := "published"
  const PublishedLength: nat := 10

  const NoTokenError: string := "未配置 MinerU token"
  const NotFoundError: string := "未找到论文"
  const BadReplyError: string := "解析响应失败"
  const InvalidSourceError: string := "无效的源"
  const MissingIdError: string := "缺少 id 参数"

  /** The `data` object `getArxivInfo` resolves with on success. */
  datatype ArxivInfo = ArxivInfo(
    id: string, title: string, abstractText: string, authors: seq<string>, published: string, pdfUrl: string)

  datatype InfoResponse = Found(info: ArxivInfo) | InfoFailure(error: string)

  /** `getArxivInfo` once the whole response `data` has arrived (server.js:50-74). */
  function GetArxivInfo(arxivId: string, data: string): (r: InfoResponse)
    // No `<title>` match at all is the "not found" failure.
    ensures r.InfoFailure? <==> forall i :: 0 <= i ==> MatchAt(data, TitleTag, i).None?
    ensures r.InfoFailure? ==> r.error == NotFoundError
    ensures r.Found? ==> r.info.id == arxivId && r.info.pdfUrl == ArxivPdfBase + arxivId + PdfExtension
  {
    match FirstGroup(data, TitleTag)
    case None => InfoFailure(NotFoundError)
    case Some(title) =>
      var summary := FirstGroup(data, SummaryTag);
      var published := FirstGroup(data, PublishedTag);
      Found(ArxivInfo(
        arxivId,
        JsTrim(title),
        if summary.Some? then JsTrim(summary.value) else "",
        AuthorNames(data),
        if published.Some? then JsSubstring(published.value, 0, Some(PublishedLength)) else "",
        ArxivPdfBase + arxivId + PdfExtension))
  }

  /**
   * The title is the leftmost `<title>` group and the abstract the leftmost `<summary>` group,
   * both trimmed; without a `<summary>` match the abstract is ''.
   */
  lemma ArxivInfoText(arxivId: string, data: string)
    ensures var r := GetArxivInfo(arxivId, data);
      r.Found? ==> var info := r.info;
      && (exists g :: IsFirstGroup(data, TitleTag, g) && info.title == JsTrim(g))
      && HasNoEdgeSpace(info.title, IsJsWhitespace) && HasNoEdgeSpace(info.abstractText, IsJsWhitespace)
      && (FirstGroup(data, SummaryTag).None? ==> info.abstractText == "")
      && (FirstGroup(data, SummaryTag).Some? ==> info.abstractText == JsTrim(FirstGroup(data, SummaryTag).value))
  {
    if GetArxivInfo(arxivId, data).Found? {
      var g := FirstGroup(data, TitleTag).value;
      assert IsFirstGroup(data, TitleTag, g);
    }
  }

  /**
   * The date is at most ten characters: a non-empty prefix of the leftmost `<published>`
   * group, or '' without one.
   */
  lemma ArxivInfoPublished(arxivId: string, data: string)
    ensures var r := GetArxivInfo(arxivId, data);
      r.Found? ==> var info := r.info;
      && |info.published| <= PublishedLength
      && (FirstGroup(data, PublishedTag).Some? ==>
            HasPrefix(FirstGroup(data, PublishedTag).value, info.published) && info.published != "")
      && (FirstGroup(data, PublishedTag).None? ==> info.published == "")
  {
  }

  /** The authors are the groups of every `<name>` match, in document order. */
  lemma ArxivInfoAuthors(arxivId: string, data: string)
    ensures var r := GetArxivInfo(arxivId, data);
      r.Found? ==> var info := r.info;
      && |info.authors| == |AllMatches(data, NameTag, 0)|
      && forall k :: 0 <= k < |info.authors| ==> info.authors[k] == AllMatches(data, NameTag, 0)[k].group
  {
  }

  /**
   * What `GET /api/arxiv/info` does with a request: answer with a JSON body, or answer
   * nothing, when the arXiv request fails and `getArxivInfo` rejects at an `await` that no
   * `try` surrounds, so that the rejection escapes the handler unhandled.
   */
  datatype InfoRouteResult = Answered(response: InfoResponse) | Unanswered

  /**
   * `GET /api/arxiv/info` (server.js:212-223, with the rejection of server.js:79). `data` is
   * the arXiv response text, or `None` when the request to arXiv failed.
   */
  function ArxivInfoRoute(id: Option<string>, data: Option<string>): (r: InfoRouteResult)
    // A missing or empty `id` is rejected before any lookup.
    ensures !Truthy(id) ==> r == Answered(InfoFailure(MissingIdError))
    // A failed arXiv request leaves the client without an answer.
    ensures r.Unanswered? <==> Truthy(id) && data.None?
    ensures Truthy(id) && data.Some? ==> r == Answered(GetArxivInfo(id.value, data.value))
  {
    if !Truthy(id) then Answered(InfoFailure(MissingIdError))
    else if data.None? then Unanswered
    else Answered(GetArxivInfo(id.value, data.value))
  }

  /** The JSON envelope of `/api/parse`. */
  datatype Response = Success(data: string) | Failure(error: string, detail: Option<string>)

  /** The whole reply body from MinerU and its JSON value if it parses, or the request's error message. */
  datatype MineruReply = Body(text: string, json: Option<string>) | Errored(message: string)

  /** `parsePdfWithMineru` (server.js:84-117) as the `/api/parse` handler sees it. */
  function ReadReply(reply: MineruReply): (r: Response)
    ensures r.Success? <==> reply.Body? && reply.json.Some?
    ensures r.Success? ==> r.data == reply.json.value
    ensures reply.Body? && reply.json.None? ==> r == Failure(BadReplyError, Some(reply.text))
    ensures reply.Errored? ==> r == Failure(reply.message, None)
  {
    match reply
    case Errored(message) => Failure(message, None)
    case Body(text, json) =>
      match json
      case Some(v) => Success(v)
      case None => Failure(BadReplyError, Some(text))
  }

  /** The fields of the `/api/parse` body that the handler destructures; each may be absent. */
  datatype ParseRequest = ParseRequest(sourceType: Option<string>, source: Option<string>)

  /** The MinerU request: the PDF URL and the bearer token. */
  datatype Call = Call(url: string, token: string)

  datatype Outcome = Outcome(response: Response, sent: Option<Call>)

  /** `pdfUrl` after server.js:151-156: `undefined` when `url` has no source, '' for another type. */
  function PdfUrlFor(req: ParseRequest): (url: Option<string>)
    ensures req.sourceType == Some("arxiv") ==> url == Some(ArxivPdfBase + JsTemplate(req.source) + PdfExtension)
    ensures req.sourceType == Some("url") ==> url == req.source
    ensures req.sourceType != Some("arxiv") && req.sourceType != Some("url") ==> !Truthy(url)
  {
    if req.sourceType == Some("arxiv") then Some(ArxivPdfBase + JsTemplate(req.source) + PdfExtension)
    else if req.sourceType == Some("url") then req.source
    else Some("")
  }

  /** The `/api/parse` handler as written (server.js:139-165). */
  function HandleParse(req: ParseRequest, stored: Option<string>, reply: MineruReply): (out: Outcome)
    // The token is checked before `sourceType` is looked at.
    ensures !Truthy(stored) ==> out == Outcome(Failure(NoTokenError, None), None)
    ensures Truthy(stored) ==> (out.sent.Some? <==> Truthy(PdfUrlFor(req)))
    ensures Truthy(stored) && !Truthy(PdfUrlFor(req)) ==> out == Outcome(Failure(InvalidSourceError, None), None)
    ensures out.sent.Some? ==> out.sent.value == Call(PdfUrlFor(req).value, stored.value) && out.response == ReadReply(reply)
  {
    if !Truthy(stored) then Outcome(Failure(NoTokenError, None), None)
    else
      var pdfUrl := PdfUrlFor(req);
      if Truthy(pdfUrl) then Outcome(ReadReply(reply), Some(Call(pdfUrl.value, stored.value)))
      else Outcome(Failure(InvalidSourceError, None), None)
  }

  /** As written, `arxiv` with no `source` submits the URL of a paper called "undefined". */
  lemma ArxivWithoutSourceSubmitsUndefined(stored: Option<string>, reply: MineruReply)
    requires Truthy(stored)
    ensures HandleParse(ParseRequest(Some("arxiv"), None), stored, reply).sent
         == Some(Call("https://arxiv.org/pdf/undefined.pdf", stored.value))
  {
    assert ArxivPdfBase + JsTemplate(None) + PdfExtension == "https://arxiv.org/pdf/undefined.pdf";
  }

  /** The handler with the source checked for `arxiv` as it already is for `url`. */
  function HandleParseChecked(req: ParseRequest, stored: Option<string>, reply: MineruReply): (out: Outcome)
    ensures !Truthy(stored) ==> out == Outcome(Failure(NoTokenError, None), None)
    ensures Truthy(stored) && !Truthy(req.source) ==> out == Outcome(Failure(InvalidSourceError, None), None)
    // MinerU is only ever asked for a URL built from a source the client actually sent.
    ensures out.sent.Some? ==>
      && Truthy(req.source) && out.sent.value.token == stored.value && out.response == ReadReply(reply)
      && (req.sourceType == Some("arxiv") ==> out.sent.value.url == ArxivPdfBase + req.source.value + PdfExtension)
      && (req.sourceType == Some("url") ==> out.sent.value.url == req.source.value)
      && (req.sourceType == Some("arxiv") || req.sourceType == Some("url"))
  {
    if Truthy(stored) && !Truthy(req.source) then Outcome(Failure(InvalidSourceError, None), None)
    else HandleParse(req, stored, reply)
  }

  /** The check changes nothing for a request that carries a source. */
  lemma CheckedAgreesWithSource(req: ParseRequest, stored: Option<string>, reply: MineruReply)
    requires Truthy(req.source)
    ensures HandleParseChecked(req, stored, reply) == HandleParse(req, stored, reply)
  {
  }

  /**
   * For an arXiv id with no surrounding whitespace and no ".pdf", the Node and the Python
   * services ask MinerU for the same URL.
   */
  lemma ArxivUrlAgreesWithPython(id: string, stored: Option<string>, reply: MineruReply)
    requires id != "" && Truthy(stored)
    requires HasNoEdgeSpace(id, IsPyWhitespace) && !Contains(id, PdfExtension)
    ensures HandleParseChecked(ParseRequest(Some("arxiv"), Some(id)), stored, reply).sent
         == Some(Call(PyServer.GetArxivPdfUrl(id), stored.value))
  {
    TrimFixpoint(id, IsPyWhitespace);
  }

  /** The `masked` value of `GET /api/token` (server.js:178). */
  function MaskToken(token: string): (masked: string)
    ensures |token| > 20 ==> |masked| == 18 && HasPrefix(masked, token[..10]) && HasSuffix(masked, token[|token| - 5..])
    ensures |token| <= 20 ==> masked == PyServer.FullMask
  {
    if |token| > 20 then JsSubstring(token, 0, Some(10)) + PyServer.Ellipsis + JsSubstring(token, |token| - 5, None) else PyServer.FullMask
  }

  /**
   * Node's `substring` masking and Python's slice masking agree on every token whose
   * characters are single UTF-16 code units; outside the Basic Multilingual Plane JavaScript
   * counts two units per character and Python one, so the two may mask differently.
   */
  lemma MaskingAgreesWithPython(token: string)
    requires InBmp(token)
    ensures MaskToken(token) == PyServer.MaskToken(token)
  {
    if |token| > 20 {
      assert JsSubstring(token, 0, Some(10)) == token[..10];
      assert JsSubstring(token, |token| - 5, None) == token[|token| - 5..];
    }
  }

  datatype TokenStatus = TokenStatus(configured: bool, masked: Option<string>)

  /** `GET /api/token` (server.js:175-186). */
  function GetTokenStatus(stored: Option<string>): (status: TokenStatus)
    ensures status.configured <==> Truthy(stored)
    ensures status.masked.Some? <==> status.configured
  {
    if Truthy(stored) then TokenStatus(true, Some(MaskToken(stored.value))) else TokenStatus(false, None)
  }

  /** Given the same stored token in the Basic Multilingual Plane, both services report the same status and mask. */
  lemma TokenStatusAgreesWithPython(stored: Option<string>)
    requires stored.Some? ==> InBmp(stored.value)
    ensures GetTokenStatus(stored).configured == PyServer.GetTokenStatus(stored).configured
    ensures GetTokenStatus(stored).masked == PyServer.GetTokenStatus(stored).masked
  {
    if Truthy(stored) {
      MaskingAgreesWithPython(stored.value);
    }
  }
}
