/**
 * The Flask service of scripts/server.py: the arXiv PDF URL builder, the `/api/parse`
 * dispatch over `sourceType`, the mapping of a MinerU reply to the response, and the
 * `/api/token` status with its masked token.
 *
 * The stored token (what `get_mineru_token` read), the set of existing local paths and
 * the MinerU reply are parameters.
 */
module PyServer {
  import opened Wrappers
  import opened Text
  import opened ArxivUrl


  const NoTokenError: string := "未配置 MinerU token"
  const MissingSourceError: string := "缺少 source 参数"
  const MissingFileError: string := "文件不存在: "
  const UnknownTypeError: string := "未知的 sourceType: "
  const ApiErrorPrefix: string := "API错误: "
  const Ellipsis: string := "..."
  const FullMask: string := "***"

  /** The JSON of a reply, or the message of the exception decoding it raised. */
  datatype Payload = Decoded(json: string) | Undecodable(message: string)

  /** What `requests.post` gave back: a response, or an exception with its message. */
  datatype HttpReply = Posted(status: nat, payload: Payload, text: string) | Raised(message: string)

  /** The JSON envelope `{"success": ..., "data" | "error", "detail"?}`. */
  datatype Response = Success(data: string) | Failure(error: string, detail: Option<string>)

  /** What is sent to MinerU: a local file upload or a remote URL. */
  datatype Upload = LocalFile(path: string) | RemoteUrl(url: string)
  datatype Call = Call(upload: Upload, token: string)

  /** The response together with the MinerU call made to reach it, if any. */
  datatype Outcome = Outcome(response: Response, sent: Option<Call>)

  /** The body of a `POST /api/parse` request: each key may be absent. */
  datatype ParseRequest = ParseRequest(token: Option<string>, sourceType: Option<string>, source: Option<string>)

  /** `get_arxiv_pdf_url` (server.py:103-111). */
  function GetArxivPdfUrl(arxivId: string): (url: string)
    ensures HasPrefix(url, ArxivPdfBase) && HasSuffix(url, PdfExtension)
    // A stripped id without ".pdf" appears unchanged between the fixed prefix and suffix.
    ensures !Contains(PyStrip(arxivId), PdfExtension) ==> url == ArxivPdfBase + PyStrip(arxivId) + PdfExtension
  {
    var id := PyStrip(arxivId);
    var cleaned := if Contains(id, PdfExtension) then RemoveAll(id, PdfExtension) else id;
    var url := ArxivPdfBase + cleaned + PdfExtension;
    assert url[..|ArxivPdfBase|] == ArxivPdfBase;
    assert url[|url| - |PdfExtension|..] == PdfExtension;
    url
  }

  /** The `'.pdf' in` guard changes nothing: the URL always holds the stripped id with every ".pdf" removed. */
  lemma ArxivPdfUrlRemovesEveryPdf(arxivId: string)
    ensures GetArxivPdfUrl(arxivId) == ArxivPdfBase + RemoveAll(PyStrip(arxivId), PdfExtension) + PdfExtension
  {
  }

  /** Appending ".pdf" to an id with no surrounding whitespace leaves nothing for `strip` to remove. */
  lemma StripKeepsExtension(arxivId: string)
    requires HasNoEdgeSpace(arxivId, IsPyWhitespace)
    ensures PyStrip(arxivId) == arxivId
    ensures PyStrip(arxivId + PdfExtension) == arxivId + PdfExtension
  {
    var withExt := arxivId + PdfExtension;
    TrimFixpoint(arxivId, IsPyWhitespace);
    assert !IsPyWhitespace(withExt[|withExt| - 1]);
    assert !IsPyWhitespace(withExt[0]) by {
      if arxivId != [] {
        assert withExt[0] == arxivId[0];
      }
    }
    TrimFixpoint(withExt, IsPyWhitespace);
  }

  /** An id with no surrounding whitespace gives the same URL with or without a trailing ".pdf". */
  lemma ArxivPdfUrlAbsorbsExtension(arxivId: string)
    requires HasNoEdgeSpace(arxivId, IsPyWhitespace)
    ensures GetArxivPdfUrl(arxivId + PdfExtension) == GetArxivPdfUrl(arxivId)
  {
    var withExt := arxivId + PdfExtension;
    var removed := RemoveAll(arxivId, PdfExtension);
    RemoveAllAppended(arxivId, PdfExtension);
    StripKeepsExtension(arxivId);
    ArxivPdfUrlRemovesEveryPdf(withExt);
    assert GetArxivPdfUrl(withExt) == ArxivPdfBase + removed + PdfExtension;
    ArxivPdfUrlRemovesEveryPdf(arxivId);
    assert GetArxivPdfUrl(arxivId) == ArxivPdfBase + removed + PdfExtension;
  }

  /** How `parse_pdf_with_mineru` and `parse_pdf_url_with_mineru` read the reply (server.py:62-68, 95-101). */
  function ReadReply(reply: HttpReply): (r: Response)
    ensures r.Success? <==> reply.Posted? && reply.status == 200 && reply.payload.Decoded?
    ensures r.Success? ==> r.data == reply.payload.json
    ensures reply.Posted? && reply.status != 200 ==> r.Failure? && HasPrefix(r.error, ApiErrorPrefix) && r.detail == Some(reply.text)
    ensures r.Failure? && r.detail.None? ==> !(reply.Posted? && reply.status != 200)
  {
    match reply
    case Raised(message) => Failure(message, None)
    case Posted(status, payload, text) =>
      if status == 200 then
        match payload
        case Decoded(json) => Success(json)
        case Undecodable(message) => Failure(message, None)
      else Failure(ApiErrorPrefix + NatToString(status, 10), Some(text))
  }

  /** The status a non-200 failure reports reads back as that status. */
  lemma ApiErrorCarriesStatus(reply: HttpReply)
    requires reply.Posted? && reply.status != 200
    ensures ParseNat(ReadReply(reply).error[|ApiErrorPrefix|..], 10) == reply.status
  {
    var e := ReadReply(reply).error;
    assert e[|ApiErrorPrefix|..] == NatToString(reply.status, 10);
    NatToStringRoundTrip(reply.status, 10);
  }

  /** `token or get_mineru_token()`, as both parse helpers and `parse_paper` resolve it. */
  function ChooseToken(given: Option<string>, stored: Option<string>): (token: Option<string>)
    ensures Truthy(given) ==> token == given
    ensures !Truthy(given) ==> token == stored
  {
    if Truthy(given) then given else stored
  }

  /** `parse_pdf_with_mineru` (server.py:40-68): upload the local file. */
  function ParsePdfWithMineru(path: string, given: Option<string>, stored: Option<string>, reply: HttpReply): (out: Outcome)
    ensures out.sent.None? <==> !Truthy(ChooseToken(given, stored))
    ensures out.sent.None? ==> out.response == Failure(NoTokenError, None)
    ensures out.sent.Some? ==> out.sent.value == Call(LocalFile(path), ChooseToken(given, stored).value) && out.response == ReadReply(reply)
  {
    var token := ChooseToken(given, stored);
    if !Truthy(token) then Outcome(Failure(NoTokenError, None), None)
    else Outcome(ReadReply(reply), Some(Call(LocalFile(path), token.value)))
  }

  /** `parse_pdf_url_with_mineru` (server.py:70-101): submit the URL. */
  function ParsePdfUrlWithMineru(url: string, given: Option<string>, stored: Option<string>, reply: HttpReply): (out: Outcome)
    ensures out.sent.None? <==> !Truthy(ChooseToken(given, stored))
    ensures out.sent.None? ==> out.response == Failure(NoTokenError, None)
    ensures out.sent.Some? ==> out.sent.value == Call(RemoteUrl(url), ChooseToken(given, stored).value) && out.response == ReadReply(reply)
  {
    var token := ChooseToken(given, stored);
    if !Truthy(token) then Outcome(Failure(NoTokenError, None), None)
    else Outcome(ReadReply(reply), Some(Call(RemoteUrl(url), token.value)))
  }

  predicate KnownSourceType(sourceType: Option<string>) {
    sourceType == Some("pdf") || sourceType == Some("arxiv") || sourceType == Some("url")
  }

  /** `parse_paper` (server.py:113-149). `existing` is the set of paths `os.path.exists` accepts. */
  function ParsePaper(req: ParseRequest, stored: Option<string>, existing: set<string>, reply: HttpReply): (out: Outcome)
    // The source is checked first, then the token; neither failure calls MinerU.
    ensures !Truthy(req.source) ==> out == Outcome(Failure(MissingSourceError, None), None)
    ensures Truthy(req.source) && !Truthy(ChooseToken(req.token, stored)) ==> out == Outcome(Failure(NoTokenError, None), None)
    // An unknown type is reported with the type as Python formats it, and calls nothing.
    ensures Truthy(req.source) && Truthy(ChooseToken(req.token, stored)) && !KnownSourceType(req.sourceType) ==>
      out == Outcome(Failure(UnknownTypeError + PyFormat(req.sourceType), None), None)
    // A local path that does not exist is rejected before any upload.
    ensures Truthy(req.source) && Truthy(ChooseToken(req.token, stored)) && req.sourceType == Some("pdf") && req.source.value !in existing ==>
      out == Outcome(Failure(MissingFileError + req.source.value, None), None)
    // MinerU is called exactly for a known type with a source and a token, and for "pdf"
    // only when the file exists.
    ensures out.sent.Some? <==>
      && Truthy(req.source) && Truthy(ChooseToken(req.token, stored)) && KnownSourceType(req.sourceType)
      && (req.sourceType == Some("pdf") ==> req.source.value in existing)
    // When MinerU is called, it is with the body's token if it has one, else the stored one,
    // and with the upload the source type names; the reply alone then decides the response.
    ensures out.sent.Some? ==>
      && Truthy(req.source) && KnownSourceType(req.sourceType)
      && out.sent.value.token == ChooseToken(req.token, stored).value
      && out.response == ReadReply(reply)
      && (req.sourceType == Some("pdf") ==> req.source.value in existing && out.sent.value.upload == LocalFile(req.source.value))
      && (req.sourceType == Some("arxiv") ==> out.sent.value.upload == RemoteUrl(GetArxivPdfUrl(req.source.value)))
      && (req.sourceType == Some("url") ==> out.sent.value.upload == RemoteUrl(req.source.value))
  {
    var token := ChooseToken(req.token, stored);
    if !Truthy(req.source) then Outcome(Failure(MissingSourceError, None), None)
    else if !Truthy(token) then Outcome(Failure(NoTokenError, None), None)
    else
      var source := req.source.value;
      if req.sourceType == Some("pdf") then
        if source in existing then ParsePdfWithMineru(source, token, stored, reply)
        else Outcome(Failure(MissingFileError + source, None), None)
      else if req.sourceType == Some("arxiv") then ParsePdfUrlWithMineru(GetArxivPdfUrl(source), token, stored, reply)
      else if req.sourceType == Some("url") then ParsePdfUrlWithMineru(source, token, stored, reply)
      else Outcome(Failure(UnknownTypeError + PyFormat(req.sourceType), None), None)
  }

  /** The `masked` value of `get_token_status` (server.py:171). */
  function MaskToken(token: string): (masked: string)
    ensures |token| > 20 ==> masked == token[..10] + Ellipsis + token[|token| - 5..] && |masked| == 18
    ensures |token| <= 20 ==> masked == FullMask
  {
    if |token| > 20 then PySlice(token, None, Some(10)) + Ellipsis + PySlice(token, Some(-5), None) else FullMask
  }

  /** The JSON of `GET /api/token`: whether a token is stored, and its masked form. */
  datatype TokenStatus = TokenStatus(configured: bool, masked: Option<string>)

  /** `get_token_status` (server.py:165-174). */
  function GetTokenStatus(stored: Option<string>): (status: TokenStatus)
    ensures status.configured <==> Truthy(stored)
    ensures status.masked.Some? <==> status.configured
    ensures status.masked.Some? ==> status.masked.value == MaskToken(stored.value)
  {
    if Truthy(stored) then TokenStatus(true, Some(MaskToken(stored.value))) else TokenStatus(false, None)
  }

  /** A masked long token shows only its first 10 and last 5 characters: two long tokens that agree there mask alike. */
  lemma MaskHidesMiddle(a: string, b: string)
    requires |a| > 20 && |b| > 20
    requires a[..10] == b[..10] && a[|a| - 5..] == b[|b| - 5..]
    ensures MaskToken(a) == MaskToken(b)
  {
  }
}
