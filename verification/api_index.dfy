/**
 * The serverless handler of api/index.js: `POST /api/parse` takes an arXiv id or an arXiv
 * PDF URL, submits the PDF URL to MinerU's task API with model "vlm", and on acceptance
 * answers with the task id and the title and abstract scraped from arXiv; `/api/token`
 * reports whether the deployment has a token.
 *
 * The token (the `MINERU_TOKEN` environment variable), MinerU's reply and the arXiv
 * response are parameters.
 */
module ApiIndex {
  import opened Wrappers
  import opened Text
  import opened ArxivUrl
  import opened AtomScrape
  import PyServer

  const ArxivPdfMarker: string := "arxiv.org/pdf"
  const ModelVersion: string := "vlm"
  const TitleTag: string := "title"
  const SummaryTag: string := "summary"

  const NoTokenError: string := "未配置 token"
  const InvalidIdError: string := "无效 ID"
  const SubmittedMessage: string := "任务已提交"

  /** The arXiv id taken from `source` (index.js:23-26): the URL's prefix and first ".pdf" removed. */
  function ArxivIdOf(source: Option<string>): (id: Option<string>)
    ensures !(Truthy(source) && Contains(source.value, ArxivPdfMarker)) ==> id == source
    ensures Truthy(source) && Contains(source.value, ArxivPdfMarker) ==>
      id == Some(RemoveFirst(RemoveFirst(source.value, ArxivPdfBase), PdfExtension))
  {
    if Truthy(source) && Contains(source.value, ArxivPdfMarker) then
      Some(RemoveFirst(RemoveFirst(source.value, ArxivPdfBase), PdfExtension))
    else source
  }

  /** No occurrence of ".pdf" can start inside `x` and run into a following ".pdf". */
  lemma NoPdfBeforeExtension(x: string)
    requires !Contains(x, PdfExtension)
    ensures forall j :: 0 <= j < |x| ==> !OccursAt(x + PdfExtension, PdfExtension, j)
  {
    var t := x + PdfExtension;
    forall j | 0 <= j < |x|
      ensures !OccursAt(t, PdfExtension, j)
    {
      if j + 4 <= |x| {
        assert t[j..j + 4] == x[j..j + 4];
        assert !OccursAt(x, PdfExtension, j);
      } else {
        assert t[j..j + 4][|x| - j] == t[|x|] == '.';
      }
    }
  }

  /** Removing the first ".pdf" from an id without one, followed by ".pdf", gives back the id. */
  lemma RemoveTrailingPdf(x: string)
    requires !Contains(x, PdfExtension)
    ensures RemoveFirst(x + PdfExtension, PdfExtension) == x
  {
    NoPdfBeforeExtension(x);
    assert x + PdfExtension + [] == x + PdfExtension;
    RemoveFirstAt(x, PdfExtension, []);
  }

  /** An arXiv PDF URL contains the marker, and removing its prefix leaves the id and ".pdf". */
  lemma PdfUrlParts(x: string)
    ensures Contains(ArxivPdfBase + x + PdfExtension, ArxivPdfMarker)
    ensures RemoveFirst(ArxivPdfBase + x + PdfExtension, ArxivPdfBase) == x + PdfExtension
  {
    var url := ArxivPdfBase + x + PdfExtension;
    assert url[8..21] == ArxivPdfBase[8..21] == ArxivPdfMarker;
    ContainsWitness(url, ArxivPdfMarker, 8);
    assert [] + ArxivPdfBase + (x + PdfExtension) == url;
    RemoveFirstAt([], ArxivPdfBase, x + PdfExtension);
  }

  /** The id extraction inverts the URL the handler builds, for an id without ".pdf". */
  lemma ArxivIdOfPdfUrl(x: string)
    requires !Contains(x, PdfExtension)
    ensures ArxivIdOf(Some(ArxivPdfBase + x + PdfExtension)) == Some(x)
  {
    PdfUrlParts(x);
    RemoveTrailingPdf(x);
  }

  /** The `data` object of MinerU's reply; `task_id` may be absent. */
  datatype TaskRef = TaskRef(taskId: Option<string>)

  /** The JSON of MinerU's reply to the task submission; `data` is `None` when absent or null. */
  datatype SubmitJson = SubmitJson(code: Option<int>, msg: Option<string>, data: Option<TaskRef>)

  /** MinerU's reply: parsed JSON, a body that is not JSON, or a request error, each with its message. */
  datatype SubmitReply = Delivered(json: SubmitJson) | Undecodable(message: string) | RequestError(message: string)

  /** Title and abstract as `getArxivInfo` passes them on. */
  datatype PaperText = PaperText(title: string, abstractText: string)

  /** `getArxivInfo` (index.js:105-116); `data` is `None` when the request fails. */
  function GetArxivInfo(data: Option<string>): (info: PaperText)
    // Never a failure: a transport error or a missing match only empties that field.
    ensures data.None? ==> info == PaperText("", "")
    ensures data.Some? && FirstGroup(data.value, TitleTag).None? ==> info.title == ""
    ensures data.Some? && FirstGroup(data.value, SummaryTag).None? ==> info.abstractText == ""
    ensures data.Some? && FirstGroup(data.value, TitleTag).Some? ==> info.title == JsTrim(FirstGroup(data.value, TitleTag).value)
    ensures data.Some? && FirstGroup(data.value, SummaryTag).Some? ==> info.abstractText == JsTrim(FirstGroup(data.value, SummaryTag).value)
    ensures HasNoEdgeSpace(info.title, IsJsWhitespace) && HasNoEdgeSpace(info.abstractText, IsJsWhitespace)
  {
    match data
    case None => PaperText("", "")
    case Some(d) => PaperText(JsTrim(FirstGroup(d, TitleTag).GetOr("")), JsTrim(FirstGroup(d, SummaryTag).GetOr("")))
  }

  /**
   * The handler's JSON answer; `error` is absent when MinerU's reply has no `msg`.
   * `Unanswered` is no answer at all: reading `result.data.task_id` of a reply without
   * `data` throws inside the arXiv callback, where no `try` catches it.
   */
  datatype Response =
    | Accepted(id: string, title: string, abstractText: string, taskId: Option<string>, message: string)
    | Rejected(error: Option<string>)
    | Unanswered

  /** The task submission: the PDF URL, the model version and the bearer token. */
  datatype Submission = Submission(url: string, modelVersion: string, token: string)

  datatype Outcome = Outcome(response: Response, sent: Option<Submission>)

  /** The `/api/parse` handler (index.js:17-95). */
  function HandleParse(source: Option<string>, token: Option<string>, reply: SubmitReply, arxivData: Option<string>): (out: Outcome)
    // The token is checked before the id; neither failure submits anything.
    ensures !Truthy(token) ==> out == Outcome(Rejected(Some(NoTokenError)), None)
    ensures Truthy(token) && !Truthy(ArxivIdOf(source)) ==> out == Outcome(Rejected(Some(InvalidIdError)), None)
    ensures out.sent.Some? <==> Truthy(token) && Truthy(ArxivIdOf(source))
    // The submitted URL is always the arXiv PDF URL of the id, with model "vlm".
    ensures out.sent.Some? ==> out.sent.value == Submission(ArxivPdfBase + ArxivIdOf(source).value + PdfExtension, ModelVersion, token.value)
    // Code 0 exactly with a `data` object is acceptance, carrying the task id; code 0 without
    // `data` answers nothing; any other code fails with `msg`.
    ensures out.response.Accepted? <==> out.sent.Some? && reply.Delivered? && reply.json.code == Some(0) && reply.json.data.Some?
    ensures out.response.Accepted? ==>
      out.response == Accepted(ArxivIdOf(source).value, GetArxivInfo(arxivData).title,
                               GetArxivInfo(arxivData).abstractText, reply.json.data.value.taskId, SubmittedMessage)
    ensures out.response.Unanswered? <==> out.sent.Some? && reply.Delivered? && reply.json.code == Some(0) && reply.json.data.None?
    ensures out.sent.Some? && reply.Delivered? && reply.json.code != Some(0) ==> out.response == Rejected(reply.json.msg)
  {
    var arxivId := ArxivIdOf(source);
    if !Truthy(token) then Outcome(Rejected(Some(NoTokenError)), None)
    else if !Truthy(arxivId) then Outcome(Rejected(Some(InvalidIdError)), None)
    else
      var sent := Some(Submission(ArxivPdfBase + arxivId.value + PdfExtension, ModelVersion, token.value));
      match reply
      case RequestError(message) => Outcome(Rejected(Some(message)), sent)
      case Undecodable(message) => Outcome(Rejected(Some(message)), sent)
      case Delivered(json) =>
        if json.code == Some(0) then
          var info := GetArxivInfo(arxivData);
          match json.data
          case None => Outcome(Unanswered, sent)
          case Some(data) => Outcome(Accepted(arxivId.value, info.title, info.abstractText, data.taskId, SubmittedMessage), sent)
        else Outcome(Rejected(json.msg), sent)
  }

  /** Given an arXiv PDF URL whose id has no ".pdf", the handler submits exactly that URL. */
  lemma PdfUrlSubmittedUnchanged(x: string, token: Option<string>, reply: SubmitReply, arxivData: Option<string>)
    requires Truthy(token) && x != "" && !Contains(x, PdfExtension)
    ensures HandleParse(Some(ArxivPdfBase + x + PdfExtension), token, reply, arxivData).sent
         == Some(Submission(ArxivPdfBase + x + PdfExtension, ModelVersion, token.value))
  {
    ArxivIdOfPdfUrl(x);
  }

  /** The JSON of `/api/token`: always a success, with whether a token is configured. */
  datatype TokenAnswer = TokenAnswer(success: bool, configured: bool)

  /** `/api/token` (index.js:97-100). */
  function TokenRoute(token: Option<string>): TokenAnswer {
    TokenAnswer(true, Truthy(token))
  }

  /**
   * The serverless `/api/token` always succeeds and, given the same token, reports
   * `configured` as the Python service does, which shows a mask exactly when it is set.
   */
  lemma TokenRouteAgreesWithPython(token: Option<string>)
    ensures TokenRoute(token).success
    ensures TokenRoute(token).configured == PyServer.GetTokenStatus(token).configured
    ensures TokenRoute(token).configured <==> PyServer.GetTokenStatus(token).masked.Some?
  {
  }
}
