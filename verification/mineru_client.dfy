/**
 * The MinerU client of scripts/mineru_client.py: `parse_url` submits a PDF URL as a parse
 * task, polls the task at most 60 times, and on `done` downloads the result archive and
 * returns the first Markdown file in it; `parse_arxiv` builds the arXiv PDF URL first.
 *
 * The remote service is a script of replies (`Service`): one for the submit request, one
 * per poll attempt, and one for the archive download. The outcome and the requests sent
 * are a function of that script.
 */
module MineruClient {
  import opened Wrappers
  import opened Text
  import opened ArxivUrl

  const PollLimit: nat := 60
  const ModelVersion: string := "vlm"
  const MarkdownExtension: string := ".md"

  const NoTokenError: string := "未配置 MinerU token"
  const SubmitStatusError: string := "请求失败: "
  const DefaultApiError: string := "API错误"
  const NoMarkdownError: string := "ZIP中未找到Markdown文件"
  const DownloadStatusError: string := "下载结果失败: "
  const TaskFailedError: string := "解析失败"
  const TimeoutError: string := "解析超时"

  /** What the transport delivered for one request; a body that cannot be decoded is `None`. */
  datatype Reply<T> =
    | Answered(status: int, body: Option<T>)
    | TimedOut
    | NetworkFailure

  /** The JSON of a submit reply: `code`, `msg` and `data.task_id`, each possibly absent. */
  datatype SubmitBody = SubmitBody(code: Option<int>, msg: Option<string>, taskId: Option<string>)

  /** The `data` object of a poll reply. */
  datatype TaskData = TaskData(state: Option<string>, fullZipUrl: Option<string>, errMsg: Option<string>)

  /** The JSON of a poll reply. */
  datatype PollBody = PollBody(code: Option<int>, data: Option<TaskData>)

  /** One member of the result archive, in `namelist()` order, with its decoded text. */
  datatype ZipEntry = ZipEntry(name: string, content: string)

  /** The scripted remote side: the submit reply, the reply to poll attempt i, the download reply. */
  datatype Service = Service(
    submit: Reply<SubmitBody>,
    poll: nat -> Reply<PollBody>,
    download: Reply<seq<ZipEntry>>)

  /** An outbound request, in the order sent. */
  datatype Request =
    | Submit(url: string, modelVersion: string, token: string)
    | Poll(taskId: string)
    | Download(zipUrl: string)

  /**
   * The exception that ended the call, caught at scripts/mineru_client.py:149-154.
   * `BadJson` is an undecodable JSON body, which surfaces as "网络错误" or "错误"
   * depending on the version of the HTTP library.
   */
  datatype Crash = RequestTimeout | NetworkError | BadJson | OtherError

  /** The result dictionary of `parse_url`. */
  datatype ParseResult =
    | Parsed(markdown: string, zipUrl: string, taskId: string)
    | Failed(error: string, detail: Option<string>)
    | Crashed(crash: Crash)

  /** The result together with every request sent to reach it. */
  datatype Run = Run(result: ParseResult, sent: seq<Request>)

  /** `token or get_token()`, then the check that one was found (mineru_client.py:55-59). */
  function ResolveToken(tokenArg: Option<string>, stored: Option<string>): (token: Option<string>)
    ensures token.Some? <==> Truthy(tokenArg) || Truthy(stored)
    ensures token.Some? ==> token.value != ""
    ensures Truthy(tokenArg) ==> token == tokenArg
  {
    if Truthy(tokenArg) then tokenArg else if Truthy(stored) then stored else None
  }

  /** How one poll reply is read by the loop body (mineru_client.py:99-145). */
  datatype PollReading =
    | Pending
    | TaskDone(zipUrl: string)
    | TaskFailed(errMsg: string)
    | Broke(crash: Crash)

  function ReadPoll(reply: Reply<PollBody>): (reading: PollReading)
    // A non-200 status, a code other than 0, or a state other than done/failed keeps polling.
    ensures reading.Pending? <==>
      reply.Answered? &&
      (reply.status != 200 ||
       (reply.body.Some? &&
        (reply.body.value.code != Some(0) ||
         (reply.body.value.data.Some? &&
          reply.body.value.data.value.state != Some("done") &&
          reply.body.value.data.value.state != Some("failed")))))
    // Code 0 with state "done" and a `full_zip_url` reads as done, carrying that URL.
    ensures reading.TaskDone? <==>
      reply.Answered? && reply.status == 200 && reply.body.Some? && reply.body.value.code == Some(0) &&
      reply.body.value.data.Some? && reply.body.value.data.value.state == Some("done") &&
      reply.body.value.data.value.fullZipUrl.Some?
    ensures reading.TaskDone? ==>
      reply.Answered? && reply.body.Some? && reply.body.value.data.Some? && reply.body.value.data.value.fullZipUrl.Some? &&
      reading.zipUrl == reply.body.value.data.value.fullZipUrl.value
    // Only code 0 with state "failed" reads as a failure, carrying err_msg or "".
    ensures reading.TaskFailed? <==>
      reply.Answered? && reply.status == 200 && reply.body.Some? && reply.body.value.code == Some(0) &&
      reply.body.value.data.Some? && reply.body.value.data.value.state == Some("failed")
    ensures reading.TaskFailed? ==>
      reply.Answered? && reply.body.Some? && reply.body.value.data.Some? &&
      reading.errMsg == reply.body.value.data.value.errMsg.GetOr("")
  {
    match reply
    case TimedOut => Broke(RequestTimeout)
    case NetworkFailure => Broke(NetworkError)
    case Answered(status, body) =>
      if status != 200 then Pending
      else if body.None? then Broke(BadJson)
      else if body.value.code != Some(0) then Pending
      else if body.value.data.None? then Broke(OtherError)
      else
        var data := body.value.data.value;
        if data.state == Some("done") then
          if data.fullZipUrl.None? then Broke(OtherError) else TaskDone(data.fullZipUrl.value)
        else if data.state == Some("failed") then TaskFailed(data.errMsg.GetOr(""))
        else Pending
  }

  predicate IsMarkdownName(name: string) {
    HasSuffix(name, MarkdownExtension)
  }

  /** The content of the first archive member, in namelist order, whose name ends in ".md"; "" if none. */
  function FirstMarkdown(entries: seq<ZipEntry>): (content: string)
    ensures (forall k :: 0 <= k < |entries| ==> !IsMarkdownName(entries[k].name)) ==> content == ""
    ensures forall k :: (0 <= k < |entries| && IsMarkdownName(entries[k].name) &&
                         (forall j :: 0 <= j < k ==> !IsMarkdownName(entries[j].name))) ==> content == entries[k].content
  {
    if entries == [] then ""
    else if IsMarkdownName(entries[0].name) then entries[0].content
    else
      assert forall k :: 1 <= k < |entries| ==> entries[1..][k - 1] == entries[k];
      FirstMarkdown(entries[1..])
  }

  /** The scan of mineru_client.py:113-117, which stops at the first ".md" member. */
  method ExtractMarkdown(entries: seq<ZipEntry>) returns (markdown: string)
    ensures markdown == FirstMarkdown(entries)
  {
    markdown := "";
    for i := 0 to |entries|
      invariant FirstMarkdown(entries[i..]) == FirstMarkdown(entries)
      invariant markdown == ""
    {
      if IsMarkdownName(entries[i].name) {
        markdown := entries[i].content;
        break;
      }
      assert entries[i..][1..] == entries[i + 1..];
    }
  }

  /** The outcome once the task reported `done`: the download reply decides (mineru_client.py:106-138). */
  function FetchResult(reply: Reply<seq<ZipEntry>>, zipUrl: string, taskId: string): (r: ParseResult)
    ensures r.Parsed? <==> reply.Answered? && reply.status == 200 && reply.body.Some? && FirstMarkdown(reply.body.value) != ""
    ensures r.Parsed? ==> r == Parsed(FirstMarkdown(reply.body.value), zipUrl, taskId) && r.markdown != ""
    ensures reply.Answered? && reply.status != 200 ==> r == Failed(DownloadStatusError + IntToDecimal(reply.status), None)
  {
    match reply
    case TimedOut => Crashed(RequestTimeout)
    case NetworkFailure => Crashed(NetworkError)
    case Answered(status, body) =>
      if status == 200 then
        if body.None? then Crashed(OtherError)
        else
          var markdown := FirstMarkdown(body.value);
          if markdown == "" then Failed(NoMarkdownError, None) else Parsed(markdown, zipUrl, taskId)
      else Failed(DownloadStatusError + IntToDecimal(status), None)
  }

  /** The outcome of a poll reading that ends the loop. */
  function Conclude(reading: PollReading, svc: Service, taskId: string, sent: seq<Request>): Run
    requires !reading.Pending?
  {
    match reading
    case Broke(c) => Run(Crashed(c), sent)
    case TaskFailed(m) => Run(Failed(TaskFailedError, Some(m)), sent)
    case TaskDone(zipUrl) => Run(FetchResult(svc.download, zipUrl, taskId), sent + [Download(zipUrl)])
  }

  /** The poll loop from attempt `i` on, with `sent` already sent. */
  function PollFrom(svc: Service, taskId: string, i: nat, sent: seq<Request>): Run
    decreases PollLimit - i
  {
    if i >= PollLimit then Run(Failed(TimeoutError, None), sent)
    else
      var reading := ReadPoll(svc.poll(i));
      if reading.Pending? then PollFrom(svc, taskId, i + 1, sent + [Poll(taskId)])
      else Conclude(reading, svc, taskId, sent + [Poll(taskId)])
  }

  /** The submit reply carries code 0 and a task id, so polling starts. */
  predicate SubmitAccepted(reply: Reply<SubmitBody>) {
    reply.Answered? && reply.status == 200 && reply.body.Some?
    && reply.body.value.code == Some(0) && reply.body.value.taskId.Some?
  }

  /** `parse_url` (mineru_client.py:43-154) as a function of the scripted service. */
  function ParseUrlSpec(pdfUrl: string, tokenArg: Option<string>, stored: Option<string>, svc: Service): Run {
    match ResolveToken(tokenArg, stored)
    case None => Run(Failed(NoTokenError, None), [])
    case Some(token) =>
      var sent := [Submit(pdfUrl, ModelVersion, token)];
      match svc.submit
      case TimedOut => Run(Crashed(RequestTimeout), sent)
      case NetworkFailure => Run(Crashed(NetworkError), sent)
      case Answered(status, body) =>
        if status != 200 then Run(Failed(SubmitStatusError + IntToDecimal(status), None), sent)
        else if body.None? then Run(Crashed(BadJson), sent)
        else if body.value.code != Some(0) then Run(Failed(body.value.msg.GetOr(DefaultApiError), None), sent)
        else if body.value.taskId.None? then Run(Crashed(OtherError), sent)
        else PollFrom(svc, body.value.taskId.value, 0, sent)
  }

  /** `parse_url` as it runs: the bounded poll loop with its early returns. */
  method ParseUrl(pdfUrl: string, tokenArg: Option<string>, stored: Option<string>, svc: Service)
    returns (result: ParseResult, sent: seq<Request>)
    ensures Run(result, sent) == ParseUrlSpec(pdfUrl, tokenArg, stored, svc)
  {
    var token := tokenArg;
    if !Truthy(token) {
      token := stored;
    }
    if !Truthy(token) {
      return Failed(NoTokenError, None), [];
    }
    sent := [Submit(pdfUrl, ModelVersion, token.value)];
    var response := svc.submit;
    if response.TimedOut? {
      return Crashed(RequestTimeout), sent;
    } else if response.NetworkFailure? {
      return Crashed(NetworkError), sent;
    }
    if response.status != 200 {
      return Failed(SubmitStatusError + IntToDecimal(response.status), None), sent;
    }
    if response.body.None? {
      return Crashed(BadJson), sent;
    }
    var body := response.body.value;
    if body.code != Some(0) {
      return Failed(body.msg.GetOr(DefaultApiError), None), sent;
    }
    if body.taskId.None? {
      return Crashed(OtherError), sent;
    }
    var taskId := body.taskId.value;

    for i := 0 to PollLimit
      invariant PollFrom(svc, taskId, i, sent) == ParseUrlSpec(pdfUrl, tokenArg, stored, svc)
    {
      sent := sent + [Poll(taskId)];
      var resultResponse := svc.poll(i);
      if resultResponse.TimedOut? {
        return Crashed(RequestTimeout), sent;
      } else if resultResponse.NetworkFailure? {
        return Crashed(NetworkError), sent;
      }
      if resultResponse.status == 200 {
        if resultResponse.body.None? {
          return Crashed(BadJson), sent;
        }
        var resultData := resultResponse.body.value;
        if resultData.code == Some(0) {
          if resultData.data.None? {
            return Crashed(OtherError), sent;
          }
          var data := resultData.data.value;
          if data.state == Some("done") {
            if data.fullZipUrl.None? {
              return Crashed(OtherError), sent;
            }
            var zipUrl := data.fullZipUrl.value;
            sent := sent + [Download(zipUrl)];
            var zipResponse := svc.download;
            if zipResponse.TimedOut? {
              return Crashed(RequestTimeout), sent;
            } else if zipResponse.NetworkFailure? {
              return Crashed(NetworkError), sent;
            }
            if zipResponse.status == 200 {
              if zipResponse.body.None? {
                return Crashed(OtherError), sent;
              }
              var markdown := ExtractMarkdown(zipResponse.body.value);
              if markdown == "" {
                return Failed(NoMarkdownError, None), sent;
              }
              return Parsed(markdown, zipUrl, taskId), sent;
            } else {
              return Failed(DownloadStatusError + IntToDecimal(zipResponse.status), None), sent;
            }
          } else if data.state == Some("failed") {
            return Failed(TaskFailedError, Some(data.errMsg.GetOr(""))), sent;
          }
        }
      }
    }
    result := Failed(TimeoutError, None);
  }

  /** `parse_arxiv` (mineru_client.py:156-169): `parse_url` of the arXiv PDF URL. */
  method ParseArxiv(arxivId: string, tokenArg: Option<string>, stored: Option<string>, svc: Service)
    returns (result: ParseResult, sent: seq<Request>)
    ensures Run(result, sent) == ParseUrlSpec(ArxivPdfBase + arxivId + PdfExtension, tokenArg, stored, svc)
    ensures sent != [] ==> sent[0].Submit? && sent[0].url == ArxivPdfBase + arxivId + PdfExtension
  {
    var pdfUrl := ArxivPdfBase + arxivId + PdfExtension;
    result, sent := ParseUrl(pdfUrl, tokenArg, stored, svc);
    FirstRequestIsSubmit(pdfUrl, tokenArg, stored, svc);
  }

  // ----- Properties of the client -----

  function CountPolls(sent: seq<Request>): nat {
    if sent == [] then 0 else CountPolls(sent[..|sent| - 1]) + (if sent[|sent| - 1].Poll? then 1 else 0)
  }

  lemma CountPollsAppend(sent: seq<Request>, r: Request)
    ensures CountPolls(sent + [r]) == CountPolls(sent) + (if r.Poll? then 1 else 0)
  {
    assert (sent + [r])[..|sent|] == sent;
  }

  /** One attempt of the loop: a pending reading moves to the next attempt, any other concludes. */
  lemma PollFromUnfold(svc: Service, taskId: string, i: nat, sent: seq<Request>)
    requires i < PollLimit
    ensures ReadPoll(svc.poll(i)).Pending? ==>
      PollFrom(svc, taskId, i, sent) == PollFrom(svc, taskId, i + 1, sent + [Poll(taskId)])
    ensures !ReadPoll(svc.poll(i)).Pending? ==>
      PollFrom(svc, taskId, i, sent) == Conclude(ReadPoll(svc.poll(i)), svc, taskId, sent + [Poll(taskId)])
  {
  }

  /** Once a token is found and the submit accepted, the call is the poll loop after the submit. */
  lemma ParseUrlSpecPolls(pdfUrl: string, tokenArg: Option<string>, stored: Option<string>, svc: Service)
    requires ResolveToken(tokenArg, stored).Some? && SubmitAccepted(svc.submit)
    ensures ParseUrlSpec(pdfUrl, tokenArg, stored, svc)
         == PollFrom(svc, svc.submit.body.value.taskId.value, 0, [Submit(pdfUrl, ModelVersion, ResolveToken(tokenArg, stored).value)])
  {
  }

  /** From attempt i on, the loop only appends to what was already sent. */
  lemma {:induction false} PollFromExtends(svc: Service, taskId: string, i: nat, sent: seq<Request>)
    ensures |sent| <= |PollFrom(svc, taskId, i, sent).sent|
    ensures PollFrom(svc, taskId, i, sent).sent[..|sent|] == sent
    decreases PollLimit - i
  {
    if i < PollLimit {
      var next := sent + [Poll(taskId)];
      var reading := ReadPoll(svc.poll(i));
      PollFromUnfold(svc, taskId, i, sent);
      if reading.Pending? {
        PollFromExtends(svc, taskId, i + 1, next);
        var out := PollFrom(svc, taskId, i + 1, next).sent;
        assert out[..|sent|] == out[..|next|][..|sent|];
      } else if reading.TaskDone? {
        assert (next + [Download(reading.zipUrl)])[..|sent|] == sent;
      } else {
        assert next[..|sent|] == sent;
      }
    }
  }

  /**
   * From attempt i <= 60 on, the loop sends at most 60 - i polls, and exactly that many
   * when it ends in the timeout error.
   */
  lemma {:induction false} PollFromCounts(svc: Service, taskId: string, i: nat, sent: seq<Request>)
    requires i <= PollLimit
    ensures CountPolls(PollFrom(svc, taskId, i, sent).sent) <= CountPolls(sent) + (PollLimit - i)
    ensures PollFrom(svc, taskId, i, sent).result == Failed(TimeoutError, None) ==>
      CountPolls(PollFrom(svc, taskId, i, sent).sent) == CountPolls(sent) + (PollLimit - i)
    decreases PollLimit - i
  {
    if i < PollLimit {
      var next := sent + [Poll(taskId)];
      CountPollsAppend(sent, Poll(taskId));
      var reading := ReadPoll(svc.poll(i));
      PollFromUnfold(svc, taskId, i, sent);
      if reading.Pending? {
        PollFromCounts(svc, taskId, i + 1, next);
      } else {
        ConcludeIsNotTimeout(reading, svc, taskId, next);
        if reading.TaskDone? {
          CountPollsAppend(next, Download(reading.zipUrl));
        }
      }
    }
  }

  /** With no token given and none stored, nothing is sent; with one, the first request submits the URL. */
  lemma FirstRequestIsSubmit(pdfUrl: string, tokenArg: Option<string>, stored: Option<string>, svc: Service)
    ensures var run := ParseUrlSpec(pdfUrl, tokenArg, stored, svc);
      && (run.sent == [] <==> ResolveToken(tokenArg, stored).None?)
      && (run.sent == [] ==> run.result == Failed(NoTokenError, None))
      && (run.sent != [] ==> run.sent[0] == Submit(pdfUrl, ModelVersion, ResolveToken(tokenArg, stored).value))
  {
    var token := ResolveToken(tokenArg, stored);
    if token.Some? && SubmitAccepted(svc.submit) {
      var sent := [Submit(pdfUrl, ModelVersion, token.value)];
      ParseUrlSpecPolls(pdfUrl, tokenArg, stored, svc);
      PollFromExtends(svc, svc.submit.body.value.taskId.value, 0, sent);
    }
  }

  /** A rejected submit (transport error, non-200 status, code other than 0) ends the call before any poll. */
  lemma RejectedSubmitNeverPolls(pdfUrl: string, tokenArg: Option<string>, stored: Option<string>, svc: Service)
    requires ResolveToken(tokenArg, stored).Some?
    requires !SubmitAccepted(svc.submit)
    ensures ParseUrlSpec(pdfUrl, tokenArg, stored, svc).sent == [Submit(pdfUrl, ModelVersion, ResolveToken(tokenArg, stored).value)]
    ensures svc.submit.Answered? && svc.submit.status != 200 ==>
      ParseUrlSpec(pdfUrl, tokenArg, stored, svc).result == Failed(SubmitStatusError + IntToDecimal(svc.submit.status), None)
    ensures svc.submit.Answered? && svc.submit.status == 200 && svc.submit.body.Some? && svc.submit.body.value.code != Some(0) ==>
      ParseUrlSpec(pdfUrl, tokenArg, stored, svc).result == Failed(svc.submit.body.value.msg.GetOr(DefaultApiError), None)
  {
  }

  /** Whatever the service answers, at most 60 status requests are sent. */
  lemma AtMostSixtyPolls(pdfUrl: string, tokenArg: Option<string>, stored: Option<string>, svc: Service)
    ensures CountPolls(ParseUrlSpec(pdfUrl, tokenArg, stored, svc).sent) <= PollLimit
  {
    var token := ResolveToken(tokenArg, stored);
    if token.Some? {
      var sent := [Submit(pdfUrl, ModelVersion, token.value)];
      assert CountPolls(sent) == 0 by { assert sent[..0] == []; }
      if SubmitAccepted(svc.submit) {
        ParseUrlSpecPolls(pdfUrl, tokenArg, stored, svc);
        PollFromCounts(svc, svc.submit.body.value.taskId.value, 0, sent);
      }
    }
  }

  /** Every outcome a terminal poll reading leads to differs from the timeout result. */
  lemma ConcludeIsNotTimeout(reading: PollReading, svc: Service, taskId: string, sent: seq<Request>)
    requires !reading.Pending?
    ensures Conclude(reading, svc, taskId, sent).result != Failed(TimeoutError, None)
  {
    if reading.TaskDone? {
      var r := FetchResult(svc.download, reading.zipUrl, taskId);
      if r.Failed? && r.detail.None? {
        assert r.error[0] != TimeoutError[0];
      }
    }
  }

  /** From attempt i on: the loop times out exactly when every remaining attempt reads as pending. */
  lemma {:induction false} PollFromTimeout(svc: Service, taskId: string, i: nat, sent: seq<Request>)
    requires i <= PollLimit
    ensures PollFrom(svc, taskId, i, sent).result == Failed(TimeoutError, None)
        <==> forall j :: i <= j < PollLimit ==> ReadPoll(svc.poll(j)).Pending?
    decreases PollLimit - i
  {
    if i < PollLimit {
      var reading := ReadPoll(svc.poll(i));
      PollFromUnfold(svc, taskId, i, sent);
      if reading.Pending? {
        PollFromTimeout(svc, taskId, i + 1, sent + [Poll(taskId)]);
      } else {
        ConcludeIsNotTimeout(reading, svc, taskId, sent + [Poll(taskId)]);
      }
    }
  }

  /**
   * Once the submit is accepted, the result is the timeout error exactly when none of the
   * 60 poll attempts reads done, failed or an exception, and then exactly 60 polls were sent.
   */
  lemma TimeoutIffSixtyPending(pdfUrl: string, tokenArg: Option<string>, stored: Option<string>, svc: Service)
    requires ResolveToken(tokenArg, stored).Some? && SubmitAccepted(svc.submit)
    ensures var run := ParseUrlSpec(pdfUrl, tokenArg, stored, svc);
      && (run.result == Failed(TimeoutError, None) <==> forall j :: 0 <= j < PollLimit ==> ReadPoll(svc.poll(j)).Pending?)
      && (run.result == Failed(TimeoutError, None) ==> CountPolls(run.sent) == PollLimit)
  {
    var sent := [Submit(pdfUrl, ModelVersion, ResolveToken(tokenArg, stored).value)];
    var taskId := svc.submit.body.value.taskId.value;
    assert CountPolls(sent) == 0 by { assert sent[..0] == []; }
    ParseUrlSpecPolls(pdfUrl, tokenArg, stored, svc);
    PollFromTimeout(svc, taskId, 0, sent);
    PollFromCounts(svc, taskId, 0, sent);
  }

  /** From attempt i on, the first non-pending attempt k decides the result, after k - i + 1 polls. */
  lemma {:induction false} PollFromFirstDecisive(svc: Service, taskId: string, i: nat, k: nat, sent: seq<Request>)
    requires i <= k < PollLimit
    requires forall j :: i <= j < k ==> ReadPoll(svc.poll(j)).Pending?
    requires !ReadPoll(svc.poll(k)).Pending?
    ensures PollFrom(svc, taskId, i, sent) ==
      Conclude(ReadPoll(svc.poll(k)), svc, taskId, sent + seq(k - i + 1, _ => Poll(taskId)))
    decreases k - i
  {
    if i < k {
      PollFromFirstDecisive(svc, taskId, i + 1, k, sent + [Poll(taskId)]);
      assert sent + [Poll(taskId)] + seq(k - (i + 1) + 1, _ => Poll(taskId)) == sent + seq(k - i + 1, _ => Poll(taskId));
    } else {
      assert seq(1, _ => Poll(taskId)) == [Poll(taskId)];
    }
  }

  /**
   * Once the submit is accepted, the first attempt k < 60 that is not pending decides:
   * `failed` gives "解析失败" with `err_msg` (default ""), `done` gives the download's outcome,
   * which on success is the first ".md" member with the zip URL and the task id.
   */
  lemma FirstDecisivePollDecides(pdfUrl: string, tokenArg: Option<string>, stored: Option<string>, svc: Service, k: nat)
    requires ResolveToken(tokenArg, stored).Some? && SubmitAccepted(svc.submit)
    requires k < PollLimit
    requires forall j :: 0 <= j < k ==> ReadPoll(svc.poll(j)).Pending?
    requires !ReadPoll(svc.poll(k)).Pending?
    ensures var result := ParseUrlSpec(pdfUrl, tokenArg, stored, svc).result;
      var reading := ReadPoll(svc.poll(k));
      var taskId := svc.submit.body.value.taskId.value;
      && (reading.TaskFailed? ==> result == Failed(TaskFailedError, Some(reading.errMsg)))
      && (reading.TaskDone? ==> result == FetchResult(svc.download, reading.zipUrl, taskId))
      && (reading.Broke? ==> result == Crashed(reading.crash))
  {
    var sent := [Submit(pdfUrl, ModelVersion, ResolveToken(tokenArg, stored).value)];
    ParseUrlSpecPolls(pdfUrl, tokenArg, stored, svc);
    PollFromFirstDecisive(svc, svc.submit.body.value.taskId.value, 0, k, sent);
  }

  /** A poll reply that reports the task done, with the URL of its result archive. */
  predicate DoneReply(reply: Reply<PollBody>) {
    reply.Answered? && reply.status == 200 && reply.body.Some? && reply.body.value.code == Some(0) &&
    reply.body.value.data.Some? && reply.body.value.data.value.state == Some("done") &&
    reply.body.value.data.value.fullZipUrl.Some?
  }

  /**
   * The successful path: after k pending polls, a poll reporting `done` with a zip URL,
   * followed by a 200 download whose archive holds a non-empty ".md" member, gives that
   * member's text with the zip URL and the task id, after exactly the submit, k + 1 polls
   * and the download.
   */
  lemma DonePollYieldsMarkdown(pdfUrl: string, tokenArg: Option<string>, stored: Option<string>, svc: Service, k: nat)
    requires ResolveToken(tokenArg, stored).Some? && SubmitAccepted(svc.submit)
    requires k < PollLimit
    requires forall j :: 0 <= j < k ==> ReadPoll(svc.poll(j)).Pending?
    requires DoneReply(svc.poll(k))
    requires svc.download.Answered? && svc.download.status == 200 && svc.download.body.Some?
    requires FirstMarkdown(svc.download.body.value) != ""
    ensures var run := ParseUrlSpec(pdfUrl, tokenArg, stored, svc);
      var taskId := svc.submit.body.value.taskId.value;
      var zipUrl := svc.poll(k).body.value.data.value.fullZipUrl.value;
      && run.result == Parsed(FirstMarkdown(svc.download.body.value), zipUrl, taskId)
      && run.sent == [Submit(pdfUrl, ModelVersion, ResolveToken(tokenArg, stored).value)]
                     + seq(k + 1, _ => Poll(taskId)) + [Download(zipUrl)]
  {
    var sent := [Submit(pdfUrl, ModelVersion, ResolveToken(tokenArg, stored).value)];
    var taskId := svc.submit.body.value.taskId.value;
    assert ReadPoll(svc.poll(k)).TaskDone?;
    ParseUrlSpecPolls(pdfUrl, tokenArg, stored, svc);
    PollFromFirstDecisive(svc, taskId, 0, k, sent);
  }
}
