# paper-analyzer, modelled in Dafny

paper-analyzer ingests papers and hands their PDFs to the MinerU parsing service. This
project models its core and proves properties about it:

- **The paper store** (`api/db.js`, module `Db`). A paper's `uuid` comes from one of three
  sources: its arXiv id (`arxiv_<id>`), the 32-bit JavaScript string hash of its PDF URL
  (`pdf_<hex>`), or its row id and the clock (`legacy_<id>_<now>`). The `migrateUuid`
  backfill gives a uuid to every row that has none. `papers.uuid` is UNIQUE, and
  `paper_images` is keyed by `(paper_uuid, filename)`. `PaperTable` is a class whose `rows`
  map the methods update. The hash loop is a method proved equal to a recursive
  specification. That specification is in turn proved equal to the polynomial hash
  `Σ c·31^k`, reduced to a signed 32-bit value.
- **The MinerU client** (`scripts/mineru_client.py`, module `MineruClient`). `parse_url`
  submits a URL. It then polls the task at most 60 times, downloads the result archive on
  `done` and returns its first `.md` member. The remote service is a script of replies.
  `ParseUrl` is the loop with its early returns, proved equal to the function
  `ParseUrlSpec`. The lemmas about `ParseUrlSpec` bound the number of polls, say when the
  result is the timeout error, and show that the first terminal poll decides the outcome.
- **The Python service** (`scripts/server.py`, module `PyServer`). It covers:
  - the arXiv PDF URL;
  - the `/api/parse` dispatch over `sourceType`;
  - how a MinerU reply maps to a response;
  - the masked token.
- **The Node service** (`api/server.js`, module `NodeServer`). Its regular-expression
  scraping of arXiv Atom responses is in module `AtomScrape`. `AtomScrape` models leftmost
  matching, the `g` flag and the tag clean-up, and is shared with `api/index.js`. Lemmas
  show that the Node and Python services mask a token identically when all its characters
  lie in the Basic Multilingual Plane. They also show that both services request the same
  URL for a clean arXiv id.
- **The serverless handler** (`api/index.js`, module `ApiIndex`). It extracts the arXiv id
  from a URL or a bare id and submits the task. `ArxivIdOf` inverts the URL the handler
  builds.

`Text` holds the JavaScript and Python string primitives the code relies on. These are
`indexOf`/`in`, `replace` (first occurrence, and Python's every occurrence), `trim`/`strip`
with their exact whitespace sets, slicing and `substring`, truthiness, and number-to-string
conversion in any radix, with its inverse. `Wrappers` holds `Option`.

Strings are sequences of `char`, each a Unicode scalar value. Python counts code points, so
a Python string is one `char` per code point. JavaScript counts UTF-16 code units, so a
JavaScript string is modelled exactly when its characters lie in the Basic Multilingual
Plane, where one code point is one code unit (`Text.InBmp`). Module `ArxivUrl` holds the
arXiv PDF prefix and the ".pdf" extension that all four services use.

## Model

| member | source | states |
|---|---|---|
| Db.ToInt32 | api/db.js:26 | `h & h` yields a signed 32-bit value congruent to `h` modulo 2^32, and leaves 32-bit values unchanged |
| Db.ShiftLeft5 | api/db.js:25 | `h << 5` is a signed 32-bit value congruent to 32·h modulo 2^32 |
| Db.HashStepIsMul31 | api/db.js:25-26 | one loop step turns `h` into ToInt32(31·h + charCode) |
| Db.UrlHash | api/db.js:22-27 | after every character the accumulator stays in the signed 32-bit range |
| Db.UrlHashIsPolyHash | api/db.js:22-27 | the hash of a string is its polynomial hash Σ c_i·31^(n-1-i) read as a signed 32-bit integer |
| Db.ComputeUrlHash | api/db.js:22-27 | the `for` loop over `charCodeAt` computes exactly `UrlHash` of the URL |
| Db.DeriveUuid | api/db.js:17-31 | the uuid is non-empty, and its prefix identifies the branch that made it, in both directions: `arxiv_` iff a truthy arXiv id other than `'PDF'`, `pdf_` iff otherwise a truthy URL, `legacy_` iff neither |
| Db.ArxivUuidIsTheArxivId | api/db.js:18-19 | an arXiv uuid is `arxiv_` + the id; two are equal iff the arXiv ids are |
| Db.PdfUuidShape | api/db.js:28 | a URL uuid is `pdf_` + 1 to 8 lower-case hex digits; their value is \|hash\| ≤ 2^31, and the uuid depends on the URL alone |
| Db.MinInt32Hex | api/db.js:28 | `Math.abs(-2^31).toString(16)` is `80000000` |
| Db.LegacyUuidsDistinct | api/db.js:30 | two legacy uuids are equal iff both the row ids and the clock readings are |
| Db.PaperTable.constructor | api/db.js:43-60 | a table starts from rows whose uuids are unique |
| Db.PaperTable.SetUuid | api/db.js:33 | the UPDATE succeeds iff no other row holds the uuid, and then changes only that row's uuid; a missing id matches nothing; uniqueness is kept |
| Db.PaperTable.MigrateUuid | api/db.js:10-39 | the same rows remain and uniqueness is kept; rows that had a uuid are unchanged; each row that had none gets its derived uuid, or is left unchanged while another row holds that uuid |
| Db.InsertImage | api/db.js:66-73 | an insert succeeds iff `(paper_uuid, filename)` is free, adds exactly that row and keeps the others |
| Db.SameFilenameTwoPapers | api/db.js:66-73 | the same filename under two different paper uuids is stored twice, and each copy keeps its own data |
| Text.IndexOf | api/index.js:24 | the result is the first occurrence at or after the start, or `None` when there is none |
| Text.RemoveFirst | api/index.js:25 | without an occurrence the string is unchanged; with one it loses exactly one pattern's length |
| Text.RemoveFirstAt | api/index.js:25 | in `a + pat + b` with no earlier occurrence, removing the first `pat` gives `a + b` |
| Text.RemoveAll | scripts/server.py:108 | the result is no longer than the input, and is unchanged without an occurrence |
| Text.RemoveAllAt | scripts/server.py:108 | the first occurrence is removed and the scan resumes after it: with no occurrence starting inside `a`, removing every `pat` from `a + pat + b` gives `a` followed by the removal from `b` |
| Text.RemoveAllMayLeavePattern | scripts/server.py:108 | one left-to-right pass can join a new occurrence: ".p.pdfdf" becomes ".pdf" |
| Text.RemoveAllAppended | scripts/server.py:108 | removing every ".pdf" from `x + ".pdf"` gives the same as from `x` |
| Text.TrimStart | scripts/server.py:106 | only leading whitespace is removed, and the result starts with a non-whitespace character |
| Text.TrimEnd | scripts/server.py:106 | only trailing whitespace is removed, and the result ends with a non-whitespace character |
| Text.TrimFixpoint | scripts/server.py:106 | trimming leaves a string unchanged iff neither end is whitespace; a trimmed string has no edge whitespace |
| Text.PyStrip | scripts/server.py:106 | `strip()` leaves no whitespace at either end |
| Text.JsTrim | api/server.js:65-66 | `trim()` leaves no whitespace at either end |
| Text.NatToString | api/db.js:28 | `toString(radix)` is never empty |
| Text.NatToStringDigits | api/db.js:28 | every character is a digit of the radix, and there is no leading zero |
| Text.NatToStringRoundTrip | api/db.js:28 | reading the digits back gives the number |
| Text.NatToStringInjective | api/db.js:30 | two numbers have the same decimal spelling iff they are equal |
| Text.NatToStringLength | api/db.js:28 | a number below radix^k has at most k digits |
| MineruClient.ResolveToken | scripts/mineru_client.py:55-59 | a token is found iff the argument or the stored token is truthy; the argument wins |
| MineruClient.ReadPoll | scripts/mineru_client.py:99-145 | a poll keeps the loop going iff it has a non-200 status, a code other than 0, or a state other than done/failed; it reads as done iff status 200, code 0, state "done" and a `full_zip_url`, and then carries that URL; it reads as failed iff status 200, code 0 and state "failed", and then carries `err_msg`, defaulting to "" |
| MineruClient.FirstMarkdown | scripts/mineru_client.py:113-117 | the content of the first member in namelist order whose name ends in `.md`, and "" when there is none |
| MineruClient.ExtractMarkdown | scripts/mineru_client.py:113-117 | the scan that stops at the first `.md` member returns `FirstMarkdown` |
| MineruClient.FetchResult | scripts/mineru_client.py:106-138 | success iff the download answers 200 and the first `.md` member is non-empty; success carries that markdown, the zip URL and the task id; a non-200 download fails with its status |
| MineruClient.ParseUrl | scripts/mineru_client.py:43-154 | the loop with its early returns produces exactly the result and the requests of `ParseUrlSpec` |
| MineruClient.ParseArxiv | scripts/mineru_client.py:156-169 | `parse_arxiv(id)` is `parse_url("https://arxiv.org/pdf/" + id + ".pdf")`, and its first request submits that URL |
| MineruClient.PollFromExtends | scripts/mineru_client.py:91-147 | the poll loop only appends requests |
| MineruClient.PollFromCounts | scripts/mineru_client.py:91-147 | from attempt i the loop sends at most 60 − i polls, and exactly that many when it times out |
| MineruClient.FirstRequestIsSubmit | scripts/mineru_client.py:55-78 | nothing is sent iff no token is found, and the result is then the token error; otherwise the first request submits the URL with model "vlm" and that token |
| MineruClient.RejectedSubmitNeverPolls | scripts/mineru_client.py:80-86 | a submit that is not accepted ends the call after the submit alone; a non-200 status reports that status, and a code other than 0 reports `msg` or "API错误" |
| MineruClient.AtMostSixtyPolls | scripts/mineru_client.py:91 | whatever the service answers, at most 60 status requests are sent |
| MineruClient.ConcludeIsNotTimeout | scripts/mineru_client.py:104-147 | no terminal poll reading produces the timeout result |
| MineruClient.PollFromTimeout | scripts/mineru_client.py:91-147 | from attempt i, the loop times out iff every remaining attempt is pending |
| MineruClient.TimeoutIffSixtyPending | scripts/mineru_client.py:91-147 | once the submit is accepted, the result is "解析超时" iff all 60 attempts are pending, and then exactly 60 polls were sent |
| MineruClient.PollFromFirstDecisive | scripts/mineru_client.py:91-145 | from attempt i, the first non-pending attempt k decides the outcome, after k − i + 1 polls |
| MineruClient.FirstDecisivePollDecides | scripts/mineru_client.py:99-145 | the first terminal poll decides: `failed` gives "解析失败" with `err_msg`, `done` gives the download's outcome, an exception gives that exception |
| MineruClient.DonePollYieldsMarkdown | scripts/mineru_client.py:99-136 | after k pending polls, a `done` poll with a zip URL and a 200 download holding a non-empty `.md` member give that member's text, the zip URL and the task id, after exactly the submit, k + 1 polls and the download |
| PyServer.GetArxivPdfUrl | scripts/server.py:103-111 | the URL starts with `https://arxiv.org/pdf/` and ends with `.pdf`; a stripped id without ".pdf" appears unchanged between them |
| PyServer.ArxivPdfUrlRemovesEveryPdf | scripts/server.py:106-111 | the URL holds the stripped id with every ".pdf" removed, so the `in` guard is redundant |
| PyServer.StripKeepsExtension | scripts/server.py:106 | an id with no edge whitespace, with or without ".pdf" appended, is left alone by `strip()` |
| PyServer.ArxivPdfUrlAbsorbsExtension | scripts/server.py:103-111 | an id and the same id + ".pdf" give the same URL |
| PyServer.ReadReply | scripts/server.py:95-101 | success iff status 200 with decodable JSON, and it carries that JSON; any other status fails with "API错误: " and the body text |
| PyServer.ApiErrorCarriesStatus | scripts/server.py:98-99 | the status can be read back from the error message |
| PyServer.ChooseToken | scripts/server.py:72-73 | a truthy given token wins; otherwise the stored one is used |
| PyServer.ParsePdfWithMineru | scripts/server.py:40-68 | without a truthy token nothing is uploaded and the token error is returned; otherwise the file is uploaded with that token and the reply decides |
| PyServer.ParsePdfUrlWithMineru | scripts/server.py:70-101 | without a truthy token nothing is submitted and the token error is returned; otherwise the URL is submitted with that token and the reply decides |
| PyServer.ParsePaper | scripts/server.py:113-149 | a missing source is reported before a missing token; an unknown type yields "未知的 sourceType: " + the type; a missing local file is rejected before any upload; MinerU is called iff the source and the token are truthy, the type is known and, for "pdf", the file exists; it is called with the body's token if it has one, and with the upload the type names |
| PyServer.MaskToken | scripts/server.py:171 | a token longer than 20 masks to its first 10 chars + "..." + its last 5 (18 chars); any other token masks to "***" |
| PyServer.GetTokenStatus | scripts/server.py:165-174 | the status is configured iff the stored token is truthy, and only then carries the mask |
| PyServer.MaskHidesMiddle | scripts/server.py:171 | two long tokens that agree in their first 10 and last 5 chars mask alike |
| AtomScrape.RunLength | api/server.js:53 | the run of non-`<` characters stops at a `<` or at the end |
| AtomScrape.MatchAt | api/server.js:53 | a group found at index i is a match of `/<tag>([^<]+)<\/tag>/` there |
| AtomScrape.MatchAtComplete | api/server.js:53 | every match at index i is the one `MatchAt` finds, so the group at an index is unique |
| AtomScrape.FirstMatch | api/server.js:53-55 | the result is the leftmost match at or after the start; `None` means there is no match anywhere after it |
| AtomScrape.AllMatches | api/server.js:56 | the `g`-flag list is empty iff there is no match; it starts with the leftmost match, and every element is a match |
| AtomScrape.AllMatchesStep | api/server.js:56 | after each match the search resumes at its end |
| AtomScrape.AllMatchesOrdered | api/server.js:56 | the matches come in document order without overlap |
| AtomScrape.AllMatchesSkipNothing | api/server.js:56 | no match starts between two consecutive listed matches, or after the last one |
| AtomScrape.AllMatchesNoneAfterLast | api/server.js:56 | no match starts after the end of the last listed match |
| AtomScrape.StripNameTags | api/server.js:58 | removing the tags never lengthens the text |
| AtomScrape.StripBeforeCloseTag | api/server.js:58 | a group followed by `</name>` loses only the tag |
| AtomScrape.StripNameMatch | api/server.js:58 | stripping `<name>`/`</name>` from a whole match leaves exactly its group |
| AtomScrape.AuthorNames | api/server.js:56-58 | the author list has one entry per `<name>` match, in order, and each entry is that match's group |
| AtomScrape.FirstGroup | api/server.js:53-55 | the first group, if any, is the leftmost match's non-empty group with no `<`; `None` means there is no match |
| NodeServer.GetArxivInfo | api/server.js:50-74 | "未找到论文" iff there is no `<title>` match; otherwise the id and `pdf_url` are those of the request |
| NodeServer.ArxivInfoText | api/server.js:65-66 | the title is the leftmost `<title>` group, trimmed; the abstract is the leftmost `<summary>` group, trimmed, or '' without one |
| NodeServer.ArxivInfoPublished | api/server.js:68 | `published` has at most 10 characters: a non-empty prefix of the `<published>` group, or '' without one |
| NodeServer.ArxivInfoAuthors | api/server.js:56-67 | `authors` lists every `<name>` group in document order |
| NodeServer.ArxivInfoRoute | api/server.js:212-223 | a missing or empty id is rejected with "缺少 id 参数" before any lookup; a failed arXiv request rejects the `await` outside any `try`, so no answer is sent iff the id is truthy and the request failed; otherwise the answer is the lookup's |
| NodeServer.ReadReply | api/server.js:100-111 | success iff the body parses as JSON, and it carries that JSON; an unparsable body fails with "解析响应失败" and the body as detail |
| NodeServer.PdfUrlFor | api/server.js:151-156 | `arxiv` gives the template URL, `url` gives the source, and any other type gives a falsy URL |
| NodeServer.HandleParse | api/server.js:139-165 | the token error comes before `sourceType` is looked at; MinerU is called iff the URL is truthy, with the stored token; otherwise the answer is "无效的源" |
| NodeServer.ArxivWithoutSourceSubmitsUndefined | api/server.js:152-153 | as written, `arxiv` without a source submits `https://arxiv.org/pdf/undefined.pdf` |
| NodeServer.HandleParseChecked | api/server.js:151-165 | MinerU is only asked for a URL built from a source the client sent: `arxiv` gives the PDF URL of the source, `url` gives the source itself |
| NodeServer.CheckedAgreesWithSource | api/server.js:151-165 | the corrected handler behaves as written whenever a source is present |
| NodeServer.ArxivUrlAgreesWithPython | api/server.js:153 | for an id without edge whitespace or ".pdf", the Node and Python services request the same URL |
| NodeServer.MaskToken | api/server.js:178 | a token longer than 20 masks to 18 chars, starting with its first 10 and ending with its last 5; any other token masks to "***" |
| NodeServer.MaskingAgreesWithPython | api/server.js:178 | the Node masking equals the Python masking for every token whose characters lie in the Basic Multilingual Plane |
| NodeServer.GetTokenStatus | api/server.js:175-186 | the status is configured iff the stored token is truthy, and only then carries the mask |
| NodeServer.TokenStatusAgreesWithPython | api/server.js:175-186 | given the same stored token, with its characters in the Basic Multilingual Plane, both services report the same status and mask |
| ApiIndex.ArxivIdOf | api/index.js:23-26 | a source containing `arxiv.org/pdf` loses its first URL prefix and then its first ".pdf"; any other source is the id unchanged |
| ApiIndex.NoPdfBeforeExtension | api/index.js:25 | in `x + ".pdf"`, with no ".pdf" in `x`, no occurrence starts inside `x` |
| ApiIndex.RemoveTrailingPdf | api/index.js:25 | removing the first ".pdf" from `x + ".pdf"` gives back `x` |
| ApiIndex.PdfUrlParts | api/index.js:24-25 | an arXiv PDF URL contains the marker, and loses exactly its prefix |
| ApiIndex.ArxivIdOfPdfUrl | api/index.js:23-26 | extracting the id from `https://arxiv.org/pdf/<x>.pdf` gives back x |
| ApiIndex.GetArxivInfo | api/index.js:105-116 | never a failure: a transport error or a missing match gives '' for that field; otherwise the leftmost group, trimmed |
| ApiIndex.HandleParse | api/index.js:17-95 | the token is checked before the id; something is submitted iff both are truthy, and it is always `https://arxiv.org/pdf/<id>.pdf` with "vlm"; code 0 with a `data` object is acceptance, carrying `task_id`, the id and the arXiv text; code 0 without `data` throws in the arXiv callback and answers nothing; any other code fails with `msg` |
| ApiIndex.PdfUrlSubmittedUnchanged | api/index.js:23-42 | given an arXiv PDF URL whose id has no ".pdf", exactly that URL is submitted |
| ApiIndex.TokenRouteAgreesWithPython | api/index.js:97-100 | `/api/token` always answers with success, and `configured` equals the Python service's for the same token, which shows a mask exactly when it is set |

## Left out

- HTTP and HTTPS traffic, `requests`, `time.sleep` and socket timeouts are not modelled.
  Every external reply is a parameter (for `parse_url`, a script of replies).
- Exception messages are not modelled. `MineruClient` records which handler at
  scripts/mineru_client.py:149-154 caught the exception (`Crash`), not the text it formats.
  An undecodable JSON reply is the kind `BadJson`. Depending on the HTTP library's version,
  it surfaces as "网络错误" or as "错误".
- A missing `data`, `task_id` or `full_zip_url` in a MinerU reply makes the Python client
  raise. The model reduces that to the opaque error kind `OtherError`. When these fields
  are present, the model takes them to be strings.
- Reading and writing token files (`get_token`, `save_token`, `getMineruToken`,
  `saveMineruToken`, the POST `/api/token` routes) and `process.env` are not modelled. The
  token they yield is a parameter.
- Zip decompression and UTF-8 decoding are not modelled. The archive is its list of
  members, in `namelist()` order, with their decoded text. A corrupt archive is an opaque
  error. Writing `paper.md` to `output_dir` is not modelled.
- The `xml.etree` branch of `get_arxiv_info` in scripts/server.py is not modelled. It is a
  library call.
- JSON serialisation, CORS headers, routing by path and method, the `data += chunk`
  accumulation, and server start-up and shutdown are not modelled. Each handler receives
  its parsed body and its complete response text.
- `Db.PaperTable.MigrateUuid`: reads the clock once for the whole backfill. The source
  calls `Date.now()` once per row, so two legacy rows may get different clock values.
- `Db.PaperTable.MigrateUuid`: SQLite callbacks and asynchrony are not modelled. The
  updates are applied one after another, in an unspecified order.
- The chat tables (`chat_sessions`, `chat_messages`) are not modelled. No code in the core
  reads or writes them.
- The `NOT NULL` constraint on `papers.uuid` is not modelled. The backfill exists because
  older databases hold rows without one, so the model allows `None`.
- A transport failure during one poll is not swallowed. At scripts/mineru_client.py:72-154
  a single `try` encloses the whole loop, so such a failure ends `parse_url` with an error.
  `MineruClient.ReadPoll` reads it as `Broke`.
- MaskingAgreesWithPython: holds only for tokens whose characters lie in the Basic
  Multilingual Plane. Outside it JavaScript counts two code units per character and Python
  one: 18 × "a" followed by two U+1F600 masks to "***" in Python and to a ten-unit prefix,
  "..." and a five-unit suffix in Node.
- TokenStatusAgreesWithPython: inherits the same restriction to tokens in the Basic
  Multilingual Plane.
- NodeServer.MaskToken: a token with characters outside the Basic Multilingual Plane is
  measured in code points, not in UTF-16 code units, and `substring` cannot split a
  surrogate pair in the model.
- Db.UrlHash: hashes one `char` per step, which is `charCodeAt` only for URLs in the Basic
  Multilingual Plane. A character outside it contributes its two surrogate code units in
  JavaScript.
- Non-string JSON values are not modelled. A `source`, `token` or `sourceType` is either a
  string or absent.

## Findings

| source | as written | input that shows it | evidently intended | confidence | as-written member | corrected member |
|---|---|---|---|---|---|---|
| api/server.js:151-158 | for `sourceType` `'arxiv'`, the template literal splices `source` in whatever it is, so the URL is always truthy | `{"sourceType": "arxiv"}` with a token stored: MinerU is asked for `https://arxiv.org/pdf/undefined.pdf` | reject a request without a source, as the `url` branch does here and as scripts/server.py:122-123 does | medium, not executed | NodeServer.ArxivWithoutSourceSubmitsUndefined | NodeServer.HandleParseChecked |
