/** The route logic of app.py: the health report, the 503 refusal of the routes that need
    an assistant, the `ChatResponse` built from a chat's outcome, the streaming route
    around the framer, and the upload route that saves a file before handing its path
    to the assistant. The assistant's calls are not modelled: their outcomes are
    parameters. */
module Service {
  import opened Wrappers
  import Assistant
  import Relay
  import FileStore

  // ---------------------------------------------------------------------------
  // Health

  /** The body of `/health`. */
  datatype HealthReport = HealthReport(status: string, assistantAvailable: bool, message: string)

  /** `/health`: healthy exactly when an assistant was created at startup. */
  function HealthCheck(assistantPresent: bool): (h: HealthReport)
    ensures h.assistantAvailable == assistantPresent
    ensures h.status == "healthy" <==> assistantPresent
    ensures h.status == (if assistantPresent then "healthy" else "degraded")
    ensures h.message == (if assistantPresent then "Assistant ready" else "Assistant initialization failed - check API key")
  {
    if assistantPresent then HealthReport("healthy", true, "Assistant ready")
    else HealthReport("degraded", false, "Assistant initialization failed - check API key")
  }

  /** The report never contradicts itself: the status is healthy exactly when the
      availability flag is set, and the message follows the status. */
  lemma HealthConsistent(assistantPresent: bool)
    ensures var h := HealthCheck(assistantPresent);
      (h.status == "healthy" <==> h.assistantAvailable) &&
      (h.message == "Assistant ready" <==> h.status == "healthy")
  {
  }

  // ---------------------------------------------------------------------------
  // The 503 gate

  /** A route's answer: refused with an HTTP status, or answered with a body. */
  datatype Answer<T> = Refused(status: nat, detail: string) | Answered(body: T)

  /** The detail of the refusal of `/upload`, `/chat`, `/chat/stream` and
      `/chat/history` when no assistant exists. */
  const NotAvailable: string := "Assistant not available"

  /** The gate at the head of the four routes: without an assistant the route is
      refused with 503 before anything else happens; otherwise it answers `body`. */
  function Gate<T>(assistantPresent: bool, body: T): (a: Answer<T>)
    ensures !assistantPresent ==> a == Refused(503, NotAvailable)
    ensures assistantPresent ==> a == Answered(body)
  {
    if !assistantPresent then Refused(503, NotAvailable) else Answered(body)
  }

  // ---------------------------------------------------------------------------
  // Chat responses

  /** The body of `/chat` and `/chat/history`. */
  datatype ChatResponse = ChatResponse(response: string, success: bool, error: Option<string>)

  /** The response built from a chat's outcome: the content on success, with no error;
      on an exception, an empty response and the exception's text. */
  function FromOutcome(outcome: Result<string, string>): (r: ChatResponse)
    ensures r.success <==> outcome.Success?
    ensures r.success <==> r.error.None?
    ensures outcome.Success? ==> r.response == outcome.value
    ensures outcome.Failure? ==> r.response == "" && r.error == Some(outcome.error)
  {
    match outcome
    case Success(content) => ChatResponse(content, true, None)
    case Failure(e) => ChatResponse("", false, Some(e))
  }

  /** The outcome a response reports, read back by its `success` flag. */
  function Outcome(r: ChatResponse): Result<string, string> {
    if r.success then Success(r.response) else Failure(r.error.GetOr(""))
  }

  /** The response shape loses nothing: the outcome can be read back from it. */
  lemma OutcomeRoundTrip(outcome: Result<string, string>)
    ensures Outcome(FromOutcome(outcome)) == outcome
  {
  }

  /** The chat routes' work after the gate: the vendor's reply (or the text of the
      exception it raised) is unwrapped with `get_response_content`; the response model
      accepts only a string, so any other content fails its validation, inside the
      `try`, with the text `validationError`. */
  function ChatOutcome(vendor: Result<Assistant.PyValue, string>, validationError: string): (outcome: Result<string, string>)
    ensures vendor.Failure? ==> outcome == Failure(vendor.error)
    ensures vendor.Success? && Assistant.GetResponseContent(vendor.value).PyStr? ==>
      outcome == Success(Assistant.GetResponseContent(vendor.value).s)
    ensures vendor.Success? && !Assistant.GetResponseContent(vendor.value).PyStr? ==>
      outcome == Failure(validationError)
  {
    match vendor
    case Failure(e) => Failure(e)
    case Success(reply) =>
      match Assistant.GetResponseContent(reply)
      case PyStr(content) => Success(content)
      case _ => Failure(validationError)
  }

  /** `/chat`: the gate, then the response for the vendor's outcome. */
  function ChatRoute(assistantPresent: bool, vendor: Result<Assistant.PyValue, string>, validationError: string): (a: Answer<ChatResponse>)
    ensures !assistantPresent ==> a == Refused(503, NotAvailable)
    ensures assistantPresent ==> a == Answered(FromOutcome(ChatOutcome(vendor, validationError)))
  {
    Gate(assistantPresent, FromOutcome(ChatOutcome(vendor, validationError)))
  }

  /** `/chat/history`. The history itself goes only to the vendor: what the vendor is
      sent for it is `Assistant.ChatWithHistory`, and this route sees only the vendor's
      outcome `vendor`. From there the handling is that of `/chat`: the same gate, the
      same unwrapping and the same error reply. */
  function HistoryRoute(assistantPresent: bool, vendor: Result<Assistant.PyValue, string>, validationError: string): (a: Answer<ChatResponse>)
    ensures !assistantPresent ==> a == Refused(503, NotAvailable)
    ensures assistantPresent ==> a == Answered(FromOutcome(ChatOutcome(vendor, validationError)))
  {
    Gate(assistantPresent, FromOutcome(ChatOutcome(vendor, validationError)))
  }

  /** Without an assistant the chat routes do not depend on what the vendor would have
      answered: they are refused before it is asked. */
  lemma RefusalIgnoresVendor(v1: Result<Assistant.PyValue, string>, v2: Result<Assistant.PyValue, string>, e1: string, e2: string)
    ensures ChatRoute(false, v1, e1) == ChatRoute(false, v2, e2) == Refused(503, NotAvailable)
    ensures HistoryRoute(false, v1, e1) == HistoryRoute(false, v2, e2) == Refused(503, NotAvailable)
  {
  }

  /** A vendor reply in either response shape carrying a string reaches the user
      unchanged, marked as a success. */
  lemma ReplyReachesUser(content: string, r1: Option<string>, r2: Option<string>, validationError: string)
    ensures ChatRoute(true, Success(Assistant.KeyedResponse(Assistant.PyStr(content), r1, r2)), validationError)
      == Answered(ChatResponse(content, true, None))
    ensures ChatRoute(true, Success(Assistant.AttributeResponse(Assistant.PyStr(content), r1, r2)), validationError)
      == Answered(ChatResponse(content, true, None))
  {
    Assistant.ShapesAgree(Assistant.PyStr(content), r1, r2, r1, r2);
  }

  // ---------------------------------------------------------------------------
  // Streaming

  /** `/chat/stream`: the gate, then the framed stream. */
  method StreamRoute(assistantPresent: bool, chunks: seq<Relay.StreamChunk>, ending: Relay.Ending) returns (a: Answer<seq<string>>)
    ensures !assistantPresent ==> a == Refused(503, NotAvailable)
    ensures assistantPresent && ending.Exhausted? ==>
      a == Answered(Relay.FramesOf(Relay.Contents(chunks)) + [Relay.Frame(Relay.DoneMarker)])
    ensures assistantPresent && ending.Raised? ==> a == Answered(Relay.FramesOf(Relay.Contents(chunks)))
  {
    if !assistantPresent {
      return Refused(503, NotAvailable);
    }
    var frames := Relay.Generate(chunks, ending);
    a := Answered(frames);
  }

  // ---------------------------------------------------------------------------
  // Upload

  /** The body of `/upload`. */
  datatype UploadResponse = UploadResponse(filename: string, success: bool, message: string, error: Option<string>)

  const UploadDirName: string := "uploads"

  /** Where the upload route saves `name`. */
  function UploadPath(name: string): string {
    UploadDirName + "/" + name
  }

  /** The paths that exist in the uploads directory. */
  function ExistingPaths(dir: FileStore.UploadDir): set<string> {
    set name | name in FileStore.Files(dir) :: UploadPath(name)
  }

  /** The message of an upload error, as `str(e)` gives it. */
  function ErrorText(e: Assistant.UploadError): string {
    e.message
  }

  /** What the upload route returns together with the directory it leaves behind. */
  datatype UploadResult = UploadResult(answer: Answer<UploadResponse>, dir: FileStore.UploadDir)

  /** `/upload`: the gate; then the file is saved in the uploads directory (created if
      needed), its path is handed to the assistant's `upload_file`, and the response
      says whether that succeeded. `saveError` is the text of the exception raised while
      creating the directory or writing the file, if any; such a failure is answered
      like a vendor failure, and the vendor is not asked. `vendor` is the vendor's
      outcome. */
  function UploadRoute(assistantPresent: bool, dir: FileStore.UploadDir, filename: string, bytes: seq<bv8>, time: int,
                       saveError: Option<string>, vendor: Result<Assistant.PyValue, string>): (r: UploadResult)
    ensures !assistantPresent ==> r == UploadResult(Refused(503, NotAvailable), dir)
    ensures assistantPresent && saveError.Some? ==>
      r == UploadResult(Answered(UploadResponse(filename, false, "Upload failed", saveError)), dir)
    ensures assistantPresent && saveError.None? ==>
      r.dir == FileStore.Save(dir, filename, bytes, time) && r.answer.Answered?
  {
    if !assistantPresent then UploadResult(Refused(503, NotAvailable), dir)
    else if saveError.Some? then
      UploadResult(Answered(UploadResponse(filename, false, "Upload failed", saveError)), dir)
    else
      var saved := FileStore.Save(dir, filename, bytes, time);
      var response :=
        match Assistant.UploadFile(ExistingPaths(saved), UploadPath(filename), vendor)
        case Success(_) => UploadResponse(filename, true, "File uploaded and processed successfully", None)
        case Failure(e) => UploadResponse(filename, false, "Upload failed", Some(ErrorText(e)));
      UploadResult(Answered(response), saved)
  }

  /** Once saved, the file is always found, so the upload succeeds exactly when the save
      and the vendor both do; a failure is reported as "Upload failed" with the message
      of whichever step failed, and a saved file stays saved either way. */
  lemma UploadOutcome(dir: FileStore.UploadDir, filename: string, bytes: seq<bv8>, time: int,
                      saveError: Option<string>, vendor: Result<Assistant.PyValue, string>)
    ensures var r := UploadRoute(true, dir, filename, bytes, time, saveError, vendor);
      && r.answer.body.filename == filename
      && (r.answer.body.success <==> saveError.None? && vendor.Success?)
      && (saveError.Some? ==> r.answer.body == UploadResponse(filename, false, "Upload failed", saveError))
      && (saveError.None? && vendor.Failure? ==>
            r.answer.body == UploadResponse(filename, false, "Upload failed", Some(vendor.error)))
      && (saveError.None? && vendor.Success? ==> r.answer.body.message == "File uploaded and processed successfully")
      && (saveError.None? ==> r.dir.files[filename] == FileStore.StoredFile(bytes, time))
  {
    var saved := FileStore.Save(dir, filename, bytes, time);
    assert UploadPath(filename) in ExistingPaths(saved);
  }
}
