/** The rest of the real assistant client (main.py): the request it sends for a single
    message and for a history, the upload precondition, and the adapter that reduces the
    vendor's dynamically shaped response to its content. The vendor calls themselves are
    not modelled: their outcomes are parameters. */
module Assistant {
  import opened Wrappers
  import opened Text
  import Prompt

  /** A Python value as far as the response adapter can observe it. `repr` is what
      `str()` returns for it, or `None` when `str()` raises. */
  datatype PyValue =
    | PyStr(s: string)
    | PyDict(entries: map<string, PyValue>, repr: Option<string>)
    | PyObject(attrs: map<string, PyValue>, repr: Option<string>)
    | PyOther(repr: Option<string>)

  /** Python's `str(v)`; `None` when it raises. */
  function Str(v: PyValue): Option<string> {
    match v
    case PyStr(s) => Some(s)
    case PyDict(_, r) => r
    case PyObject(_, r) => r
    case PyOther(r) => r
  }

  /** The fixed text returned when unwrapping raises. */
  const ExtractionError: string := "Error extracting response content"

  /** The keyed-map shape: a dict whose "message" entry is a dict with a "content" entry. */
  predicate IsKeyedShape(response: PyValue) {
    && response.PyDict?
    && "message" in response.entries
    && response.entries["message"].PyDict?
    && "content" in response.entries["message"].entries
  }

  /** The attribute shape: an object whose `message` attribute has a `content` attribute. */
  predicate IsAttributeShape(response: PyValue) {
    && response.PyObject?
    && "message" in response.attrs
    && response.attrs["message"].PyObject?
    && "content" in response.attrs["message"].attrs
  }

  /** `get_response_content`: the content of either response shape; otherwise `str()` of
      the response; and the fixed error text whenever a step raises (a dict whose
      "message" entry cannot be subscripted by "content", or a `str()` that raises). */
  function GetResponseContent(response: PyValue): (content: PyValue)
    ensures IsKeyedShape(response) ==> content == response.entries["message"].entries["content"]
    ensures IsAttributeShape(response) ==> content == response.attrs["message"].attrs["content"]
    ensures !IsKeyedShape(response) && !IsAttributeShape(response) ==>
      content.PyStr? && (content.s == ExtractionError || Some(content.s) == Str(response))
    ensures response.PyDict? && "message" in response.entries && !IsKeyedShape(response) ==>
      content == PyStr(ExtractionError)
    ensures !IsAttributeShape(response) && (!response.PyDict? || "message" !in response.entries) ==>
      content == (if Str(response).Some? then PyStr(Str(response).value) else PyStr(ExtractionError))
  {
    match response
    case PyDict(entries, _) =>
      if "message" in entries then
        match entries["message"]
        case PyDict(inner, _) =>
          if "content" in inner then inner["content"] else PyStr(ExtractionError)
        case _ => PyStr(ExtractionError)
      else StrOrError(response)
    case PyObject(attrs, _) =>
      if "message" in attrs && attrs["message"].PyObject? && "content" in attrs["message"].attrs
      then attrs["message"].attrs["content"]
      else StrOrError(response)
    case _ => StrOrError(response)
  }

  /** `str(response)`, or the fixed error text when `str()` raises. */
  function StrOrError(response: PyValue): PyValue {
    match Str(response)
    case Some(s) => PyStr(s)
    case None => PyStr(ExtractionError)
  }

  /** A response in the keyed-map shape carrying `content`. */
  function KeyedResponse(content: PyValue, innerRepr: Option<string>, outerRepr: Option<string>): PyValue {
    PyDict(map["message" := PyDict(map["content" := content], innerRepr)], outerRepr)
  }

  /** A response in the attribute shape carrying `content`. */
  function AttributeResponse(content: PyValue, innerRepr: Option<string>, outerRepr: Option<string>): PyValue {
    PyObject(map["message" := PyObject(map["content" := content], innerRepr)], outerRepr)
  }

  /** The two vendor shapes are interchangeable: carrying the same content, they unwrap
      to that same content, whatever else they print as. */
  lemma ShapesAgree(content: PyValue, r1: Option<string>, r2: Option<string>, r3: Option<string>, r4: Option<string>)
    ensures GetResponseContent(KeyedResponse(content, r1, r2)) == content
    ensures GetResponseContent(AttributeResponse(content, r3, r4)) == content
  {
    assert IsKeyedShape(KeyedResponse(content, r1, r2));
    assert IsAttributeShape(AttributeResponse(content, r3, r4));
  }

  /** Unwrapping never fails and yields a string whenever the response has neither
      shape: the fallback is exactly `str(response)` when that does not raise. */
  lemma FallbackIsStr(response: PyValue, text: string)
    requires !IsKeyedShape(response) && !IsAttributeShape(response)
    requires !response.PyDict? || "message" !in response.entries
    requires Str(response) == Some(text)
    ensures GetResponseContent(response) == PyStr(text)
  {
  }

  /** The fallback can be empty: a response that is the empty string unwraps to the empty
      string, since `str("")` is empty. */
  lemma FallbackCanBeEmpty()
    ensures GetResponseContent(PyStr("")) == PyStr("")
  {
  }

  // ---------------------------------------------------------------------------
  // Requests sent to the vendor

  /** The vendor's chat message type (only its content is used here). */
  datatype Message = Message(content: string)

  /** One element of the history passed to `chat_with_history`: a plain string, or any
      other object, which is passed through as it is. */
  datatype HistoryEntry = Plain(text: string) | Other(value: PyValue)

  /** One element of the list handed to the vendor. */
  datatype VendorEntry = Wrapped(message: Message) | Passed(value: PyValue)

  /** The inverse of the conversion, used to state that nothing is lost. */
  function Unwrap(e: VendorEntry): HistoryEntry {
    match e
    case Wrapped(m) => Plain(m.content)
    case Passed(v) => Other(v)
  }

  /** The history conversion of `chat_with_history`: every string becomes a `Message`
      with that content, every other entry is passed through, in the same order and
      with nothing dropped or added. */
  method ToVendorEntries(history: seq<HistoryEntry>) returns (entries: seq<VendorEntry>)
    ensures |entries| == |history|
    ensures forall i :: 0 <= i < |history| ==> Unwrap(entries[i]) == history[i]
    ensures forall i :: 0 <= i < |history| ==> (entries[i].Wrapped? <==> history[i].Plain?)
  {
    entries := [];
    var i := 0;
    while i < |history|
      invariant 0 <= i <= |history|
      invariant |entries| == i
      invariant forall j :: 0 <= j < i ==> Unwrap(entries[j]) == history[j]
      invariant forall j :: 0 <= j < i ==> (entries[j].Wrapped? <==> history[j].Plain?)
    {
      match history[i] {
        case Plain(t) => entries := entries + [Wrapped(Message(t))];
        case Other(v) => entries := entries + [Passed(v)];
      }
      i := i + 1;
    }
  }

  /** What the vendor chat call receives. */
  datatype ChatCall = ChatCall(entries: seq<VendorEntry>, stream: bool)

  /** `chat` of an assistant whose system prompt is `systemPrompt`: exactly one message,
      holding the enhanced prompt, which starts with the system prompt and a blank line
      and whose tail is the question marker, the user's message unmodified and the
      closing instruction. */
  function Chat(systemPrompt: string, message: string, stream: bool): (call: ChatCall)
    ensures |call.entries| == 1 && call.entries[0].Wrapped? && call.stream == stream
    ensures EndsWith(call.entries[0].message.content,
                     Prompt.QuestionMarker + message + Prompt.ClosingInstruction)
    ensures StartsWith(call.entries[0].message.content, systemPrompt + "\n\n")
    ensures StartsWith(call.entries[0].message.content,
                       systemPrompt + "\n\n" + Prompt.ContextBlock(Prompt.Classify(message)))
    ensures call.entries == [Wrapped(Message(Prompt.EnhanceUserMessage(systemPrompt, message)))]
  {
    var prompt := Prompt.EnhanceUserMessage(systemPrompt, message);
    var header := systemPrompt + "\n\n";
    assert StartsWith(prompt, header + Prompt.ContextBlock(Prompt.Classify(message)));
    assert prompt[..|header|] == (header + Prompt.ContextBlock(Prompt.Classify(message)))[..|header|];
    ChatCall([Wrapped(Message(prompt))], stream)
  }

  /** `chat_with_history`: the history goes to the vendor converted entry by entry and,
      unlike `chat`, without the system prompt or any context block. */
  method ChatWithHistory(history: seq<HistoryEntry>, stream: bool) returns (call: ChatCall)
    ensures |call.entries| == |history| && call.stream == stream
    ensures forall i :: 0 <= i < |history| ==> Unwrap(call.entries[i]) == history[i]
  {
    var entries := ToVendorEntries(history);
    call := ChatCall(entries, stream);
  }

  // ---------------------------------------------------------------------------
  // Upload

  /** Why an upload failed. */
  datatype UploadError = NotFound(message: string) | VendorFailed(message: string)

  /** `upload_file`: a path that does not exist fails with a not-found error before the
      vendor is called; otherwise the vendor's outcome (`vendor`) is returned, its
      exception re-raised. */
  function UploadFile(existing: set<string>, path: string, vendor: Result<PyValue, string>): (r: Result<PyValue, UploadError>)
    ensures path !in existing ==> r == Failure(NotFound("File not found: " + path))
    ensures path in existing ==> (r.Success? <==> vendor.Success?)
    ensures path in existing && vendor.Success? ==> r.value == vendor.value
    ensures path in existing && vendor.Failure? ==> r == Failure(VendorFailed(vendor.error))
  {
    if path !in existing then Failure(NotFound("File not found: " + path))
    else
      match vendor
      case Success(v) => Success(v)
      case Failure(e) => Failure(VendorFailed(e))
  }

  /** A missing path never reaches the vendor: the outcome does not depend on what the
      vendor would have answered. */
  lemma MissingPathSkipsVendor(existing: set<string>, path: string, v1: Result<PyValue, string>, v2: Result<PyValue, string>)
    requires path !in existing
    ensures UploadFile(existing, path, v1) == UploadFile(existing, path, v2)
    ensures UploadFile(existing, path, v1).error.NotFound?
  {
  }
}
