/** The browser side in static/js/app.js: the guard that refuses to send blank input, the
    mapping of the health report onto the status indicator, what a regular reply shows,
    the reader of the `data: ` lines of a stream, and `formatMessage`, the small
    markdown-to-HTML rewriter applied to every message shown. The DOM, timers and
    scrolling are not modelled. */
module Client {
  import opened Wrappers
  import opened Text
  import opened JsonText
  import Relay

  // ---------------------------------------------------------------------------
  // Sending

  /** `sendMessage`'s guard: the trimmed input, or nothing to send when it is empty. */
  function MessageToSend(input: string): (m: Option<string>)
    ensures m.None? <==> AllJsSpace(input)
    ensures m.Some? ==> m.value == Trim(input) && |m.value| > 0
    ensures m.Some? ==> !IsJsSpace(m.value[0]) && !IsJsSpace(m.value[|m.value| - 1])
    ensures m.Some? ==> exists i, j :: 0 <= i <= j <= |input| && m.value == input[i..j]
  {
    TrimEmptyIff(input);
    var message := Trim(input);
    if |message| == 0 then None else Some(message)
  }

  // ---------------------------------------------------------------------------
  // The status indicator

  /** The fields of `/health` the client reads. */
  datatype HealthData = HealthData(status: string, assistantAvailable: bool)

  datatype Tone = SuccessTone | WarningTone | DangerTone

  /** The status text and the colour of its dot. */
  datatype Indicator = Indicator(text: string, tone: Tone)

  /** `checkHealth`: `fetched` is the parsed report, or `None` when the request or the
      parsing failed. Ready only for a healthy report with the assistant available;
      any other report is a warning; no report at all shows the client offline. */
  function CheckHealth(fetched: Option<HealthData>): (ind: Indicator)
    ensures ind.tone == SuccessTone <==> fetched.Some? && fetched.value.status == "healthy" && fetched.value.assistantAvailable
    ensures ind.tone == DangerTone <==> fetched.None?
    ensures ind.tone == SuccessTone ==> ind.text == "Ready"
    ensures ind.tone == WarningTone ==> ind.text == "Assistant Unavailable"
    ensures ind.tone == DangerTone ==> ind.text == "Offline"
  {
    match fetched
    case None => Indicator("Offline", DangerTone)
    case Some(data) =>
      if data.status == "healthy" && data.assistantAvailable then Indicator("Ready", SuccessTone)
      else Indicator("Assistant Unavailable", WarningTone)
  }

  // ---------------------------------------------------------------------------
  // Regular replies

  /** The JSON body of a `/chat` reply as the client reads it: a chat response, or some
      other document (such as the 503 refusal's `detail`), where `success` and `error`
      are undefined. */
  datatype ReplyBody = ChatReply(success: bool, response: string, error: Option<string>) | OtherBody

  /** What `sendRegularMessage` adds to the page. */
  datatype Shown = AssistantMessage(text: string) | ErrorNotice(text: string)

  const UnknownError: string := "Unknown error occurred"

  /** A successful reply shows its response; anything else shows its error, or a
      generic message when the error is missing or empty (both falsy). */
  function DisplayRegular(body: ReplyBody): (shown: Shown)
    ensures shown.AssistantMessage? <==> body.ChatReply? && body.success
    ensures shown.AssistantMessage? ==> shown.text == body.response
    ensures shown.ErrorNotice? && body.ChatReply? && body.error.Some? && body.error.value != "" ==>
      shown.text == body.error.value
    ensures shown.ErrorNotice? && (body.OtherBody? || body.error.None? || body.error.value == "") ==>
      shown.text == UnknownError
  {
    if body.ChatReply? && body.success then AssistantMessage(body.response)
    else if body.ChatReply? && body.error.Some? && body.error.value != "" then ErrorNotice(body.error.value)
    else ErrorNotice(UnknownError)
  }

  // ---------------------------------------------------------------------------
  // Reading a stream

  /** What one line of a read does: nothing, end the read's line loop, or append text. */
  datatype LineEvent = Ignore | Stop | Append(content: string)

  /** One line: only `data: ` lines whose rest is not blank are parsed; a document that
      does not parse is logged and skipped; the `[DONE]` content stops the loop. */
  function ReadLine(line: string): (ev: LineEvent)
    ensures ev == LineMeaning(line)
  {
    if !StartsWith(line, Relay.DataPrefix) then Ignore
    else
      var data := line[|Relay.DataPrefix|..];
      if |Trim(data)| == 0 then Ignore
      else
        match ParseContent(data)
        case None => Ignore
        case Some(c) => if c == Relay.DoneMarker then Stop else Append(c)
  }

  /** What a line means to the client: a `data: ` line whose payload parses carries its
      content, and the `[DONE]` content stops; every other line is ignored. The reader's
      test for blank data is not needed here, as blank data never parses. */
  function LineMeaning(line: string): LineEvent {
    if StartsWith(line, Relay.DataPrefix) then
      match ParseContent(line[|Relay.DataPrefix|..])
      case Some(c) => if c == Relay.DoneMarker then Stop else Append(c)
      case None => Ignore
    else Ignore
  }

  /** The contents appended for the lines of one read, in order, up to the first
      `[DONE]`: the `break` leaves only the loop over this read's lines. */
  function ReadLines(lines: seq<string>): (appended: seq<string>)
    ensures forall k :: 0 <= k < |appended| ==> appended[k] != Relay.DoneMarker
    decreases |lines|
  {
    if |lines| == 0 then []
    else
      match ReadLine(lines[0])
      case Ignore => ReadLines(lines[1..])
      case Stop => []
      case Append(c) => [c] + ReadLines(lines[1..])
  }

  /** Where the line loop of a read ends: the index of the first `[DONE]` line, or the
      number of lines when there is none. */
  function FirstStop(lines: seq<string>): (n: nat)
    ensures n <= |lines|
    ensures forall k :: 0 <= k < n ==> !ReadLine(lines[k]).Stop?
    ensures n < |lines| ==> ReadLine(lines[n]).Stop?
    decreases |lines|
  {
    if |lines| == 0 then 0
    else if ReadLine(lines[0]).Stop? then 0
    else
      var n := FirstStop(lines[1..]);
      NoStopShift(lines, n);
      1 + n
  }

  /** No `[DONE]` before `n` in the lines after the first, nor in the first: none
      before `n + 1`. */
  lemma NoStopShift(lines: seq<string>, n: nat)
    requires 0 < |lines| && n < |lines| && !ReadLine(lines[0]).Stop?
    requires forall k :: 0 <= k < n ==> !ReadLine(lines[1..][k]).Stop?
    ensures forall k :: 0 <= k < n + 1 ==> !ReadLine(lines[k]).Stop?
  {
    forall k | 1 <= k < n + 1
      ensures !ReadLine(lines[k]).Stop?
    {
      assert lines[k] == lines[1..][k - 1];
    }
  }

  /** The contents of the lines that carry one, in order, whatever else the lines hold. */
  function LineContents(lines: seq<string>): seq<string>
    decreases |lines|
  {
    if |lines| == 0 then [] else ContentOf(lines[0]) + LineContents(lines[1..])
  }

  /** The content a line carries, if any. */
  function ContentOf(line: string): seq<string> {
    match ReadLine(line)
    case Append(c) => [c]
    case _ => []
  }

  /** A read appends exactly the contents of its lines before the first `[DONE]`, in
      order; the lines after it are not looked at. */
  lemma {:induction false} ReadLinesUpToStop(lines: seq<string>)
    ensures ReadLines(lines) == LineContents(lines[..FirstStop(lines)])
    decreases |lines|
  {
    if |lines| > 0 && !ReadLine(lines[0]).Stop? {
      var n := FirstStop(lines);
      ReadLinesUpToStop(lines[1..]);
      LineContentsStep(lines[..n]);
      assert lines[..n][0] == lines[0];
      assert lines[..n][1..] == lines[1..][..n - 1];
    }
  }

  /** The contents of non-empty lines are the first line's, then the rest's. */
  lemma LineContentsStep(lines: seq<string>)
    requires |lines| > 0
    ensures LineContents(lines) == ContentOf(lines[0]) + LineContents(lines[1..])
  {
  }

  /** One read: its text split into lines. */
  function ReadChunk(chunk: string): seq<string> {
    ReadLines(SplitOn(chunk, '\n'))
  }

  /** All reads of a response: the outer loop goes on reading after a `[DONE]`, so each
      read contributes its own contents. */
  function ReadAll(received: seq<string>): seq<string>
    decreases |received|
  {
    if |received| == 0 then [] else ReadChunk(received[0]) + ReadAll(received[1..])
  }

  /** A line of a frame is read back as the content it was written from, or as the end
      of the read for the `[DONE]` frame. */
  lemma ReadFrameLine(content: string)
    ensures ReadLine(Relay.FrameLine(content)) == if content == Relay.DoneMarker then Stop else Append(content)
  {
    var line := Relay.FrameLine(content);
    var data := line[|Relay.DataPrefix|..];
    PayloadRoundTrip(content);
    TrimEndKeepsHead(data);
  }

  /** A read that holds no `data: ` line, such as the JSON body of a refusal, appends
      nothing. */
  lemma {:induction false} NoDataNoContent(lines: seq<string>)
    requires forall k :: 0 <= k < |lines| ==> !StartsWith(lines[k], Relay.DataPrefix)
    ensures ReadLines(lines) == []
    decreases |lines|
  {
    if |lines| > 0 {
      NoDataNoContent(lines[1..]);
    }
  }

  /** In particular a read that starts with `{` and holds no line break appends
      nothing: the refusal `{"detail": ...}` of the stream route leaves the message
      empty. */
  lemma RefusalShowsNothing(body: string)
    requires |body| > 0 && body[0] == '{' && '\n' !in body
    ensures ReadChunk(body) == []
  {
    assert SplitOn(body, '\n') == [body];
    assert !StartsWith(body, Relay.DataPrefix) by {
      assert Relay.DataPrefix[0] == 'd';
    }
    NoDataNoContent([body]);
  }

  // ---------------------------------------------------------------------------
  // formatMessage

  /** The characters a regular expression's `.` does not match. */
  predicate IsLineTerminator(c: char) {
    c == '\n' || c == '\r' || c == '\U{2028}' || c == '\U{2029}'
  }

  /** Text a regular expression's `.*` can match. */
  predicate OneLine(x: string) {
    forall i :: 0 <= i < |x| ==> !IsLineTerminator(x[i])
  }

  /** The lazy `(.*?)` followed by the delimiter `d`: the length of the shortest
      stretch of `t` free of line terminators that is followed by `d`. */
  function FindClose(t: string, d: string): (k: Option<nat>)
    requires |d| > 0
    ensures k.Some? ==> k.value + |d| <= |t| && StartsWith(t[k.value..], d)
    ensures k.Some? ==> OneLine(t[..k.value])
    decreases |t|
  {
    if StartsWith(t, d) then Some(0)
    else if |t| == 0 || IsLineTerminator(t[0]) then None
    else
      match FindClose(t[1..], d)
      case None => None
      case Some(k) =>
        assert t[..k + 1] == [t[0]] + t[1..][..k];
        Some(k + 1)
  }

  /** The match is the shortest one: the delimiter starts nowhere before it. */
  lemma {:induction false} FindCloseShortest(t: string, d: string)
    requires |d| > 0 && FindClose(t, d).Some?
    ensures forall j :: 0 <= j < FindClose(t, d).value ==> !StartsWith(t[j..], d)
    decreases |t|
  {
    if !StartsWith(t, d) {
      FindCloseShortest(t[1..], d);
      forall j | 1 <= j < FindClose(t, d).value ensures !StartsWith(t[j..], d) {
        assert t[j..] == t[1..][j - 1..];
      }
    }
  }

  /** The search misses no match: when it finds none, no stretch of `t` free of line
      terminators is followed by `d`. */
  lemma {:induction false} FindCloseComplete(t: string, d: string)
    requires |d| > 0 && FindClose(t, d).None?
    ensures forall j :: 0 <= j <= |t| && OneLine(t[..j]) ==> !StartsWith(t[j..], d)
    decreases |t|
  {
    assert t[0..] == t;
    if |t| > 0 && !IsLineTerminator(t[0]) {
      FindCloseComplete(t[1..], d);
      forall j | 1 <= j <= |t| && OneLine(t[..j]) ensures !StartsWith(t[j..], d) {
        assert t[1..][..j - 1] == t[..j][1..];
        assert t[j..] == t[1..][j - 1..];
      }
    } else if |t| > 0 {
      forall j | 1 <= j <= |t| ensures !OneLine(t[..j]) {
        assert t[..j][0] == t[0];
      }
    }
  }

  /** A global `replace` of the pattern `d(.*?)d` by `open $1 close`: scanning left to
      right, each position where a match starts is rewritten and the scan resumes
      after it; elsewhere the character is kept. */
  function Rewrite(s: string, d: string, open: string, close: string): string
    requires |d| > 0
    decreases |s|
  {
    if |s| == 0 then ""
    else Emit(s, d, open, close) + Rewrite(s[Skip(s, d)..], d, open, close)
  }

  /** Where the scan stands on a match of `d(.*?)d`, the length of the text between
      the delimiters. */
  function MatchAt(s: string, d: string): (k: Option<nat>)
    requires |d| > 0
    ensures k.Some? ==> |d| + k.value + |d| <= |s|
  {
    if StartsWith(s, d) then FindClose(s[|d|..], d) else None
  }

  /** What one step of the scan writes: the element for a match, else the character. */
  function Emit(s: string, d: string, open: string, close: string): string
    requires |d| > 0 && |s| > 0
  {
    match MatchAt(s, d)
    case Some(k) => open + s[|d|..|d| + k] + close
    case None => [s[0]]
  }

  /** How far one step of the scan moves: past the match, else one character. */
  function Skip(s: string, d: string): (n: nat)
    requires |d| > 0 && |s| > 0
    ensures 0 < n <= |s|
  {
    match MatchAt(s, d)
    case Some(k) => |d| + k + |d|
    case None => 1
  }

  /** `formatMessage`: line breaks become `<br>`, then `**bold**`, `*emphasis*` and
      `` `code` `` become HTML elements; empty content stays empty. */
  function FormatMessage(content: string): string {
    if |content| == 0 then ""
    else
      var s := ReplaceChar(content, '\n', "<br>");
      var s := Rewrite(s, "**", "<strong>", "</strong>");
      var s := Rewrite(s, "*", "<em>", "</em>");
      Rewrite(s, "`", "<code>", "</code>")
  }

  /** Text without the delimiter's first character is left as it is. */
  lemma {:induction false} RewriteAbsent(s: string, d: string, open: string, close: string)
    requires |d| > 0 && d[0] !in s
    ensures Rewrite(s, d, open, close) == s
    decreases |s|
  {
    if |s| > 0 {
      assert !StartsWith(s, d);
      RewriteAbsent(s[1..], d, open, close);
    }
  }

  /** A character in none of the input, the opening and the closing text is not in the
      output. */
  lemma {:induction false} RewriteKeepsAbsent(s: string, d: string, open: string, close: string, c: char)
    requires |d| > 0 && c !in s && c !in open && c !in close
    ensures c !in Rewrite(s, d, open, close)
    decreases |s|
  {
    if |s| > 0 {
      if MatchAt(s, d).Some? {
        assert c !in s[|d|..|d| + MatchAt(s, d).value];
      }
      RewriteKeepsAbsent(s[Skip(s, d)..], d, open, close, c);
    }
  }

  /** A delimited span free of the delimiter's first character and of line terminators
      is rewritten into the element, and the scan goes on after it. */
  lemma RewriteSpan(x: string, rest: string, d: string, open: string, close: string)
    requires |d| > 0 && d[0] !in x
    requires OneLine(x)
    ensures Rewrite(d + x + d + rest, d, open, close) == open + x + close + Rewrite(rest, d, open, close)
  {
    SpanFound(x, rest, d);
    RewriteParts(d + x + d + rest, x, rest, d, open, close);
  }

  /** A scan step where the match found is the span `x`, followed by `rest`. */
  lemma RewriteParts(s: string, x: string, rest: string, d: string, open: string, close: string)
    requires |d| > 0 && |s| > 0 && MatchAt(s, d) == Some(|x|)
    requires s[|d|..|d| + |x|] == x && s[|d| + |x| + |d|..] == rest
    ensures Rewrite(s, d, open, close) == open + x + close + Rewrite(rest, d, open, close)
  {
    StepAt(s, x, rest, d, open, close);
    RewriteStep(s, d, open, close);
  }

  /** A step on a match of the span `x` writes the element and resumes at `rest`. */
  lemma StepAt(s: string, x: string, rest: string, d: string, open: string, close: string)
    requires |d| > 0 && |s| > 0 && MatchAt(s, d) == Some(|x|)
    requires s[|d|..|d| + |x|] == x && s[|d| + |x| + |d|..] == rest
    ensures Emit(s, d, open, close) == open + x + close && s[Skip(s, d)..] == rest
  {
  }

  /** The scan of non-empty text is its first step, then the scan of what follows. */
  lemma RewriteStep(s: string, d: string, open: string, close: string)
    requires |d| > 0 && |s| > 0
    ensures Rewrite(s, d, open, close) == Emit(s, d, open, close) + Rewrite(s[Skip(s, d)..], d, open, close)
  {
  }

  /** In `d x d rest` the scan finds the span `x` right after the first `d`. */
  lemma SpanFound(x: string, rest: string, d: string)
    requires |d| > 0 && d[0] !in x
    requires OneLine(x)
    ensures StartsWith(d + x + d + rest, d)
    ensures FindClose((d + x + d + rest)[|d|..], d) == Some(|x|)
    ensures (d + x + d + rest)[|d|..|d| + |x|] == x
    ensures (d + x + d + rest)[|d| + |x| + |d|..] == rest
  {
    SpanParts(x, rest, d);
    FindCloseAt(x, d + rest, d);
  }

  lemma SpanParts(x: string, rest: string, d: string)
    ensures StartsWith(d + x + d + rest, d) && StartsWith(d + rest, d)
    ensures (d + x + d + rest)[|d|..] == x + (d + rest)
    ensures (d + x + d + rest)[|d|..|d| + |x|] == x
    ensures (d + x + d + rest)[|d| + |x| + |d|..] == rest
  {
    var s := d + x + d + rest;
    assert s[..|d|] == d;
    assert (d + rest)[..|d|] == d;
  }

  /** A whole text made of one such span is exactly the element. */
  lemma RewriteWhole(x: string, d: string, open: string, close: string)
    requires |d| > 0 && d[0] !in x
    requires OneLine(x)
    ensures Rewrite(d + x + d, d, open, close) == open + x + close
  {
    RewriteSpan(x, "", d, open, close);
    assert d + x + d + "" == d + x + d;
    assert open + x + close + "" == open + x + close;
  }

  lemma {:induction false} FindCloseAt(x: string, tail: string, d: string)
    requires |d| > 0 && d[0] !in x && StartsWith(tail, d)
    requires OneLine(x)
    ensures FindClose(x + tail, d) == Some(|x|)
    decreases |x|
  {
    if |x| > 0 {
      var t := x + tail;
      assert t[0] == x[0] != d[0];
      assert t[1..] == x[1..] + tail;
      FindCloseAt(x[1..], tail, d);
    } else {
      assert x + tail == tail;
    }
  }

  /** Text where the delimiter starts nowhere is left as it is. */
  lemma {:induction false} RewriteNoMatch(s: string, d: string, open: string, close: string)
    requires |d| > 0
    requires forall j :: 0 <= j < |s| ==> !StartsWith(s[j..], d)
    ensures Rewrite(s, d, open, close) == s
    decreases |s|
  {
    if |s| > 0 {
      assert !StartsWith(s[0..], d);
      assert s[0..] == s;
      forall j | 0 <= j < |s[1..]| ensures !StartsWith(s[1..][j..], d) {
        assert s[1..][j..] == s[j + 1..];
      }
      RewriteNoMatch(s[1..], d, open, close);
    }
  }

  /** No line break survives formatting: every one becomes `<br>`. */
  lemma NoLineBreakAfterFormat(content: string)
    ensures '\n' !in FormatMessage(content)
  {
    if |content| > 0 {
      var s1 := ReplaceChar(content, '\n', "<br>");
      ReplaceCharRemoves(content, '\n', "<br>");
      var s2 := Rewrite(s1, "**", "<strong>", "</strong>");
      RewriteKeepsAbsent(s1, "**", "<strong>", "</strong>", '\n');
      var s3 := Rewrite(s2, "*", "<em>", "</em>");
      RewriteKeepsAbsent(s2, "*", "<em>", "</em>", '\n');
      RewriteKeepsAbsent(s3, "`", "<code>", "</code>", '\n');
    }
  }

  /** Plain text, with no line break, asterisk or backquote, is shown as it is. */
  lemma PlainTextUnchanged(content: string)
    requires '\n' !in content && '*' !in content && '`' !in content
    ensures FormatMessage(content) == content
  {
    if |content| > 0 {
      ReplaceCharAbsent(content, '\n', "<br>");
      RewriteAbsent(content, "**", "<strong>", "</strong>");
      RewriteAbsent(content, "*", "<em>", "</em>");
      RewriteAbsent(content, "`", "<code>", "</code>");
    }
  }

  /** Text that the markup rules leave alone inside an element. */
  predicate Inert(x: string) {
    '*' !in x && '`' !in x && OneLine(x)
  }

  /** `formatMessage` of non-empty content, given the text after each of its passes. */
  lemma FormatStages(content: string, s1: string, s2: string, s3: string, s4: string)
    requires |content| > 0
    requires s1 == ReplaceChar(content, '\n', "<br>")
    requires s2 == Rewrite(s1, "**", "<strong>", "</strong>")
    requires s3 == Rewrite(s2, "*", "<em>", "</em>")
    requires s4 == Rewrite(s3, "`", "<code>", "</code>")
    ensures FormatMessage(content) == s4
  {
  }

  lemma AbsentFromElement(open: string, x: string, close: string, c: char)
    requires c !in open && c !in x && c !in close
    ensures c !in open + x + close
  {
  }

  /** `**x**` is shown bold. */
  lemma BoldFormatted(x: string)
    requires Inert(x)
    ensures FormatMessage("**" + x + "**") == "<strong>" + x + "</strong>"
  {
    var content := "**" + x + "**";
    var strong := "<strong>" + x + "</strong>";
    BoldFirstPasses(x);
    StrongLaterPasses(x);
    FormatStages(content, content, strong, strong, strong);
  }

  /** The line-break pass leaves `**x**` alone and the bold pass rewrites it whole. */
  lemma BoldFirstPasses(x: string)
    requires Inert(x)
    ensures ReplaceChar("**" + x + "**", '\n', "<br>") == "**" + x + "**"
    ensures Rewrite("**" + x + "**", "**", "<strong>", "</strong>") == "<strong>" + x + "</strong>"
  {
    assert '\n' !in x;
    ReplaceCharAbsent("**" + x + "**", '\n', "<br>");
    RewriteWhole(x, "**", "<strong>", "</strong>");
  }

  /** The bold element of inert text passes the emphasis and code passes unchanged. */
  lemma StrongLaterPasses(x: string)
    requires Inert(x)
    ensures Rewrite("<strong>" + x + "</strong>", "*", "<em>", "</em>") == "<strong>" + x + "</strong>"
    ensures Rewrite("<strong>" + x + "</strong>", "`", "<code>", "</code>") == "<strong>" + x + "</strong>"
  {
    AbsentFromElement("<strong>", x, "</strong>", '*');
    AbsentFromElement("<strong>", x, "</strong>", '`');
    LaterPassesKeep("<strong>" + x + "</strong>");
  }

  /** Text without asterisks or backquotes passes the emphasis and code passes unchanged. */
  lemma LaterPassesKeep(e: string)
    requires '*' !in e && '`' !in e
    ensures Rewrite(e, "*", "<em>", "</em>") == e
    ensures Rewrite(e, "`", "<code>", "</code>") == e
  {
    RewriteAbsent(e, "*", "<em>", "</em>");
    RewriteAbsent(e, "`", "<code>", "</code>");
  }

  /** In `*x*` with a non-empty `x` free of asterisks, `**` starts nowhere. */
  lemma NoDoubleStar(x: string)
    requires '*' !in x && |x| > 0
    ensures var content := "*" + x + "*";
      forall j :: 0 <= j < |content| ==> !StartsWith(content[j..], "**")
  {
    var content := "*" + x + "*";
    forall j | 0 <= j < |content| ensures !StartsWith(content[j..], "**") {
      if j == 0 {
        assert content[j..][1] == x[0];
      } else if j <= |x| {
        assert content[j..][0] == x[j - 1];
      } else {
        assert |content[j..]| == 1;
      }
    }
  }

  /** `*x*` is shown emphasised; so is `**` alone, as an empty emphasis, since bold needs
      four asterisks. */
  lemma EmphasisFormatted(x: string)
    requires Inert(x)
    ensures FormatMessage("*" + x + "*") == "<em>" + x + "</em>"
  {
    var content := "*" + x + "*";
    var em := "<em>" + x + "</em>";
    EmphasisFirstPasses(x);
    EmphasisLastPasses(x);
    FormatStages(content, content, content, em, em);
  }

  /** The emphasis pass rewrites `*x*` whole and the code pass leaves the result alone. */
  lemma EmphasisLastPasses(x: string)
    requires Inert(x)
    ensures Rewrite("*" + x + "*", "*", "<em>", "</em>") == "<em>" + x + "</em>"
    ensures Rewrite("<em>" + x + "</em>", "`", "<code>", "</code>") == "<em>" + x + "</em>"
  {
    RewriteWhole(x, "*", "<em>", "</em>");
    AbsentFromElement("<em>", x, "</em>", '`');
    RewriteAbsent("<em>" + x + "</em>", "`", "<code>", "</code>");
  }

  /** The line-break and bold passes leave `*x*` alone. */
  lemma EmphasisFirstPasses(x: string)
    requires Inert(x)
    ensures ReplaceChar("*" + x + "*", '\n', "<br>") == "*" + x + "*"
    ensures Rewrite("*" + x + "*", "**", "<strong>", "</strong>") == "*" + x + "*"
  {
    assert '\n' !in x;
    ReplaceCharAbsent("*" + x + "*", '\n', "<br>");
    if |x| == 0 {
      assert "*" + x + "*" == "**";
      TwoStarsNotBold();
    } else {
      NoDoubleStar(x);
      RewriteNoMatch("*" + x + "*", "**", "<strong>", "</strong>");
    }
  }

  /** `**` alone is no bold text: nothing follows it to close it. */
  lemma TwoStarsNotBold()
    ensures Rewrite("**", "**", "<strong>", "</strong>") == "**"
  {
    assert "**"[2..] == "";
    assert FindClose("", "**") == None;
    assert "**"[1..] == "*";
    assert Rewrite("*", "**", "<strong>", "</strong>") == "*" by {
      assert "*"[1..] == "";
    }
  }

  /** `` `x` `` is shown as code. */
  lemma CodeFormatted(x: string)
    requires Inert(x)
    ensures FormatMessage("`" + x + "`") == "<code>" + x + "</code>"
  {
    var content := "`" + x + "`";
    var code := "<code>" + x + "</code>";
    assert ReplaceChar(content, '\n', "<br>") == content by {
      assert '\n' !in x;
      ReplaceCharAbsent(content, '\n', "<br>");
    }
    assert Rewrite(content, "**", "<strong>", "</strong>") == content by {
      RewriteAbsent(content, "**", "<strong>", "</strong>");
    }
    assert Rewrite(content, "*", "<em>", "</em>") == content by {
      RewriteAbsent(content, "*", "<em>", "</em>");
    }
    assert Rewrite(content, "`", "<code>", "</code>") == code by {
      RewriteWhole(x, "`", "<code>", "</code>");
    }
    FormatStages(content, content, content, content, code);
  }

  // ---------------------------------------------------------------------------
  // The streamed message

  /** The streamed message's HTML after each appended content: the page reads the
      element's HTML back, appends the content and formats the whole again. */
  function Render(html: string, appended: seq<string>): string
    decreases |appended|
  {
    if |appended| == 0 then html else Render(FormatMessage(html + appended[0]), appended[1..])
  }

  /** A string free of markup characters and line breaks. */
  predicate Plain(s: string) {
    '\n' !in s && '*' !in s && '`' !in s
  }

  /** Contents free of markup and line breaks are shown as their concatenation. */
  lemma {:induction false} RenderPlain(html: string, appended: seq<string>)
    requires Plain(html)
    requires forall k :: 0 <= k < |appended| ==> Plain(appended[k])
    ensures Render(html, appended) == html + Concat(appended)
    decreases |appended|
  {
    if |appended| > 0 {
      var tail := appended[1..];
      var next := html + appended[0];
      var r := Render(next, tail);
      assert Render(html, appended) == r by {
        RenderPlainStep(html, appended);
      }
      assert r == next + Concat(tail) by {
        assert forall k :: 0 <= k < |tail| ==> tail[k] == appended[k + 1];
        RenderPlainStep(html, appended);
        RenderPlain(next, tail);
      }
      ConcatAssoc(html, appended);
    } else {
      assert html + "" == html;
    }
  }

  lemma ConcatAssoc(html: string, appended: seq<string>)
    requires |appended| > 0
    ensures html + appended[0] + Concat(appended[1..]) == html + Concat(appended)
  {
    var rest := Concat(appended[1..]);
    assert Concat(appended) == appended[0] + rest;
    Assoc(html, appended[0], rest);
  }

  /** Plain content is appended to plain HTML without change. */
  lemma RenderPlainStep(html: string, appended: seq<string>)
    requires Plain(html) && |appended| > 0 && Plain(appended[0])
    ensures Plain(html + appended[0])
    ensures Render(html, appended) == Render(html + appended[0], appended[1..])
  {
    PlainTextUnchanged(html + appended[0]);
  }
}
