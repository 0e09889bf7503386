/** The two ends put together: what the browser shows for what the server sends. The
    framed stream of app.py is read back by the line reader of static/js/app.js, the
    health report drives the status indicator, and a chat route's answer becomes a
    message or an error notice. */
module Wire {
  import opened Text
  import opened JsonText
  import Relay
  import Client
  import Service
  import Assistant
  import opened Wrappers

  // ---------------------------------------------------------------------------
  // The stream, end to end

  /** The contents before the first `[DONE]`. */
  function UntilDone(cs: seq<string>): (r: seq<string>)
    ensures |r| <= |cs| && r == cs[..|r|]
    ensures forall k :: 0 <= k < |r| ==> r[k] != Relay.DoneMarker
    ensures |r| < |cs| ==> cs[|r|] == Relay.DoneMarker
    decreases |cs|
  {
    if |cs| == 0 || cs[0] == Relay.DoneMarker then [] else [cs[0]] + UntilDone(cs[1..])
  }

  /** Without a `[DONE]` among them, all contents come before it. */
  lemma UntilDoneAll(cs: seq<string>)
    requires forall k :: 0 <= k < |cs| ==> cs[k] != Relay.DoneMarker
    ensures UntilDone(cs) == cs
  {
  }

  /** The contents other than `[DONE]`, in order. */
  function WithoutDone(cs: seq<string>): (r: seq<string>)
    ensures forall k :: 0 <= k < |r| ==> r[k] != Relay.DoneMarker
    ensures |r| <= |cs|
    decreases |cs|
  {
    if |cs| == 0 then []
    else if cs[0] == Relay.DoneMarker then WithoutDone(cs[1..])
    else [cs[0]] + WithoutDone(cs[1..])
  }

  /** What the reader does with the line of the frame for `c`. */
  function EventOf(c: string): Client.LineEvent {
    if c == Relay.DoneMarker then Client.Stop else Client.Append(c)
  }

  /** `lines` are read as the frame lines of `cs`, one for one: each is free of line
      breaks and has the effect `EventOf` of its content. */
  predicate LinesFor(lines: seq<string>, cs: seq<string>)
    decreases |cs|
  {
    && |lines| == |cs|
    && (|cs| == 0 ||
        ('\n' !in lines[0] && Client.ReadLine(lines[0]) == EventOf(cs[0]) && LinesFor(lines[1..], cs[1..])))
  }

  /** Each line followed by a blank line. */
  function Framed(lines: seq<string>): (frames: seq<string>)
    ensures |frames| == |lines|
  {
    seq(|lines|, i requires 0 <= i < |lines| => lines[i] + "\n\n")
  }

  /** The lines of the frames the framer writes for `cs`. */
  function FrameLines(cs: seq<string>): (lines: seq<string>)
    ensures |lines| == |cs|
  {
    seq(|cs|, i requires 0 <= i < |cs| => Relay.FrameLine(cs[i]))
  }

  /** The framer's frames are its lines, each followed by a blank line. */
  lemma FramesAreFramed(cs: seq<string>)
    ensures Relay.FramesOf(cs) == Framed(FrameLines(cs))
  {
  }

  /** The framer's lines are read as the frame lines of their contents. */
  lemma {:induction false} FrameLinesRead(cs: seq<string>)
    ensures LinesFor(FrameLines(cs), cs)
    decreases |cs|
  {
    if |cs| > 0 {
      var lines := FrameLines(cs);
      FrameLineRead(lines, cs);
      FrameLinesRead(cs[1..]);
      FrameLinesTail(cs);
      LinesForCons(lines, cs);
    }
  }

  lemma FrameLinesTail(cs: seq<string>)
    requires |cs| > 0
    ensures FrameLines(cs)[1..] == FrameLines(cs[1..])
  {
  }

  lemma LinesForCons(lines: seq<string>, cs: seq<string>)
    requires |cs| > 0 && |lines| == |cs|
    requires '\n' !in lines[0] && Client.ReadLine(lines[0]) == EventOf(cs[0])
    requires LinesFor(lines[1..], cs[1..])
    ensures LinesFor(lines, cs)
  {
  }

  /** The first of the framer's lines is read as the frame line of its content. */
  lemma FrameLineRead(lines: seq<string>, cs: seq<string>)
    requires |cs| > 0 && lines == FrameLines(cs)
    ensures '\n' !in lines[0] && Client.ReadLine(lines[0]) == EventOf(cs[0])
  {
    assert lines[0] == Relay.FrameLine(cs[0]);
    Client.ReadFrameLine(cs[0]);
  }

  /** A line, a blank line, then more text. */
  lemma SplitTwoLines(line: string, rest: string)
    requires '\n' !in line
    ensures SplitOn(line + "\n\n" + rest, '\n') == [line, ""] + SplitOn(rest, '\n')
  {
    var after := "\n" + rest;
    var tail := SplitOn(rest, '\n');
    assert line + "\n\n" + rest == line + ['\n'] + after;
    assert SplitOn(after, '\n') == [""] + tail by {
      assert after == "" + ['\n'] + rest;
      SplitOnCons("", '\n', rest);
    }
    assert SplitOn(line + ['\n'] + after, '\n') == [line] + ([""] + tail) by {
      SplitOnCons(line, '\n', after);
    }
    assert [line] + ([""] + tail) == [line, ""] + tail;
  }

  /** Reading a line, a blank line, then more lines. */
  lemma ReadLineThen(line: string, more: seq<string>)
    ensures Client.ReadLines([line, ""] + more)
      == match Client.ReadLine(line)
         case Ignore => Client.ReadLines(more)
         case Stop => []
         case Append(c) => [c] + Client.ReadLines(more)
  {
    var lines := [line, ""] + more;
    assert lines[0] == line;
    assert lines[1..] == [""] + more;
    assert !StartsWith("", Relay.DataPrefix);
    assert ([""] + more)[0] == "" && ([""] + more)[1..] == more;
  }

  /** Reading the frame of one line and then more text. */
  lemma ReadFrameThen(line: string, c: string, rest: string)
    requires '\n' !in line && Client.ReadLine(line) == EventOf(c)
    ensures Client.ReadLines(SplitOn(line + "\n\n" + rest, '\n'))
      == if c == Relay.DoneMarker then [] else [c] + Client.ReadLines(SplitOn(rest, '\n'))
  {
    SplitTwoLines(line, rest);
    ReadLineThen(line, SplitOn(rest, '\n'));
  }

  /** Nothing is read from empty text. */
  lemma ReadNothing()
    ensures Client.ReadLines(SplitOn("", '\n')) == []
  {
    assert SplitOn("", '\n') == [""];
    assert !StartsWith("", Relay.DataPrefix);
  }

  /** A run of frames followed by more text, taken in one read, is read as the
      contents up to the first `[DONE]`; when there is none, the reader goes on into
      the rest. */
  lemma {:induction false} ReadFramesThen(lines: seq<string>, cs: seq<string>, rest: string)
    requires LinesFor(lines, cs)
    ensures Client.ReadLines(SplitOn(Concat(Framed(lines)) + rest, '\n'))
      == UntilDone(cs) + (if Relay.DoneMarker in cs then [] else Client.ReadLines(SplitOn(rest, '\n')))
    decreases |cs|
  {
    if |cs| == 0 {
      assert Concat(Framed(lines)) + rest == rest;
    } else {
      var body := Concat(Framed(lines[1..]));
      FramedConcat(lines, rest);
      ReadFrameThen(lines[0], cs[0], body + rest);
      if cs[0] != Relay.DoneMarker {
        ReadFramesThen(lines[1..], cs[1..], rest);
        UntilDoneStep(cs, Client.ReadLines(SplitOn(rest, '\n')));
      }
    }
  }

  /** The text of a run of frames: the first line, a blank line, then the rest. */
  lemma FramedConcat(lines: seq<string>, rest: string)
    requires |lines| > 0
    ensures Concat(Framed(lines)) + rest == lines[0] + "\n\n" + (Concat(Framed(lines[1..])) + rest)
  {
    var body := Concat(Framed(lines[1..]));
    assert Framed(lines)[1..] == Framed(lines[1..]);
    assert Concat(Framed(lines)) == (lines[0] + "\n\n") + body;
    Assoc(lines[0] + "\n\n", body, rest);
  }

  /** The contents before the first `[DONE]` of a list that does not start with it. */
  lemma UntilDoneStep(cs: seq<string>, after: seq<string>)
    requires |cs| > 0 && cs[0] != Relay.DoneMarker
    ensures UntilDone(cs) + (if Relay.DoneMarker in cs then [] else after)
      == [cs[0]] + (UntilDone(cs[1..]) + (if Relay.DoneMarker in cs[1..] then [] else after))
  {
    assert cs == [cs[0]] + cs[1..];
    assert (Relay.DoneMarker in cs) == (Relay.DoneMarker in cs[1..]);
    Assoc([cs[0]], UntilDone(cs[1..]), if Relay.DoneMarker in cs[1..] then [] else after);
  }

  /** The closing frame stops the reader. */
  lemma ReadClosingFrame()
    ensures Client.ReadLines(SplitOn(Relay.Frame(Relay.DoneMarker), '\n')) == []
  {
    ReadStopFrame(Relay.DoneMarker);
  }

  lemma ReadStopFrame(c: string)
    requires c == Relay.DoneMarker
    ensures Client.ReadLines(SplitOn(Relay.Frame(c), '\n')) == []
  {
    FrameFacts(c);
    ReadFrameThen(Relay.FrameLine(c), c, "");
  }

  /** A frame is its line, free of line breaks, then a blank line; the line reads back as
      the content's event. */
  lemma FrameFacts(c: string)
    ensures Relay.Frame(c) == Relay.FrameLine(c) + "\n\n" + ""
    ensures '\n' !in Relay.FrameLine(c) && Client.ReadLine(Relay.FrameLine(c)) == EventOf(c)
  {
    Client.ReadFrameLine(c);
  }

  /** The whole stream of a completed reply, taken in one read, shows the forwarded
      contents up to the first one that is literally `[DONE]`. */
  lemma StreamShownExhausted(cs: seq<string>)
    ensures Client.ReadChunk(Relay.Body(Relay.FramesOf(cs) + [Relay.Frame(Relay.DoneMarker)])) == UntilDone(cs)
  {
    var frames := Relay.FramesOf(cs);
    var last := Relay.Frame(Relay.DoneMarker);
    assert Relay.Body(frames + [last]) == Concat(frames) + last by {
      ConcatAppend(frames, [last]);
      assert Concat([last]) == last + "";
    }
    assert Client.ReadLines(SplitOn(Concat(frames) + last, '\n')) == UntilDone(cs) by {
      FramesAreFramed(cs);
      FrameLinesRead(cs);
      ReadFramesThen(FrameLines(cs), cs, last);
      ReadClosingFrame();
      assert UntilDone(cs) + [] == UntilDone(cs);
    }
  }

  /** A stream cut short by an error shows the same contents, only the closing frame is
      missing. */
  lemma StreamShownRaised(cs: seq<string>)
    ensures Client.ReadChunk(Relay.Body(Relay.FramesOf(cs))) == UntilDone(cs)
  {
    FramesAreFramed(cs);
    FrameLinesRead(cs);
    ReadFramesThen(FrameLines(cs), cs, "");
    assert Concat(Relay.FramesOf(cs)) + "" == Concat(Relay.FramesOf(cs));
    ReadNothing();
    assert UntilDone(cs) + [] == UntilDone(cs);
  }

  /** The streaming route and the reader together, the whole body taken in one read:
      the page shows the chunks' contents in order, up to a content that is literally
      `[DONE]`, whether or not the vendor's iterator failed; with no such content it
      shows them all. */
  method Deliver(chunks: seq<Relay.StreamChunk>, ending: Relay.Ending) returns (shown: seq<string>)
    ensures shown == UntilDone(Relay.Contents(chunks))
    ensures (forall k :: 0 <= k < |Relay.Contents(chunks)| ==> Relay.Contents(chunks)[k] != Relay.DoneMarker) ==>
      shown == Relay.Contents(chunks)
  {
    var frames := Relay.Generate(chunks, ending);
    shown := Client.ReadChunk(Relay.Body(frames));
    var cs := Relay.Contents(chunks);
    if ending.Exhausted? {
      StreamShownExhausted(cs);
    } else {
      StreamShownRaised(cs);
    }
    if forall k :: 0 <= k < |cs| ==> cs[k] != Relay.DoneMarker {
      UntilDoneAll(cs);
    }
  }

  /** When every read delivers exactly one frame, the `break` ends only that read, so a
      content that is literally `[DONE]` is dropped and the rest is still shown. */
  lemma {:induction false} FramePerRead(lines: seq<string>, cs: seq<string>)
    requires LinesFor(lines, cs)
    ensures Client.ReadAll(Framed(lines)) == WithoutDone(cs)
    decreases |cs|
  {
    if |cs| > 0 {
      var frames := Framed(lines);
      assert frames[0] == lines[0] + "\n\n" && frames[1..] == Framed(lines[1..]);
      ReadOneFrame(lines[0], cs[0]);
      FramePerRead(lines[1..], cs[1..]);
      ReadAllStep(frames);
      WithoutDoneStep(cs);
    }
  }

  /** The reads of a response are its first read, then the others. */
  lemma ReadAllStep(received: seq<string>)
    requires |received| > 0
    ensures Client.ReadAll(received) == Client.ReadChunk(received[0]) + Client.ReadAll(received[1..])
  {
  }

  /** Dropping `[DONE]` from contents drops it from the first, then from the rest. */
  lemma WithoutDoneStep(cs: seq<string>)
    requires |cs| > 0
    ensures WithoutDone(cs) == (if cs[0] == Relay.DoneMarker then [] else [cs[0]]) + WithoutDone(cs[1..])
  {
    if cs[0] == Relay.DoneMarker {
      assert [] + WithoutDone(cs[1..]) == WithoutDone(cs[1..]);
    }
  }

  /** One frame as a read of its own. */
  lemma ReadOneFrame(line: string, c: string)
    requires '\n' !in line && Client.ReadLine(line) == EventOf(c)
    ensures Client.ReadChunk(line + "\n\n") == if c == Relay.DoneMarker then [] else [c]
  {
    assert line + "\n\n" == line + "\n\n" + "";
    ReadFrameThen(line, c, "");
    ReadNothing();
  }

  /** The framer's frames, one per read. */
  lemma StreamShownFramePerRead(cs: seq<string>)
    ensures Client.ReadAll(Relay.FramesOf(cs)) == WithoutDone(cs)
  {
    FramesAreFramed(cs);
    FrameLinesRead(cs);
    FramePerRead(FrameLines(cs), cs);
  }

  // ---------------------------------------------------------------------------
  // Health

  /** The report the client parses out of `/health`. */
  function Parsed(h: Service.HealthReport): Client.HealthData {
    Client.HealthData(h.status, h.assistantAvailable)
  }

  /** The indicator shows Ready exactly when the server has an assistant, and a warning
      otherwise; it shows Offline only when the report cannot be fetched. */
  lemma HealthIndicator(assistantPresent: bool)
    ensures var ind := Client.CheckHealth(Some(Parsed(Service.HealthCheck(assistantPresent))));
      (ind.text == "Ready" <==> assistantPresent) &&
      (ind.tone == Client.SuccessTone <==> assistantPresent) &&
      (!assistantPresent ==> ind == Client.Indicator("Assistant Unavailable", Client.WarningTone))
  {
  }

  // ---------------------------------------------------------------------------
  // Regular chat

  /** The body the client parses out of a chat route's answer: a refusal carries only
      `detail`. */
  function Received(a: Service.Answer<Service.ChatResponse>): Client.ReplyBody {
    match a
    case Refused(_, _) => Client.OtherBody
    case Answered(r) => Client.ChatReply(r.success, r.response, r.error)
  }

  /** What the page shows for `/chat`: the assistant's text when the vendor returned a
      string; the exception's text when it is not empty; otherwise, and for a refusal
      without an assistant, the generic error. */
  lemma ChatShown(assistantPresent: bool, vendor: Result<Assistant.PyValue, string>, validationError: string)
    ensures var shown := Client.DisplayRegular(Received(Service.ChatRoute(assistantPresent, vendor, validationError)));
      && (!assistantPresent ==> shown == Client.ErrorNotice(Client.UnknownError))
      && (assistantPresent ==>
            match Service.ChatOutcome(vendor, validationError)
            case Success(content) => shown == Client.AssistantMessage(content)
            case Failure(e) => shown == Client.ErrorNotice(if e == "" then Client.UnknownError else e))
  {
  }
}
