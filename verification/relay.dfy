/** The framer of the streaming chat route in app.py (`generate` inside `chat_stream`):
    it walks the vendor's chunks, writes one `data: {json}` frame followed by a blank
    line for every chunk that carries a non-empty delta content, and closes the stream
    with a `[DONE]` frame once the chunks are exhausted. */
module Relay {
  import opened Wrappers
  import opened Text
  import opened JsonText

  /** The `delta` of a vendor chunk: with or without a `content` attribute, whose value
      may be `None`. */
  datatype Delta = WithoutContent | WithContent(content: Option<string>)

  /** A vendor chunk as the framer tests it: a falsy chunk, a chunk without a `delta`
      attribute, or a chunk with one. */
  datatype StreamChunk = Falsy | WithoutDelta | WithDelta(delta: Delta)

  /** The content the framer forwards for one chunk: the delta's content when every
      attribute is present and the content is a non-empty string. */
  function ChunkContent(chunk: StreamChunk): (c: Option<string>)
    ensures c.Some? <==> chunk.WithDelta? && chunk.delta.WithContent? && chunk.delta.content.Some? && chunk.delta.content.value != ""
    ensures c.Some? ==> c.value == chunk.delta.content.value
  {
    if chunk.WithDelta? && chunk.delta.WithContent? && chunk.delta.content.Some? && chunk.delta.content.value != ""
    then chunk.delta.content
    else None
  }

  /** The forwarded contents of a chunk sequence, in order: the reference the framer is
      measured against. */
  function Contents(chunks: seq<StreamChunk>): (cs: seq<string>)
    ensures |cs| <= |chunks|
    ensures forall i :: 0 <= i < |cs| ==> cs[i] != ""
    decreases |chunks|
  {
    if |chunks| == 0 then []
    else
      match ChunkContent(chunks[0])
      case Some(c) => [c] + Contents(chunks[1..])
      case None => Contents(chunks[1..])
  }

  lemma {:induction false} ContentsAppend(a: seq<StreamChunk>, b: seq<StreamChunk>)
    ensures Contents(a + b) == Contents(a) + Contents(b)
    decreases |a|
  {
    if |a| == 0 {
      assert a + b == b;
    } else {
      assert (a + b)[0] == a[0];
      assert (a + b)[1..] == a[1..] + b;
      ContentsAppend(a[1..], b);
    }
  }

  /** The content of the closing frame. */
  const DoneMarker: string := "[DONE]"

  const DataPrefix: string := "data: "

  /** The line of a frame: the `data: ` prefix and the JSON payload. */
  function FrameLine(content: string): (line: string)
    ensures StartsWith(line, DataPrefix)
    ensures line[|DataPrefix|..] == Payload(content)
    ensures '\n' !in line
  {
    var line := DataPrefix + Payload(content);
    assert line[..|DataPrefix|] == DataPrefix;
    assert forall i :: 0 <= i < |line| ==> ' ' <= line[i] <= '~';
    line
  }

  /** One frame: its line, then a blank line. */
  function Frame(content: string): string {
    FrameLine(content) + "\n\n"
  }

  /** How the vendor's iterator ended: exhausted, or raising in the middle of the
      stream (the response has started by then, so no error status can be sent). */
  datatype Ending = Exhausted | Raised(error: string)

  /** The frames for a list of contents. */
  function FramesOf(contents: seq<string>): (frames: seq<string>)
    ensures |frames| == |contents|
  {
    seq(|contents|, i requires 0 <= i < |contents| => Frame(contents[i]))
  }

  /** `generate`: a frame per forwarded chunk, in the order of the chunks, then the
      `[DONE]` frame, which is written only when the chunks ran out without an error. */
  method Generate(chunks: seq<StreamChunk>, ending: Ending) returns (frames: seq<string>)
    ensures ending.Exhausted? ==> frames == FramesOf(Contents(chunks)) + [Frame(DoneMarker)]
    ensures ending.Raised? ==> frames == FramesOf(Contents(chunks))
  {
    frames := [];
    var i := 0;
    while i < |chunks|
      invariant 0 <= i <= |chunks|
      invariant frames == FramesOf(Contents(chunks[..i]))
    {
      ContentsAppend(chunks[..i], [chunks[i]]);
      assert chunks[..i + 1] == chunks[..i] + [chunks[i]];
      match ChunkContent(chunks[i]) {
        case Some(c) =>
          frames := frames + [Frame(c)];
        case None =>
      }
      i := i + 1;
    }
    assert chunks[..i] == chunks;
    if ending.Exhausted? {
      frames := frames + [Frame(DoneMarker)];
    }
  }

  /** The indices of the chunks the framer forwards. */
  function ForwardedIndices(chunks: seq<StreamChunk>): set<nat> {
    set i: nat | i < |chunks| && ChunkContent(chunks[i]).Some?
  }

  /** The framer's count: one frame per chunk with a non-empty content, so an exhausted
      stream has exactly one frame more than there are such chunks. */
  lemma {:induction false} FrameCount(chunks: seq<StreamChunk>)
    ensures |Contents(chunks)| == |ForwardedIndices(chunks)|
    decreases |chunks|
  {
    if |chunks| > 0 {
      var tail := chunks[1..];
      FrameCount(tail);
      var s := ForwardedIndices(chunks);
      var t := ForwardedIndices(tail);
      var shifted := Shift(t);
      ShiftSize(t);
      assert s - {0} == shifted by {
        forall i: nat | i in s - {0} ensures i in shifted {
          assert chunks[i] == tail[i - 1];
          assert i - 1 in t;
        }
        forall i: nat | i in shifted ensures i in s - {0} {
          assert chunks[i] == tail[i - 1];
        }
      }
      if ChunkContent(chunks[0]).Some? {
        assert s == {0} + shifted;
      } else {
        assert s == shifted;
      }
    } else {
      assert ForwardedIndices(chunks) == {};
    }
  }

  /** Every index moved one place on. */
  function Shift(t: set<nat>): set<nat> {
    set i: nat | i in t :: i + 1
  }

  lemma ShiftSize(t: set<nat>)
    ensures |Shift(t)| == |t|
    decreases |t|
  {
    if |t| > 0 {
      var x :| x in t;
      var rest := t - {x};
      ShiftSize(rest);
      assert Shift(t) == Shift(rest) + {x + 1} by {
        forall j | j in Shift(t) ensures j in Shift(rest) + {x + 1} {
          var i :| i in t && j == i + 1;
          if i != x {
            assert i in rest;
          }
        }
      }
      assert x + 1 !in Shift(rest);
    } else {
      assert Shift(t) == {};
    }
  }

  /** The bytes of the response body: the frames one after the other. */
  function Body(frames: seq<string>): string {
    Concat(frames)
  }
}
