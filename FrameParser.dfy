/**
 * The stream frame parser `parseSSEBuffer` (src/components/TaskDashboard.tsx):
 * the buffer is split on blank lines, and in each part the first line that
 * starts with `data: ` carries a JSON event. Parts without such a line, and
 * payloads that do not decode, are dropped without affecting the others.
 */
module FrameParser {
  import opened Wrappers
  import opened Strings
  import opened Events

  const FrameSeparator: string := "\n\n"
  const LineSeparator: string := "\n"
  const DataPrefix: string := "data: "

  /** The index of the first line that starts with the data prefix (`Array.prototype.find`). */
  function FirstDataLine(lines: seq<string>): (r: Option<nat>)
    ensures r.Some? ==> r.value < |lines| && StartsWith(lines[r.value], DataPrefix)
    ensures r.Some? ==> forall j :: 0 <= j < r.value ==> !StartsWith(lines[j], DataPrefix)
    ensures r.None? <==> forall j :: 0 <= j < |lines| ==> !StartsWith(lines[j], DataPrefix)
  {
    if lines == [] then None
    else if StartsWith(lines[0], DataPrefix) then Some(0)
    else match FirstDataLine(lines[1..])
      case None => None
      case Some(i) => Some(i + 1)
  }

  /** The text after `data: ` on the part's data line, if it has one. */
  function FramePayload(part: string): (r: Option<string>)
    ensures var lines := Split(part, LineSeparator);
      r.Some? ==> exists i :: 0 <= i < |lines| && lines[i] == DataPrefix + r.value
                              && forall j :: 0 <= j < i ==> !StartsWith(lines[j], DataPrefix)
    ensures r.None? <==> forall line :: line in Split(part, LineSeparator) ==> !StartsWith(line, DataPrefix)
  {
    var lines := Split(part, LineSeparator);
    match FirstDataLine(lines)
    case None => None
    case Some(i) =>
      assert lines[i] == DataPrefix + lines[i][|DataPrefix|..];
      Some(lines[i][|DataPrefix|..])
  }

  /** The event one part contributes: none without a data line or when decoding fails. */
  function FrameEvent(part: string, decode: Decoder): Option<Event> {
    match FramePayload(part)
    case None => None
    case Some(json) => decode(json)
  }

  /** The events of a sequence of parts, in part order. */
  function ParseFrames(parts: seq<string>, decode: Decoder): (r: seq<Event>)
    ensures |r| <= |parts|
  {
    if parts == [] then [] else AsSeq(FrameEvent(parts[0], decode)) + ParseFrames(parts[1..], decode)
  }

  /** The events `parseSSEBuffer(buffer)` returns. */
  function ParseBuffer(buffer: string, decode: Decoder): (r: seq<Event>)
    ensures |r| <= |Split(buffer, FrameSeparator)|
  {
    ParseFrames(Split(buffer, FrameSeparator), decode)
  }

  /** The loop of `parseSSEBuffer`: one pass over the parts, pushing each decoded event. */
  method ParseSSEBuffer(buffer: string, decode: Decoder) returns (events: seq<Event>)
    ensures events == ParseBuffer(buffer, decode)
  {
    var parts := Split(buffer, FrameSeparator);
    events := [];
    for i := 0 to |parts|
      invariant events == ParseFrames(parts[..i], decode)
    {
      ParseFramesStep(parts, i, decode);
      match FrameEvent(parts[i], decode)
      case None =>
      case Some(e) => events := events + [e];
    }
    assert parts[..|parts|] == parts;
  }

  /** Parsing distributes over concatenation: a part never affects the parts after it. */
  lemma {:induction false} ParseFramesAppend(a: seq<string>, b: seq<string>, decode: Decoder)
    ensures ParseFrames(a + b, decode) == ParseFrames(a, decode) + ParseFrames(b, decode)
  {
    if a == [] {
      assert a + b == b;
    } else {
      assert (a + b)[1..] == a[1..] + b;
      ParseFramesAppend(a[1..], b, decode);
    }
  }

  /** One more part of the buffer adds that part's event, if any. */
  lemma ParseFramesStep(parts: seq<string>, i: nat, decode: Decoder)
    requires i < |parts|
    ensures ParseFrames(parts[..i + 1], decode) == ParseFrames(parts[..i], decode) + AsSeq(FrameEvent(parts[i], decode))
  {
    assert parts[..i + 1] == parts[..i] + [parts[i]];
    ParseFramesAppend(parts[..i], [parts[i]], decode);
    ParseFramesOne(parts[i], decode);
  }

  /** A single part contributes its event, if any. */
  lemma ParseFramesOne(part: string, decode: Decoder)
    ensures ParseFrames([part], decode) == AsSeq(FrameEvent(part, decode))
  {
    assert [part][1..] == [];
  }

  /** When every part decodes, there is exactly one event per part, in part order. */
  lemma {:induction false} AllFramesDecode(parts: seq<string>, decode: Decoder)
    requires forall i :: 0 <= i < |parts| ==> FrameEvent(parts[i], decode).Some?
    ensures |ParseFrames(parts, decode)| == |parts|
    ensures forall i :: 0 <= i < |parts| ==> ParseFrames(parts, decode)[i] == FrameEvent(parts[i], decode).value
  {
    if parts != [] {
      AllFramesDecode(parts[1..], decode);
    }
  }

  /** A frame that can stand before a blank-line separator: no blank line in it, and no trailing newline. */
  predicate Clean(frame: string) {
    Free(frame, FrameSeparator) && (frame == [] || frame[|frame| - 1] != '\n')
  }

  /** A clean frame followed by a blank line holds no separator that starts inside the frame. */
  lemma NoSeparatorInside(a: string, rest: string, j: nat)
    requires Clean(a) && j < |a|
    ensures !OccursAt(a + FrameSeparator + rest, FrameSeparator, j)
  {
    var s := a + FrameSeparator + rest;
    if j + 2 <= |a| {
      assert s[j..j + 2] == a[j..j + 2];
      assert !OccursAt(a, FrameSeparator, j);
    } else {
      assert s[j] == a[|a| - 1];
      assert s[j..j + 2][0] == s[j];
    }
  }

  /** The first blank line after a clean frame is the one that ends it. */
  lemma SplitFrame(a: string, rest: string)
    requires Clean(a)
    ensures Split(a + FrameSeparator + rest, FrameSeparator) == [a] + Split(rest, FrameSeparator)
  {
    var sep := FrameSeparator;
    var s := a + sep + rest;
    assert s[|a|..|a| + 2] == sep;
    assert OccursAt(s, sep, |a|);
    forall j: nat | j < |a| ensures !OccursAt(s, sep, j) {
      NoSeparatorInside(a, rest, j);
    }
    var i := IndexOf(s, sep).value;
    assert i == |a|;
    assert s[..i] == a;
    assert s[i + 2..] == rest;
  }

  /** Clean frames joined with blank lines split back into the same frames. */
  lemma {:induction false} SplitJoinFrames(frames: seq<string>)
    requires |frames| > 0
    requires forall i :: 0 <= i < |frames| ==> Clean(frames[i])
    ensures Split(Join(frames, FrameSeparator), FrameSeparator) == frames
  {
    if |frames| == 1 {
      SplitFree(frames[0], FrameSeparator);
    } else {
      SplitJoinFrames(frames[1..]);
      SplitFrame(frames[0], Join(frames[1..], FrameSeparator));
    }
  }

  /** A buffer of clean frames yields the events of those frames, in order. */
  lemma JoinedFrames(frames: seq<string>, decode: Decoder)
    requires |frames| > 0
    requires forall i :: 0 <= i < |frames| ==> Clean(frames[i])
    ensures ParseBuffer(Join(frames, FrameSeparator), decode) == ParseFrames(frames, decode)
  {
    SplitJoinFrames(frames);
  }

  /** A malformed frame between two good ones is dropped and does not block the third. */
  lemma MalformedFrameTolerance(f1: string, f2: string, f3: string, decode: Decoder)
    requires Clean(f1) && Clean(f2) && Clean(f3)
    requires FrameEvent(f1, decode).Some? && FrameEvent(f2, decode).None? && FrameEvent(f3, decode).Some?
    ensures ParseBuffer(f1 + FrameSeparator + f2 + FrameSeparator + f3, decode)
         == [FrameEvent(f1, decode).value, FrameEvent(f3, decode).value]
  {
    JoinThree(f1, f2, f3);
    JoinedFrames([f1, f2, f3], decode);
    ParseThree(f1, f2, f3, decode);
  }

  /** Three frames joined with blank lines. */
  lemma JoinThree(f1: string, f2: string, f3: string)
    ensures Join([f1, f2, f3], FrameSeparator) == f1 + FrameSeparator + f2 + FrameSeparator + f3
  {
    var sep := FrameSeparator;
    assert [f1, f2, f3][1..] == [f2, f3];
    assert [f2, f3][1..] == [f3];
    assert Join([f2, f3], sep) == f2 + sep + f3;
    assert f1 + sep + (f2 + sep + f3) == f1 + sep + f2 + sep + f3;
  }

  /** Good, undecodable, good: the events of the first and the third. */
  lemma ParseThree(f1: string, f2: string, f3: string, decode: Decoder)
    requires FrameEvent(f1, decode).Some? && FrameEvent(f2, decode).None? && FrameEvent(f3, decode).Some?
    ensures ParseFrames([f1, f2, f3], decode) == [FrameEvent(f1, decode).value, FrameEvent(f3, decode).value]
  {
    assert [f1, f2, f3][1..] == [f2, f3];
    assert [f2, f3][1..] == [f3];
    assert [f3][1..] == [];
    var e1, e3 := FrameEvent(f1, decode).value, FrameEvent(f3, decode).value;
    assert ParseFrames([f3], decode) == [e3];
    assert ParseFrames([f2, f3], decode) == [e3];
  }

  /** A single-line part `data: <json>` carries exactly `json`. */
  lemma DataLinePayload(json: string)
    requires '\n' !in json
    ensures FramePayload(DataPrefix + json) == Some(json)
  {
    var part := DataPrefix + json;
    assert '\n' !in part by {
      assert forall k :: 0 <= k < |part| ==> part[k] == (if k < 6 then DataPrefix[k] else json[k - 6]);
    }
    FreeOfChar(part, '\n');
    SplitFree(part, LineSeparator);
    assert StartsWith(part, DataPrefix);
  }
}
