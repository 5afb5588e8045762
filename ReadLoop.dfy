/**
 * The read loop of `addTask` (src/components/TaskDashboard.tsx) on values:
 * each chunk is appended to the buffer, the whole buffer is parsed, and if
 * at least one event came out the events are delivered and the buffer is
 * emptied, incomplete trailing text included; otherwise the buffer is kept.
 */
module ReadLoop {
  import opened Wrappers
  import opened Strings
  import opened Events
  import opened FrameParser

  /**
   * The loop's history after some chunks: the events delivered so far, the
   * buffer texts that were parsed and then discarded (one per delivery),
   * and the buffer still held.
   */
  datatype FeedResult = FeedResult(delivered: seq<Event>, consumed: seq<string>, rest: string)

  /** The parse the loop applies to its whole buffer. */
  type Parser = string -> seq<Event>

  /** `parseSSEBuffer` with the given JSON decoder. */
  function BufferParser(decode: Decoder): Parser {
    s => ParseBuffer(s, decode)
  }

  /** The events of each discarded buffer, in order. */
  function ParseAll(segments: seq<string>, parse: Parser): seq<Event> {
    if segments == [] then []
    else ParseAll(segments[..|segments| - 1], parse) + parse(segments[|segments| - 1])
  }

  /** An empty buffer holds no event. */
  lemma EmptyBufferNoEvents(decode: Decoder)
    ensures ParseBuffer("", decode) == []
  {
    assert Split("", FrameSeparator) == [""];
    assert Split("", LineSeparator) == [""];
  }

  /** The loop after the chunks `chunks`, starting from an empty buffer. */
  function Feed(chunks: seq<string>, parse: Parser): (r: FeedResult)
    ensures |r.consumed| <= |chunks|
    ensures r.rest == "" || parse(r.rest) == []
  {
    if chunks == [] then FeedResult([], [], "")
    else
      var prev := Feed(chunks[..|chunks| - 1], parse);
      var text := prev.rest + chunks[|chunks| - 1];
      var events := parse(text);
      if events == [] then FeedResult(prev.delivered, prev.consumed, text)
      else FeedResult(prev.delivered + events, prev.consumed + [text], "")
  }

  /**
   * What the loop keeps true. Every received character lies in exactly one
   * discarded buffer or in the buffer still held, so no text is delivered
   * twice. Every discarded buffer
   * released at least one event, and the buffer still held, unless empty,
   * releases none.
   */
  lemma {:induction false} FeedInvariant(chunks: seq<string>, parse: Parser)
    ensures var r := Feed(chunks, parse);
      && Concat(r.consumed) + r.rest == Concat(chunks)
      && r.delivered == ParseAll(r.consumed, parse)
      && (forall k :: 0 <= k < |r.consumed| ==> parse(r.consumed[k]) != [])
      && (r.rest == "" || parse(r.rest) == [])
  {
    if chunks != [] {
      var front := chunks[..|chunks| - 1];
      FeedInvariant(front, parse);
      var prev := Feed(front, parse);
      var chunk := chunks[|chunks| - 1];
      var text := prev.rest + chunk;
      assert Concat(prev.consumed) + (prev.rest + chunk) == (Concat(prev.consumed) + prev.rest) + chunk;
      if parse(text) != [] {
        Consume(prev.consumed, text, parse);
      }
    }
  }

  /** Discarding one more buffer that released events. */
  lemma Consume(consumed: seq<string>, text: string, parse: Parser)
    requires forall k :: 0 <= k < |consumed| ==> parse(consumed[k]) != []
    requires parse(text) != []
    ensures forall k :: 0 <= k < |consumed + [text]| ==> parse((consumed + [text])[k]) != []
    ensures Concat(consumed + [text]) + "" == Concat(consumed) + text
    ensures ParseAll(consumed + [text], parse) == ParseAll(consumed, parse) + parse(text)
  {
    var all := consumed + [text];
    assert all[..|all| - 1] == consumed;
  }

  /** With the dashboard's parser, the buffer still held never holds a complete event. */
  lemma FeedRestSilent(chunks: seq<string>, decode: Decoder)
    ensures ParseBuffer(Feed(chunks, BufferParser(decode)).rest, decode) == []
  {
    FeedInvariant(chunks, BufferParser(decode));
    EmptyBufferNoEvents(decode);
  }

  /** What was delivered stays delivered: each chunk only adds events at the end. */
  lemma FeedExtends(chunks: seq<string>, chunk: string, parse: Parser)
    ensures var before := Feed(chunks, parse);
      && var after := Feed(chunks + [chunk], parse);
      && var released := parse(before.rest + chunk);
      && after.delivered == before.delivered + released
      && after.rest == (if released == [] then before.rest + chunk else "")
  {
    assert (chunks + [chunk])[..|chunks|] == chunks;
  }

  /** A line is plain when it holds no newline. */
  predicate Plain(s: string) {
    '\n' !in s
  }

  /** A line without newlines is a clean frame. */
  lemma PlainIsClean(f: string)
    requires Plain(f)
    ensures Clean(f)
  {
    forall j: nat | j <= |f| ensures !OccursAt(f, FrameSeparator, j) {
      if j + 2 <= |f| {
        assert f[j..j + 2][0] == f[j];
      }
    }
  }

  /** The line `data: <json>` of a plain payload is plain. */
  lemma DataLinePlain(json: string)
    requires Plain(json)
    ensures Plain(DataPrefix + json)
  {
    var line := DataPrefix + json;
    assert forall k :: 0 <= k < |line| ==> line[k] == (if k < 6 then DataPrefix[k] else json[k - 6]);
  }

  /** Two data frames, each ended by a blank line, in one buffer. */
  lemma TwoFramesBuffer(jsonA: string, jsonB: string, decode: Decoder)
    requires Plain(jsonA) && Plain(jsonB)
    requires decode(jsonA).Some? && decode(jsonB).Some?
    ensures ParseBuffer(DataPrefix + jsonA + FrameSeparator + DataPrefix + jsonB + FrameSeparator, decode)
         == [decode(jsonA).value, decode(jsonB).value]
  {
    var lineA, lineB := DataPrefix + jsonA, DataPrefix + jsonB;
    DataLinePlain(jsonA);
    DataLinePlain(jsonB);
    DataLinePayload(jsonA);
    DataLinePayload(jsonB);
    PlainIsClean(lineA);
    PlainIsClean(lineB);
    PlainIsClean("");
    var frames := [lineA, lineB, ""];
    var sep := FrameSeparator;
    assert frames[1..] == [lineB, ""];
    assert [lineB, ""][1..] == [""];
    assert Join([""], sep) == "";
    assert Join([lineB, ""], sep) == lineB + sep + "";
    assert Join(frames, sep) == lineA + sep + (lineB + sep + "");
    assert lineA + FrameSeparator + (lineB + FrameSeparator + "")
        == DataPrefix + jsonA + FrameSeparator + DataPrefix + jsonB + FrameSeparator;
    JoinedFrames(frames, decode);
    EmptyBufferNoEvents(decode);
    assert FrameEvent("", decode).None?;
  }

  /** The first frame followed by the start `da` of the second frame's prefix. */
  lemma FirstChunkBuffer(jsonA: string, decode: Decoder)
    requires Plain(jsonA) && decode(jsonA).Some?
    ensures ParseBuffer(DataPrefix + jsonA + FrameSeparator + "da", decode) == [decode(jsonA).value]
  {
    var lineA := DataPrefix + jsonA;
    DataLinePlain(jsonA);
    DataLinePayload(jsonA);
    PlainIsClean(lineA);
    assert Plain("da");
    PlainIsClean("da");
    FreeOfChar("da", '\n');
    SplitFree("da", LineSeparator);
    assert FramePayload("da").None?;
    var frames := [lineA, "da"];
    assert frames[1..] == ["da"];
    assert Join(frames, FrameSeparator) == lineA + FrameSeparator + "da";
    JoinedFrames(frames, decode);
  }

  /** The rest of the second frame: its line no longer starts with the data prefix. */
  lemma SecondChunkBuffer(jsonB: string, decode: Decoder)
    requires Plain(jsonB)
    ensures ParseBuffer("ta: " + jsonB + FrameSeparator, decode) == []
  {
    var lineT := "ta: " + jsonB;
    assert Plain(lineT) by {
      assert forall k :: 0 <= k < |lineT| ==> lineT[k] == (if k < 4 then "ta: "[k] else jsonB[k - 4]);
    }
    PlainIsClean(lineT);
    PlainIsClean("");
    FreeOfChar(lineT, '\n');
    SplitFree(lineT, LineSeparator);
    assert !StartsWith(lineT, DataPrefix) by { assert lineT[0] == 't'; }
    assert FramePayload(lineT).None?;
    EmptyBufferNoEvents(decode);
    assert FrameEvent("", decode).None?;
    var frames := [lineT, ""];
    assert frames[1..] == [""];
    assert Join(frames, FrameSeparator) == lineT + FrameSeparator + "";
    assert lineT + FrameSeparator + "" == "ta: " + jsonB + FrameSeparator;
    JoinedFrames(frames, decode);
  }

  /** Cutting the second data prefix after `da` splits the buffer text in two. */
  lemma CutAfterDa(jsonA: string, jsonB: string)
    ensures (DataPrefix + jsonA + FrameSeparator + "da") + ("ta: " + jsonB + FrameSeparator)
         == DataPrefix + jsonA + FrameSeparator + DataPrefix + jsonB + FrameSeparator
  {
    var head := DataPrefix + jsonA + FrameSeparator;
    var tail := jsonB + FrameSeparator;
    assert "da" + "ta: " == DataPrefix;
    assert (head + "da") + ("ta: " + tail) == head + ("da" + "ta: ") + tail;
    assert DataPrefix + jsonB + FrameSeparator == DataPrefix + tail;
    assert head + DataPrefix + jsonB + FrameSeparator == head + (DataPrefix + tail);
  }

  /** One chunk into an empty buffer delivers what that chunk parses to. */
  lemma FeedOne(chunk: string, parse: Parser)
    ensures Feed([chunk], parse).delivered == parse(chunk)
    ensures Feed([chunk], parse).rest == if parse(chunk) == [] then chunk else ""
  {
    assert Feed([], parse).rest == "";
    FeedExtends([], chunk, parse);
    assert [] + [chunk] == [chunk];
    assert "" + chunk == chunk;
  }

  /** Two chunks, where the first one completes an event. */
  lemma FeedTwo(first: string, second: string, parse: Parser)
    requires parse(first) != []
    ensures Feed([first, second], parse).delivered == parse(first) + parse(second)
  {
    FeedOne(first, parse);
    FeedExtends([first], second, parse);
    assert [first] + [second] == [first, second];
    assert "" + second == second;
  }

  /**
   * Delivery depends on where the chunk boundaries fall. Two frames sent in
   * one chunk deliver both events; the same text cut inside the second
   * frame's prefix, right after the first frame, delivers only the first:
   * the first parse empties the buffer, discarding the start of the second
   * frame, and the rest no longer carries a data line.
   */
  lemma ChunkBoundaryLosesFrame(jsonA: string, jsonB: string, decode: Decoder)
    requires Plain(jsonA) && Plain(jsonB)
    requires decode(jsonA).Some? && decode(jsonB).Some?
    ensures var whole := DataPrefix + jsonA + FrameSeparator + DataPrefix + jsonB + FrameSeparator;
      && var first := DataPrefix + jsonA + FrameSeparator + "da";
      && var second := "ta: " + jsonB + FrameSeparator;
      && first + second == whole
      && Feed([whole], BufferParser(decode)).delivered == [decode(jsonA).value, decode(jsonB).value]
      && Feed([first, second], BufferParser(decode)).delivered == [decode(jsonA).value]
  {
    CutAfterDa(jsonA, jsonB);
    var parse := BufferParser(decode);
    var whole := DataPrefix + jsonA + FrameSeparator + DataPrefix + jsonB + FrameSeparator;
    var first := DataPrefix + jsonA + FrameSeparator + "da";
    var second := "ta: " + jsonB + FrameSeparator;
    TwoFramesBuffer(jsonA, jsonB, decode);
    FirstChunkBuffer(jsonA, decode);
    SecondChunkBuffer(jsonB, decode);
    assert parse(whole) == ParseBuffer(whole, decode);
    assert parse(first) == ParseBuffer(first, decode);
    assert parse(second) == ParseBuffer(second, decode);
    FeedOne(whole, parse);
    FeedTwo(first, second, parse);
    assert [decode(jsonA).value] + [] == [decode(jsonA).value];
  }
}
