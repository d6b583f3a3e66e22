/** The framed reader: length prefix, then a body read into a buffer that is kept from frame to frame. */
module Framing {
  import opened Items
  import opened Bytes
  import opened Messages
  import opened Overhang

  datatype Received = Received(message: Message) | ReadError | FormatError | ParseError

  /** Outcome of one call, bytes left in the stream, and the memory of the body buffer afterwards. */
  datatype Step = Step(result: Received, rest: seq<byte>, body: seq<byte>)

  /** The body buffer is replaced only when it is too small. */
  function Grown(body: seq<byte>, required: nat): (bs: seq<byte>)
    ensures |bs| >= required
  {
    if |body| < required then Zeros(required) else body
  }

  function Min(a: nat, b: nat): nat {
    if a < b then a else b
  }

  function ReceiveStep(pending: seq<byte>, body: seq<byte>, widened: bool): Step {
    if |pending| < 4 then Step(ReadError, [], body)
    else
      var msgLength := ValueOf(pending[..4]);
      if msgLength < 10 then Step(FormatError, pending[4..], body)
      else
        var required := msgLength + 4;
        var got := Min(|pending|, required);
        var filled := pending[..got] + Grown(body, required)[got..];
        if got < required then Step(ReadError, [], filled)
        else
          var parsed := ParseMessage(filled, required, widened);
          Step(if parsed.Some? then Received(parsed.value) else ParseError, pending[required..], filled)
  }

  class ByteStream {
    var pending: seq<byte>

    constructor (bytes: seq<byte>)
      ensures pending == bytes
    {
      pending := bytes;
    }

    /** Reads as many bytes as there are into buf[lo..hi]; false when that leaves some unfilled. */
    method ReadFull(buf: array<byte>, lo: nat, hi: nat) returns (ok: bool)
      requires lo <= hi <= buf.Length
      modifies this, buf
      ensures ok <==> hi - lo <= |old(pending)|
      ensures var got := Min(hi - lo, |old(pending)|);
        pending == old(pending)[got..] && buf[..] == old(buf[..lo]) + old(pending)[..got] + old(buf[lo + got..])
    {
      var got := Min(hi - lo, |pending|);
      for i := 0 to got
        invariant pending == old(pending)
        invariant forall j | 0 <= j < buf.Length :: buf[j] == if lo <= j < lo + i then pending[j - lo] else old(buf[j])
      {
        buf[lo + i] := pending[i];
      }
      pending := pending[got..];
      ok := got == hi - lo;
    }
  }

  class SecsIICodec {
    const stream: ByteStream
    const headBuf: array<byte>
    var bodyBuf: array<byte>
    const widened: bool

    ghost predicate Valid()
      reads this
    {
      headBuf.Length == 4 && headBuf != bodyBuf
    }

    constructor (stream: ByteStream, widened: bool)
      ensures Valid() && this.stream == stream && this.widened == widened
      ensures fresh(headBuf) && fresh(bodyBuf) && bodyBuf.Length == 0
    {
      this.stream := stream;
      this.widened := widened;
      headBuf := new byte[4](_ => 0);
      bodyBuf := new byte[0];
    }

    method Receive() returns (r: Received)
      requires Valid()
      modifies this, stream, headBuf, bodyBuf
      ensures Valid() && (bodyBuf == old(bodyBuf) || fresh(bodyBuf))
      ensures ReceiveStep(old(stream.pending), old(bodyBuf[..]), widened) == Step(r, stream.pending, bodyBuf[..])
    {
      hide ParseMessage, ValueOf, BigEndian;
      ghost var all, body := stream.pending, bodyBuf[..];
      var ok := stream.ReadFull(headBuf, 0, 4);
      if !ok {
        return ReadError;
      }
      assert headBuf[..] == all[..4];
      var msgLength := ValueOf(headBuf[..]);
      if msgLength < 10 {
        return FormatError;
      }
      var required := msgLength + 4;
      if bodyBuf.Length < required {
        bodyBuf := new byte[required](_ => 0);
        assert bodyBuf[..] == Zeros(required);
      }
      ok := FillBody(all, body, required);
      if !ok {
        return ReadError;
      }
      var msg := Messages.Parse(bodyBuf[..], required, widened);
      r := if msg.Some? then Received(msg.value) else ParseError;
    }

    /** Puts a whole frame into the body buffer, the length bytes first. */
    method FillBody(ghost all: seq<byte>, ghost body: seq<byte>, required: nat) returns (ok: bool)
      requires Valid() && 4 <= |all| && stream.pending == all[4..] && required == ValueOf(all[..4]) + 4
      requires bodyBuf[..] == Grown(body, required)
      modifies stream, bodyBuf
      ensures Valid()
      ensures ok <==> required <= |all|
      ensures stream.pending == all[Min(|all|, required)..]
      ensures bodyBuf[..] == all[..Min(|all|, required)] + Grown(body, required)[Min(|all|, required)..]
    {
      hide ValueOf, BigEndian;
      BigEndianOfValue(all[..4]);
      PutLength(required - 4);
      assert bodyBuf[..] == all[..4] + Grown(body, required)[4..];
      ok := stream.ReadFull(bodyBuf, 4, required);
    }

    /** Writes the length bytes back in front of the body. */
    method PutLength(msgLength: nat)
      requires 4 <= bodyBuf.Length
      modifies bodyBuf
      ensures bodyBuf[..] == BigEndian(msgLength, 4) + old(bodyBuf[4..])
    {
      var bytes := BigEndian(msgLength, 4);
      bodyBuf[0], bodyBuf[1], bodyBuf[2], bodyBuf[3] := bytes[0], bytes[1], bytes[2], bytes[3];
    }
  }

  // Runs

  predicate Sendable(m: Message, widened: bool) {
    MessageOk(m) && EncodeMessage(m) != [] && LengthFits(m) && DecodableMessage(m, widened)
  }

  predicate AllSendable(ms: seq<Message>, widened: bool) {
    forall i | 0 <= i < |ms| :: Sendable(ms[i], widened)
  }

  function Wire(ms: seq<Message>): seq<byte>
    requires forall i | 0 <= i < |ms| :: MessageOk(ms[i])
  {
    if ms == [] then [] else EncodeMessage(ms[0]) + Wire(ms[1..])
  }

  datatype Run = Run(results: seq<Received>, rest: seq<byte>)

  /** `count` calls in a row over one stream, each with the buffer the one before it left behind. */
  function ReceiveAll(pending: seq<byte>, body: seq<byte>, count: nat, widened: bool): Run
    decreases count
  {
    if count == 0 then Run([], pending)
    else
      var step := ReceiveStep(pending, body, widened);
      var run := ReceiveAll(step.rest, step.body, count - 1, widened);
      Run([step.result] + run.results, run.rest)
  }

  function Delivered(ms: seq<Message>): (rs: seq<Received>)
    ensures |rs| == |ms|
  {
    if ms == [] then [] else [Received(Canonical(ms[0]))] + Delivered(ms[1..])
  }

  /** One call on a frame: it is parsed in front of what a longer buffer still holds behind it, and consumed. */
  lemma FrameTaken(frame: seq<byte>, rest: seq<byte>, body: seq<byte>, widened: bool)
    requires |frame| >= 14 && ValueOf(frame[..4]) == |frame| - 4
    ensures var memory := frame + if |body| > |frame| then body[|frame|..] else [];
      var m := ParseMessage(memory, |frame|, widened);
      ReceiveStep(frame + rest, body, widened) == Step(if m.Some? then Received(m.value) else ParseError, rest, memory)
  {
    hide ParseMessage, ValueOf;
    var all := frame + rest;
    assert all[..4] == frame[..4] && all[..|frame|] == frame && all[|frame|..] == rest;
    assert Grown(body, |frame|)[|frame|..] == if |body| > |frame| then body[|frame|..] else [];
  }

  /**
   * A stream that ends early uses up what is left of it; a length below 10 is refused with only the length bytes
   * consumed.
   */
  lemma NoFrame(pending: seq<byte>, body: seq<byte>, widened: bool)
    ensures var step := ReceiveStep(pending, body, widened);
      && (|pending| < 4 ==> step.result == ReadError && step.rest == [])
      && (|pending| >= 4 && ValueOf(pending[..4]) < 10 ==>
            step.result == FormatError && step.rest == pending[4..] && step.body == body)
      && (|pending| >= 4 && ValueOf(pending[..4]) >= 10 && |pending| < ValueOf(pending[..4]) + 4 ==>
            step.result == ReadError && step.rest == [])
  {
    hide ParseMessage, ValueOf;
  }

  /** One frame: exactly its bytes are consumed, whatever the buffer held. */
  lemma ReceiveEncoded(m: Message, rest: seq<byte>, body: seq<byte>, widened: bool)
    requires Sendable(m, widened)
    ensures ReceiveStep(EncodeMessage(m) + rest, body, widened).result == Received(Canonical(m))
    ensures ReceiveStep(EncodeMessage(m) + rest, body, widened).rest == rest
  {
    hide EncodeMessage, ParseMessage, ValueOf, MessageOk, LengthFits, DecodableMessage, Canonical;
    var bs := EncodeMessage(m);
    var pending := bs + rest;
    LengthField(m);
    assert pending[..4] == bs[..4];
    var filled := pending[..|bs|] + Grown(body, |bs|)[|bs|..];
    assert filled[..|bs|] == bs;
    MessageBackIffDecodable(m, filled, |bs|, widened);
  }

  /** A stream of encoded messages comes out message by message, and nothing behind it is touched. */
  lemma {:induction false} ReceiveAllEncoded(ms: seq<Message>, rest: seq<byte>, body: seq<byte>, widened: bool)
    requires AllSendable(ms, widened)
    ensures ReceiveAll(Wire(ms) + rest, body, |ms|, widened) == Run(Delivered(ms), rest)
  {
    hide EncodeMessage, ReceiveStep, MessageOk, LengthFits, DecodableMessage, Canonical;
    if ms == [] {
      assert Wire(ms) + rest == rest;
    } else {
      var m := ms[0];
      assert Wire(ms) + rest == EncodeMessage(m) + (Wire(ms[1..]) + rest);
      ReceiveEncoded(m, Wire(ms[1..]) + rest, body, widened);
      ReceiveAllEncoded(ms[1..], rest, ReceiveStep(Wire(ms) + rest, body, widened).body, widened);
    }
  }

  /** The memory a frame is parsed in: the frame, then what earlier frames left in the buffer. */
  function FrameMemory(pending: seq<byte>, body: seq<byte>): seq<byte>
    requires |pending| >= 4 && |pending| >= ValueOf(pending[..4]) + 4
  {
    var required := ValueOf(pending[..4]) + 4;
    pending[..required] + Grown(body, required)[required..]
  }

  /**
   * For any frame at all, well-formed or not: the outcome is that of a reader with a fresh buffer
   * exactly when no item of the frame runs past its end into what earlier frames left behind.
   */
  lemma StaleBytesIffRunsPast(pending: seq<byte>, body: seq<byte>, widened: bool)
    requires |pending| >= 4 && 14 <= ValueOf(pending[..4]) + 4 <= |pending|
    ensures ReceiveStep(pending, body, widened).result == ReceiveStep(pending, [], widened).result
       <==> !RunsPast(FrameMemory(pending, body), ValueOf(pending[..4]) + 4, widened)
  {
    hide ParseMessage, ValueOf, RunsPast;
    var required := ValueOf(pending[..4]) + 4;
    var memory := FrameMemory(pending, body);
    assert memory[..required] == pending[..required];
    assert FrameMemory(pending, []) == pending[..required];
    MemoryMattersIffRunsPast(memory, required, widened);
    RunningPastParses(memory, required, widened);
  }

  lemma RunningPastParses(buf: seq<byte>, n: nat, widened: bool)
    requires n <= |buf|
    ensures RunsPast(buf, n, widened) ==> ParseMessage(buf, n, widened).Some?
  {
    hide ParseMessage, TextEnd;
  }

  /**
   * A complete frame is received alike whatever earlier frames left in the buffer exactly when it does not overhang,
   * which can be told from its own bytes.
   */
  lemma StaleBytesIff(pending: seq<byte>, widened: bool)
    requires |pending| >= 4 && 14 <= ValueOf(pending[..4]) + 4 <= |pending|
    ensures (forall body: seq<byte> ::
      ReceiveStep(pending, body, widened).result == ReceiveStep(pending, [], widened).result)
        <==> !Overhangs(pending[..ValueOf(pending[..4]) + 4], widened)
  {
    hide ParseMessage, ValueOf, RunsPast, Overhangs, ReceiveStep, Zeros;
    var required := ValueOf(pending[..4]) + 4;
    var f := pending[..required];
    forall body: seq<byte>
      ensures Overhangs(f, widened) || ReceiveStep(pending, body, widened).result ==
        ReceiveStep(pending, [], widened).result
    {
      LeftBehind(pending, body, widened);
      OneMemory(f, Grown(body, required)[required..], widened);
    }
    if Overhangs(f, widened) {
      var body := Zeros(required) + Zeros(ENOUGH);
      LeftBehind(pending, body, widened);
      OneMemory(f, Zeros(ENOUGH), widened);
      assert Grown(body, required)[required..] == Zeros(ENOUGH);
    }
  }

  /** What is read depends on what lies behind the frame in the buffer, when the parse runs past the frame. */
  lemma LeftBehind(pending: seq<byte>, body: seq<byte>, widened: bool)
    requires |pending| >= 4 && 14 <= ValueOf(pending[..4]) + 4 <= |pending|
    ensures var required := ValueOf(pending[..4]) + 4;
      ReceiveStep(pending, body, widened).result == ReceiveStep(pending, [], widened).result
      <==> !RunsPast(pending[..required] + Grown(body, required)[required..], required, widened)
  {
    StaleBytesIffRunsPast(pending, body, widened);
  }

  /** A frame of three letters, and one that claims three letters and holds only the first. */
  const WHOLE_FRAME: seq<byte> := [0, 0, 0, 15] + EXAMPLE_HEADER + EXAMPLE_TEXT
  const SHORT_FRAME: seq<byte> := [0, 0, 0, 13] + EXAMPLE_HEADER + EXAMPLE_TEXT[..3]

  /**
   * Read after the whole frame the short one is accepted, with the last two letters of the whole one; on its own it
   * is refused.
   */
  lemma StaleExample()
    ensures ReceiveAll(WHOLE_FRAME + SHORT_FRAME, [], 2, false) == Run([Received(EXAMPLE), Received(EXAMPLE)], [])
    ensures ReceiveAll(SHORT_FRAME, [], 1, false) == Run([ParseError], [])
  {
    hide ReceiveStep, ParseMessage, ParsedData;
    WholeFirst();
    ShortAfterWhole();
    ShortAlone();
    assert ReceiveAll([], WHOLE_FRAME, 0, false) == Run([], []);
    var memory := [0, 0, 0, 13] + EXAMPLE_HEADER + EXAMPLE_TEXT;
    assert ReceiveAll([], memory, 0, false) == Run([], []) && ReceiveAll([], SHORT_FRAME, 0, false) == Run([], []);
    assert ReceiveAll(SHORT_FRAME, WHOLE_FRAME, 1, false) == Run([Received(EXAMPLE)] + [], []);
    assert ReceiveAll(WHOLE_FRAME + SHORT_FRAME, [], 2, false) ==
      Run([Received(EXAMPLE)] + ([Received(EXAMPLE)] + []), []);
  }

  lemma WholeFirst()
    ensures ReceiveStep(WHOLE_FRAME + SHORT_FRAME, [], false) == Step(Received(EXAMPLE), SHORT_FRAME, WHOLE_FRAME)
  {
    hide ParseMessage, ParsedData, ValueOf;
    var pending := WHOLE_FRAME + SHORT_FRAME;
    assert pending[..4] == [0, 0, 0, 15];
    ExampleLength(15);
    var filled := pending[..19] + Grown([], 19)[19..];
    assert filled == WHOLE_FRAME && pending[19..] == SHORT_FRAME;
    assert WHOLE_FRAME[..4] == [0, 0, 0, 15] && WHOLE_FRAME[4..14] == EXAMPLE_HEADER &&
      WHOLE_FRAME[14..] == EXAMPLE_TEXT;
    ExampleMessage(filled, 19);
  }

  lemma ShortAfterWhole()
    ensures var memory := [0, 0, 0, 13] + EXAMPLE_HEADER + EXAMPLE_TEXT;
      ReceiveStep(SHORT_FRAME, WHOLE_FRAME, false) == Step(Received(EXAMPLE), [], memory)
  {
    hide ParseMessage, ParsedData, ValueOf;
    assert SHORT_FRAME[..4] == [0, 0, 0, 13];
    ExampleLength(13);
    var memory := [0, 0, 0, 13] + EXAMPLE_HEADER + EXAMPLE_TEXT;
    var filled := SHORT_FRAME[..17] + Grown(WHOLE_FRAME, 17)[17..];
    assert filled == memory;
    assert memory[..4] == [0, 0, 0, 13] && memory[4..14] == EXAMPLE_HEADER && memory[14..] == EXAMPLE_TEXT;
    ExampleMessage(memory, 17);
  }

  lemma ShortAlone()
    ensures ReceiveStep(SHORT_FRAME, [], false) == Step(ParseError, [], SHORT_FRAME)
  {
    hide ParseMessage, ParsedData, ValueOf, RunsPast;
    assert SHORT_FRAME[..4] == [0, 0, 0, 13];
    ExampleLength(13);
    var filled := SHORT_FRAME[..17] + Grown([], 17)[17..];
    var memory := [0, 0, 0, 13] + EXAMPLE_HEADER + EXAMPLE_TEXT;
    assert filled == SHORT_FRAME == memory[..17];
    RunsPastExample();
    MemoryMattersIffRunsPast(memory, 17, false);
  }
}
