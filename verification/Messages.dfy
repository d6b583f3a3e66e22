/** HSMS messages: the header, the length field and the message text. */
module Messages {
  import opened Wrappers
  import opened Items
  import opened Bytes
  import opened Encoding
  import opened Decoding
  import opened RoundTrip
  import opened Reparse
  import opened Parser

  /** `waitBit` is 2 when optional; `sessionId` is -1 when not set. */
  datatype Message =
    | Data(name: string, stream: int, function_: int, waitBit: int, direction: string, item: Item, sessionId: int,
      system: seq<byte>)
    | Control(header: seq<byte>)

  predicate IsSpace(c: char) {
    c == ' ' || '\t' <= c <= '\r' || c == '\U{85}' || c == '\U{A0}'
  }

  /** What the factory of data messages checks. */
  predicate DataOk(m: Message) {
    && m.Data?
    && (forall c | c in m.name :: !IsSpace(c))
    && 0 <= m.stream < 128 && 0 <= m.function_ < 256
    && 0 <= m.waitBit <= 2 && !(m.waitBit == 1 && m.function_ % 2 == 0)
    && -1 <= m.sessionId < 0x1_0000
    && |m.system| == 4
    && (m.direction == "H->E" || m.direction == "H<-E" || m.direction == "H<->E")
  }

  predicate MessageOk(m: Message) {
    match m
    case Data(_, _, _, _, _, item, _, _) => DataOk(m) && Rep(item) && !item.Slot?
    case Control(header) => |header| == 10
  }

  function HeaderBytes(m: Message): (bs: seq<byte>)
    requires DataOk(m) && m.sessionId != -1
    ensures |bs| == 10
  {
    [m.sessionId / 0x100, m.sessionId % 0x100, m.stream + if m.waitBit == 1 then 0x80 else 0, m.function_, 0, 0] +
      m.system
  }

  /** No bytes at all when the message is not complete. */
  function EncodeMessage(m: Message): seq<byte>
    requires MessageOk(m)
  {
    match m
    case Control(header) => [0, 0, 0, 10] + header
    case Data(_, _, _, waitBit, _, item, sessionId, _) =>
      if waitBit == 2 || Variables(item) != [] || sessionId == -1 then []
      else BigEndian(|Encode(item)| + 10, 4) + HeaderBytes(m) + Encode(item)
  }

  predicate IsControlType(t: nat) {
    1 <= t <= 7 || t == 9
  }

  /** The message text: absent, or one item. */
  function ParseText(buf: seq<byte>, n: nat, widened: bool): Option<Item>
    requires 14 <= n <= |buf|
  {
    if n == 14 then Some(Empty)
    else
      var parsed :- ParseItem(buf, n, 14, widened);
      Some(parsed.item)
  }

  function ParsedData(header: seq<byte>, item: Item): Message
    requires |header| == 10
  {
    Data("", header[2] % 0x80, header[3], header[2] / 0x80, "H<->E", item, header[0] as int * 0x100 + header[1] as int,
      header[6..10])
  }

  function ParseMessage(buf: seq<byte>, n: nat, widened: bool): Option<Message>
    requires n <= |buf|
  {
    if n < 14 || ValueOf(buf[..4]) != n - 4 then None
    else
      var header := buf[4..14];
      if header[4] != 0 then None
      else if header[5] == 0 then
        var item :- ParseText(buf, n, widened);
        if DataOk(ParsedData(header, item)) then Some(ParsedData(header, item)) else None
      else if IsControlType(header[5]) then Some(Control(header))
      else None
  }

  /** Parsing, run by the parser object. */
  method Parse(buf: seq<byte>, n: nat, widened: bool) returns (r: Option<Message>)
    requires n <= |buf|
    ensures r == ParseMessage(buf, n, widened)
  {
    hide ParseItem, DataOk, ValueOf;
    if n < 14 {
      return None;
    }
    var parser := new MessageParser(buf, n, widened);
    parser.pos := 4;
    parser.msgLength := ValueOf(buf[..4]);
    if n - 4 != parser.msgLength {
      return None;
    }
    var headerBytes := buf[parser.pos..parser.pos + 10];
    parser.pos := parser.pos + 10;
    if headerBytes[4] != 0 {
      return None;
    }
    if headerBytes[5] == 0 {
      var dataItem := parser.ParseMessageText();
      if dataItem.None? {
        return None;
      }
      var msg := ParsedData(headerBytes, dataItem.value);
      r := if DataOk(msg) then Some(msg) else None;
    } else if IsControlType(headerBytes[5]) {
      r := Some(Control(headerBytes));
    } else {
      r := None;
    }
  }

  // Round trips

  /** A message as it comes off the wire, which carries neither name nor direction. */
  function Canonical(m: Message): Message {
    if m.Data? then m.(name := "", direction := "H<->E") else m
  }

  /** The length field can hold the length of the message. */
  predicate LengthFits(m: Message) {
    m.Data? ==> |Encode(m.item)| + 10 < Modulus(4)
  }

  predicate DecodableMessage(m: Message, widened: bool) {
    match m
    case Data(_, _, _, _, _, item, _, _) => Decodable(item, widened)
    case Control(header) => |header| == 10 && header[4] == 0 && IsControlType(header[5])
  }

  /** The length field counts everything behind it. */
  lemma LengthField(m: Message)
    requires MessageOk(m) && EncodeMessage(m) != [] && LengthFits(m)
    ensures |EncodeMessage(m)| >= 14 && ValueOf(EncodeMessage(m)[..4]) == |EncodeMessage(m)| - 4
  {
    hide Encode, ValueOf, BigEndian, Power, Rep, Variables, DataOk;
    var bs := EncodeMessage(m);
    match m
    case Control(header) =>
      assert bs[..4] == [0, 0, 0, 10];
      SmallLength();
    case Data(_, _, _, _, _, item, _, _) =>
      PowerOfWidth(4);
      ValueOfBigEndian(|Encode(item)| + 10, 4);
      assert bs[..4] == BigEndian(|Encode(item)| + 10, 4);
  }

  lemma SmallLength()
    ensures ValueOf([0, 0, 0, 10]) == 10
  {
    ValueOfFew(0, 0, 0);
    assert Front([0, 0, 0, 10]) == [0, 0, 0];
  }

  lemma HeaderBack(m: Message)
    requires DataOk(m) && m.sessionId != -1 && m.waitBit != 2
    ensures var h := HeaderBytes(m); h[4] == 0 && h[5] == 0 && ParsedData(h, m.item) == Canonical(m)
    ensures DataOk(Canonical(m))
  {
    var h := HeaderBytes(m);
    assert h[6..10] == m.system;
  }

  /** Cutting an encoded message apart, whatever memory lies behind it. */
  lemma MessageParts(m: Message, buf: seq<byte>, n: nat)
    requires m.Data? && MessageOk(m) && EncodeMessage(m) != []
    requires n <= |buf| && buf[..n] == EncodeMessage(m)
    ensures n == 14 + |Encode(m.item)| && buf[..4] == EncodeMessage(m)[..4] && buf[4..14] == HeaderBytes(m)
    ensures At(buf, 14, Encode(m.item))
  {
    hide Encode, BigEndian, Rep, Variables, DataOk, HeaderBytes;
    var bs := EncodeMessage(m);
    assert buf[..4] == buf[..n][..4];
    assert buf[4..14] == buf[..n][4..14] == HeaderBytes(m);
    assert buf[14..n] == buf[..n][14..] == Encode(m.item);
  }

  lemma DataBackIffDecodable(m: Message, buf: seq<byte>, n: nat, widened: bool)
    requires m.Data? && MessageOk(m) && EncodeMessage(m) != [] && LengthFits(m)
    requires n <= |buf| && buf[..n] == EncodeMessage(m)
    ensures ParseMessage(buf, n, widened) == Some(Canonical(m)) <==> DecodableMessage(m, widened)
  {
    hide Encode, BigEndian, Rep, DataOk, HeaderBytes, ParseItem, ValueOf, At, ParsedData, Decodable, Variables;
    MessageParts(m, buf, n);
    LengthField(m);
    HeaderBack(m);
    EmptyText(m, widened);
    if m.item != Empty {
      TextBackIffDecodable(m.item, buf, n, widened);
      ParsedItem(HeaderBytes(m), m.item);
    }
  }

  lemma EmptyText(m: Message, widened: bool)
    requires m.Data? && MessageOk(m) && EncodeMessage(m) != []
    ensures Encode(m.item) == [] <==> m.item == Empty
    ensures Decodable(Empty, widened)
  {
    EncodedIffComplete(m.item);
  }

  lemma ParsedItem(header: seq<byte>, item: Item)
    requires |header| == 10
    ensures forall other :: ParsedData(header, other) == ParsedData(header, item) <==> other == item
  {
  }

  lemma TextBackIffDecodable(item: Item, buf: seq<byte>, n: nat, widened: bool)
    requires Rep(item) && Encode(item) != [] && n == 14 + |Encode(item)| <= |buf| && At(buf, 14, Encode(item))
    ensures ParseText(buf, n, widened) == Some(item) <==> Decodable(item, widened)
  {
    hide Encode, Rep, ParseItem, At, Decodable;
    if Decodable(item, widened) {
      DecodeEncoded(item, buf, n, 14, widened);
    }
    if ParseText(buf, n, widened) == Some(item) {
      BackOnlyIfDecodable(item, buf, n, 14, widened);
    }
  }

  /**
   * A message that was sent is parsed as itself, up to name and direction, exactly when its lengths are decodable
   * and, for a control message, its type is defined; memory behind the input makes no difference.
   */
  lemma MessageBackIffDecodable(m: Message, buf: seq<byte>, n: nat, widened: bool)
    requires MessageOk(m) && EncodeMessage(m) != [] && LengthFits(m)
    requires n <= |buf| && buf[..n] == EncodeMessage(m)
    ensures ParseMessage(buf, n, widened) == Some(Canonical(m)) <==> DecodableMessage(m, widened)
  {
    match m
    case Data(_, _, _, _, _, _, _, _) =>
      DataBackIffDecodable(m, buf, n, widened);
    case Control(header) =>
      LengthField(m);
      assert buf[..4] == buf[..n][..4];
      assert buf[4..14] == buf[..n][4..14] == header;
  }

  /**
   * Whatever message was accepted, encoding it and parsing it again yields the same message exactly when the length
   * field can hold its length; it always can when input and memory behind it are no longer than a frame can be.
   */
  lemma ParsedAgain(buf: seq<byte>, n: nat, widened: bool)
    requires n <= |buf| && ParseMessage(buf, n, widened).Some?
    ensures var m := ParseMessage(buf, n, widened).value;
      && MessageOk(m) && EncodeMessage(m) != []
      && (ParseMessage(EncodeMessage(m), |EncodeMessage(m)|, widened) == Some(m) <==> LengthFits(m))
      && (|buf| < Modulus(4) + 4 ==> LengthFits(m))
  {
    hide Encode, BigEndian, ParseItem, ValueOf, Rep, Variables, Decodable;
    var m := ParseMessage(buf, n, widened).value;
    ParsedMessageOk(buf, n, widened);
    var bs := EncodeMessage(m);
    assert bs[..|bs|] == bs;
    if LengthFits(m) {
      MessageBackIffDecodable(m, bs, |bs|, widened);
    } else {
      LengthWraps(m, widened);
    }
  }

  /** A message whose length does not fit is sent with a length field that is too small, and refused. */
  lemma LengthWraps(m: Message, widened: bool)
    requires MessageOk(m) && EncodeMessage(m) != [] && !LengthFits(m)
    ensures ParseMessage(EncodeMessage(m), |EncodeMessage(m)|, widened) == None
  {
    hide Encode, BigEndian, ParseItem, ValueOf, Rep, Variables, DataOk, Power;
    var bs := EncodeMessage(m);
    assert bs[..4] == BigEndian(|Encode(m.item)| + 10, 4);
    ValueBound(bs[..4]);
    PowerOfWidth(4);
  }

  lemma ParsedMessageOk(buf: seq<byte>, n: nat, widened: bool)
    requires n <= |buf| && ParseMessage(buf, n, widened).Some?
    ensures var m := ParseMessage(buf, n, widened).value;
      && MessageOk(m) && DecodableMessage(m, widened) && Canonical(m) == m
      && EncodeMessage(m) != [] && (|buf| < Modulus(4) + 4 ==> LengthFits(m))
  {
    hide Encode, BigEndian, ParseItem, ValueOf, Rep, Variables, Decodable;
    if buf[9] == 0 {
      ParsedTextOk(buf, n, widened);
    }
  }

  lemma ParsedTextOk(buf: seq<byte>, n: nat, widened: bool)
    requires 14 <= n <= |buf| && ParseText(buf, n, widened).Some?
    ensures var item := ParseText(buf, n, widened).value;
      && Rep(item) && !item.Slot? && Variables(item) == [] && Decodable(item, widened)
      && |Encode(item)| <= |buf| - 14
  {
    hide ParseItem;
    if n != 14 {
      ParsedSound(buf, n, 14, widened);
      SoundEncodes(ParseItem(buf, n, 14, widened).value.item, widened);
    }
  }

  // The header, byte by byte

  /**
   * Two bytes of session id, the stream with the wait bit on top, the function, two bytes that are 0 in a data
   * message, and four system bytes.
   */
  predicate IsHeader(m: Message, h: seq<byte>)
    requires |h| == 10
  {
    match m
    case Control(header) => header == h
    case Data(_, stream, function_, waitBit, _, _, sessionId, system) =>
      && sessionId == h[0] as int * 0x100 + h[1] as int
      && waitBit == (if h[2] < 0x80 then 0 else 1) && stream == h[2] as int - 0x80 * waitBit
      && function_ == h[3] && h[4] == h[5] == 0
      && system == [h[6], h[7], h[8], h[9]]
  }

  /** A message with a wait bit left open, with variables or without a session id is not sent; any other is. */
  lemma SentHeader(m: Message)
    requires MessageOk(m)
    ensures EncodeMessage(m) == [] <==> m.Data? && (m.waitBit == 2 || Variables(m.item) != [] || m.sessionId == -1)
    ensures var bs := EncodeMessage(m);
      bs != [] ==> |bs| >= 14 && IsHeader(m, bs[4..14]) && bs[14..] == if m.Data? then Encode(m.item) else []
  {
    hide Encode, BigEndian, Rep, Variables, HeaderBytes;
    var bs := EncodeMessage(m);
    if bs != [] {
      match m
      case Control(header) =>
        assert bs[4..14] == header;
      case Data(_, _, _, _, _, item, _, _) =>
        assert bs[4..14] == HeaderBytes(m) && bs[14..] == Encode(item);
        HeaderOf(m);
    }
  }

  lemma HeaderOf(m: Message)
    requires DataOk(m) && m.sessionId != -1 && m.waitBit != 2
    ensures IsHeader(m, HeaderBytes(m))
  {
    assert HeaderBytes(m)[6..] == m.system;
  }

  /** What is accepted as which message. */
  lemma AcceptedIff(buf: seq<byte>, n: nat, widened: bool, m: Message)
    requires n <= |buf|
    ensures ParseMessage(buf, n, widened) == Some(m) <==>
      && n >= 14 && ValueOf(buf[..4]) == n - 4 && IsHeader(m, buf[4..14])
      && match m
         case Control(header) => header[4] == 0 && (1 <= header[5] <= 7 || header[5] == 9)
         case Data(name, _, function_, waitBit, direction, item, _, _) =>
           && name == "" && direction == "H<->E" && !(waitBit == 1 && function_ % 2 == 0)
           && if n == 14 then item == Empty
              else exists end :: ParseItem(buf, n, 14, widened) == Some(Parsed(item, end))
  {
    hide ParseItem, ValueOf, DataOk, ParsedData;
    if n >= 14 {
      ItemParsed(buf[4..14]);
      if m.Data? {
        HeaderParsed(buf[4..14], m);
        if n > 14 && ParseItem(buf, n, 14, widened).Some? {
          var parsed := ParseItem(buf, n, 14, widened).value;
          assert ParseItem(buf, n, 14, widened) == Some(Parsed(parsed.item, parsed.end));
        }
      }
    }
  }

  lemma HeaderParsed(h: seq<byte>, m: Message)
    requires |h| == 10 && m.Data?
    ensures h[4] == h[5] == 0 && m == ParsedData(h, m.item) && DataOk(m) <==>
      && IsHeader(m, h) && m.name == "" && m.direction == "H<->E" && !(m.waitBit == 1 && m.function_ % 2 == 0)
  {
    assert h[6..10] == [h[6], h[7], h[8], h[9]];
  }

  lemma ItemParsed(h: seq<byte>)
    requires |h| == 10
    ensures forall item :: ParsedData(h, item).Data? && ParsedData(h, item).item == item
  {
  }

  // Memory behind the input

  /** Where the message text ends. */
  function TextEnd(buf: seq<byte>, n: nat, widened: bool): nat
    requires n <= |buf|
  {
    if n > 14 && ParseItem(buf, n, 14, widened).Some? then ParseItem(buf, n, 14, widened).value.end else n
  }

  /** Some byte behind the input took part in the message. */
  predicate RunsPast(buf: seq<byte>, n: nat, widened: bool)
    requires n <= |buf|
  {
    ParseMessage(buf, n, widened).Some? && ParseMessage(buf, n, widened).value.Data? && TextEnd(buf, n, widened) > n
  }

  /**
   * The input alone decides the outcome exactly when the parsed item does not run past it; alone, such an input is
   * refused.
   */
  lemma MemoryMattersIffRunsPast(buf: seq<byte>, n: nat, widened: bool)
    requires n <= |buf|
    ensures ParseMessage(buf[..n], n, widened) == if RunsPast(buf, n, widened) then None
      else ParseMessage(buf, n, widened)
  {
    hide ParseItem, ValueOf, DataOk;
    if n >= 14 {
      assert buf[..n][..4] == buf[..4] && buf[..n][4..14] == buf[4..14];
      if n > 14 {
        ParseInside(buf, n, 14, widened);
      }
    }
  }

  /**
   * An input whose last item claims two bytes more than there are: with "BC" left over in the memory behind it,
   * it is accepted as "ABC".
   */
  lemma RunsPastExample()
    ensures var memory := [0, 0, 0, 13] + EXAMPLE_HEADER + EXAMPLE_TEXT;
      RunsPast(memory, 17, false) && ParseMessage(memory, 17, false) == Some(EXAMPLE)
  {
    hide ParseItem, ValueOf, DataOk, ParsedData, ParseMessage;
    var memory := [0, 0, 0, 13] + EXAMPLE_HEADER + EXAMPLE_TEXT;
    ExampleMessage(memory, 17);
    ExampleText(memory, 17);
    ExampleIsData();
  }

  const EXAMPLE_HEADER: seq<byte> := [0, 1, 1, 1, 0, 0, 0, 0, 0, 1]
  const EXAMPLE_TEXT: seq<byte> := [0x41, 3, 0x41, 0x42, 0x43]
  const EXAMPLE := ParsedData(EXAMPLE_HEADER, Ascii([0x41, 0x42, 0x43]))

  lemma ExampleIsData()
    ensures EXAMPLE.Data?
  {
  }

  /** With the text in memory, a frame that counts all of it or breaks off two bytes before its end. */
  lemma ExampleMessage(memory: seq<byte>, n: nat)
    requires n == 17 || n == 19
    requires |memory| == 19 && memory[..4] == [0, 0, 0, n - 4] && memory[4..14] == EXAMPLE_HEADER &&
      memory[14..] == EXAMPLE_TEXT
    ensures ParseMessage(memory, n, false) == Some(EXAMPLE)
  {
    hide ParseItem, ValueOf, DataOk, ParsedData;
    assert memory[4..14][4] == 0 && memory[4..14][5] == 0;
    ExampleLength(n - 4);
    ExampleText(memory, n);
    ParsedExample();
  }

  lemma ExampleLength(len: byte)
    ensures ValueOf([0, 0, 0, len]) == len
  {
    assert Front([0, 0, 0, len]) == [0, 0, 0];
    ValueOfFew(0, 0, 0);
  }

  lemma ParsedExample()
    ensures forall item :: DataOk(ParsedData(EXAMPLE_HEADER, item))
  {
  }

  lemma ExampleText(memory: seq<byte>, n: nat)
    requires 17 <= n <= |memory| == 19 && memory[14..] == EXAMPLE_TEXT
    ensures ParseItem(memory, n, 14, false) == Some(Parsed(Ascii([0x41, 0x42, 0x43]), 19))
  {
    hide LengthOf, ParseAscii;
    assert memory[14] == memory[14..][0] && memory[15] == memory[14..][1];
    assert memory[15..16] == [3];
    LengthOfFew([3], false);
    ExampleAscii(memory);
  }

  lemma ExampleAscii(memory: seq<byte>)
    requires |memory| == 19 && memory[14..] == EXAMPLE_TEXT
    ensures ParseAscii(memory, 16, 3) == Some(Parsed(Ascii([0x41, 0x42, 0x43]), 19))
  {
    assert memory[16..19] == memory[14..][2..] == [0x41, 0x42, 0x43];
  }

  /** A text of 256 characters is encoded with two length bytes, of which only the last is read: it comes back empty. */
  lemma LongTextLost()
    ensures var item := Ascii(LONG_TEXT);
      Rep(item) && ParseItem(Encode(item), |Encode(item)|, 0, false) == Some(Parsed(Ascii([]), 3))
  {
    hide LengthOf, Header;
    var item := Ascii(LONG_TEXT);
    var buf := Encode(item);
    assert buf == Header(ASCII_CODE, 256) + LONG_TEXT;
    assert At(buf, 0, Header(ASCII_CODE, 256)) by {
      assert buf[0..|Header(ASCII_CODE, 256)|] == Header(ASCII_CODE, 256);
    }
    HeaderRead(buf, 0, ASCII_CODE, 256, false);
    LongHeader();
    assert buf[3..3] == [];
  }

  const LONG_TEXT: seq<byte> := seq(256, _ => 0x41)

  lemma LongHeader()
    ensures |Header(ASCII_CODE, 256)| == 3
  {
  }
}
