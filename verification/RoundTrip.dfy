/** Which items come back from their own bytes, and what bytes that were accepted stand for. */
module RoundTrip {
  import opened Wrappers
  import opened Items
  import opened Bytes
  import opened Encoding
  import opened Decoding

  /** `bs` stands in `buf` from `pos` on. */
  predicate At(buf: seq<byte>, pos: nat, bs: seq<byte>) {
    pos + |bs| <= |buf| && buf[pos..pos + |bs|] == bs
  }

  lemma AtConcat(buf: seq<byte>, pos: nat, a: seq<byte>, b: seq<byte>)
    requires At(buf, pos, a + b)
    ensures At(buf, pos, a) && At(buf, pos + |a|, b)
  {
    var s := buf[pos..pos + |a + b|];
    assert buf[pos..pos + |a|] == s[..|a|];
    assert buf[pos + |a|..pos + |a| + |b|] == s[|a|..];
  }

  predicate DecodableLength(len: nat, widened: bool) {
    widened || len <= 0xFF
  }

  /** Every length in the tree is one the decoder can put together again. */
  predicate Decodable(item: Item, widened: bool) {
    match item
    case Ascii(text) => DecodableLength(|text|, widened)
    case Numbers(kind, cells) => DecodableLength(|cells| * kind.Bytes(), widened)
    case List(items) => DecodableLength(|items|, widened) && forall c | c in items :: Decodable(c, widened)
    case _ => true
  }

  // Headers

  lemma HeaderRead(buf: seq<byte>, pos: nat, code: nat, len: nat, widened: bool)
    requires code < 0x40 && len <= MAX_BYTE_SIZE && At(buf, pos, Header(code, len))
    ensures buf[pos] / 4 == code && 1 <= buf[pos] % 4 && pos + 1 + buf[pos] % 4 == pos + |Header(code, len)| <= |buf|
    ensures LengthOf(buf[pos + 1..pos + 1 + buf[pos] % 4], widened) == if widened then len else len % 0x100
  {
    hide LengthOf, ValueOf;
    var bs := LengthBytes(len);
    var h := Header(code, len);
    assert buf[pos] == buf[pos..pos + |h|][0] == h[0];
    assert buf[pos + 1..pos + |h|] == buf[pos..pos + |h|][1..] == bs;
    LengthBytesValue(len);
    LengthOfFew(bs, widened);
  }

  // Values

  lemma DecodeEncodedValue(kind: Kind, v: int)
    requires kind.Fits(v)
    ensures DecodeValue(kind, CellBytes(kind, v)) == v
  {
    hide BigEndian, ValueOf, Power;
    PowerOfWidth(kind.Bytes());
    match kind
    case Signed(w) =>
      SignedRoundTrip(v, w);
    case _ =>
      ValueOfBigEndian(v, kind.Bytes());
  }

  lemma {:induction false} DecodeEncodedCells(kind: Kind, cells: seq<Cell>)
    requires AllLits(kind, cells)
    ensures DecodeCells(kind, CellsBytes(kind, cells)) == cells
  {
    hide DecodeValue, CellBytes, Kind.Bytes;
    if cells != [] {
      var front, last := Front(cells), Last(cells);
      assert last in cells && cells == front + [last];
      var a, b := CellsBytes(kind, front), CellBytes(kind, last.value);
      assert (a + b)[..|a + b| - kind.Bytes()] == a && (a + b)[|a + b| - kind.Bytes()..] == b;
      DecodeEncodedCells(kind, front);
      DecodeEncodedValue(kind, last.value);
    }
  }

  // A decodable item comes back

  lemma NumbersBack(kind: Kind, cells: seq<Cell>, buf: seq<byte>, n: nat, pos: nat)
    requires AllLits(kind, cells) && CellsOk(kind, cells)
    requires At(buf, pos, CellsBytes(kind, cells)) && pos + |cells| * kind.Bytes() <= n <= |buf|
    ensures ParseNumbers(kind, buf, n, pos, |cells| * kind.Bytes()) ==
      Some(Parsed(Numbers(kind, cells), pos + |cells| * kind.Bytes()))
  {
    hide DecodeCells, CellsBytes, CellsOk;
    var len := |cells| * kind.Bytes();
    Divides(|cells|, kind.Bytes());
    CellsBytesLength(kind, cells);
    if len > 0 {
      DecodeEncodedCells(kind, cells);
    }
  }

  lemma Divides(count: nat, w: Width)
    ensures Whole(count * w, w) && count * w / w == count && (count * w == 0 ==> count == 0)
  {
  }

  lemma AsciiBack(text: seq<byte>, buf: seq<byte>, n: nat, pos: nat, widened: bool)
    requires var item := Ascii(text);
      Rep(item) && Encode(item) != [] && Decodable(item, widened) && At(buf, pos, Encode(item)) &&
        pos + |Encode(item)| <= n <= |buf|
    ensures ParseItem(buf, n, pos, widened) == Some(Parsed(Ascii(text), pos + |Encode(Ascii(text))|))
  {
    hide LengthOf, Header;
    AtConcat(buf, pos, Header(ASCII_CODE, |text|), text);
    HeaderRead(buf, pos, ASCII_CODE, |text|, widened);
  }

  lemma NumbersItemBack(kind: Kind, cells: seq<Cell>, buf: seq<byte>, n: nat, pos: nat, widened: bool)
    requires var item := Numbers(kind, cells);
      Rep(item) && Encode(item) != [] && Decodable(item, widened) && At(buf, pos, Encode(item)) &&
        pos + |Encode(item)| <= n <= |buf|
    ensures ParseItem(buf, n, pos, widened) == Some(Parsed(Numbers(kind, cells), pos + |Encode(Numbers(kind, cells))|))
  {
    hide CellsBytes, ParseNumbers, LengthOf, Header, AllLits, At, CellsOk, KindOf;
    var len := |cells| * kind.Bytes();
    AtConcat(buf, pos, Header(FormatCode(kind), len), CellsBytes(kind, cells));
    HeaderRead(buf, pos, FormatCode(kind), len, widened);
    KindOfFormatCode(kind, FormatCode(kind));
    CellsBytesLength(kind, cells);
    NumbersBack(kind, cells, buf, n, pos + |Header(FormatCode(kind), len)|);
  }

  lemma {:induction false} DecodeEncoded(item: Item, buf: seq<byte>, n: nat, pos: nat, widened: bool)
    requires Rep(item) && Encode(item) != [] && Decodable(item, widened)
    requires At(buf, pos, Encode(item)) && pos + |Encode(item)| <= n <= |buf|
    ensures ParseItem(buf, n, pos, widened) == Some(Parsed(item, pos + |Encode(item)|))
    decreases item, 1
  {
    hide ParseItem, At, Rep, Decodable;
    match item
    case Ascii(text) =>
      AsciiBack(text, buf, n, pos, widened);
    case Numbers(kind, cells) =>
      NumbersItemBack(kind, cells, buf, n, pos, widened);
    case List(items) =>
      ListBack(items, buf, n, pos, widened);
  }

  lemma {:induction false} ListBack(items: seq<Item>, buf: seq<byte>, n: nat, pos: nat, widened: bool)
    requires var item := List(items);
      Rep(item) && Encode(item) != [] && Decodable(item, widened) && At(buf, pos, Encode(item)) &&
        pos + |Encode(item)| <= n <= |buf|
    ensures ParseItem(buf, n, pos, widened) == Some(Parsed(List(items), pos + |Encode(List(items))|))
    decreases items, 1
  {
    hide LengthOf, Header, ParseItems, EncodeItems, ListOk, At;
    AtConcat(buf, pos, Header(LIST_CODE, |items|), EncodeItems(items).value);
    HeaderRead(buf, pos, LIST_CODE, |items|, widened);
    DecodeEncodedItems(items, buf, n, pos + |Header(LIST_CODE, |items|)|, widened);
  }

  lemma UnfoldItems(items: seq<Item>, buf: seq<byte>, n: nat, pos: nat, widened: bool)
    requires items != [] && EncodeItems(items).Some? && n <= |buf| && pos <= |buf|
    ensures Last(items) in items && items == Front(items) + [Last(items)]
    ensures EncodeItems(Front(items)).Some? && Encode(Last(items)) != []
    ensures EncodeItems(items).value == EncodeItems(Front(items)).value + Encode(Last(items))
    ensures var front := ParseItems(buf, n, pos, |Front(items)|, widened);
      ParseItems(buf, n, pos, |items|, widened)
      == if front.None? then None
         else
           var last := ParseItem(buf, n, front.value.end, widened);
           if last.None? then None else Some(ParsedItems(front.value.items + [last.value.item], last.value.end))
  {
    hide Encode, ParseItem;
  }

  lemma {:induction false} DecodeEncodedItems(items: seq<Item>, buf: seq<byte>, n: nat, pos: nat, widened: bool)
    requires (forall c | c in items :: Rep(c) && Decodable(c, widened)) && EncodeItems(items).Some?
    requires At(buf, pos, EncodeItems(items).value) && pos + |EncodeItems(items).value| <= n <= |buf|
    ensures ParseItems(buf, n, pos, |items|, widened) == Some(ParsedItems(items, pos + |EncodeItems(items).value|))
    decreases items, 0
  {
    hide Rep, Decodable, Encode, ParseItem, ParseItems, EncodeItems, At;
    if items == [] {
      NoItems(buf, n, pos, widened);
      return;
    }
    var front, last := Front(items), Last(items);
    UnfoldItems(items, buf, n, pos, widened);
    var bs := EncodeItems(front).value;
    AtConcat(buf, pos, bs, Encode(last));
    DecodeEncodedItems(front, buf, n, pos, widened);
    DecodeEncoded(last, buf, n, pos + |bs|, widened);
  }

  lemma NoItems(buf: seq<byte>, n: nat, pos: nat, widened: bool)
    requires n <= |buf| && pos <= |buf|
    ensures ParseItems(buf, n, pos, 0, widened) == Some(ParsedItems([], pos)) && EncodeItems([]) == Some([])
  {
  }

  // Nothing else does

  lemma {:induction false} BackOnlyIfDecodable(item: Item, buf: seq<byte>, n: nat, pos: nat, widened: bool)
    requires Rep(item) && Encode(item) != [] && At(buf, pos, Encode(item)) && pos + |Encode(item)| <= n <= |buf|
    requires var r := ParseItem(buf, n, pos, widened); r.Some? && r.value.item == item
    ensures Decodable(item, widened)
    decreases item, 1
  {
    hide CellsBytes, LengthOf, Header, ParseItems, EncodeItems, AllLits, CellsOk, DecodeCells, At, KindOf, ListOk,
      ParseNumbers;
    match item
    case Ascii(text) =>
      AtConcat(buf, pos, Header(ASCII_CODE, |text|), text);
      HeaderRead(buf, pos, ASCII_CODE, |text|, widened);
    case Numbers(kind, cells) =>
      var len := |cells| * kind.Bytes();
      AtConcat(buf, pos, Header(FormatCode(kind), len), CellsBytes(kind, cells));
      HeaderRead(buf, pos, FormatCode(kind), len, widened);
      KindOfFormatCode(kind, FormatCode(kind));
      NumbersLength(kind, buf, n, pos + |Header(FormatCode(kind), len)|, if widened then len else len % 0x100);
    case List(items) =>
      AtConcat(buf, pos, Header(LIST_CODE, |items|), EncodeItems(items).value);
      HeaderRead(buf, pos, LIST_CODE, |items|, widened);
      ItemsBackOnlyIfDecodable(items, buf, n, pos + |Header(LIST_CODE, |items|)|, widened);
  }

  lemma NumbersLength(kind: Kind, buf: seq<byte>, n: nat, pos: nat, len: nat)
    requires n <= |buf| && pos <= |buf|
    ensures var r := ParseNumbers(kind, buf, n, pos, len);
      r.Some? ==> r.value.item.Numbers? && |r.value.item.cells| * kind.Bytes() == len
  {
    hide DecodeCells, CellsOk;
    if Whole(len, kind.Bytes()) && pos + len <= |buf| {
      DecodedCount(kind, buf[pos..pos + len]);
    }
  }

  lemma {:induction false} ItemsBackOnlyIfDecodable(items: seq<Item>, buf: seq<byte>, n: nat, pos: nat, widened: bool)
    requires (forall c | c in items :: Rep(c)) && EncodeItems(items).Some?
    requires At(buf, pos, EncodeItems(items).value) && pos + |EncodeItems(items).value| <= n <= |buf|
    requires var r := ParseItems(buf, n, pos, |items|, widened); r.Some? && r.value.items == items
    ensures forall c | c in items :: Decodable(c, widened)
    decreases items, 0
  {
    hide Rep, Decodable, Encode, ParseItem, ParseItems, EncodeItems, At;
    if items != [] {
      var front, last := Front(items), Last(items);
      UnfoldItems(items, buf, n, pos, widened);
      var bs := EncodeItems(front).value;
      AtConcat(buf, pos, bs, Encode(last));
      var parsed := ParseItems(buf, n, pos, |front|, widened).value;
      assert parsed.items == Front(items);
      ItemsBackOnlyIfDecodable(front, buf, n, pos, widened);
      DecodeEncodedItems(front, buf, n, pos, widened);
      BackOnlyIfDecodable(last, buf, n, pos + |bs|, widened);
    }
  }

  /** In any surroundings: an item comes back from its own bytes exactly when all its lengths are decodable. */
  lemma BackIffDecodable(item: Item, buf: seq<byte>, n: nat, pos: nat, widened: bool)
    requires Rep(item) && Encode(item) != [] && At(buf, pos, Encode(item)) && pos + |Encode(item)| <= n <= |buf|
    ensures ParseItem(buf, n, pos, widened) == Some(Parsed(item, pos + |Encode(item)|)) <==> Decodable(item, widened)
  {
    hide *;
    if Decodable(item, widened) {
      DecodeEncoded(item, buf, n, pos, widened);
    }
    if ParseItem(buf, n, pos, widened) == Some(Parsed(item, pos + |Encode(item)|)) {
      BackOnlyIfDecodable(item, buf, n, pos, widened);
    }
  }
}
