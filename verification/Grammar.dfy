/** The byte format of items, laid down as a relation: what the encoder writes and what the decoder accepts. */
module Grammar {
  import opened Wrappers
  import opened Items
  import opened Bytes
  import opened Encoding
  import opened Decoding
  import opened RoundTrip
  import opened Reparse

  // The format

  /** The format codes: 0o00 list, 0o20 text, 0o10 and 0o11, 0o30 to 0o34, 0o40 and 0o44, 0o50 to 0o54. */
  predicate HasCode(item: Item, code: nat) {
    match item
    case List(_) => code == 0x00
    case Ascii(_) => code == 0x10
    case Numbers(kind, _) => (
      match kind
      case Binary => code == 0x08
      case Boolean => code == 0x09
      case Signed(w) => if w == 8 then code == 0x18 else if w == 1 then code == 0x19 else if w == 2 then code == 0x1A
        else code == 0x1C
      case Float8 => code == 0x20
      case Float4 => code == 0x24
      case Unsigned(w) => if w == 8 then code == 0x28 else if w == 1 then code == 0x29 else if w == 2 then code == 0x2A
        else code == 0x2C)
    case _ => false
  }

  /** One value: big-endian, two's complement where signed. Strictly, a boolean is 1 or 0; else true is any but 0. */
  predicate CellSpelled(kind: Kind, v: int, bs: seq<byte>, strict: bool)
    requires |bs| == kind.Bytes()
  {
    match kind
    case Boolean => if strict then bs[0] == v else v == if bs[0] == 0 then 0 else 1
    case Signed(w) => v == ValueOf(bs) - if bs[0] < 0x80 then 0 else Modulus(w)
    case _ => v == ValueOf(bs)
  }

  predicate CellsSpelled(kind: Kind, cells: seq<Cell>, body: seq<byte>, strict: bool) {
    if cells == [] then body == []
    else
      var w := kind.Bytes();
      && |body| >= w && Last(cells).Lit?
      && CellsSpelled(kind, Front(cells), body[..|body| - w], strict)
      && CellSpelled(kind, Last(cells).value, body[|body| - w..], strict)
  }

  /**
   * A byte of format code and number of length bytes, the length bytes, and the body. Strictly, no length byte is
   * superfluous. A length counts bytes, and children in a list; unless widened, only its last byte is read.
   */
  predicate Spells(item: Item, bs: seq<byte>, widened: bool, strict: bool)
    decreases item, 2
  {
    && bs != []
    && var c := bs[0] % 4;
      && 1 <= c < |bs| && (strict ==> c == 1 || bs[1] != 0)
      && HasCode(item, bs[0] / 4)
      && BodySpells(item, if widened then ValueOf(bs[1..1 + c]) else bs[c], bs[1 + c..], widened, strict)
  }

  predicate BodySpells(item: Item, len: nat, body: seq<byte>, widened: bool, strict: bool)
    decreases item, 1
  {
    match item
    case Ascii(text) => len == |body| && body == text
    case Numbers(kind, cells) => len == |body| && CellsSpelled(kind, cells, body, strict)
    case List(items) => len == |items| && ItemsSpelled(items, body, widened, strict)
    case _ => false
  }

  predicate ItemsSpelled(items: seq<Item>, body: seq<byte>, widened: bool, strict: bool)
    decreases items, 0
  {
    if items == [] then body == []
    else
      exists cut | 0 <= cut <= |body| ::
        && ItemsSpelled(Front(items), body[..cut], widened, strict)
        && Spells(Last(items), body[cut..], widened, strict)
  }

  // What the decoder accepts is of this format

  lemma DecodedCell(kind: Kind, v: int, bs: seq<byte>)
    requires |bs| == kind.Bytes()
    ensures CellSpelled(kind, v, bs, false) <==> v == DecodeValue(kind, bs)
  {
    hide Power;
    match kind
    case Boolean =>
      ValueOfFew(bs[0], 0, 0);
      assert bs == [bs[0]];
    case Signed(w) =>
      SignBit(bs, w);
    case _ =>
  }

  /** The highest bit of the first byte is the sign. */
  lemma SignBit(bs: seq<byte>, w: Width)
    requires |bs| == w
    ensures bs[0] < 0x80 <==> ValueOf(bs) < Modulus(w) / 2
  {
    hide ValueOf;
    FirstByte(bs);
    PowerOfWidth(w);
    assert Power(w) == 0x100 * Power(w - 1);
    var p: int := Power(w - 1);
    assert bs[0] < 0x80 ==> bs[0] as int * p + p <= 0x80 * p by {
      if bs[0] < 0x80 {
        assert (bs[0] as int + 1) * p <= 0x80 * p;
      }
    }
    assert bs[0] >= 0x80 ==> bs[0] as int * p >= 0x80 * p;
  }

  lemma {:induction false} FirstByte(bs: seq<byte>)
    requires bs != []
    ensures bs[0] as int * Power(|bs| - 1) <= ValueOf(bs) < bs[0] as int * Power(|bs| - 1) + Power(|bs| - 1)
  {
    if |bs| > 1 {
      FirstByte(Front(bs));
      var p: int := Power(|bs| - 2);
      assert Power(|bs| - 1) == 0x100 * p;
      assert bs[0] as int * (0x100 * p) == 0x100 * (bs[0] as int * p);
    }
  }

  lemma {:induction false} DecodedCells(kind: Kind, cells: seq<Cell>, body: seq<byte>)
    requires Whole(|body|, kind.Bytes())
    ensures CellsSpelled(kind, cells, body, false) <==> cells == DecodeCells(kind, body)
    decreases |body|
  {
    hide CellSpelled, DecodeValue, Kind.Bytes;
    var w := kind.Bytes();
    if |body| < w {
      SmallMultiple(|body|, w);
    } else {
      OneLess(|body|, w);
      if cells != [] {
        DecodedCells(kind, Front(cells), body[..|body| - w]);
        assert cells == Front(cells) + [Last(cells)];
        if Last(cells).Lit? {
          DecodedCell(kind, Last(cells).value, body[|body| - w..]);
        }
      }
    }
  }

  lemma {:induction false} CellsSpelledLength(kind: Kind, cells: seq<Cell>, body: seq<byte>, strict: bool)
    requires CellsSpelled(kind, cells, body, strict)
    ensures |body| == |cells| * kind.Bytes()
  {
    hide CellSpelled, Kind.Bytes;
    if cells != [] {
      CellsSpelledLength(kind, Front(cells), body[..|body| - kind.Bytes()], strict);
      OneMore(|cells| - 1, kind.Bytes());
    }
  }

  lemma HasCodeIff(kind: Kind, cells: seq<Cell>, code: nat)
    ensures HasCode(Numbers(kind, cells), code) <==> KindOf(code) == Some(kind)
    ensures code == LIST_CODE || code == ASCII_CODE ==> KindOf(code) == None
  {
  }

  lemma NumbersSpelled(kind: Kind, buf: seq<byte>, n: nat, pos: nat, len: nat, widened: bool)
    requires pos <= |buf| && ParseNumbers(kind, buf, n, pos, len).Some?
    ensures var p := ParseNumbers(kind, buf, n, pos, len).value;
      p.item.Numbers? && p.item.kind == kind && BodySpells(p.item, len, buf[pos..p.end], widened, false)
  {
    hide DecodeCells, CellsOk, CellSpelled;
    var p := ParseNumbers(kind, buf, n, pos, len).value;
    if len > 0 {
      DecodedCells(kind, p.item.cells, buf[pos..p.end]);
    }
  }

  lemma {:induction false} ParsedSpells(buf: seq<byte>, n: nat, pos: nat, widened: bool)
    requires n <= |buf| && ParseItem(buf, n, pos, widened).Some?
    ensures var p := ParseItem(buf, n, pos, widened).value; Spells(p.item, buf[pos..p.end], widened, false)
    decreases |buf| - pos, 0, 0
  {
    hide ParseItems, ParseNumbers, LengthOf, ListOk, KindOf, ValueOf, ItemsSpelled, CellsSpelled, Rep;
    var p := ParseItem(buf, n, pos, widened).value;
    var code, count := buf[pos] / 4, buf[pos] % 4;
    var start := pos + 1 + count;
    var bs := buf[pos..p.end];
    LengthOfFew(buf[pos + 1..start], widened);
    assert bs[1..1 + count] == buf[pos + 1..start] && bs[1 + count..] == buf[start..p.end];
    if code == LIST_CODE {
      ItemsParsedSpell(buf, n, start, LengthOf(buf[pos + 1..start], widened), widened);
    } else if code != ASCII_CODE {
      var kind := KindOf(code).value;
      NumbersSpelled(kind, buf, n, start, LengthOf(buf[pos + 1..start], widened), widened);
      HasCodeIff(kind, p.item.cells, code);
    }
  }

  lemma {:induction false} ItemsParsedSpell(buf: seq<byte>, n: nat, pos: nat, count: nat, widened: bool)
    requires n <= |buf| && pos <= |buf| && ParseItems(buf, n, pos, count, widened).Some?
    ensures var p := ParseItems(buf, n, pos, count, widened).value;
      ItemsSpelled(p.items, buf[pos..p.end], widened, false)
    decreases |buf| - pos, 1, count
  {
    hide ParseItem, Spells;
    if count > 0 {
      var front := ParseItems(buf, n, pos, count - 1, widened).value;
      var last := ParseItem(buf, n, front.end, widened).value;
      ItemsParsedSpell(buf, n, pos, count - 1, widened);
      ParsedSpells(buf, n, front.end, widened);
      var body, cut := buf[pos..last.end], front.end - pos;
      assert body[..cut] == buf[pos..front.end] && body[cut..] == buf[front.end..last.end];
      assert Front(front.items + [last.item]) == front.items;
    }
  }

  // Whatever is of this format is accepted

  lemma NumbersParsed(kind: Kind, cells: seq<Cell>, buf: seq<byte>, n: nat, pos: nat, end: nat)
    requires pos <= end <= n <= |buf| && CellsOk(kind, cells) && CellsSpelled(kind, cells, buf[pos..end], false)
    ensures ParseNumbers(kind, buf, n, pos, end - pos) == Some(Parsed(Numbers(kind, cells), end))
  {
    hide DecodeCells, CellsOk, CellsSpelled;
    CellsSpelledLength(kind, cells, buf[pos..end], false);
    Divides(|cells|, kind.Bytes());
    DecodedCells(kind, cells, buf[pos..end]);
  }

  lemma SliceOfSlice(buf: seq<byte>, pos: nat, end: nat, i: nat, j: nat)
    requires pos <= end <= |buf| && i <= j <= end - pos
    ensures buf[pos..end][i..j] == buf[pos + i..pos + j]
    ensures buf[pos..end][i..] == buf[pos + i..end]
  {
    var s, lo, hi := buf[pos..end], pos + i, pos + j;
    forall k | 0 <= k < j - i ensures s[i..j][k] == buf[lo..hi][k] {
      assert s[i..j][k] == s[i + k] == buf[pos + (i + k)];
    }
    assert s[i..j] == buf[lo..hi];
    assert s[i..] == buf[lo..end];
  }

  lemma {:induction false} SpelledParses(item: Item, buf: seq<byte>, n: nat, pos: nat, end: nat, widened: bool)
    requires pos <= end <= n <= |buf| && Rep(item) && Spells(item, buf[pos..end], widened, false)
    ensures ParseItem(buf, n, pos, widened) == Some(Parsed(item, end))
    decreases item, 2
  {
    hide ParseBody, BodySpells, LengthOf, ValueOf, Rep;
    var code, count := buf[pos] / 4, buf[pos] % 4;
    var start := pos + 1 + count;
    LengthOfFew(buf[pos + 1..start], widened);
    SliceOfSlice(buf, pos, end, 1, 1 + count);
    SliceOfSlice(buf, pos, end, 1 + count, end - pos);
    SpelledBodyParses(item, buf, n, start, end, code, LengthOf(buf[pos + 1..start], widened), widened);
  }

  lemma {:induction false} SpelledBodyParses(item: Item, buf: seq<byte>, n: nat, start: nat, end: nat, code: nat,
                                             len: nat, widened: bool)
    requires start <= end <= n <= |buf| && Rep(item) && HasCode(item, code)
    requires BodySpells(item, len, buf[start..end], widened, false)
    ensures ParseBody(buf, n, start, code, len, widened) == Some(Parsed(item, end))
    decreases item, 1
  {
    hide ParseItems, ParseNumbers, ListOk, CellsOk, KindOf, ItemsSpelled, CellsSpelled;
    match item
    case List(items) =>
      SpelledItemsParse(items, buf, n, start, end, widened);
    case Numbers(kind, cells) =>
      HasCodeIff(kind, cells, code);
      NumbersParsed(kind, cells, buf, n, start, end);
    case _ =>
  }

  lemma {:induction false} SpelledItemsParse(items: seq<Item>, buf: seq<byte>, n: nat, pos: nat, end: nat,
                                             widened: bool)
    requires pos <= end <= n <= |buf| && (forall c | c in items :: Rep(c))
    requires ItemsSpelled(items, buf[pos..end], widened, false)
    ensures ParseItems(buf, n, pos, |items|, widened) == Some(ParsedItems(items, end))
    decreases items, 0
  {
    hide ParseItem, Spells, Rep, ItemsSpelled;
    NoneOrMore(items, buf[pos..end], widened, false);
    if items != [] {
      var body := buf[pos..end];
      var cut := Cut(items, body, widened, false);
      SliceOfSlice(buf, pos, end, cut, cut);
      assert body[..cut] == buf[pos..pos + cut];
      assert Last(items) in items && items == Front(items) + [Last(items)];
      SpelledItemsParse(Front(items), buf, n, pos, pos + cut, widened);
      SpelledParses(Last(items), buf, n, pos + cut, end, widened);
    }
  }

  lemma NoneOrMore(items: seq<Item>, body: seq<byte>, widened: bool, strict: bool)
    ensures items == [] ==> (ItemsSpelled(items, body, widened, strict) <==> body == [])
  {
  }

  lemma Cut(items: seq<Item>, body: seq<byte>, widened: bool, strict: bool) returns (cut: nat)
    requires items != [] && ItemsSpelled(items, body, widened, strict)
    ensures cut <= |body| && ItemsSpelled(Front(items), body[..cut], widened, strict)
    ensures Spells(Last(items), body[cut..], widened, strict)
  {
    hide Spells;
    cut :| 0 <= cut <= |body| && ItemsSpelled(Front(items), body[..cut], widened, strict)
      && Spells(Last(items), body[cut..], widened, strict);
  }

  /** The decoder yields an item exactly for its spellings, provided the item passes its factories. */
  lemma ParsedIff(item: Item, buf: seq<byte>, n: nat, pos: nat, end: nat, widened: bool)
    requires pos <= end <= n <= |buf|
    ensures ParseItem(buf, n, pos, widened) == Some(Parsed(item, end))
       <==> Rep(item) && Spells(item, buf[pos..end], widened, false)
  {
    hide ParseItem, Spells, Rep, Decodable, ChildVariables, WireLength;
    if ParseItem(buf, n, pos, widened) == Some(Parsed(item, end)) {
      ParsedSpells(buf, n, pos, widened);
      ParsedSound(buf, n, pos, widened);
    }
    if Rep(item) && Spells(item, buf[pos..end], widened, false) {
      SpelledParses(item, buf, n, pos, end, widened);
    }
  }

  /**
   * How far reading may go: an item starts inside the input, and integers of one byte lie inside it; all other bytes
   * may lie behind it, as long as there is memory.
   */
  lemma Reach(buf: seq<byte>, n: nat, pos: nat, kind: Kind, len: nat, widened: bool)
    requires n <= |buf| && pos <= |buf|
    ensures pos >= n ==> ParseItem(buf, n, pos, widened) == None
    ensures pos < n && buf[pos] % 4 != 0 && pos + 1 + buf[pos] % 4 <= |buf| ==>
      var start := pos + 1 + buf[pos] % 4;
      ParseItem(buf, n, pos, widened)
      == ParseBody(buf, n, start, buf[pos] / 4, LengthOf(buf[pos + 1..start], widened), widened)
    ensures (kind == Signed(1) || kind == Unsigned(1)) && len > 0 && pos + len > n ==>
      ParseNumbers(kind, buf, n, pos, len) == None
    ensures kind != Signed(1) && kind != Unsigned(1) && pos + len <= |buf| ==>
      ParseNumbers(kind, buf, n, pos, len) == ParseNumbers(kind, buf, |buf|, pos, len)
  {
    hide DecodeCells, CellsOk, ParseBody, LengthOf;
  }

  // What the encoder writes is the strict spelling

  lemma EncodedCell(kind: Kind, v: int)
    requires kind.Fits(v)
    ensures CellSpelled(kind, v, CellBytes(kind, v), true)
  {
    hide BigEndian;
    var bs := CellBytes(kind, v);
    match kind
    case Boolean =>
      ShortValue(v);
    case _ =>
      DecodeEncodedValue(kind, v);
      DecodedCell(kind, v, bs);
  }

  lemma ShortValue(v: byte)
    ensures BigEndian(v, 1) == [v]
  {
    assert BigEndian(v / 0x100, 0) == [];
  }

  lemma {:induction false} EncodedCells(kind: Kind, cells: seq<Cell>)
    requires AllLits(kind, cells)
    ensures CellsSpelled(kind, cells, CellsBytes(kind, cells), true)
  {
    hide CellSpelled, CellBytes, Kind.Bytes;
    if cells != [] {
      var w, front, last := kind.Bytes(), CellsBytes(kind, Front(cells)), CellBytes(kind, Last(cells).value);
      assert Last(cells) in cells;
      EncodedCells(kind, Front(cells));
      EncodedCell(kind, Last(cells).value);
      assert (front + last)[..|front + last| - w] == front && (front + last)[|front + last| - w..] == last;
    }
  }

  lemma HeaderSpelled(code: nat, len: nat, body: seq<byte>)
    requires code < 0x40 && len <= MAX_BYTE_SIZE
    ensures var bs := Header(code, len) + body;
      var c := bs[0] % 4;
      && 1 <= c < |bs| && (c == 1 || bs[1] != 0) && bs[0] / 4 == code
      && ValueOf(bs[1..1 + c]) == len && bs[1 + c..] == body
  {
    hide ValueOf;
    var bs, few := Header(code, len) + body, LengthBytes(len);
    assert bs[1..1 + bs[0] % 4] == few;
    LengthBytesValue(len);
  }

  lemma {:induction false} EncodedSpells(item: Item)
    requires Encode(item) != []
    ensures Spells(item, Encode(item), true, true)
    decreases item, 1
  {
    hide Header, LengthBytes, ValueOf, EncodeItems, CellsBytes, AllLits, ItemsSpelled, CellsSpelled, FormatCode;
    match item
    case Ascii(text) =>
      HeaderSpelled(ASCII_CODE, |text|, text);
    case Numbers(kind, cells) =>
      HeaderSpelled(FormatCode(kind), |cells| * kind.Bytes(), CellsBytes(kind, cells));
      CellsBytesLength(kind, cells);
      EncodedCells(kind, cells);
      KindOfFormatCode(kind, FormatCode(kind));
      HasCodeIff(kind, cells, FormatCode(kind));
    case List(items) =>
      HeaderSpelled(LIST_CODE, |items|, EncodeItems(items).value);
      EncodedItemsSpelled(items);
  }

  lemma {:induction false} EncodedItemsSpelled(items: seq<Item>)
    requires EncodeItems(items).Some?
    ensures ItemsSpelled(items, EncodeItems(items).value, true, true)
    decreases items, 0
  {
    hide Encode, Spells;
    if items != [] {
      var front, last := EncodeItems(Front(items)).value, Encode(Last(items));
      EncodedItemsSpelled(Front(items));
      EncodedSpells(Last(items));
      assert (front + last)[..|front|] == front && (front + last)[|front|..] == last;
    }
  }

  // There is only one

  lemma SpelledOneWay(kind: Kind, v: int, a: seq<byte>, b: seq<byte>)
    requires |a| == |b| == kind.Bytes() && CellSpelled(kind, v, a, true) && CellSpelled(kind, v, b, true)
    ensures a == b
  {
    hide Power, ValueOf, BigEndian;
    match kind
    case Boolean =>
    case _ =>
      ValueBound(a);
      ValueBound(b);
      PowerOfWidth(kind.Bytes());
      BigEndianOfValue(a);
      BigEndianOfValue(b);
  }

  lemma {:induction false} CellsOneWay(kind: Kind, cells: seq<Cell>, a: seq<byte>, b: seq<byte>)
    requires CellsSpelled(kind, cells, a, true) && CellsSpelled(kind, cells, b, true)
    ensures a == b
  {
    hide CellSpelled, Kind.Bytes;
    if cells != [] {
      var w := kind.Bytes();
      CellsOneWay(kind, Front(cells), a[..|a| - w], b[..|b| - w]);
      SpelledOneWay(kind, Last(cells).value, a[|a| - w..], b[|b| - w..]);
      assert a == a[..|a| - w] + a[|a| - w..] && b == b[..|b| - w] + b[|b| - w..];
    }
  }

  lemma LengthOneWay(a: seq<byte>, b: seq<byte>)
    requires 1 <= |a| <= 3 && 1 <= |b| <= 3 && ValueOf(a) == ValueOf(b)
    requires (|a| == 1 || a[0] != 0) && (|b| == 1 || b[0] != 0)
    ensures a == b
  {
    hide ValueOf;
    SpelledOut(a);
    SpelledOut(b);
  }

  lemma SpelledOut(a: seq<byte>)
    requires 1 <= |a| <= 3
    ensures |a| == 1 ==> ValueOf(a) == a[0]
    ensures |a| == 2 ==> ValueOf(a) == a[0] as int * 0x100 + a[1] as int
    ensures |a| == 3 ==> ValueOf(a) == a[0] as int * 0x1_0000 + a[1] as int * 0x100 + a[2] as int
  {
    hide ValueOf;
    if |a| == 1 {
      assert a == [a[0]];
      ValueOfFew(a[0], 0, 0);
    } else if |a| == 2 {
      assert a == [a[0], a[1]];
      ValueOfFew(a[0], a[1], 0);
    } else {
      assert a == [a[0], a[1], a[2]];
      ValueOfFew(a[0], a[1], a[2]);
    }
  }

  lemma {:induction false} OneWay(item: Item, a: seq<byte>, b: seq<byte>)
    requires Spells(item, a, true, true) && Spells(item, b, true, true)
    ensures a == b
    decreases item, 1
  {
    hide ValueOf, ItemsSpelled, CellsSpelled;
    var i, j := a[0] % 4, b[0] % 4;
    match item {
      case Ascii(_) =>
      case Numbers(kind, cells) =>
        CellsOneWay(kind, cells, a[1 + i..], b[1 + j..]);
      case List(items) =>
        ItemsOneWay(items, a[1 + i..], b[1 + j..]);
    }
    LengthOneWay(a[1..1 + i], b[1..1 + j]);
    assert a == [a[0]] + a[1..1 + i] + a[1 + i..] && b == [b[0]] + b[1..1 + j] + b[1 + j..];
  }

  lemma {:induction false} ItemsOneWay(items: seq<Item>, a: seq<byte>, b: seq<byte>)
    requires ItemsSpelled(items, a, true, true) && ItemsSpelled(items, b, true, true)
    ensures a == b
    decreases items, 0
  {
    hide Spells, ItemsSpelled;
    if items == [] {
      NoneOrMore(items, a, true, true);
      NoneOrMore(items, b, true, true);
    } else {
      var i := Cut(items, a, true, true);
      var j := Cut(items, b, true, true);
      ItemsOneWay(Front(items), a[..i], b[..j]);
      OneWay(Last(items), a[i..], b[j..]);
      assert a == a[..i] + a[i..] && b == b[..j] + b[j..];
    }
  }

  /** The bytes of an item are its one strict spelling. */
  lemma EncodedIff(item: Item, bs: seq<byte>)
    requires Encode(item) != []
    ensures bs == Encode(item) <==> Spells(item, bs, true, true)
  {
    hide Encode, Spells;
    EncodedSpells(item);
    if Spells(item, bs, true, true) {
      OneWay(item, bs, Encode(item));
    }
  }
}
