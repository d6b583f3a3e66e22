/** What accepted bytes stand for, and how far the memory behind the input matters. */
module Reparse {
  import opened Wrappers
  import opened Items
  import opened Bytes
  import opened Encoding
  import opened Decoding
  import opened RoundTrip

  /** What every parsed item is: well-formed, free of variables, with lengths the decoder can read again. */
  predicate Sound(item: Item, widened: bool) {
    Rep(item) && ChildVariables(item) == [] && !item.Slot? && Decodable(item, widened)
  }

  lemma SoundEncodes(item: Item, widened: bool)
    requires Sound(item, widened)
    ensures Encode(item) != [] && |Encode(item)| == WireLength(item)
  {
    EncodedIffComplete(item);
    EncodedLength(item);
  }

  /** A minimal header is no longer than one with `count` length bytes that carry `len`. */
  lemma MinimalHeader(bs: seq<byte>, widened: bool)
    requires 1 <= |bs| <= 3
    ensures HeaderLength(LengthOf(bs, widened)) <= 1 + |bs|
  {
    hide LengthOf, ValueOf;
    LengthOfFew(bs, widened);
    if |bs| == 1 {
      ValueOfFew(bs[0], 0, 0);
      assert bs == [bs[0]];
    } else if |bs| == 2 {
      ValueOfFew(bs[0], bs[1], 0);
      assert bs == [bs[0], bs[1]];
    }
  }

  lemma {:induction false} DecodedCellsLits(kind: Kind, bs: seq<byte>)
    ensures CellNames(DecodeCells(kind, bs)) == []
    decreases |bs|
  {
    hide DecodeValue;
    if |bs| >= kind.Bytes() {
      var front := DecodeCells(kind, bs[..|bs| - kind.Bytes()]);
      var last := Lit(DecodeValue(kind, bs[|bs| - kind.Bytes()..]));
      DecodedCellsLits(kind, bs[..|bs| - kind.Bytes()]);
      assert Front(front + [last]) == front;
    }
  }

  lemma NumbersSound(kind: Kind, buf: seq<byte>, n: nat, pos: nat, len: nat, widened: bool)
    requires n <= |buf| && pos <= |buf| && len <= MAX_BYTE_SIZE && DecodableLength(len, widened)
    requires ParseNumbers(kind, buf, n, pos, len).Some?
    ensures var p := ParseNumbers(kind, buf, n, pos, len).value;
      Sound(p.item, widened) && WireLength(p.item) == HeaderLength(len) + (p.end - pos)
  {
    hide DecodeCells, CellsOk, Decodable;
    NumbersLength(kind, buf, n, pos, len);
    var item := ParseNumbers(kind, buf, n, pos, len).value.item;
    if len > 0 {
      DecodedCellsLits(kind, buf[pos..pos + len]);
    }
    NumbersItemSound(item, len, widened);
  }

  lemma NumbersItemSound(item: Item, len: nat, widened: bool)
    requires item.Numbers? && CellNames(item.cells) == [] && |item.cells| * item.kind.Bytes() == len
    requires CellsOk(item.kind, item.cells) || item.cells == []
    requires DecodableLength(len, widened)
    ensures Sound(item, widened) && WireLength(item) == HeaderLength(len) + len
  {
  }

  lemma AsciiSound(buf: seq<byte>, pos: nat, len: nat, widened: bool)
    requires pos <= |buf| && DecodableLength(len, widened) && ParseAscii(buf, pos, len).Some?
    ensures var p := ParseAscii(buf, pos, len).value;
      Sound(p.item, widened) && WireLength(p.item) == HeaderLength(len) + (p.end - pos)
  {
  }

  lemma {:induction false} ParsedSound(buf: seq<byte>, n: nat, pos: nat, widened: bool)
    requires n <= |buf| && ParseItem(buf, n, pos, widened).Some?
    ensures var p := ParseItem(buf, n, pos, widened).value;
      Sound(p.item, widened) && WireLength(p.item) <= p.end - pos
    decreases |buf| - pos, 0, 0
  {
    hide ParseItems, ParseNumbers, ParseAscii, LengthOf, ListOk, Rep, Decodable, ListVariables, WireLength,
      HeaderLength, KindOf, ValueOf;
    var code, count := buf[pos] / 4, buf[pos] % 4;
    var start := pos + 1 + count;
    var bs := buf[pos + 1..start];
    var len := LengthOf(bs, widened);
    LengthOfFew(bs, widened);
    MinimalHeader(bs, widened);
    if code == LIST_CODE {
      ParsedItemsSound(buf, n, start, len, widened);
      ListSound(ParseItems(buf, n, start, len, widened).value.items, widened);
    } else if code == ASCII_CODE {
      AsciiSound(buf, start, len, widened);
    } else {
      NumbersSound(KindOf(code).value, buf, n, start, len, widened);
    }
  }

  lemma ListSound(items: seq<Item>, widened: bool)
    requires ListOk(items) && DecodableLength(|items|, widened) && ListVariables(items) == []
    requires forall c | c in items :: Rep(c) && Decodable(c, widened)
    ensures Sound(List(items), widened) && WireLength(List(items)) == HeaderLength(|items|) + WireLengths(items)
  {
  }

  lemma {:induction false} ParsedItemsSound(buf: seq<byte>, n: nat, pos: nat, count: nat, widened: bool)
    requires n <= |buf| && pos <= |buf| && ParseItems(buf, n, pos, count, widened).Some?
    ensures var p := ParseItems(buf, n, pos, count, widened).value;
      && (forall c | c in p.items :: Rep(c) && Decodable(c, widened) && !c.Slot?)
      && ListVariables(p.items) == []
      && WireLengths(p.items) <= p.end - pos
    decreases |buf| - pos, 1, count
  {
    hide ParseItem, Rep, Decodable, ChildVariables, WireLength;
    if count > 0 {
      var front := ParseItems(buf, n, pos, count - 1, widened).value;
      var last := ParseItem(buf, n, front.end, widened).value;
      ParsedItemsSound(buf, n, pos, count - 1, widened);
      ParsedSound(buf, n, front.end, widened);
      ListVariablesSnoc(front.items, last.item);
      assert Front(front.items + [last.item]) == front.items;
    }
  }

  // Memory behind the input

  /** What a parse amounts to when nothing behind the input may be read. */
  function Inside(r: Option<Parsed>, n: nat): Option<Parsed> {
    if r.Some? && r.value.end <= n then r else None
  }

  function InsideItems(r: Option<ParsedItems>, n: nat): Option<ParsedItems> {
    if r.Some? && r.value.end <= n then r else None
  }

  lemma PrefixSlice(buf: seq<byte>, n: nat, lo: nat, hi: nat)
    requires lo <= hi <= n <= |buf|
    ensures buf[..n][lo..hi] == buf[lo..hi]
  {
  }

  lemma NumbersInside(kind: Kind, buf: seq<byte>, n: nat, pos: nat, len: nat)
    requires pos <= n <= |buf|
    ensures ParseNumbers(kind, buf[..n], n, pos, len) == Inside(ParseNumbers(kind, buf, n, pos, len), n)
  {
    hide DecodeCells, CellsOk;
    if pos + len <= n {
      PrefixSlice(buf, n, pos, pos + len);
    }
  }

  lemma AsciiInside(buf: seq<byte>, n: nat, pos: nat, len: nat)
    requires pos <= n <= |buf|
    ensures ParseAscii(buf[..n], pos, len) == Inside(ParseAscii(buf, pos, len), n)
  {
    hide Rep;
    if pos + len <= n {
      PrefixSlice(buf, n, pos, pos + len);
    }
  }

  /** Parsing the input alone is parsing it in its memory, except that running past the input is refused. */
  lemma {:induction false} ParseInside(buf: seq<byte>, n: nat, pos: nat, widened: bool)
    requires n <= |buf|
    ensures ParseItem(buf[..n], n, pos, widened) == Inside(ParseItem(buf, n, pos, widened), n)
    decreases |buf| - pos, 0, 0
  {
    if pos >= n {
      return;
    }
    hide ParseBody, LengthOf;
    var code, count := buf[pos] / 4, buf[pos] % 4;
    var start := pos + 1 + count;
    assert buf[..n][pos] == buf[pos];
    if count > 0 && start <= n {
      PrefixSlice(buf, n, pos + 1, start);
      BodyInside(buf, n, start, code, LengthOf(buf[pos + 1..start], widened), widened);
    }
  }

  lemma {:induction false} BodyInside(buf: seq<byte>, n: nat, start: nat, code: nat, len: nat, widened: bool)
    requires start <= n <= |buf|
    ensures ParseBody(buf[..n], n, start, code, len, widened) == Inside(ParseBody(buf, n, start, code, len, widened), n)
    decreases |buf| - start, 2, 0
  {
    hide ParseItems, ParseNumbers, ParseAscii, ListOk, KindOf;
    if code == LIST_CODE {
      ParseItemsInside(buf, n, start, len, widened);
    } else if code == ASCII_CODE {
      AsciiInside(buf, n, start, len);
    } else if KindOf(code).Some? {
      NumbersInside(KindOf(code).value, buf, n, start, len);
    }
  }

  lemma {:induction false} ParseItemsInside(buf: seq<byte>, n: nat, pos: nat, count: nat, widened: bool)
    requires pos <= n <= |buf|
    ensures ParseItems(buf[..n], n, pos, count, widened) == InsideItems(ParseItems(buf, n, pos, count, widened), n)
    decreases |buf| - pos, 1, count
  {
    hide ParseItem;
    if count > 0 {
      ParseItemsInside(buf, n, pos, count - 1, widened);
      var front := ParseItems(buf, n, pos, count - 1, widened);
      if front.Some? {
        ParseInside(buf, n, front.value.end, widened);
      }
    }
  }
}
