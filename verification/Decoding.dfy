/**
 * Reading item nodes from bytes.
 *
 * `buf` is the whole memory behind the input and `n` the length of the input in it: indexing is checked against
 * `n`, slicing only against |buf|. `widened` says how length bytes are put together: as written, each byte is
 * shifted before it is widened, so that only the last one survives; widened, the bytes form one number.
 */
module Decoding {
  import opened Wrappers
  import opened Items
  import opened Bytes
  import opened Encoding

  datatype Parsed = Parsed(item: Item, end: nat)
  datatype ParsedItems = ParsedItems(items: seq<Item>, end: nat)

  // Length bytes

  function Shifted(b: byte, places: nat, widened: bool): nat {
    if widened then ShiftLeft(b, places) else ShiftLeft(b, places) % 0x100
  }

  /** The sum the parser forms over the first `i` length bytes. */
  function LengthSum(bs: seq<byte>, i: nat, widened: bool): nat
    requires i <= |bs|
  {
    if i == 0 then 0 else LengthSum(bs, i - 1, widened) + Shifted(bs[i - 1], |bs| - i, widened)
  }

  function LengthOf(bs: seq<byte>, widened: bool): nat {
    LengthSum(bs, |bs|, widened)
  }

  /** What the parser makes of one to three length bytes, either way. */
  lemma LengthOfFew(bs: seq<byte>, widened: bool)
    requires 1 <= |bs| <= 3
    ensures LengthOf(bs, widened) == if widened then ValueOf(bs) else Last(bs)
    ensures LengthOf(bs, widened) <= if widened then MAX_BYTE_SIZE else 0xFF
  {
    hide ValueOf, Shifted;
    ShiftOut(bs[0], widened);
    assert LengthSum(bs, 1, widened) == Shifted(bs[0], |bs| - 1, widened);
    if |bs| == 1 {
      assert bs == [bs[0]];
      ValueOfFew(bs[0], 0, 0);
    } else if |bs| == 2 {
      assert bs == [bs[0], bs[1]];
      ValueOfFew(bs[0], bs[1], 0);
      ShiftOut(bs[1], widened);
    } else {
      assert bs == [bs[0], bs[1], bs[2]];
      ValueOfFew(bs[0], bs[1], bs[2]);
      ShiftOut(bs[1], widened);
      ShiftOut(bs[2], widened);
      assert LengthSum(bs, 2, widened) == LengthSum(bs, 1, widened) + Shifted(bs[1], 1, widened);
    }
  }

  lemma ShiftOut(b: byte, widened: bool)
    ensures Shifted(b, 0, widened) == b
    ensures Shifted(b, 1, widened) == if widened then b * 0x100 else 0
    ensures Shifted(b, 2, widened) == if widened then b * 0x1_0000 else 0
  {
    assert ShiftLeft(b, 1) == ShiftLeft(b, 0) * 0x100;
    assert ShiftLeft(b, 2) == ShiftLeft(b, 1) * 0x100;
  }

  // Values

  function KindOf(code: nat): Option<Kind> {
    if code == 0x08 then Some(Binary)
    else if code == 0x09 then Some(Boolean)
    else if code == 0x24 then Some(Float4)
    else if code == 0x20 then Some(Float8)
    else if code == 0x19 then Some(Signed(1))
    else if code == 0x1A then Some(Signed(2))
    else if code == 0x1C then Some(Signed(4))
    else if code == 0x18 then Some(Signed(8))
    else if code == 0x29 then Some(Unsigned(1))
    else if code == 0x2A then Some(Unsigned(2))
    else if code == 0x2C then Some(Unsigned(4))
    else if code == 0x28 then Some(Unsigned(8))
    else None
  }

  lemma KindOfFormatCode(kind: Kind, code: nat)
    ensures KindOf(code) == Some(kind) <==> code == FormatCode(kind)
  {
  }

  function DecodeValue(kind: Kind, bs: seq<byte>): int {
    match kind
    case Boolean => if ValueOf(bs) == 0 then 0 else 1
    case Signed(w) => FromBits(ValueOf(bs), w)
    case _ => ValueOf(bs)
  }

  /** The values in `bs`, as many as there are whole ones. */
  function DecodeCells(kind: Kind, bs: seq<byte>): seq<Cell>
    decreases |bs|
  {
    if |bs| < kind.Bytes() then []
    else DecodeCells(kind, bs[..|bs| - kind.Bytes()]) + [Lit(DecodeValue(kind, bs[|bs| - kind.Bytes()..]))]
  }

  /** A length of whole values. */
  predicate Whole(len: nat, w: Width) {
    if w == 1 then true else if w == 2 then len % 2 == 0 else if w == 4 then len % 4 == 0 else len % 8 == 0
  }

  lemma OneLess(len: nat, w: Width)
    requires w <= len && Whole(len, w)
    ensures Whole(len - w, w)
  {
    if w == 1 {
    } else if w == 2 {
    } else if w == 4 {
    } else {
    }
  }

  lemma {:induction false} DecodedCount(kind: Kind, bs: seq<byte>)
    requires Whole(|bs|, kind.Bytes())
    ensures |DecodeCells(kind, bs)| * kind.Bytes() == |bs|
    decreases |bs|
  {
    hide DecodeValue, Kind.Bytes;
    var w := kind.Bytes();
    if |bs| < w {
      SmallMultiple(|bs|, w);
    } else {
      OneLess(|bs|, w);
      DecodedCount(kind, bs[..|bs| - w]);
      OneMore(|DecodeCells(kind, bs[..|bs| - w])|, w);
    }
  }

  lemma SmallMultiple(len: nat, w: Width)
    requires len < w && Whole(len, w)
    ensures len == 0
  {
  }

  /** One-byte integers are read by index, all other values through slices. */
  predicate ReadByIndex(kind: Kind) {
    kind == Signed(1) || kind == Unsigned(1)
  }

  function ParseNumbers(kind: Kind, buf: seq<byte>, n: nat, pos: nat, len: nat): (r: Option<Parsed>)
    requires pos <= |buf|
    ensures r.Some? ==> pos <= r.value.end <= |buf|
  {
    if !Whole(len, kind.Bytes()) then None
    else if len == 0 then Some(Parsed(Numbers(kind, []), pos))
    else if pos + len > (if ReadByIndex(kind) then n else |buf|) || pos + len > |buf| then None
    else
      var cells := DecodeCells(kind, buf[pos..pos + len]);
      if CellsOk(kind, cells) then Some(Parsed(Numbers(kind, cells), pos + len)) else None
  }

  function ParseAscii(buf: seq<byte>, pos: nat, len: nat): (r: Option<Parsed>)
    requires pos <= |buf|
    ensures r.Some? ==> pos <= r.value.end <= |buf|
  {
    if pos + len > |buf| then None
    else if Rep(Ascii(buf[pos..pos + len])) then Some(Parsed(Ascii(buf[pos..pos + len]), pos + len))
    else None
  }

  // Items

  /** None stands for a refusal or a panic on the way; otherwise the item and the position behind it. */
  function ParseItem(buf: seq<byte>, n: nat, pos: nat, widened: bool): (r: Option<Parsed>)
    requires n <= |buf|
    ensures r.Some? ==> pos + 2 <= r.value.end <= |buf|
    decreases |buf| - pos, 0, 0
  {
    if pos >= n then None
    else
      var code, count := buf[pos] / 4, buf[pos] % 4;
      var start := pos + 1 + count;
      if count == 0 || start > |buf| then None
      else
        ParseBody(buf, n, start, code, LengthOf(buf[pos + 1..start], widened), widened)
  }

  function ParseBody(buf: seq<byte>, n: nat, start: nat, code: nat, len: nat, widened: bool): (r: Option<Parsed>)
    requires n <= |buf| && start <= |buf|
    ensures r.Some? ==> start <= r.value.end <= |buf|
    decreases |buf| - start, 2, 0
  {
    if code == LIST_CODE then
      var parsed :- ParseItems(buf, n, start, len, widened);
      if ListOk(parsed.items) then Some(Parsed(List(parsed.items), parsed.end)) else None
    else if code == ASCII_CODE then ParseAscii(buf, start, len)
    else
      var kind :- KindOf(code);
      ParseNumbers(kind, buf, n, start, len)
  }

  function ParseItems(buf: seq<byte>, n: nat, pos: nat, count: nat, widened: bool): (r: Option<ParsedItems>)
    requires n <= |buf| && pos <= |buf|
    ensures r.Some? ==> pos <= r.value.end <= |buf| && |r.value.items| == count
    decreases |buf| - pos, 1, count
  {
    if count == 0 then Some(ParsedItems([], pos))
    else
      var front :- ParseItems(buf, n, pos, count - 1, widened);
      var last :- ParseItem(buf, n, front.end, widened);
      Some(ParsedItems(front.items + [last.item], last.end))
  }
}
