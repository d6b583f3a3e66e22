/** The decoder as it runs: a position that moves through the input while loops fill in the values. */
module Parser {
  import opened Wrappers
  import opened Items
  import opened Encoding
  import opened Decoding

  class MessageParser {
    const buf: seq<byte>
    const n: nat
    const widened: bool
    var pos: nat
    var msgLength: nat

    ghost predicate Valid()
      reads this
    {
      n <= |buf| && pos <= |buf|
    }

    constructor (buf: seq<byte>, n: nat, widened: bool)
      requires n <= |buf|
      ensures Valid() && this.buf == buf && this.n == n && this.widened == widened && pos == 0 && msgLength == 0
    {
      this.buf, this.n, this.widened, pos, msgLength := buf, n, widened, 0, 0;
    }

    method ParseLength(count: nat) returns (length: nat)
      requires Valid() && pos + count <= |buf|
      modifies `pos
      ensures Valid() && pos == old(pos) + count
      ensures length == LengthOf(buf[old(pos)..pos], widened)
    {
      var lengthBytes := buf[pos..pos + count];
      length := 0;
      for i := 0 to count
        invariant length == LengthSum(lengthBytes, i, widened)
      {
        length := length + Shifted(lengthBytes[i], count - i - 1, widened);
      }
      pos := pos + count;
    }

    /** Reads `length` bytes of values; the position moves on only when that succeeds. */
    method ParseValues(kind: Kind, length: nat) returns (r: Option<Item>)
      requires Valid()
      modifies `pos
      ensures Valid()
      ensures var p := ParseNumbers(kind, buf, n, old(pos), length);
        if p.Some? then r == Some(p.value.item) && pos == p.value.end else r == None
    {
      hide DecodeValue, DecodeCells, Kind.Bytes, CellsOk;
      var w := kind.Bytes();
      if !Whole(length, w) {
        return None;
      }
      if length > 0 && (pos + length > |buf| || (ReadByIndex(kind) && pos + length > n)) {
        return None;
      }
      var values: seq<Cell>, start := [], 0;
      ghost var bs := buf[pos..pos + length];
      NoCells(kind);
      while start < length
        invariant 0 <= start <= length && Whole(start, w)
        invariant pos == old(pos) && values == DecodeCells(kind, bs[..start])
      {
        NextCell(kind, bs, start);
        SliceOfSlice(buf, pos, length, start, w);
        values := values + [Lit(DecodeValue(kind, buf[pos + start..pos + start + w]))];
        start := start + w;
      }
      assert bs[..length] == bs;
      if length > 0 && !CellsOk(kind, values) {
        return None;
      }
      pos := pos + length;
      r := Some(Numbers(kind, values));
    }

    method ParseText(length: nat) returns (r: Option<Item>)
      requires Valid()
      modifies `pos
      ensures Valid()
      ensures var p := ParseAscii(buf, old(pos), length);
        if p.Some? then r == Some(p.value.item) && pos == p.value.end else r == None
    {
      if pos + length > |buf| {
        return None;
      }
      var text := [];
      for i := 0 to length
        invariant pos == old(pos) && text == buf[pos..pos + i]
      {
        text := text + [buf[pos + i]];
      }
      if !Rep(Ascii(text)) {
        return None;
      }
      pos := pos + length;
      r := Some(Ascii(text));
    }

    /** A message of header length only has no text; any other text is one item. */
    method ParseMessageText() returns (r: Option<Item>)
      requires Valid()
      modifies `pos
      ensures Valid()
      ensures msgLength == 10 ==> r == Some(Empty) && pos == old(pos)
      ensures msgLength != 10 ==>
        var p := ParseItem(buf, n, old(pos), widened);
        if p.Some? then r == Some(p.value.item) && pos == p.value.end else r == None
      decreases |buf| - pos, 0, 0
    {
      hide ParseBody, LengthOf;
      if msgLength == 10 {
        return Some(Empty);
      }
      if pos >= n {
        return None;
      }
      var formatCode, lengthBytesCount := buf[pos] / 4, buf[pos] % 4;
      if lengthBytesCount == 0 {
        return None;
      }
      pos := pos + 1;
      if pos + lengthBytesCount > |buf| {
        return None;
      }
      var length := ParseLength(lengthBytesCount);
      r := ParseItemBody(formatCode, length);
    }

    method ParseItemBody(formatCode: nat, length: nat) returns (r: Option<Item>)
      requires Valid() && msgLength != 10
      modifies `pos
      ensures Valid()
      ensures var p := ParseBody(buf, n, old(pos), formatCode, length, widened);
        if p.Some? then r == Some(p.value.item) && pos == p.value.end else r == None
      decreases |buf| - pos, 2, 0
    {
      hide ParseItems, ParseNumbers, ParseAscii, ListOk;
      if formatCode == LIST_CODE {
        var values := ParseListItems(length);
        if values.None? {
          return None;
        }
        r := NewListNode(values.value);
      } else if formatCode == ASCII_CODE {
        r := ParseText(length);
      } else {
        var kind := KindOf(formatCode);
        if kind.None? {
          return None;
        }
        r := ParseValues(kind.value, length);
      }
    }

    method ParseListItems(length: nat) returns (r: Option<seq<Item>>)
      requires Valid() && msgLength != 10
      modifies `pos
      ensures Valid()
      ensures var p := ParseItems(buf, n, old(pos), length, widened);
        if p.Some? then r == Some(p.value.items) && pos == p.value.end else r == None
      decreases |buf| - pos, 1, length
    {
      hide ParseItem;
      var values := [];
      for i := 0 to length
        invariant Valid() && old(pos) <= pos
        invariant ParseItems(buf, n, old(pos), i, widened) == Some(ParsedItems(values, pos))
      {
        var item := ParseMessageText();
        if item.None? {
          NoneOfMore(buf, n, old(pos), i + 1, length, widened);
          return None;
        }
        values := values + [item.value];
      }
      r := Some(values);
    }
  }

  lemma SliceOfSlice(buf: seq<byte>, pos: nat, length: nat, start: nat, w: nat)
    requires pos + length <= |buf| && start + w <= length
    ensures buf[pos..pos + length][start..start + w] == buf[pos + start..pos + start + w]
  {
    var a, b := buf[pos..pos + length][start..start + w], buf[pos + start..pos + start + w];
    assert |a| == |b| && forall i | 0 <= i < w :: a[i] == b[i];
  }

  lemma NoCells(kind: Kind)
    ensures DecodeCells(kind, []) == []
  {
  }

  lemma NextCell(kind: Kind, bs: seq<byte>, start: nat)
    requires start < |bs| && Whole(start, kind.Bytes()) && Whole(|bs|, kind.Bytes())
    ensures start + kind.Bytes() <= |bs| && Whole(start + kind.Bytes(), kind.Bytes())
    ensures DecodeCells(kind, bs[..start + kind.Bytes()])
         == DecodeCells(kind, bs[..start]) + [Lit(DecodeValue(kind, bs[start..start + kind.Bytes()]))]
  {
    hide DecodeValue;
    var w := kind.Bytes();
    WholeSteps(start, |bs|, w);
    assert bs[..start + w][..start] == bs[..start];
    assert bs[..start + w][start..] == bs[start..start + w];
  }

  lemma WholeSteps(start: nat, end: nat, w: Width)
    requires start < end && Whole(start, w) && Whole(end, w)
    ensures start + w <= end && Whole(start + w, w)
  {
    if w == 1 {
    } else if w == 2 {
    } else if w == 4 {
    } else {
    }
  }

  lemma {:induction false} NoneOfMore(buf: seq<byte>, n: nat, pos: nat, i: nat, count: nat, widened: bool)
    requires n <= |buf| && pos <= |buf| && i <= count && ParseItems(buf, n, pos, i, widened).None?
    ensures ParseItems(buf, n, pos, count, widened).None?
  {
    hide ParseItem;
    if i < count {
      NoneOfMore(buf, n, pos, i, count - 1, widened);
    }
  }
}
