/** The byte representation of item nodes. */
module Encoding {
  import opened Wrappers
  import opened Names
  import opened Items
  import opened Bytes

  const LIST_CODE := 0x00
  const ASCII_CODE := 0x10

  function FormatCode(kind: Kind): (c: nat)
    ensures 0 < c < 0x40 && c != ASCII_CODE
  {
    match kind
    case Binary => 0x08
    case Boolean => 0x09
    case Signed(w) => if w == 8 then 0x18 else 0x18 + w
    case Unsigned(w) => if w == 8 then 0x28 else 0x28 + w
    case Float8 => 0x20
    case Float4 => 0x24
  }

  /** The bytes of a length, without leading zero bytes; one byte at least, three at most. */
  function LengthBytes(n: nat): (bs: seq<byte>)
    requires n <= MAX_BYTE_SIZE
    ensures 1 <= |bs| <= 3
  {
    if n < 0x100 then [n]
    else if n < 0x1_0000 then [n / 0x100, n % 0x100]
    else [n / 0x1_0000, n / 0x100 % 0x100, n % 0x100]
  }

  lemma ValueOfFew(a: byte, b: byte, c: byte)
    ensures ValueOf([a]) == a
    ensures ValueOf([a, b]) == a * 0x100 + b
    ensures ValueOf([a, b, c]) == a * 0x1_0000 + b * 0x100 + c
  {
    assert Front([a]) == [] && Front([a, b]) == [a] && Front([a, b, c]) == [a, b];
  }

  lemma LengthBytesValue(n: nat)
    requires n <= MAX_BYTE_SIZE
    ensures ValueOf(LengthBytes(n)) == n
  {
    hide ValueOf;
    ValueOfFew(n / 0x1_0000, n / 0x100 % 0x100, n % 0x100);
    if n < 0x100 {
      ValueOfFew(n, 0, 0);
    } else if n < 0x1_0000 {
      ValueOfFew(n / 0x100, n % 0x100, 0);
    }
  }

  function Header(code: nat, n: nat): (bs: seq<byte>)
    requires code < 0x40 && n <= MAX_BYTE_SIZE
    ensures 2 <= |bs| <= 4
  {
    [code * 4 + |LengthBytes(n)|] + LengthBytes(n)
  }

  function CellBytes(kind: Kind, v: int): (bs: seq<byte>)
    requires kind.Fits(v)
    ensures |bs| == kind.Bytes()
  {
    BigEndian(Bits(v), kind.Bytes())
  }

  predicate AllLits(kind: Kind, cells: seq<Cell>) {
    forall c | c in cells :: c.Lit? && kind.Fits(c.value)
  }

  function CellsBytes(kind: Kind, cells: seq<Cell>): seq<byte>
    requires AllLits(kind, cells)
  {
    if cells == [] then []
    else
      assert Last(cells) in cells;
      CellsBytes(kind, Front(cells)) + CellBytes(kind, Last(cells).value)
  }

  lemma OneMore(count: nat, w: nat)
    ensures (count + 1) * w == count * w + w
  {
  }

  lemma {:induction false} CellsBytesLength(kind: Kind, cells: seq<Cell>)
    requires AllLits(kind, cells)
    ensures |CellsBytes(kind, cells)| == |cells| * kind.Bytes()
  {
    hide Kind.Bytes, CellBytes;
    if cells != [] {
      assert Last(cells) in cells;
      CellsBytesLength(kind, Front(cells));
      OneMore(|cells| - 1, kind.Bytes());
    }
  }

  /** No bytes at all when the item cannot be encoded. */
  function Encode(item: Item): seq<byte>
    decreases item, 1
  {
    match item
    case Empty => []
    case Slot(_) => []
    case Ascii(text) => if |text| <= MAX_BYTE_SIZE then Header(ASCII_CODE, |text|) + text else []
    case AsciiVar(_, _, _) => []
    case Numbers(kind, cells) =>
      if AllLits(kind, cells) && |cells| * kind.Bytes() <= MAX_BYTE_SIZE
      then Header(FormatCode(kind), |cells| * kind.Bytes()) + CellsBytes(kind, cells) else []
    case List(items) =>
      if |items| <= MAX_BYTE_SIZE && EncodeItems(items).Some?
      then Header(LIST_CODE, |items|) + EncodeItems(items).value else []
  }

  /** None when some item cannot be encoded. */
  function EncodeItems(items: seq<Item>): Option<seq<byte>>
    decreases items, 0
  {
    if items == [] then Some([])
    else
      var front :- EncodeItems(Front(items));
      var last := Encode(Last(items));
      if last == [] then None else Some(front + last)
  }

  // Exactly the items without variables can be encoded

  lemma {:induction false} NoCellNames(cells: seq<Cell>)
    ensures CellNames(cells) == [] <==> forall c | c in cells :: c.Lit?
  {
    if cells != [] {
      NoCellNames(Front(cells));
      assert cells == Front(cells) + [Last(cells)];
    }
  }

  lemma {:induction false} EncodedIffComplete(item: Item)
    requires Rep(item)
    ensures Encode(item) == [] <==> ChildVariables(item) != []
    decreases item, 1
  {
    match item
    case Empty =>
    case Slot(_) =>
    case Ascii(text) =>
    case AsciiVar(_, _, _) =>
    case Numbers(kind, cells) =>
      NoCellNames(cells);
    case List(items) =>
      EncodedItemsIffComplete(items);
  }

  lemma {:induction false} EncodedItemsIffComplete(items: seq<Item>)
    requires forall c | c in items :: Rep(c)
    ensures EncodeItems(items).Some? <==> ListVariables(items) == []
    decreases items, 0
  {
    hide Rep, Encode, ChildVariables;
    if items != [] {
      assert Last(items) in items;
      EncodedItemsIffComplete(Front(items));
      EncodedIffComplete(Last(items));
    }
  }

  // How long an encoding is: minimal headers and bodies, summed up

  function HeaderLength(n: nat): nat {
    1 + if n < 0x100 then 1 else if n < 0x1_0000 then 2 else 3
  }

  function WireLength(item: Item): nat
    decreases item, 1
  {
    match item
    case Ascii(text) => HeaderLength(|text|) + |text|
    case Numbers(kind, cells) => HeaderLength(|cells| * kind.Bytes()) + |cells| * kind.Bytes()
    case List(items) => HeaderLength(|items|) + WireLengths(items)
    case _ => 0
  }

  function WireLengths(items: seq<Item>): nat
    decreases items, 0
  {
    if items == [] then 0 else WireLengths(Front(items)) + WireLength(Last(items))
  }

  lemma {:induction false} EncodedLength(item: Item)
    requires Encode(item) != []
    ensures |Encode(item)| == WireLength(item)
    decreases item, 1
  {
    match item
    case List(items) =>
      EncodedItemsLength(items);
    case Numbers(kind, cells) =>
      CellsBytesLength(kind, cells);
    case _ =>
  }

  lemma {:induction false} EncodedItemsLength(items: seq<Item>)
    requires EncodeItems(items).Some?
    ensures |EncodeItems(items).value| == WireLengths(items)
    decreases items, 0
  {
    hide Encode, WireLength;
    if items != [] {
      EncodedItemsLength(Front(items));
      EncodedLength(Last(items));
    }
  }

  // The encoder's loops

  method WriteHeader(code: nat, n: nat) returns (r: seq<byte>)
    requires code < 0x40 && n <= MAX_BYTE_SIZE
    ensures r == Header(code, n)
  {
    var lengthBytes: seq<byte> := [n / 0x1_0000, n / 0x100 % 0x100, n % 0x100];
    if lengthBytes[0] == 0 {
      if lengthBytes[1] == 0 {
        lengthBytes := lengthBytes[2..];
      } else {
        lengthBytes := lengthBytes[1..];
      }
    }
    r := [];
    r := r + [code * 4 + |lengthBytes|];
    r := r + lengthBytes;
  }

  /** Appends the low `width` bytes of a pattern, shifting the highest of them down first. */
  method WriteBits(result: seq<byte>, bits: nat, width: nat) returns (r: seq<byte>)
    ensures r == result + BigEndian(bits, width)
  {
    r := result;
    var i := width;
    assert BigEndian(ShiftRight(bits, i), 0) == [];
    while i > 0
      invariant 0 <= i <= width
      invariant r == result + BigEndian(ShiftRight(bits, i), width - i)
    {
      i := i - 1;
      r := r + [ShiftRight(bits, i) % 0x100];
    }
  }

  method WriteCells(result: seq<byte>, kind: Kind, cells: seq<Cell>) returns (r: seq<byte>)
    requires AllLits(kind, cells)
    ensures r == result + CellsBytes(kind, cells)
  {
    r := result;
    for i := 0 to |cells|
      invariant r == result + CellsBytes(kind, cells[..i])
    {
      assert cells[i] in cells && Front(cells[..i + 1]) == cells[..i] && Last(cells[..i + 1]) == cells[i];
      r := WriteBits(r, Bits(cells[i].value), kind.Bytes());
    }
    assert cells[..|cells|] == cells;
  }

  method WriteText(result: seq<byte>, text: seq<byte>) returns (r: seq<byte>)
    ensures r == result + text
  {
    r := result;
    for i := 0 to |text|
      invariant r == result + text[..i]
    {
      r := r + [text[i]];
    }
  }

  method ToBytes(item: Item) returns (r: seq<byte>)
    requires Rep(item)
    ensures r == Encode(item)
    decreases item, 1
  {
    hide CellsBytes, EncodeItems, Header, ListVariables, CellNames, Distinct;
    r := [];
    match item
    case Empty =>
    case Slot(_) =>
    case AsciiVar(_, _, _) =>
    case Ascii(text) =>
      r := WriteHeader(ASCII_CODE, |text|);
      r := WriteText(r, text);
    case Numbers(kind, cells) =>
      NoCellNames(cells);
      if CellNames(cells) == [] {
        r := WriteHeader(FormatCode(kind), |cells| * kind.Bytes());
        r := WriteCells(r, kind, cells);
      }
    case List(items) =>
      r := WriteHeader(LIST_CODE, |items|);
      r := WriteItems(r, items);
  }

  /** Appends the bytes of all items, or gives up with no bytes at all when one of them has none. */
  method WriteItems(result: seq<byte>, items: seq<Item>) returns (r: seq<byte>)
    requires forall c | c in items :: Rep(c)
    ensures r == if EncodeItems(items).Some? then result + EncodeItems(items).value else []
    decreases items, 0
  {
    hide Rep, Encode, EncodeItems;
    r := result;
    NothingEncoded();
    for i := 0 to |items|
      invariant EncodeItems(items[..i]).Some?
      invariant r == result + EncodeItems(items[..i]).value
    {
      assert items[i] in items;
      EncodedSnoc(items, i);
      var child := ToBytes(items[i]);
      if child == [] {
        NotEncodable(items, i);
        return [];
      }
      r := r + child;
    }
    assert items[..|items|] == items;
  }

  lemma NothingEncoded()
    ensures EncodeItems([]) == Some([])
  {
  }

  lemma EncodedSnoc(items: seq<Item>, i: nat)
    requires i < |items| && EncodeItems(items[..i]).Some?
    ensures EncodeItems(items[..i + 1])
         == if Encode(items[i]) == [] then None else Some(EncodeItems(items[..i]).value + Encode(items[i]))
  {
    hide Encode;
    assert Front(items[..i + 1]) == items[..i];
  }

  lemma {:induction false} NotEncodable(items: seq<Item>, i: nat)
    requires i < |items| && Encode(items[i]) == []
    ensures EncodeItems(items).None?
  {
    hide Encode;
    if i < |items| - 1 {
      NotEncodable(Front(items), i);
    }
  }
}
