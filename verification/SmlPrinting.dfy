/** The text form of messages, as the tokens it is made of. */
module SmlPrinting {
  import opened Wrappers
  import opened Names
  import opened Items
  import opened Messages

  /** Names of variables other than ellipses. */
  type VarName = n: Name | n.Var? witness Var("x", [])

  datatype ItemType = L | A | Of(kind: Kind)

  /**
   * A number stands for what it reads as in the item that holds it: an integer, or the bit pattern of a float;
   * None when it reads as neither. A string stands for what is between its quotes, and an item size for its bounds,
   * the upper one being -1 when it is left open.
   */
  datatype Token =
    | StreamFunction(stream: nat, function_: nat)
    | WaitBit(optional: bool)
    | Direction(direction: string)
    | MessageName(text: string)
    | MessageEnd
    | LeftAngle
    | RightAngle
    | TypeName(typ: ItemType)
    | ItemSize(low: nat, high: int)
    | Number(value: Option<int>)
    | Bool(isTrue: bool)
    | Variable(name: VarName)
    | Quoted(chars: seq<byte>)
    | Ellipsis(number: Option<nat>)
    | Bad

  // Names

  function Upper(c: char): char {
    if 'a' <= c <= 'z' then c - 'a' + 'A' else c
  }

  function Uppercase(s: string): string {
    seq(|s|, i requires 0 <= i < |s| => Upper(s[i]))
  }

  /** The words a variable cannot be told from, and the tokens they are. */
  function Reserved(word: string): Option<Token> {
    var w := Uppercase(word);
    if w == "L" then Some(TypeName(L))
    else if w == "A" then Some(TypeName(A))
    else if w == "B" then Some(TypeName(Of(Binary)))
    else if w == "BOOLEAN" then Some(TypeName(Of(Boolean)))
    else if w == "F4" then Some(TypeName(Of(Float4)))
    else if w == "F8" then Some(TypeName(Of(Float8)))
    else if w == "I1" then Some(TypeName(Of(Signed(1))))
    else if w == "I2" then Some(TypeName(Of(Signed(2))))
    else if w == "I4" then Some(TypeName(Of(Signed(4))))
    else if w == "I8" then Some(TypeName(Of(Signed(8))))
    else if w == "U1" then Some(TypeName(Of(Unsigned(1))))
    else if w == "U2" then Some(TypeName(Of(Unsigned(2))))
    else if w == "U4" then Some(TypeName(Of(Unsigned(4))))
    else if w == "U8" then Some(TypeName(Of(Unsigned(8))))
    else if w == "T" then Some(Bool(true))
    else if w == "F" then Some(Bool(false))
    else None
  }

  function Sizes(indices: seq<nat>): seq<Token> {
    if indices == [] then []
      else Sizes(indices[..|indices| - 1]) + [ItemSize(indices[|indices| - 1], indices[|indices| - 1])]
  }

  /**
   * How a variable appears in the text: as one token, unless its name is reserved; the number of an ellipsis is not
   * printed.
   */
  function NameTokens(n: Name): seq<Token> {
    if !n.Var? then [Ellipsis(None)]
    else if Reserved(n.base).Some? then [Reserved(n.base).value] + Sizes(n.indices)
    else [Variable(n)]
  }

  // Values

  function CellTokens(kind: Kind, cell: Cell): seq<Token> {
    match cell
    case Hole(n) => NameTokens(n)
    case Lit(v) => if kind == Boolean then [Bool(v != 0)] else [Number(Some(v))]
  }

  function CellsTokens(kind: Kind, cells: seq<Cell>): seq<Token> {
    if cells == [] then [] else CellsTokens(kind, Front(cells)) + CellTokens(kind, Last(cells))
  }

  predicate IsPrintable(c: byte) {
    32 <= c && c != 127
  }

  /** Runs of printable characters in quotes, all others as numbers. */
  function TextTokens(text: seq<byte>): seq<Token> {
    if text == [] then []
    else
      var front, c := TextTokens(Front(text)), Last(text);
      if !IsPrintable(c) then front + [Number(Some(c))]
      else if front != [] && Last(front).Quoted? then Front(front) + [Quoted(Last(front).chars + [c])]
      else front + [Quoted([c])]
  }

  // Items

  function LengthTokens(min: int, max: int): seq<Token>
    requires 0 <= min && -1 <= max
  {
    if min == 0 && max == -1 then []
    else if min == max then [ItemSize(max, max)]
    else if max == -1 then [ItemSize(min, -1)]
    else [ItemSize(min, max)]
  }

  predicate HasSlot(items: seq<Item>) {
    exists i | 0 <= i < |items| :: items[i].Slot?
  }

  function ItemTokens(item: Item): seq<Token>
    requires Rep(item)
    decreases item, 1
  {
    match item
    case Empty => []
    case Slot(n) => NameTokens(n)
    case Ascii(text) => [LeftAngle, TypeName(A)] + (if text == [] then [ItemSize(0, 0)] else TextTokens(text)) +
      [RightAngle]
    case AsciiVar(n, min, max) => [LeftAngle, TypeName(A)] + LengthTokens(min, max) + NameTokens(n) + [RightAngle]
    case Numbers(kind, cells) =>
      [LeftAngle, TypeName(Of(kind)), ItemSize(|cells|, |cells|)] + CellsTokens(kind, cells) + [RightAngle]
    case List(items) =>
      [LeftAngle, TypeName(L)] + (if HasSlot(items) then [] else [ItemSize(|items|, |items|)]) + ItemsTokens(items) +
        [RightAngle]
  }

  function ItemsTokens(items: seq<Item>): seq<Token>
    requires forall c | c in items :: Rep(c)
    decreases items, 0
  {
    if items == [] then [] else ItemsTokens(Front(items)) + ItemTokens(Last(items))
  }

  // Messages

  function HeaderTokens(m: Message): seq<Token>
    requires DataOk(m)
  {
    [StreamFunction(m.stream, m.function_)]
    + (if m.waitBit == 0 then [] else [WaitBit(m.waitBit == 2)])
    + [Direction(m.direction)]
    + if m.name == "" then [] else [MessageName(m.name)]
  }

  function MessageTokens(m: Message): seq<Token>
    requires m.Data? && MessageOk(m)
  {
    HeaderTokens(m) + ItemTokens(m.item) + [MessageEnd]
  }

  // Printing as it runs

  /** Prints a text character by character, opening and closing quotes on the way. */
  method PrintText(text: seq<byte>) returns (r: seq<Token>)
    ensures r == TextTokens(text)
  {
    r := [];
    var quoted: seq<byte>, printableState := [], false;
    for i := 0 to |text|
      invariant TextTokens(text[..i]) == if printableState then r + [Quoted(quoted)] else r
      invariant !printableState ==> r == [] || !Last(r).Quoted?
    {
      assert Front(text[..i + 1]) == text[..i];
      var c := text[i];
      if !IsPrintable(c) {
        if printableState {
          r, printableState := r + [Quoted(quoted)], false;
        }
        r := r + [Number(Some(c))];
      } else {
        assert printableState ==> Front(r + [Quoted(quoted)]) == r;
        if !printableState {
          quoted, printableState := [], true;
          assert quoted + [c] == [c];
        }
        quoted := quoted + [c];
      }
    }
    assert text[..|text|] == text;
    if printableState {
      r := r + [Quoted(quoted)];
    }
  }

  method Print(item: Item) returns (r: seq<Token>)
    requires Rep(item)
    ensures r == ItemTokens(item)
    decreases item, 1
  {
    hide TextTokens, CellsTokens, ItemsTokens, NameTokens, LengthTokens, CellsOk, ListOk, Reserved;
    match item
    case Empty =>
      r := [];
    case Slot(n) =>
      r := NameTokens(n);
    case Ascii(text) =>
      if text == [] {
        return [LeftAngle, TypeName(A), ItemSize(0, 0), RightAngle];
      }
      var body := PrintText(text);
      r := [LeftAngle, TypeName(A)] + body + [RightAngle];
    case AsciiVar(n, min, max) =>
      r := [LeftAngle, TypeName(A)] + LengthTokens(min, max) + NameTokens(n) + [RightAngle];
    case Numbers(kind, cells) =>
      var body := PrintCells(kind, cells);
      r := [LeftAngle, TypeName(Of(kind)), ItemSize(|cells|, |cells|)] + body + [RightAngle];
    case List(items) =>
      var body, sizeDetermined := PrintItems(items);
      r := [LeftAngle, TypeName(L)] + (if sizeDetermined then [ItemSize(|items|, |items|)] else []) + body +
        [RightAngle];
  }

  method PrintCells(kind: Kind, cells: seq<Cell>) returns (r: seq<Token>)
    ensures r == CellsTokens(kind, cells)
  {
    hide CellTokens;
    r := [];
    for i := 0 to |cells|
      invariant r == CellsTokens(kind, cells[..i])
    {
      assert Front(cells[..i + 1]) == cells[..i];
      r := r + CellTokens(kind, cells[i]);
    }
    assert cells[..|cells|] == cells;
  }

  method PrintItems(items: seq<Item>) returns (r: seq<Token>, sizeDetermined: bool)
    requires forall c | c in items :: Rep(c)
    ensures r == ItemsTokens(items) && sizeDetermined == !HasSlot(items)
    decreases items, 0
  {
    hide Rep, ItemTokens;
    r, sizeDetermined := [], true;
    for i := 0 to |items|
      invariant forall c | c in items[..i] :: Rep(c)
      invariant r == ItemsTokens(items[..i]) && sizeDetermined == !HasSlot(items[..i])
    {
      assert items[i] in items && Front(items[..i + 1]) == items[..i];
      SlotSnoc(items, i);
      var child := Print(items[i]);
      r := r + child;
      if items[i].Slot? {
        sizeDetermined := false;
      }
    }
    assert items[..|items|] == items;
  }

  lemma SlotSnoc(items: seq<Item>, i: nat)
    requires i < |items|
    ensures HasSlot(items[..i + 1]) <==> HasSlot(items[..i]) || items[i].Slot?
  {
    var a, b := items[..i], items[..i + 1];
    if HasSlot(a) {
      var j :| 0 <= j < |a| && a[j].Slot?;
      assert b[j].Slot?;
    }
    if items[i].Slot? {
      assert b[i].Slot?;
    }
    if HasSlot(b) {
      var j :| 0 <= j < |b| && b[j].Slot?;
      assert j < i ==> a[j].Slot?;
    }
  }
}
