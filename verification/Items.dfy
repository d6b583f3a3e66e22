/** The item nodes of SECS-II messages: values, variables and the conditions their factories check. */
module Items {
  import opened Wrappers
  import opened Names

  const MAX_BYTE_SIZE := 0xFF_FFFF

  type byte = x: int | 0 <= x < 256

  type Width = w: nat | w == 1 || w == 2 || w == 4 || w == 8 witness 1

  /** The item types that hold an array of fixed-size values; a float stands for its bit pattern. */
  datatype Kind = Binary | Boolean | Signed(width: Width) | Unsigned(width: Width) | Float4 | Float8 {
    function Bytes(): (w: Width) {
      match this
      case Binary => 1
      case Boolean => 1
      case Signed(w) => w
      case Unsigned(w) => w
      case Float4 => 4
      case Float8 => 8
    }

    /** The values a node of this kind accepts; infinities and NaNs are refused. */
    predicate Fits(v: int) {
      match this
      case Binary => 0 <= v < 0x100
      case Boolean => 0 <= v < 2
      case Signed(w) => -(Modulus(w) / 2) <= v < Modulus(w) / 2
      case Unsigned(w) => 0 <= v < Modulus(w)
      case Float4 => 0 <= v < Modulus(4) && v / 0x80_0000 % 0x100 != 0xFF
      case Float8 => 0 <= v < Modulus(8) && v / 0x10_0000_0000_0000 % 0x800 != 0x7FF
    }
  }

  function Modulus(w: Width): (m: nat)
    ensures m > 0 && m % 2 == 0
  {
    if w == 1 then 0x100 else if w == 2 then 0x1_0000 else if w == 4 then 0x1_0000_0000 else 0x1_0000_0000_0000_0000
  }

  /** One position of an array of values: a value, or a variable to be filled in. */
  datatype Cell = Lit(value: int) | Hole(name: Name)

  /** `Slot` is a variable of a list, standing where a child item may be filled in. */
  datatype Item =
    | Empty
    | Slot(name: Name)
    | Ascii(text: seq<byte>)
    | AsciiVar(name: Name, minLength: int, maxLength: int)
    | Numbers(kind: Kind, cells: seq<Cell>)
    | List(items: seq<Item>)

  function Front<T>(s: seq<T>): seq<T>
    requires s != []
  {
    s[..|s| - 1]
  }

  function Last<T>(s: seq<T>): T
    requires s != []
  {
    s[|s| - 1]
  }

  // Variables, in order of appearance

  function CellNames(cells: seq<Cell>): seq<Name> {
    if cells == [] then [] else
      CellNames(Front(cells)) + (match Last(cells) case Lit(_) => [] case Hole(n) => [n])
  }

  function Variables(item: Item): seq<Name>
    decreases item, 1
  {
    match item
    case Empty => []
    case Slot(n) => [n]
    case Ascii(_) => []
    case AsciiVar(n, _, _) => [n]
    case Numbers(_, cells) => CellNames(cells)
    case List(items) => ListVariables(items)
  }

  function ListVariables(items: seq<Item>): seq<Name>
    decreases items, 0
  {
    if items == [] then [] else ListVariables(Front(items)) + ChildVariables(Last(items))
  }

  /** A bare empty item counts as a variable named "" of the list that holds it. */
  function ChildVariables(item: Item): seq<Name>
    decreases item, 2
  {
    if item.Empty? then [Var("", [])] else Variables(item)
  }

  // What the factories check

  predicate CellsOk(kind: Kind, cells: seq<Cell>) {
    && |cells| * kind.Bytes() <= MAX_BYTE_SIZE
    && (forall c | c in cells :: if c.Lit? then kind.Fits(c.value) else c.name.IsValidVarName())
    && Distinct(CellNames(cells))
  }

  predicate IsOwnEllipsis(item: Item) {
    item.Slot? && item.name.IsEllipsis()
  }

  predicate ListOk(items: seq<Item>) {
    && |items| <= MAX_BYTE_SIZE
    && (forall i | 0 <= i < |items| && items[i].Slot? ::
      items[i].name.IsValidVarName() || (IsOwnEllipsis(items[i]) && i > 0))
    && (forall i, j | 0 <= i < j < |items| :: !(IsOwnEllipsis(items[i]) && IsOwnEllipsis(items[j])))
    && Distinct(ListVariables(items))
  }

  /** Every node of the tree passed the checks of its factory. */
  predicate Rep(item: Item) {
    match item
    case Empty => true
    case Slot(_) => true
    case Ascii(text) => |text| <= MAX_BYTE_SIZE && forall c | c in text :: c < 128
    case AsciiVar(n, min, max) => n.IsValidVarName() && 0 <= min && -1 <= max && (max != -1 ==> min <= max)
    case Numbers(kind, cells) => CellsOk(kind, cells)
    case List(items) => ListOk(items) && forall c | c in items :: Rep(c)
  }

  /** What building a node with its factories yields: the node, or a panic when a check fails anywhere in it. */
  function Built(item: Item): Option<Item> {
    if Rep(item) then Some(item) else None
  }

  /** The list factory: it panics when a check fails. */
  function NewListNode(items: seq<Item>): Option<Item> {
    if ListOk(items) then Some(List(items)) else None
  }

  lemma {:induction false} ListVariablesConcat(a: seq<Item>, b: seq<Item>)
    ensures ListVariables(a + b) == ListVariables(a) + ListVariables(b)
  {
    if b == [] {
      assert a + b == a;
    } else {
      ListVariablesConcat(a, Front(b));
      assert Front(a + b) == a + Front(b);
    }
  }

  lemma ListVariablesSnoc(items: seq<Item>, last: Item)
    ensures ListVariables(items + [last]) == ListVariables(items) + ChildVariables(last)
  {
    assert Front(items + [last]) == items;
  }
}
