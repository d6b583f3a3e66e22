/** Filling in the variables of an item tree other than its ellipses. */
module Filling {
  import opened Wrappers
  import opened Names
  import opened Items

  /**
   * A value handed to a variable. A string is `Text` for the variable of an ASCII item and `Alias`, a new name,
   * for any other; a number is the bit pattern of the float it stands for when the variable is one of a float item.
   */
  datatype Value =
    | Count(count: nat) | Number(value: int) | Flag(flag: bool)
    | Text(text: seq<byte>) | Node(item: Item) | Alias(name: Name)

  type Values = map<Name, Value>

  /** An unsigned item converts the integer it is given to 64 bits before it checks the range. */
  function Converted(kind: Kind, v: int): int {
    if kind.Unsigned? then v % Modulus(8) else v
  }

  function FillCell(kind: Kind, cell: Cell, values: Values): Option<Cell> {
    if cell.Lit? || cell.name !in values then Some(cell)
    else
      match values[cell.name]
      case Number(v) =>
        if !kind.Boolean? && kind.Fits(Converted(kind, v)) then Some(Lit(Converted(kind, v))) else None
      case Flag(b) => if kind.Boolean? then Some(Lit(if b then 1 else 0)) else None
      case Alias(n) => Some(Hole(n))
      case _ => None
  }

  function FillCells(kind: Kind, cells: seq<Cell>, values: Values): Option<seq<Cell>> {
    if cells == [] then Some([])
    else
      var front :- FillCells(kind, Front(cells), values);
      var last :- FillCell(kind, Last(cells), values);
      Some(front + [last])
  }

  function FillSlot(n: Name, value: Value): Option<Item> {
    match value
    case Node(item) => Some(item)
    case Alias(m) => Some(Slot(m))
    case _ => None
  }

  function FillAscii(min: int, max: int, value: Value): Option<Item> {
    if value.Text? && min <= |value.text| && (max != -1 ==> |value.text| <= max) then Built(Ascii(value.text)) else None
  }

  /** None stands for a panic: some value does not suit its variable, or a factory refuses the result. */
  function Fill(item: Item, values: Values): Option<Item>
    decreases item, 1
  {
    match item
    case Empty => Some(item)
    case Slot(n) => if n in values then FillSlot(n, values[n]) else Some(item)
    case Ascii(_) => Some(item)
    case AsciiVar(n, min, max) => if n in values then FillAscii(min, max, values[n]) else Some(item)
    case Numbers(kind, cells) =>
      var filled :- FillCells(kind, cells, values);
      Built(Numbers(kind, filled))
    case List(items) =>
      var filled :- FillItems(items, values);
      NewListNode(filled)
  }

  function FillItems(items: seq<Item>, values: Values): Option<seq<Item>>
    decreases items, 0
  {
    if items == [] then Some([])
    else
      var front :- FillItems(Front(items), values);
      var last :- Fill(Last(items), values);
      Some(front + [last])
  }

  // Values that leave no new variables behind

  predicate IsPlain(value: Value) {
    match value
    case Node(item) => Rep(item) && !item.Empty? && !item.Slot? && Variables(item) == []
    case Alias(_) => false
    case _ => true
  }

  predicate PlainValues(values: Values) {
    forall n | n in values :: n.IsValidVarName() && IsPlain(values[n])
  }

  function Without(names: seq<Name>, gone: set<Name>): seq<Name> {
    if names == [] then [] else Without(Front(names), gone) + if Last(names) in gone then [] else [Last(names)]
  }

  lemma {:induction false} WithoutConcat(a: seq<Name>, b: seq<Name>, gone: set<Name>)
    ensures Without(a + b, gone) == Without(a, gone) + Without(b, gone)
  {
    if b == [] {
      assert a + b == a;
    } else {
      WithoutConcat(a, Front(b), gone);
      assert Front(a + b) == a + Front(b);
    }
  }

  lemma WithoutOne(n: Name, gone: set<Name>)
    ensures Without([n], gone) == if n in gone then [] else [n]
  {
    assert Front([n]) == [];
  }

  lemma {:induction false} WithoutDistinct(names: seq<Name>, gone: set<Name>)
    requires Distinct(names)
    ensures Distinct(Without(names, gone))
    ensures forall n | n in Without(names, gone) :: n in names && n !in gone
  {
    if names != [] {
      var front, last := Front(names), Last(names);
      assert names == front + [last];
      DistinctConcat(front, [last]);
      WithoutDistinct(front, gone);
      DistinctConcat(Without(front, gone), [last]);
    }
  }

  // Cells

  lemma {:induction false} FillCellsKeeps(kind: Kind, cells: seq<Cell>, values: Values)
    requires PlainValues(values) && FillCells(kind, cells, values).Some?
    requires forall c | c in cells :: if c.Lit? then kind.Fits(c.value) else c.name.IsValidVarName()
    ensures var filled := FillCells(kind, cells, values).value;
      && |filled| == |cells|
      && CellNames(filled) == Without(CellNames(cells), values.Keys)
      && forall c | c in filled :: if c.Lit? then kind.Fits(c.value) else c.name.IsValidVarName()
  {
    if cells != [] {
      var front, last := Front(cells), Last(cells);
      assert last in cells;
      FillCellsKeeps(kind, front, values);
      var filledLast := FillCell(kind, last, values).value;
      OneCell(kind, last, values);
      assert Front(FillCells(kind, front, values).value + [filledLast]) == FillCells(kind, front, values).value;
      var names := if last.Hole? then [last.name] else [];
      assert CellNames(cells) == CellNames(front) + names;
      WithoutConcat(CellNames(front), names, values.Keys);
      if last.Hole? {
        WithoutOne(last.name, values.Keys);
      }
    }
  }

  lemma OneCell(kind: Kind, cell: Cell, values: Values)
    requires PlainValues(values) && FillCell(kind, cell, values).Some?
    requires if cell.Lit? then kind.Fits(cell.value) else cell.name.IsValidVarName()
    ensures var filled := FillCell(kind, cell, values).value;
      && (if filled.Lit? then kind.Fits(filled.value) else filled.name.IsValidVarName())
      && (if cell.Hole? && cell.name !in values then filled == cell else filled.Lit?)
  {
  }

  lemma FillNumbersKeeps(kind: Kind, cells: seq<Cell>, values: Values)
    requires PlainValues(values) && FillCells(kind, cells, values).Some? && CellsOk(kind, cells)
    ensures CellsOk(kind, FillCells(kind, cells, values).value)
    ensures CellNames(FillCells(kind, cells, values).value) == Without(CellNames(cells), values.Keys)
  {
    hide CellNames, FillCells, Without, PlainValues;
    FillCellsKeeps(kind, cells, values);
    WithoutDistinct(CellNames(cells), values.Keys);
  }

  // What filling keeps, and which variables remain

  /** An item that was fillable stays well-formed, and exactly the filled names are gone from its variables. */
  lemma {:induction false} FillRemains(item: Item, values: Values)
    requires Rep(item) && PlainValues(values) && Fill(item, values).Some?
    ensures var t := Fill(item, values).value;
      && Rep(t)
      && ChildVariables(t) == Without(ChildVariables(item), values.Keys)
      && (if item.Slot? && item.name !in values then t == item else !t.Slot?)
    decreases item, 1
  {
    match item
    case Empty =>
      WithoutOne(Var("", []), values.Keys);
    case Slot(n) =>
      WithoutOne(n, values.Keys);
    case Ascii(_) =>
    case AsciiVar(n, _, _) =>
      WithoutOne(n, values.Keys);
    case Numbers(kind, cells) =>
      FillNumbersKeeps(kind, cells, values);
    case List(items) =>
      FillListKeeps(items, values);
  }

  lemma {:induction false} FillItemsKeep(items: seq<Item>, values: Values)
    requires (forall c | c in items :: Rep(c)) && PlainValues(values) && FillItems(items, values).Some?
    ensures var filled := FillItems(items, values).value;
      && |filled| == |items|
      && ListVariables(filled) == Without(ListVariables(items), values.Keys)
      && (forall c | c in filled :: Rep(c))
      && forall i | 0 <= i < |items| :: if items[i].Slot? && items[i].name !in values then filled[i] == items[i]
        else !filled[i].Slot?
    decreases items, 0
  {
    hide Rep, PlainValues, ListVariables, ChildVariables, Fill, FillItems, Without;
    UnfoldFillItems(items, values);
    if items == [] {
      return;
    }
    var front, last := Front(items), Last(items);
    var filled, filledLast := FillItems(front, values).value, Fill(last, values).value;
    FillItemsKeep(front, values);
    FillRemains(last, values);
    ListVariablesSnoc(front, last);
    ListVariablesSnoc(filled, filledLast);
    WithoutConcat(ListVariables(front), ChildVariables(last), values.Keys);
  }

  lemma UnfoldFillItems(items: seq<Item>, values: Values)
    ensures items == [] ==> FillItems(items, values) == Some([])
    ensures items == [] ==> ListVariables(items) == [] && Without([], values.Keys) == []
    ensures items != [] ==>
      && items == Front(items) + [Last(items)] && Last(items) in items
      && FillItems(items, values)
         == if FillItems(Front(items), values).Some? && Fill(Last(items), values).Some?
            then Some(FillItems(Front(items), values).value + [Fill(Last(items), values).value]) else None
  {
    hide Fill;
  }

  lemma {:induction false} FillListKeeps(items: seq<Item>, values: Values)
    requires Rep(List(items)) && PlainValues(values) && FillItems(items, values).Some?
    ensures var filled := FillItems(items, values).value;
      ListOk(filled) && Rep(List(filled)) && ListVariables(filled) == Without(ListVariables(items), values.Keys)
    decreases items, 1
  {
    hide ListVariables, Without, FillItems;
    FillItemsKeep(items, values);
    WithoutDistinct(ListVariables(items), values.Keys);
  }

  // Which value stands where a variable stood

  /**
   * A number stands as it was given, modulo 2^64 in an unsigned item, if the item can hold it; a flag is a boolean
   * item's 1 or 0; a new name makes the variable one of that name. Whatever is not filled in stays.
   */
  predicate CellHasValue(kind: Kind, cell: Cell, values: Values, r: Cell) {
    match cell
    case Lit(v) => r == Lit(v)
    case Hole(n) =>
      if n !in values then r == Hole(n)
      else
        match values[n]
        case Number(v) =>
          && !kind.Boolean?
          && r == Lit(if kind.Unsigned? then v % 0x1_0000_0000_0000_0000 else v) && kind.Fits(r.value)
        case Flag(true) => kind == Boolean && r == Lit(1)
        case Flag(false) => kind == Boolean && r == Lit(0)
        case Alias(m) => r == Hole(m)
        case _ => false
  }

  /**
   * `r` is `item` with every value in its place: cells as above, a text within its bounds for the variable of an ASCII
   * item, the very item given for a variable of a list, and all else as it was.
   */
  predicate HasValues(item: Item, values: Values, r: Item) {
    match item
    case Slot(n) =>
      if n !in values then r == Slot(n)
      else (
        match values[n]
        case Node(given) => r == given
        case Alias(m) => r == Slot(m)
        case _ => false)
    case AsciiVar(n, min, max) =>
      if n !in values then r == AsciiVar(n, min, max)
      else (
        match values[n]
        case Text(text) => min <= |text| && (max == -1 || |text| <= max) && r == Ascii(text)
        case _ => false)
    case Numbers(kind, cells) =>
      && r.Numbers? && r.kind == kind && |r.cells| == |cells|
      && forall i | 0 <= i < |cells| :: CellHasValue(kind, cells[i], values, r.cells[i])
    case List(items) =>
      && r.List? && |r.items| == |items|
      && forall i | 0 <= i < |items| :: HasValues(items[i], values, r.items[i])
    case _ => r == item
  }

  /** The items handed over passed the checks of their factories when they were built. */
  predicate NodesBuilt(values: Values) {
    forall n | n in values && values[n].Node? :: Rep(values[n].item)
  }

  lemma CellFilledIff(kind: Kind, cell: Cell, values: Values, r: Cell)
    ensures FillCell(kind, cell, values) == Some(r) <==> CellHasValue(kind, cell, values, r)
  {
  }

  lemma {:induction false} CellsFilledIff(kind: Kind, cells: seq<Cell>, values: Values, rs: seq<Cell>)
    ensures FillCells(kind, cells, values) == Some(rs) <==>
      |rs| == |cells| && forall i | 0 <= i < |cells| :: CellHasValue(kind, cells[i], values, rs[i])
  {
    hide FillCell, CellHasValue;
    if cells != [] && rs != [] {
      CellsFilledIff(kind, Front(cells), values, Front(rs));
      CellFilledIff(kind, Last(cells), values, Last(rs));
      assert rs == Front(rs) + [Last(rs)];
      if FillCells(kind, cells, values) == Some(rs) {
        assert Front(rs) == FillCells(kind, Front(cells), values).value;
      }
    }
  }

  /** Filling yields just the items that have every value in its place and pass their factories; None if none does. */
  lemma {:induction false} FilledIff(item: Item, values: Values, r: Item)
    requires Rep(item) && NodesBuilt(values)
    ensures Fill(item, values) == Some(r) <==> HasValues(item, values, r) && Rep(r)
    decreases item, 1
  {
    hide CellsOk, ListOk, FillCells, FillItems, CellHasValue;
    match item
    case Numbers(kind, cells) =>
      if r.Numbers? {
        CellsFilledIff(kind, cells, values, r.cells);
      }
    case List(items) =>
      if r.List? {
        ItemsFilledIff(items, values, r.items);
      }
    case _ =>
  }

  lemma {:induction false} ItemsFilledIff(items: seq<Item>, values: Values, rs: seq<Item>)
    requires NodesBuilt(values) && forall c | c in items :: Rep(c)
    ensures FillItems(items, values) == Some(rs) <==>
      && |rs| == |items| && (forall i | 0 <= i < |items| :: HasValues(items[i], values, rs[i]))
      && forall i | 0 <= i < |items| :: Rep(rs[i])
    decreases items, 0
  {
    hide Rep, NodesBuilt, Fill, HasValues;
    if items != [] && rs != [] {
      assert Last(items) in items;
      ItemsFilledIff(Front(items), values, Front(rs));
      FilledIff(Last(items), values, Last(rs));
      assert rs == Front(rs) + [Last(rs)];
      if FillItems(items, values) == Some(rs) {
        assert Front(rs) == FillItems(Front(items), values).value;
      }
    }
  }

  // When filling succeeds

  /** What a plain value must be for a variable among cells. */
  predicate SuitsCell(kind: Kind, value: Value) {
    match value
    case Number(v) => !kind.Boolean? && kind.Fits(if kind.Unsigned? then v % 0x1_0000_0000_0000_0000 else v)
    case Flag(_) => kind.Boolean?
    case _ => false
  }

  /**
   * Every plain value is one its variable accepts: in range for a number, a flag for a boolean, an ASCII text within
   * its bounds, an item for a variable of a list.
   */
  predicate Suits(item: Item, values: Values) {
    match item
    case Slot(n) => n in values ==> values[n].Node?
    case AsciiVar(n, min, max) =>
      n in values ==>
        && values[n].Text?
        && min <= |values[n].text| && (max == -1 || |values[n].text| <= max) && |values[n].text| <= 0xFF_FFFF
        && forall c | c in values[n].text :: c < 128
    case Numbers(kind, cells) =>
      forall i | 0 <= i < |cells| && cells[i].Hole? && cells[i].name in values ::
        SuitsCell(kind, values[cells[i].name])
    case List(items) => forall i | 0 <= i < |items| :: Suits(items[i], values)
    case _ => true
  }

  predicate Meets(length: nat, min: int, max: int) {
    min <= length && (max == -1 || length <= max)
  }

  /** The bounds of the variable of an ASCII item are those that some length meets. */
  lemma BoundsMeetable(n: Name, min: int, max: int)
    ensures Rep(AsciiVar(n, min, max)) <==>
      n.IsValidVarName() && min >= 0 && max >= -1 && exists length: nat :: Meets(length, min, max)
  {
    assert min >= 0 && (max == -1 || min <= max) ==> Meets(min, min, max);
  }

  /** Plain values that suit their variables are filled in: no factory on the way has anything else to refuse. */
  lemma {:induction false} FillIffSuits(item: Item, values: Values)
    requires Rep(item) && PlainValues(values)
    ensures Fill(item, values).Some? <==> Suits(item, values)
    decreases item, 1
  {
    hide PlainValues, CellsOk, ListOk, FillCells, FillItems, FillCell;
    match item
    case Slot(n) =>
      OnePlain(n, values);
    case AsciiVar(n, _, _) =>
      OnePlain(n, values);
    case Numbers(kind, cells) =>
      FillCellsIff(kind, cells, values);
      if FillCells(kind, cells, values).Some? {
        FillNumbersKeeps(kind, cells, values);
      }
    case List(items) =>
      FillItemsIff(items, values);
      if FillItems(items, values).Some? {
        FillListKeeps(items, values);
      }
    case _ =>
  }

  lemma OnePlain(n: Name, values: Values)
    requires PlainValues(values)
    ensures n in values ==> !values[n].Alias?
  {
  }

  lemma {:induction false} FillCellsIff(kind: Kind, cells: seq<Cell>, values: Values)
    requires PlainValues(values)
    ensures FillCells(kind, cells, values).Some? <==> Suits(Numbers(kind, cells), values)
  {
    hide PlainValues;
    if cells != [] {
      FillCellsIff(kind, Front(cells), values);
      FillCellIff(kind, Last(cells), values);
      assert cells == Front(cells) + [Last(cells)];
    }
  }

  lemma FillCellIff(kind: Kind, cell: Cell, values: Values)
    requires PlainValues(values)
    ensures FillCell(kind, cell, values).Some? <==>
      (cell.Hole? && cell.name in values ==> SuitsCell(kind, values[cell.name]))
  {
  }

  lemma {:induction false} FillItemsIff(items: seq<Item>, values: Values)
    requires PlainValues(values) && forall c | c in items :: Rep(c)
    ensures FillItems(items, values).Some? <==> forall i | 0 <= i < |items| :: Suits(items[i], values)
    decreases items, 0
  {
    hide Rep, PlainValues, Fill, Suits;
    if items != [] {
      assert Last(items) in items;
      FillItemsIff(Front(items), values);
      FillIffSuits(Last(items), values);
    }
  }

  // One filling after the other

  function Then(first: Option<Item>, values: Values): Option<Item> {
    if first.Some? then Fill(first.value, values) else None
  }

  predicate DisjointValues(a: Values, b: Values) {
    a.Keys !! b.Keys
  }

  lemma {:induction false} FillCellsNothing(kind: Kind, cells: seq<Cell>, values: Values)
    requires forall n | n in CellNames(cells) :: n !in values
    ensures FillCells(kind, cells, values) == Some(cells)
  {
    if cells != [] {
      assert Last(cells).Hole? ==> Last(cells).name in CellNames(cells);
      FillCellsNothing(kind, Front(cells), values);
      assert cells == Front(cells) + [Last(cells)];
    }
  }

  /** Without a variable to fill, the item stays what it is. */
  lemma {:induction false} FillNothing(item: Item, values: Values)
    requires Rep(item) && forall n | n in ChildVariables(item) :: n !in values
    ensures Fill(item, values) == Some(item)
    decreases item, 1
  {
    match item
    case Empty =>
    case Slot(n) =>
      assert n in ChildVariables(item);
    case Ascii(_) =>
    case AsciiVar(n, _, _) =>
      assert n in ChildVariables(item);
    case Numbers(kind, cells) =>
      assert ChildVariables(item) == CellNames(cells);
      FillCellsNothing(kind, cells, values);
    case List(items) =>
      assert ChildVariables(item) == ListVariables(items);
      FillItemsNothing(items, values);
  }

  lemma {:induction false} FillItemsNothing(items: seq<Item>, values: Values)
    requires (forall c | c in items :: Rep(c)) && forall n | n in ListVariables(items) :: n !in values
    ensures FillItems(items, values) == Some(items)
    decreases items, 0
  {
    hide Rep, ChildVariables, Fill;
    if items != [] {
      assert Last(items) in items;
      FillItemsNothing(Front(items), values);
      FillNothing(Last(items), values);
      assert items == Front(items) + [Last(items)];
    }
  }

  lemma {:induction false} FillCellsTwice(kind: Kind, cells: seq<Cell>, a: Values, b: Values)
    requires PlainValues(a) && PlainValues(b) && DisjointValues(a, b)
    ensures FillCells(kind, cells, a + b)
         == if FillCells(kind, cells, a).Some? then FillCells(kind, FillCells(kind, cells, a).value, b) else None
  {
    if cells != [] {
      FillCellsTwice(kind, Front(cells), a, b);
      FillCellTwice(kind, Last(cells), a, b);
      if FillCells(kind, cells, a).Some? {
        assert Front(FillCells(kind, cells, a).value) == FillCells(kind, Front(cells), a).value;
      }
    }
  }

  lemma FillCellTwice(kind: Kind, cell: Cell, a: Values, b: Values)
    requires PlainValues(a) && PlainValues(b) && DisjointValues(a, b)
    ensures FillCell(kind, cell, a + b)
         == if FillCell(kind, cell, a).Some? then FillCell(kind, FillCell(kind, cell, a).value, b) else None
  {
  }

  /** Filling with two disjoint sets of values at once is filling with one after the other, failures included. */
  lemma {:induction false} FillTwice(item: Item, a: Values, b: Values)
    requires Rep(item) && PlainValues(a) && PlainValues(b) && DisjointValues(a, b)
    ensures Fill(item, a + b) == Then(Fill(item, a), b)
    decreases item, 1
  {
    match item
    case Empty =>
    case Slot(n) =>
      if n in a && a[n].Node? {
        FillNothing(a[n].item, b);
      }
    case Ascii(_) =>
    case AsciiVar(_, _, _) =>
    case Numbers(kind, cells) =>
      FillNumbersTwice(kind, cells, a, b);
    case List(items) =>
      FillListTwice(items, a, b);
  }

  lemma FillNumbersTwice(kind: Kind, cells: seq<Cell>, a: Values, b: Values)
    requires CellsOk(kind, cells) && PlainValues(a) && PlainValues(b) && DisjointValues(a, b)
    ensures Fill(Numbers(kind, cells), a + b) == Then(Fill(Numbers(kind, cells), a), b)
  {
    hide PlainValues, CellsOk, FillCells;
    PlainUnion(a, b);
    FillCellsTwice(kind, cells, a, b);
    if FillCells(kind, cells, a).Some? {
      FillNumbersKeeps(kind, cells, a);
    }
    if FillCells(kind, cells, a + b).Some? {
      FillNumbersKeeps(kind, cells, a + b);
    }
  }

  lemma PlainUnion(a: Values, b: Values)
    requires PlainValues(a) && PlainValues(b)
    ensures PlainValues(a + b)
  {
  }

  lemma {:induction false} FillItemsTwice(items: seq<Item>, a: Values, b: Values)
    requires (forall c | c in items :: Rep(c)) && PlainValues(a) && PlainValues(b) && DisjointValues(a, b)
    ensures FillItems(items, a + b) == if FillItems(items, a).Some? then FillItems(FillItems(items, a).value, b)
      else None
    decreases items, 0
  {
    hide Rep, PlainValues, Fill, FillItems, DisjointValues, ListVariables, Without;
    UnfoldFillItems(items, a);
    UnfoldFillItems(items, b);
    UnfoldFillItems(items, a + b);
    if items == [] {
      return;
    }
    FillItemsTwice(Front(items), a, b);
    FillTwice(Last(items), a, b);
    if FillItems(items, a).Some? {
      var filled := FillItems(items, a).value;
      assert Front(filled) == FillItems(Front(items), a).value;
      UnfoldFillItems(filled, b);
    }
  }

  lemma {:induction false} FillListTwice(items: seq<Item>, a: Values, b: Values)
    requires Rep(List(items)) && PlainValues(a) && PlainValues(b) && DisjointValues(a, b)
    ensures Fill(List(items), a + b) == Then(Fill(List(items), a), b)
    decreases items, 1
  {
    hide PlainValues, DisjointValues, ListOk, FillItems, Without, ListVariables;
    PlainUnion(a, b);
    FillItemsTwice(items, a, b);
    if FillItems(items, a).Some? {
      FillListKeeps(items, a);
    }
    if FillItems(items, a + b).Some? {
      FillListKeeps(items, a + b);
    }
  }

  lemma DisjointSymmetric(a: Values, b: Values)
    requires DisjointValues(a, b)
    ensures DisjointValues(b, a) && a + b == b + a
  {
  }

  /** The order of two fillings does not matter. */
  lemma FillEitherOrder(item: Item, a: Values, b: Values)
    requires Rep(item) && PlainValues(a) && PlainValues(b) && DisjointValues(a, b)
    ensures Then(Fill(item, a), b) == Then(Fill(item, b), a)
  {
    hide *;
    FillTwice(item, a, b);
    DisjointSymmetric(a, b);
    FillTwice(item, b, a);
  }
}
