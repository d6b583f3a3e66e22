/** The text form of items, laid down as a relation: what the parser accepts and what the printer writes. */
module SmlGrammar {
  import opened Wrappers
  import opened Names
  import opened Items
  import opened Messages
  import opened Numbering
  import opened SmlPrinting
  import opened SmlReading
  import opened SmlRoundTrip
  import opened SmlSound

  // The format

  // Strictly, what the printer chooses; otherwise, whatever the parser puts up with

  /** A variable by its name, a boolean by T or F, any other value by a number; what is no number is 0 in a binary. */
  predicate IsCell(kind: Kind, t: Token, cell: Cell, strict: bool) {
    match t
    case Variable(n) => cell == Hole(n)
    case Number(Some(v)) => kind != Boolean && cell == Lit(v)
    case Number(None) => !strict && kind == Binary && cell == Lit(0)
    case Bool(true) => kind == Boolean && cell == Lit(1)
    case Bool(false) => kind == Boolean && cell == Lit(0)
    case _ => false
  }

  predicate CellsAt(kind: Kind, ts: seq<Token>, from: nat, to: nat, cells: seq<Cell>, strict: bool) {
    && from <= to <= |ts| && to - from == |cells|
    && forall i | 0 <= i < |cells| :: IsCell(kind, ts[from + i], cells[i], strict)
  }

  /**
   * From `from` to `to`: an angle bracket, the type, the size if it is given, the contents, and the closing bracket.
   * Without a size, anything from 0 on will do.
   */
  predicate ItemAt(ts: seq<Token>, from: nat, to: nat, item: Item, strict: bool)
    decreases item, 2
  {
    && from + 3 <= to <= |ts| && ts[from] == LeftAngle && ts[from + 1].TypeName? && ts[to - 1] == RightAngle
    && (strict ==> SizeGiven(ts[from + 2], item))
    && if ts[from + 2].ItemSize? then
         ContentsAt(ts, ts[from + 1].typ, from + 3, to - 1, ts[from + 2].low, ts[from + 2].high, item, strict)
       else ContentsAt(ts, ts[from + 1].typ, from + 2, to - 1, 0, -1, item, strict)
  }

  /** The size bounds what the item holds; for the variable of an ASCII item, it gives the bounds of a later text. */
  predicate ContentsAt(ts: seq<Token>, typ: ItemType, from: nat, to: nat, low: nat, high: int, item: Item, strict: bool)
    decreases item, 1
  {
    && from <= to <= |ts|
    && match item
       case List(items) => typ == L && InBounds(|items|, low, high) && ElementsAt(ts, from, to, items, strict)
       case Ascii(text) =>
         && typ == A && InBounds(|text|, low, high)
         && TextOf(ts[from..to]) == Some(text) && (strict ==> AreRuns(ts[from..to]))
       case AsciiVar(n, min, max) =>
         typ == A && n.Var? && from + 1 == to && ts[from] == Variable(n) && min == low && max == high
       case Numbers(kind, cells) =>
         typ == Of(kind) && InBounds(|cells|, low, high) && CellsAt(kind, ts, from, to, cells, strict)
       case _ => false
  }

  /** An exact size, but for a text that has characters, and for a list that holds variables. */
  predicate SizeGiven(t: Token, item: Item) {
    match item
    case Ascii(text) => if text == [] then t == ItemSize(0, 0) else !t.ItemSize?
    case AsciiVar(_, min, max) => t.ItemSize? <==> min != 0 || max != -1
    case Numbers(_, cells) => t == ItemSize(|cells|, |cells|)
    case List(items) =>
      if exists i | 0 <= i < |items| :: items[i].Slot? then !t.ItemSize? else t == ItemSize(|items|, |items|)
    case _ => false
  }

  /** All printable characters in a row in one pair of quotes, all others by their codes. */
  predicate AreRuns(ts: seq<Token>) {
    forall i | 0 <= i < |ts| :: IsRun(ts[i]) && (i + 1 < |ts| ==> !(ts[i].Quoted? && ts[i + 1].Quoted?))
  }

  predicate IsRun(t: Token) {
    match t
    case Quoted(chars) => chars != [] && forall c | c in chars :: 32 <= c < 127
    case Number(Some(v)) => v < 32 || v == 127
    case _ => false
  }

  predicate InBounds(size: nat, low: nat, high: int) {
    low <= size && (high == -1 || size <= high)
  }

  predicate ElementsAt(ts: seq<Token>, from: nat, to: nat, items: seq<Item>, strict: bool)
    decreases items, 0
  {
    if items == [] then from == to <= |ts|
    else
      exists cut: nat | from <= cut <= to ::
        ElementsAt(ts, from, cut, Front(items), strict) && ElementAt(ts, cut, to, Last(items), strict)
  }

  /** A child, a variable by its name, or an ellipsis, whatever number it is printed with. */
  predicate ElementAt(ts: seq<Token>, from: nat, to: nat, item: Item, strict: bool)
    decreases item, 3
  {
    match item
    case Slot(n) =>
      from + 1 == to <= |ts| && if n.Var? then ts[from] == Variable(n)
        else ts[from].Ellipsis? && (strict ==> ts[from].number == None)
    case _ => ItemAt(ts, from, to, item, strict)
  }

  predicate New(names: seq<Name>, seen: set<Name>) {
    forall n | n in names && n.Var? :: n !in seen
  }

  lemma NewConcat(a: seq<Name>, b: seq<Name>, seen: set<Name>)
    requires New(a, seen) && New(b, seen + VarSet(a))
    ensures New(a + b, seen) && seen + VarSet(a + b) == seen + VarSet(a) + VarSet(b)
  {
    VarSetConcat(a, b);
  }

  lemma NoneNew(seen: set<Name>)
    ensures New([], seen) && seen + VarSet([]) == seen
  {
  }

  lemma OneNew(n: Name, seen: set<Name>)
    requires n.Var? ==> n !in seen
    ensures New([n], seen) && seen + VarSet([n]) == if n.Var? then seen + {n} else seen
  {
    OneVar(n, seen);
  }

  // What the parser accepts is of this format

  lemma CellsJoined(kind: Kind, ts: seq<Token>, from: nat, to: nat, cells: seq<Cell>, cell: Cell, strict: bool)
    requires CellsAt(kind, ts, from, to, cells, strict) && to < |ts| && IsCell(kind, ts[to], cell, strict)
    ensures CellsAt(kind, ts, from, to + 1, cells + [cell], strict)
  {
    hide IsCell;
  }

  lemma CellsInside(kind: Kind, ts: seq<Token>, from: nat, to: nat, cells: seq<Cell>, strict: bool)
    requires CellsAt(kind, ts, from, to, cells, strict)
    ensures from <= to <= |ts|
  {
  }

  lemma {:induction false} CellsFound(kind: Kind, ts: seq<Token>, start: nat, pos: nat, seen: set<Name>,
                                      cells: seq<Cell>)
    requires CellsAt(kind, ts, start, pos, cells, false) && New(CellNames(cells), seen)
    ensures var r := ReadCells(kind, ts, pos, seen + VarSet(CellNames(cells)), cells);
      r.Some? ==>
        && ts[r.value.pos] == RightAngle && CellsAt(kind, ts, start, r.value.pos, r.value.value, false)
        && New(CellNames(r.value.value), seen) && r.value.names == seen + VarSet(CellNames(r.value.value))
    decreases |ts| - pos
  {
    hide Kind.Fits, New, VarSet, ReadCells, CellsAt, IsCell;
    CellsInside(kind, ts, start, pos, cells, false);
    var names := seen + VarSet(CellNames(cells));
    ReadCellsStep(kind, ts, pos, names, cells);
    if pos < |ts| && ReadCells(kind, ts, pos, names, cells).Some? && ts[pos] != RightAngle {
      var cell := CellFound(kind, ts, pos, names, cells);
      CellNamesSnoc(cells, cell);
      if cell.Hole? {
        OneNew(cell.name, names);
        NewConcat(CellNames(cells), [cell.name], seen);
      } else {
        assert CellNames(cells) + [] == CellNames(cells);
      }
      CellsJoined(kind, ts, start, pos, cells, cell, false);
      CellsFound(kind, ts, start, pos + 1, seen, cells + [cell]);
    }
  }

  lemma CellNamesSnoc(cells: seq<Cell>, cell: Cell)
    ensures CellNames(cells + [cell]) == CellNames(cells) + CellName(cell)
  {
    assert Front(cells + [cell]) == cells;
  }

  lemma ReadCellsStep(kind: Kind, ts: seq<Token>, pos: nat, names: set<Name>, cells: seq<Cell>)
    ensures pos >= |ts| ==> ReadCells(kind, ts, pos, names, cells) == None
    ensures pos < |ts| && ts[pos] == RightAngle ==>
      ReadCells(kind, ts, pos, names, cells) == Some(Read(cells, pos, names, 0))
  {
  }

  lemma CellFound(kind: Kind, ts: seq<Token>, pos: nat, names: set<Name>, cells: seq<Cell>) returns (cell: Cell)
    requires pos < |ts| && ts[pos] != RightAngle && ReadCells(kind, ts, pos, names, cells).Some?
    ensures IsCell(kind, ts[pos], cell, false) && (cell.Hole? ==> cell.name.Var? && cell.name !in names)
    ensures ReadCells(kind, ts, pos, names, cells)
         == ReadCells(kind, ts, pos + 1, if cell.Hole? then names + {cell.name} else names, cells + [cell])
  {
    match ts[pos]
    case Variable(n) => cell := Hole(n);
    case Number(value) => cell := Lit(ReadNumber(kind, value).value);
    case Bool(b) => cell := Lit(if b then 1 else 0);
  }

  lemma {:induction false} TextFound(ts: seq<Token>, start: nat, pos: nat, text: seq<byte>)
    requires start <= pos <= |ts| && TextOf(ts[start..pos]) == Some(text)
    ensures var r := ReadText(ts, pos, text);
      r.Some? ==> ts[r.value.pos] == RightAngle && TextOf(ts[start..r.value.pos]) == Some(r.value.value)
    decreases |ts| - pos
  {
    hide ReadString, TextOf;
    if pos < |ts| && Meaning(ts[pos]).Some? && (ts[pos].Quoted? || ts[pos].Number?) {
      TextOfSnoc(ts[start..pos], ts[pos]);
      assert ts[start..pos + 1] == ts[start..pos] + [ts[pos]];
      TextFound(ts, start, pos + 1, text + Meaning(ts[pos]).value);
    }
  }

  lemma AsciiFound(ts: seq<Token>, pos: nat, names: set<Name>, k: nat, low: nat, high: int)
    ensures var r := ReadAscii(ts, pos, names, k, low, high);
      r.Some? && pos <= |ts| ==>
        && ts[r.value.pos] == RightAngle && ContentsAt(ts, A, pos, r.value.pos, low, high, r.value.value, false)
        && New(ChildVariables(r.value.value), names)
        && r.value.names == names + VarSet(ChildVariables(r.value.value))
  {
    hide ReadText, TextOf, New, VarSet, Rep;
    var r := ReadAscii(ts, pos, names, k, low, high);
    if r.Some? && pos <= |ts| {
      if r.value.value.AsciiVar? {
        assert ChildVariables(r.value.value) == [r.value.value.name];
        OneNew(r.value.value.name, names);
      } else {
        assert ts[pos..pos] == [];
        NothingMeant();
        TextFound(ts, pos, pos, []);
        assert ChildVariables(r.value.value) == [];
        NoneNew(names);
      }
    }
  }

  lemma NumbersFound(kind: Kind, ts: seq<Token>, pos: nat, names: set<Name>, k: nat, low: nat, high: int)
    ensures var r := ReadNumbers(kind, ts, pos, names, k, low, high);
      r.Some? && pos <= |ts| ==>
        && ts[r.value.pos] == RightAngle && ContentsAt(ts, Of(kind), pos, r.value.pos, low, high, r.value.value, false)
        && New(ChildVariables(r.value.value), names)
        && r.value.names == names + VarSet(ChildVariables(r.value.value))
  {
    hide ReadCells, New, VarSet, Rep, IsCell;
    var r := ReadNumbers(kind, ts, pos, names, k, low, high);
    if r.Some? && pos <= |ts| {
      NoneNew(names);
      CellsFound(kind, ts, pos, pos, names, []);
      assert ChildVariables(r.value.value) == CellNames(r.value.value.cells);
    }
  }

  /** What was read of a list: elements and their names. */
  predicate Found(ts: seq<Token>, from: nat, to: nat, items: seq<Item>, seen: set<Name>, names: set<Name>) {
    && ElementsAt(ts, from, to, items, false) && New(ListVariables(items), seen)
    && names == seen + VarSet(ListVariables(items))
  }

  lemma FoundSnoc(ts: seq<Token>, from: nat, mid: nat, to: nat, items: seq<Item>, item: Item, seen: set<Name>,
                  names: set<Name>)
    requires from <= mid <= to && Found(ts, from, mid, items, seen, names) && ElementAt(ts, mid, to, item, false)
    requires New(ChildVariables(item), names)
    ensures Found(ts, from, to, items + [item], seen, names + VarSet(ChildVariables(item)))
  {
    hide ElementAt, ChildVariables, New, VarSet;
    assert Front(items + [item]) == items;
    ListVariablesSnoc(items, item);
    NewConcat(ListVariables(items), ChildVariables(item), seen);
  }

  lemma {:induction false} ElementsFound(ts: seq<Token>, start: nat, pos: nat, seen: set<Name>, names: set<Name>,
                                         k: nat, items: seq<Item>)
    requires start <= pos && Found(ts, start, pos, items, seen, names)
    ensures var r := ReadElements(ts, pos, names, k, items);
      r.Some? ==>
        && ts[r.value.pos] == RightAngle
        && Found(ts, start, r.value.pos, r.value.value, seen, r.value.names)
    decreases |ts| - pos, 1
  {
    hide Found, ReadItem, VarSet, New, ItemAt;
    if pos < |ts| {
      match ts[pos]
      case LeftAngle =>
        var child := ReadItem(ts, pos, names, k);
        if child.Some? {
          ItemFound(ts, pos, names, k);
          IsElement(ts, pos, child.value.pos, child.value.value);
          FoundSnoc(ts, start, pos, child.value.pos, items, child.value.value, seen, names);
          ElementsFound(ts, start, child.value.pos, seen, child.value.names, child.value.ellipses,
                        items + [child.value.value]);
        }
      case Variable(n) =>
        if n !in names {
          assert ChildVariables(Slot(n)) == [n];
          OneNew(n, names);
          FoundSnoc(ts, start, pos, pos + 1, items, Slot(n), seen, names);
          ElementsFound(ts, start, pos + 1, seen, names + {n}, k, items + [Slot(n)]);
        }
      case Ellipsis(_) =>
        if items != [] {
          var n := DotsAt(k);
          assert ChildVariables(Slot(n)) == [n];
          OneNew(n, names);
          FoundSnoc(ts, start, pos, pos + 1, items, Slot(n), seen, names);
          ElementsFound(ts, start, pos + 1, seen, names, k + 1, items + [Slot(n)]);
        }
      case _ =>
    }
  }

  lemma IsElement(ts: seq<Token>, from: nat, to: nat, item: Item)
    requires ItemAt(ts, from, to, item, false)
    ensures ElementAt(ts, from, to, item, false)
  {
    hide CellsAt, ElementsAt, TextOf;
  }

  lemma {:induction false} ItemFound(ts: seq<Token>, pos: nat, names: set<Name>, k: nat)
    ensures var r := ReadItem(ts, pos, names, k);
      r.Some? ==>
        && ItemAt(ts, pos, r.value.pos, r.value.value, false) && New(ChildVariables(r.value.value), names)
        && r.value.names == names + VarSet(ChildVariables(r.value.value))
    decreases |ts| - pos, 0
  {
    hide ReadList, ReadAscii, ReadNumbers, New, VarSet, ContentsAt, ChildVariables;
    if Next(ts, pos, LeftAngle) && pos + 1 < |ts| && ts[pos + 1].TypeName? {
      var (low, high, start) := ReadSize(ts, pos + 2);
      match ts[pos + 1].typ
      case L =>
        if start <= |ts| {
          ListFound(ts, start, names, k, low, high);
        }
      case A =>
        AsciiFound(ts, start, names, k, low, high);
      case Of(kind) =>
        NumbersFound(kind, ts, start, names, k, low, high);
    }
  }

  lemma {:induction false} ListFound(ts: seq<Token>, pos: nat, names: set<Name>, k: nat, low: nat, high: int)
    requires pos <= |ts|
    ensures var r := ReadList(ts, pos, names, k, low, high);
      r.Some? ==>
        && ts[r.value.pos] == RightAngle && ContentsAt(ts, L, pos, r.value.pos, low, high, r.value.value, false)
        && New(ChildVariables(r.value.value), names)
        && r.value.names == names + VarSet(ChildVariables(r.value.value))
    decreases |ts| - pos, 2
  {
    hide ReadElements, New, VarSet, ListOk;
    NoneNew(names);
    ElementsFound(ts, pos, pos, names, names, k, []);
    var r := ReadList(ts, pos, names, k, low, high);
    if r.Some? {
      assert ChildVariables(r.value.value) == ListVariables(r.value.value.items);
    }
  }

  // Whatever is of this format is accepted

  lemma CellsSplit(kind: Kind, ts: seq<Token>, from: nat, to: nat, cells: seq<Cell>, strict: bool)
    requires CellsAt(kind, ts, from, to, cells, strict)
    ensures to <= |ts| && (cells == [] ==> from == to && CellNames(cells) == [])
    ensures cells != [] ==>
      && from < to && CellsAt(kind, ts, from, to - 1, Front(cells), strict)
      && IsCell(kind, ts[to - 1], Last(cells), strict)
  {
    hide IsCell;
    if cells != [] {
      assert ts[to - 1] == ts[from + (|cells| - 1)];
    }
  }

  lemma {:induction false} CellsAccepted(kind: Kind, ts: seq<Token>, from: nat, to: nat, cells: seq<Cell>,
                                         names: set<Name>)
    requires CellsAt(kind, ts, from, to, cells, false) && forall c | c in cells && c.Lit? :: kind.Fits(c.value)
    requires Unseen(CellNames(cells), names)
    ensures ReadCells(kind, ts, from, names, []) == ReadCells(kind, ts, to, names + VarSet(CellNames(cells)), cells)
    decreases |cells|
  {
    hide ReadCells, Unseen, Kind.Fits, VarSet, IsCell, CellNames, CellsAt;
    NoNames(names);
    CellsSplit(kind, ts, from, to, cells, false);
    if cells != [] {
      var front, last := Front(cells), Last(cells);
      assert cells == front + [last] && last in cells;
      CellNamesSnoc(front, last);
      UnseenConcat(CellNames(front), CellName(last), names);
      VarSetAdded(names, CellNames(front), CellName(last));
      CellsAccepted(kind, ts, from, to - 1, front, names);
      CellAccepted(kind, ts, to - 1, front, last, names + VarSet(CellNames(front)));
    }
  }

  lemma CellAccepted(kind: Kind, ts: seq<Token>, pos: nat, front: seq<Cell>, last: Cell, names: set<Name>)
    requires pos < |ts| && IsCell(kind, ts[pos], last, false) && (last.Lit? ==> kind.Fits(last.value))
    requires Unseen(CellName(last), names)
    ensures ReadCells(kind, ts, pos, names, front)
         == ReadCells(kind, ts, pos + 1, names + VarSet(CellName(last)), front + [last])
  {
    if last.Lit? {
      NoNames(names);
    } else {
      assert last.name in CellName(last);
      OneVar(last.name, names);
    }
  }

  /** Numbers that continue a count can be split where one wishes. */
  lemma CountedSplit(a: seq<Name>, b: seq<Name>, k: nat, next: nat) returns (mid: nat)
    requires Counted(a + b, k, next)
    ensures Counted(a, k, mid) && Counted(b, mid, next)
  {
    hide EllipsesOf, Numbered;
    var e, n := |EllipsesOf(a)|, next - k;
    EllipsesOfConcat(a, b);
    NumberedLength(k, n);
    NumberedConcat(k, e, n - e, true);
    NumberedLength(k, e);
    mid := k + e;
    assert EllipsesOf(a) == (EllipsesOf(a) + EllipsesOf(b))[..e];
    assert EllipsesOf(b) == (EllipsesOf(a) + EllipsesOf(b))[e..];
  }

  lemma {:induction false} ElementsAccepted(ts: seq<Token>, from: nat, to: nat, items: seq<Item>, names: set<Name>,
                                            k: nat, next: nat)
    requires ElementsAt(ts, from, to, items, false) && (forall c | c in items :: Rep(c))
    requires items != [] ==> !IsOwnEllipsis(items[0])
    requires Unseen(ListVariables(items), names) && Counted(ListVariables(items), k, next)
    ensures ReadElements(ts, from, names, k, [])
         == ReadElements(ts, to, names + VarSet(ListVariables(items)), next, items)
    decreases items, 0
  {
    hide ElementAt, Rep, Unseen, Counted, ReadElements, VarSet, ChildVariables;
    NoNames(names);
    if items == [] {
      NoneLeft(k, next);
    } else {
      var front, last := Front(items), Last(items);
      assert items == front + [last] && last in items;
      var cut: nat :| from <= cut <= to && ElementsAt(ts, from, cut, front, false) &&
        ElementAt(ts, cut, to, last, false);
      UnseenConcat(ListVariables(front), ChildVariables(last), names);
      VarSetAdded(names, ListVariables(front), ChildVariables(last));
      var mid := CountedSplit(ListVariables(front), ChildVariables(last), k, next);
      ElementsAccepted(ts, from, cut, front, names, k, mid);
      ElementAccepted(ts, cut, to, front, last, names + VarSet(ListVariables(front)), mid, next);
    }
  }

  lemma NoneLeft(k: nat, next: nat)
    ensures Counted([], k, next) <==> k == next
  {
    if k <= next {
      NumberedLength(k, next - k);
    }
    assert EllipsesOf([]) == [];
  }

  lemma {:induction false} ElementAccepted(ts: seq<Token>, from: nat, to: nat, before: seq<Item>, item: Item,
                                           names: set<Name>, k: nat, next: nat)
    requires ElementAt(ts, from, to, item, false) && Rep(item) && (IsOwnEllipsis(item) ==> before != [])
    requires Unseen(ChildVariables(item), names) && Counted(ChildVariables(item), k, next)
    ensures ReadElements(ts, from, names, k, before)
         == ReadElements(ts, to, names + VarSet(ChildVariables(item)), next, before + [item])
    decreases item, 3
  {
    hide Rep, Unseen, Counted, ReadElements, VarSet, ChildVariables, ItemAt;
    if item.Slot? {
      SlotAccepted(ts, from, before, item.name, names, k, next);
    } else {
      ItemAccepted(ts, from, to, item, names, k, next);
      Opened(ts, from, to, item);
      ChildElement(item, ts, from, names, k, before);
    }
  }

  lemma Opened(ts: seq<Token>, from: nat, to: nat, item: Item)
    requires ItemAt(ts, from, to, item, false)
    ensures Next(ts, from, LeftAngle)
  {
    hide ContentsAt;
  }

  lemma SlotAccepted(ts: seq<Token>, pos: nat, before: seq<Item>, n: Name, names: set<Name>, k: nat, next: nat)
    requires ElementAt(ts, pos, pos + 1, Slot(n), false) && (!n.Var? ==> before != [])
    requires Unseen(ChildVariables(Slot(n)), names) && Counted(ChildVariables(Slot(n)), k, next)
    ensures ReadElements(ts, pos, names, k, before)
         == ReadElements(ts, pos + 1, names + VarSet(ChildVariables(Slot(n))), next, before + [Slot(n)])
  {
    hide EllipsesOf, Numbered, ReadElements, Distinct, VarSet;
    assert ChildVariables(Slot(n)) == [n] && n in [n];
    OneVar(n, names);
    OneName(n);
    NumberedLength(k, next - k);
    OneNumbered(k);
    SlotStep(ts, pos, before, n, names, k);
  }

  lemma SlotStep(ts: seq<Token>, pos: nat, before: seq<Item>, n: Name, names: set<Name>, k: nat)
    requires ElementAt(ts, pos, pos + 1, Slot(n), false)
    requires if n.Var? then n !in names else before != [] && n == DotsAt(k)
    ensures ReadElements(ts, pos, names, k, before)
         == if n.Var? then ReadElements(ts, pos + 1, names + {n}, k, before + [Slot(n)])
            else ReadElements(ts, pos + 1, names, k + 1, before + [Slot(n)])
  {
  }

  lemma {:induction false} ItemAccepted(ts: seq<Token>, from: nat, to: nat, item: Item, names: set<Name>, k: nat,
                                        next: nat)
    requires ItemAt(ts, from, to, item, false) && Rep(item)
    requires Unseen(ChildVariables(item), names) && Counted(ChildVariables(item), k, next)
    ensures ReadItem(ts, from, names, k) == Some(Read(item, to, names + VarSet(ChildVariables(item)), next))
    decreases item, 2
  {
    hide ReadList, ReadAscii, ReadNumbers, Unseen, Counted, VarSet, ContentsAt, ChildVariables, Rep;
    var sized := ts[from + 2].ItemSize?;
    var start := if sized then from + 3 else from + 2;
    ContentsAccepted(ts, ts[from + 1].typ, start, to - 1, if sized then ts[from + 2].low else 0,
                     if sized then ts[from + 2].high else -1, item, names, k, next);
    KindOfContents(ts, ts[from + 1].typ, start, to - 1, if sized then ts[from + 2].low else 0,
                   if sized then ts[from + 2].high else -1, item);
  }

  lemma KindOfContents(ts: seq<Token>, typ: ItemType, from: nat, to: nat, low: nat, high: int, item: Item)
    requires ContentsAt(ts, typ, from, to, low, high, item, false)
    ensures from <= |ts| && (typ == L <==> item.List?) && (typ == A <==> item.Ascii? || item.AsciiVar?)
    ensures typ.Of? <==> item.Numbers? && typ.kind == item.kind
  {
    hide TextOf, CellsAt, ElementsAt;
  }

  lemma {:induction false} ContentsAccepted(ts: seq<Token>, typ: ItemType, from: nat, to: nat, low: nat, high: int,
                                            item: Item, names: set<Name>, k: nat, next: nat)
    requires ContentsAt(ts, typ, from, to, low, high, item, false) && to < |ts| && ts[to] == RightAngle && Rep(item)
    requires Unseen(ChildVariables(item), names) && Counted(ChildVariables(item), k, next)
    ensures (match typ
             case L => ReadList(ts, from, names, k, low, high)
             case A => ReadAscii(ts, from, names, k, low, high)
             case Of(kind) => ReadNumbers(kind, ts, from, names, k, low, high))
         == Some(Read(item, to, names + VarSet(ChildVariables(item)), next))
    decreases item, 1
  {
    hide Unseen, Counted, VarSet, TextOf, ReadText, ReadCells, ReadElements, CellsAt, ElementsAt, Distinct;
    match item
    case Ascii(text) =>
      assert ChildVariables(item) == [];
      NoNames(names);
      NoneLeft(k, next);
      TextAccepted(ts, from, to, text);
    case AsciiVar(n, _, _) =>
      assert ChildVariables(item) == [n] && n in [n];
      OneVar(n, names);
      OnlyVariable(n, names, k, next);
    case Numbers(kind, cells) =>
      assert ChildVariables(item) == CellNames(cells);
      HolesCounted(kind, ts, from, to, cells, k, next);
      CellsAccepted(kind, ts, from, to, cells, names);
      ClosedCells(kind, cells, ts, to, names + VarSet(CellNames(cells)));
    case List(items) =>
      assert ChildVariables(item) == ListVariables(items);
      FirstItem(items);
      ElementsAccepted(ts, from, to, items, names, k, next);
      ClosedElements(ts, to, names + VarSet(ListVariables(items)), next, items);
  }

  lemma OnlyVariable(n: Name, names: set<Name>, k: nat, next: nat)
    requires n.Var? && Unseen([n], names) && Counted([n], k, next)
    ensures n !in names && k == next
  {
    hide EllipsesOf, Numbered, Distinct;
    assert n in [n];
    OneName(n);
    NumberedLength(k, next - k);
  }

  lemma HolesCounted(kind: Kind, ts: seq<Token>, from: nat, to: nat, cells: seq<Cell>, k: nat, next: nat)
    requires CellsAt(kind, ts, from, to, cells, false) && Counted(CellNames(cells), k, next)
    ensures k == next
  {
    hide EllipsesOf, Numbered;
    forall c | c in cells && c.Hole? ensures c.name.Var? {
      var i :| 0 <= i < |cells| && cells[i] == c;
      assert IsCell(kind, ts[from + i], cells[i], false);
    }
    HolesOnly(cells);
    NoEllipses(CellNames(cells));
    NumberedLength(k, next - k);
  }

  lemma TextAccepted(ts: seq<Token>, from: nat, to: nat, text: seq<byte>)
    requires from <= to < |ts| && ts[to] == RightAngle && TextOf(ts[from..to]) == Some(text)
    ensures ReadText(ts, from, []) == Some(Read(text, to, {}, 0)) && !ts[from].Variable?
  {
    hide TextOf, ReadText, ReadString;
    TextRead(ts[from..to], ts, from);
    ClosedText(text, ts, to);
    NoVariableFirst(ts[from..to]);
  }

  lemma {:induction false} NoVariableFirst(ts: seq<Token>)
    requires TextOf(ts).Some?
    ensures ts != [] ==> !ts[0].Variable?
  {
    hide ReadString;
    if |ts| > 1 {
      NoVariableFirst(Front(ts));
    }
  }

  /**
   * An item is read from its texts and from no others: with any size that bounds it, its text split and escaped in any
   * way, its names new in the message, and its ellipses numbered on from those before.
   */
  lemma ReadIff(ts: seq<Token>, pos: nat, names: set<Name>, k: nat, item: Item, end: nat, next: nat)
    ensures ReadItem(ts, pos, names, k) == Some(Read(item, end, names + VarSet(ChildVariables(item)), next)) <==>
      && ItemAt(ts, pos, end, item, false) && Rep(item)
      && New(ChildVariables(item), names) && Counted(ChildVariables(item), k, next)
  {
    hide ReadItem, ItemAt, VarSet, ChildVariables, Rep, Counted, Distinct;
    ItemFound(ts, pos, names, k);
    ItemRead(ts, pos, names, k);
    if ItemAt(ts, pos, end, item, false) && Rep(item) && New(ChildVariables(item), names)
      && Counted(ChildVariables(item), k, next) {
      DistinctVariables(item);
      ItemAccepted(ts, pos, end, item, names, k, next);
    }
  }

  // What the printer writes is the strict form

  lemma {:induction false} CellsPrinted(kind: Kind, cells: seq<Cell>, ts: seq<Token>, pos: nat)
    requires (forall c | c in cells :: CellPrintable(kind, c)) && TokensAt(ts, pos, CellsTokens(kind, cells))
    ensures CellsAt(kind, ts, pos, pos + |CellsTokens(kind, cells)|, cells, true)
  {
    hide Reserved, TokensAt, IsCell, CellsAt, CellTokens, CellPrintable;
    if cells == [] {
      NoTokensAt(ts, pos);
      NoCells(kind, ts, pos);
    } else {
      var front, last := Front(cells), Last(cells);
      assert last in cells && cells == front + [last];
      TokensConcat(ts, pos, CellsTokens(kind, front), CellTokens(kind, last));
      CellsPrinted(kind, front, ts, pos);
      CellPrinted(kind, last, ts, pos + |CellsTokens(kind, front)|);
      CellsJoined(kind, ts, pos, pos + |CellsTokens(kind, front)|, front, last, true);
    }
  }

  lemma NoCells(kind: Kind, ts: seq<Token>, pos: nat)
    requires pos <= |ts|
    ensures CellsAt(kind, ts, pos, pos, [], true)
  {
  }

  lemma NoTokensAt(ts: seq<Token>, pos: nat)
    requires TokensAt(ts, pos, [])
    ensures pos <= |ts|
  {
  }

  lemma CellPrinted(kind: Kind, cell: Cell, ts: seq<Token>, pos: nat)
    requires CellPrintable(kind, cell) && TokensAt(ts, pos, CellTokens(kind, cell))
    ensures |CellTokens(kind, cell)| == 1 && pos < |ts| && IsCell(kind, ts[pos], cell, true)
  {
    hide Reserved, TokensAt;
    TokenAt(ts, pos, CellTokens(kind, cell), 0);
  }

  lemma {:induction false} TextRuns(text: seq<byte>)
    requires forall i | 0 <= i < |text| :: text[i] < 128
    ensures AreRuns(TextTokens(text))
  {
    hide AreRuns;
    NoRuns();
    if text != [] {
      var ts, c := TextTokens(Front(text)), Last(text);
      TextRuns(Front(text));
      if !IsPrintable(c) {
        RunsSnoc(ts, Number(Some(c)));
      } else if ts != [] && Last(ts).Quoted? {
        LongerRun(ts, c);
      } else {
        RunsSnoc(ts, Quoted([c]));
      }
    }
  }

  lemma RunsSnoc(ts: seq<Token>, t: Token)
    requires AreRuns(ts) && IsRun(t) && (ts != [] && Last(ts).Quoted? ==> !t.Quoted?)
    ensures AreRuns(ts + [t])
  {
    var all := ts + [t];
    forall i | 0 <= i < |all| ensures IsRun(all[i]) && (all[i].Quoted? && i + 1 < |all| ==> !all[i + 1].Quoted?) {
      if i < |ts| {
        assert all[i] == ts[i];
      }
    }
  }

  lemma LongerRun(ts: seq<Token>, c: byte)
    requires AreRuns(ts) && ts != [] && Last(ts).Quoted? && 32 <= c < 127
    ensures AreRuns(Front(ts) + [Quoted(Last(ts).chars + [c])])
  {
    var front := Front(ts);
    forall i | 0 <= i < |front|
      ensures IsRun(front[i]) && (i + 1 < |front| ==> !(front[i].Quoted? && front[i + 1].Quoted?))
    {
      assert front[i] == ts[i];
    }
    assert front != [] ==> Last(front) == ts[|ts| - 2] && Last(ts) == ts[|ts| - 1];
    assert IsRun(Last(ts));
    RunsSnoc(front, Quoted(Last(ts).chars + [c]));
  }

  /** A printable item is printed in this form, whatever stands around it. */
  lemma {:induction false} PrintedAt(item: Item, ts: seq<Token>, pos: nat)
    requires Rep(item) && Printable(item) && !item.Slot? && TokensAt(ts, pos, ItemTokens(item))
    ensures ItemAt(ts, pos, pos + |ItemTokens(item)|, item, true)
    decreases item, 1
  {
    hide TokensAt, CellsTokens, TextTokens, ItemsTokens, NameTokens, LengthTokens, Reserved, CellsOk, ListOk, TextOf,
      AreRuns, CellsAt, ElementsAt;
    match item
    case Ascii(text) =>
      TextPrinted(text, ts, pos);
    case AsciiVar(n, min, max) =>
      VariablePrinted(n, min, max, ts, pos);
    case Numbers(kind, cells) =>
      var size, body := [ItemSize(|cells|, |cells|)], CellsTokens(kind, cells);
      assert ItemTokens(item) == [LeftAngle, TypeName(Of(kind))] + size + body + [RightAngle];
      Framed(Of(kind), size, body, ts, pos);
      TokenAt(ts, pos, ItemTokens(item), 2);
      CellsPrintable(kind, cells);
      CellsPrinted(kind, cells, ts, pos + 3);
    case List(items) =>
      ListPrinted(items, ts, pos);
  }

  lemma CellsPrintable(kind: Kind, cells: seq<Cell>)
    requires Rep(Numbers(kind, cells)) && Printable(Numbers(kind, cells))
    ensures forall c | c in cells :: CellPrintable(kind, c)
  {
  }

  lemma TextPrinted(text: seq<byte>, ts: seq<Token>, pos: nat)
    requires Rep(Ascii(text)) && PrintableText(text) && TokensAt(ts, pos, ItemTokens(Ascii(text)))
    ensures ItemAt(ts, pos, pos + |ItemTokens(Ascii(text))|, Ascii(text), true)
  {
    hide TokensAt, TextTokens, TextOf, PrintableText, AreRuns;
    AsciiCodes(text);
    TextMeaning(text);
    TextRuns(text);
    if text == [] {
      assert ItemTokens(Ascii(text)) == [LeftAngle, TypeName(A)] + [ItemSize(0, 0)] + [] + [RightAngle];
      Framed(A, [ItemSize(0, 0)], [], ts, pos);
      TokenAt(ts, pos, ItemTokens(Ascii(text)), 2);
      NothingMeant();
      NoRuns();
      assert ts[pos + 3..pos + 3] == [];
    } else {
      var body := TextTokens(text);
      NoSizeFirst(text);
      assert ItemTokens(Ascii(text)) == [LeftAngle, TypeName(A)] + [] + body + [RightAngle];
      Framed(A, [], body, ts, pos);
      TokenAt(ts, pos + 2, body, 0);
      WhereAt(ts, pos + 2, body);
    }
  }

  lemma NoRuns()
    ensures AreRuns([])
  {
  }

  lemma WhereAt(ts: seq<Token>, pos: nat, seg: seq<Token>)
    requires TokensAt(ts, pos, seg)
    ensures pos + |seg| <= |ts| && ts[pos..pos + |seg|] == seg
  {
  }

  lemma VariablePrinted(n: Name, min: int, max: int, ts: seq<Token>, pos: nat)
    requires var item := AsciiVar(n, min, max);
      Rep(item) && Printable(item) && TokensAt(ts, pos, ItemTokens(item))
    ensures var item := AsciiVar(n, min, max); ItemAt(ts, pos, pos + |ItemTokens(item)|, item, true)
  {
    hide Reserved, TokensAt;
    var size := LengthTokens(min, max);
    assert ItemTokens(AsciiVar(n, min, max)) == [LeftAngle, TypeName(A)] + size + [Variable(n)] + [RightAngle];
    Framed(A, size, [Variable(n)], ts, pos);
    TokenAt(ts, pos + 2 + |size|, [Variable(n)], 0);
    TokenAt(ts, pos, ItemTokens(AsciiVar(n, min, max)), 2);
  }

  lemma {:induction false} ListPrinted(items: seq<Item>, ts: seq<Token>, pos: nat)
    requires Rep(List(items)) && Printable(List(items)) && TokensAt(ts, pos, ItemTokens(List(items)))
    ensures ItemAt(ts, pos, pos + |ItemTokens(List(items))|, List(items), true)
    decreases items, 2
  {
    hide TokensAt, ItemsTokens, ListOk, ElementsAt;
    FirstItem(items);
    var size, body := if HasSlot(items) then [] else [ItemSize(|items|, |items|)], ItemsTokens(items);
    assert ItemTokens(List(items)) == [LeftAngle, TypeName(L)] + size + body + [RightAngle];
    NoSizeBefore(items);
    Framed(L, size, body, ts, pos);
    TokenAt(ts, pos, ItemTokens(List(items)), 2);
    ElementsPrinted(items, ts, pos + 2 + |size|);
  }

  lemma {:induction false} ElementsPrinted(items: seq<Item>, ts: seq<Token>, pos: nat)
    requires (forall c | c in items :: Rep(c) && Printable(c)) && TokensAt(ts, pos, ItemsTokens(items))
    ensures ElementsAt(ts, pos, pos + |ItemsTokens(items)|, items, true)
    decreases items, 0
  {
    hide Rep, Printable, TokensAt, ItemTokens, ElementAt;
    if items == [] {
      NoTokensAt(ts, pos);
    } else {
      var front, last := Front(items), Last(items);
      assert last in items;
      TokensConcat(ts, pos, ItemsTokens(front), ItemTokens(last));
      ElementsPrinted(front, ts, pos);
      ElementPrinted(last, ts, pos + |ItemsTokens(front)|);
    }
  }

  lemma {:induction false} ElementPrinted(item: Item, ts: seq<Token>, pos: nat)
    requires Rep(item) && Printable(item) && TokensAt(ts, pos, ItemTokens(item))
    ensures ElementAt(ts, pos, pos + |ItemTokens(item)|, item, true)
    decreases item, 3
  {
    hide Reserved, TokensAt, Rep, ItemAt;
    if item.Slot? {
      TokenAt(ts, pos, NameTokens(item.name), 0);
    } else {
      PrintedAt(item, ts, pos);
    }
  }

  // Reserved words

  /** The words for item types and truth values. */
  predicate IsWordFor(w: string, t: Token) {
    match t
    case TypeName(L) => w == "L"
    case TypeName(A) => w == "A"
    case TypeName(Of(Binary)) => w == "B"
    case TypeName(Of(Boolean)) => w == "BOOLEAN"
    case TypeName(Of(Float4)) => w == "F4"
    case TypeName(Of(Float8)) => w == "F8"
    case TypeName(Of(Signed(size))) => w == ['I', '0' + size as char]
    case TypeName(Of(Unsigned(size))) => w == ['U', '0' + size as char]
    case Bool(b) => w == if b then "T" else "F"
    case _ => false
  }

  /** In upper or lower case, they are no names of variables, and nothing else is reserved. */
  lemma ReservedIff(word: string, t: Token)
    ensures Reserved(word) == Some(t) <==> IsWordFor(Uppercase(word), t)
  {
    hide Uppercase;
    var w := Uppercase(word);
    if IsWordFor(w, t) {
      assert |w| == 1 || |w| == 2 || |w| == 7;
    }
  }

  /** A variable named by such a word is printed as that word, and each of its indices as a size. */
  lemma ReservedPrinted(n: Name, t: Token, i: nat)
    requires n.Var? && IsWordFor(Uppercase(n.base), t) && i < |n.indices|
    ensures |NameTokens(n)| == 1 + |n.indices| && NameTokens(n)[0] == t
    ensures NameTokens(n)[1 + i] == ItemSize(n.indices[i], n.indices[i])
  {
    hide Reserved, IsWordFor;
    ReservedIff(n.base, t);
    SizesAt(n.indices, i);
  }

  lemma {:induction false} SizesAt(indices: seq<nat>, i: nat)
    requires i < |indices|
    ensures |Sizes(indices)| == |indices| && Sizes(indices)[i] == ItemSize(indices[i], indices[i])
  {
    if |indices| > 1 {
      SizesAt(indices[..|indices| - 1], if i < |indices| - 1 then i else 0);
    }
  }

  // Messages

  predicate WaitAt(ts: seq<Token>, from: nat, to: nat, waitBit: int) {
    if from == to then waitBit == 0
    else from + 1 == to <= |ts| && ts[from].WaitBit? && waitBit == (if ts[from].optional then 2 else 1)
  }

  predicate DirectionAt(ts: seq<Token>, from: nat, to: nat, direction: string, strict: bool) {
    if from == to then direction == "H<->E" && !strict else from + 1 == to <= |ts| && ts[from] == Direction(direction)
  }

  predicate NameAt(ts: seq<Token>, from: nat, to: nat, name: string, strict: bool) {
    if from == to then name == ""
    else from + 1 == to <= |ts| && ts[from] == MessageName(name) && (strict ==> name != "")
  }

  /** Stream and function, then a wait bit, a direction and a name, as far as they are given. */
  predicate HeaderAt(ts: seq<Token>, from: nat, to: nat, m: Message, strict: bool) {
    && m.Data? && from < |ts| && ts[from].StreamFunction?
    && m.stream == ts[from].stream && m.function_ == ts[from].function_
    && exists p: nat, q: nat | from < p <= q <= to ::
      && WaitAt(ts, from + 1, p, m.waitBit) && DirectionAt(ts, p, q, m.direction, strict)
      && NameAt(ts, q, to, m.name, strict)
  }

  predicate BodyAt(ts: seq<Token>, from: nat, to: nat, item: Item, strict: bool) {
    if item.Empty? then from == to else ItemAt(ts, from, to, item, strict)
  }

  /** A header, an item or none, and a full stop. */
  predicate MessageAt(ts: seq<Token>, from: nat, to: nat, m: Message, strict: bool) {
    && m.Data? && from < to <= |ts| && ts[to - 1] == MessageEnd
    && exists start: nat | from < start < to ::
      HeaderAt(ts, from, start, m, strict) && BodyAt(ts, start, to - 1, m.item, strict)
  }

  predicate MessagesAt(ts: seq<Token>, from: nat, ms: seq<Message>)
    decreases |ms|
  {
    if ms == [] then from == |ts|
    else exists to: nat | from < to <= |ts| ::
        MessageAt(ts, from, to, ms[0], false) && WellFormed(ms[0]) && MessagesAt(ts, to, ms[1..])
  }

  /** What a header is read as, with nothing behind it yet. */
  predicate IsHeaderOf(h: Message, m: Message) {
    m.Data? && m.sessionId == -1 && m.system == NO_SYSTEM && h == m.(item := Empty)
  }

  lemma HeaderFound(ts: seq<Token>, pos: nat, m: Message)
    requires var h := ReadHeader(ts, pos); h.Some? && IsHeaderOf(h.value.message, m)
    ensures var to := ReadHeader(ts, pos).value.pos; pos < to <= |ts| && HeaderAt(ts, pos, to, m, false)
  {
    var p := ReadWait(ts, pos + 1).1;
    var q := ReadDirection(ts, p).1;
    var to := ReadName(ts, q).1;
    assert WaitAt(ts, pos + 1, p, m.waitBit);
    assert DirectionAt(ts, p, q, m.direction, false);
    assert NameAt(ts, q, to, m.name, false);
  }

  lemma HeaderAccepted(ts: seq<Token>, from: nat, to: nat, m: Message)
    requires HeaderAt(ts, from, to, m, false) && m.sessionId == -1 && m.system == NO_SYSTEM
    requires to < |ts| && (ts[to] == LeftAngle || ts[to] == MessageEnd)
    ensures ReadHeader(ts, from) == Some(ReadMessage(m.(item := Empty), to))
  {
    var p: nat, q: nat :| from < p <= q <= to && WaitAt(ts, from + 1, p, m.waitBit)
      && DirectionAt(ts, p, q, m.direction, false) && NameAt(ts, q, to, m.name, false);
    assert ReadWait(ts, from + 1) == (m.waitBit, p);
    assert ReadDirection(ts, p) == (m.direction, q);
    assert ReadName(ts, q) == (m.name, to);
  }

  lemma MessageFound(ts: seq<Token>, pos: nat)
    requires ReadOne(ts, pos).Some?
    ensures var r := ReadOne(ts, pos).value; MessageAt(ts, pos, r.pos, r.message, false)
  {
    hide ReadHeader, ReadItem, HeaderAt, ItemAt, DataOk, New, VarSet;
    var r := ReadOne(ts, pos).value;
    HeaderRead(ts, pos);
    HeaderEmpty(ts, pos);
    HeaderFound(ts, pos, r.message);
    var start := ReadHeader(ts, pos).value.pos;
    ItemFound(ts, start, {}, 0);
    ItemRead(ts, start, {}, 0);
    assert BodyAt(ts, start, r.pos - 1, r.message.item, false);
  }

  lemma HeaderEmpty(ts: seq<Token>, pos: nat)
    ensures var h := ReadHeader(ts, pos); h.Some? ==> h.value.message.Data? && h.value.message.item == Empty
  {
  }

  lemma BodyAccepted(ts: seq<Token>, from: nat, to: nat, item: Item)
    requires BodyAt(ts, from, to, item, false) && to < |ts| && ts[to] == MessageEnd && Rep(item)
    requires item.Empty? || InOrder(Variables(item), 0, |EllipsesOf(Variables(item))|)
    ensures (ts[from] == LeftAngle || ts[from] == MessageEnd) && ReadBody(ts, from).Some?
    ensures var r := ReadBody(ts, from).value; r.value == item && r.pos == to
  {
    hide ReadItem, ItemAt, Rep, EllipsesOf, Numbered, VarSet, Distinct;
    if !item.Empty? {
      DistinctVariables(item);
      assert ChildVariables(item) == Variables(item);
      ItemAccepted(ts, from, to, item, {}, 0, |EllipsesOf(Variables(item))|);
      Opened(ts, from, to, item);
    }
  }

  lemma MessageAccepted(ts: seq<Token>, from: nat, to: nat, m: Message)
    requires MessageAt(ts, from, to, m, false) && WellFormed(m)
    ensures ReadOne(ts, from) == Some(ReadMessage(m, to))
  {
    hide ReadHeader, ReadBody, HeaderAt, BodyAt, DataOk, Rep, EllipsesOf, Distinct, InOrder;
    var start: nat :| from < start < to && HeaderAt(ts, from, start, m, false) &&
      BodyAt(ts, start, to - 1, m.item, false);
    BodyAccepted(ts, start, to - 1, m.item);
    HeaderAccepted(ts, from, start, m);
  }

  lemma {:induction false} MessagesFound(ts: seq<Token>, pos: nat)
    requires pos <= |ts| && ReadAll(ts, pos).Some?
    ensures MessagesAt(ts, pos, ReadAll(ts, pos).value)
    decreases |ts| - pos
  {
    hide ReadOne, MessageAt, WellFormed;
    if pos < |ts| {
      MessageFound(ts, pos);
      MessageRead(ts, pos);
      MessagesFound(ts, ReadOne(ts, pos).value.pos);
      assert ReadAll(ts, pos).value[1..] == ReadAll(ts, ReadOne(ts, pos).value.pos).value;
    }
  }

  lemma {:induction false} MessagesAccepted(ts: seq<Token>, pos: nat, ms: seq<Message>)
    requires MessagesAt(ts, pos, ms)
    ensures ReadAll(ts, pos) == Some(ms)
    decreases |ms|
  {
    hide ReadOne, MessageAt, WellFormed;
    if ms != [] {
      var to: nat :| pos < to <= |ts| && MessageAt(ts, pos, to, ms[0], false) && WellFormed(ms[0])
        && MessagesAt(ts, to, ms[1..]);
      MessageAccepted(ts, pos, to, ms[0]);
      MessagesAccepted(ts, to, ms[1..]);
      assert ms == [ms[0]] + ms[1..];
    }
  }

  /** An input is read as just the messages it spells out; any other is an error. */
  lemma InputReadIff(ts: seq<Token>, ms: seq<Message>)
    ensures ReadAll(ts, 0) == Some(ms) <==> MessagesAt(ts, 0, ms)
  {
    hide ReadAll, MessagesAt;
    if ReadAll(ts, 0).Some? {
      MessagesFound(ts, 0);
    }
    if MessagesAt(ts, 0, ms) {
      MessagesAccepted(ts, 0, ms);
    }
  }

  /** A printable message is printed in the strict form. */
  lemma MessagePrinted(m: Message)
    requires PrintableMessage(m)
    ensures MessageAt(MessageTokens(m), 0, |MessageTokens(m)|, m, true)
  {
    hide Rep, Printable, ItemTokens, ItemAt;
    var ts, head, body := MessageTokens(m), HeaderTokens(m), ItemTokens(m.item);
    assert ts == head + body + [MessageEnd];
    assert TokensAt(ts, |head|, body);
    HeaderPrinted(m);
    if m.item.Empty? {
      NoTokens();
    } else {
      PrintedAt(m.item, ts, |head|);
    }
    assert BodyAt(ts, |head|, |ts| - 1, m.item, true);
  }

  lemma HeaderPrinted(m: Message)
    requires m.Data? && MessageOk(m)
    ensures |HeaderTokens(m)| > 0 && HeaderAt(MessageTokens(m), 0, |HeaderTokens(m)|, m, true)
  {
    hide Rep, ItemTokens;
    var ts, head := MessageTokens(m), HeaderTokens(m);
    assert forall i | 0 <= i < |head| :: ts[i] == head[i];
    var p := if m.waitBit == 0 then 1 else 2;
    assert WaitAt(ts, 1, p, m.waitBit);
    assert DirectionAt(ts, p, p + 1, m.direction, true);
    assert NameAt(ts, p + 1, |head|, m.name, true);
  }
}
