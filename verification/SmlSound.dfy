/** What every input that is read without an error yields, whether it was printed or not. */
module SmlSound {
  import opened Wrappers
  import opened Names
  import opened Items
  import opened Messages
  import opened Numbering
  import opened SmlPrinting
  import opened SmlReading
  import opened SmlRoundTrip

  /** `names` holds, among others, ellipses numbered from `k` up to but not including `next`. */
  predicate Counted(names: seq<Name>, k: nat, next: nat) {
    k <= next && EllipsesOf(names) == Numbered(k, next - k, true)
  }

  lemma CountedConcat(a: seq<Name>, b: seq<Name>, k: nat, mid: nat, next: nat)
    requires Counted(a, k, mid) && Counted(b, mid, next)
    ensures Counted(a + b, k, next)
  {
    Joined(a, b, k, mid - k, next - mid, true);
  }

  lemma NoneCounted(names: seq<Name>, k: nat)
    requires forall n | n in names :: n.Var?
    ensures Counted(names, k, k)
  {
    NoEllipses(names);
    OneNumbered(k);
  }

  lemma OneCounted(k: nat)
    ensures Counted([DotsAt(k)], k, k + 1)
  {
    OneName(DotsAt(k));
    OneNumbered(k);
  }

  lemma {:induction false} CellsRead(kind: Kind, ts: seq<Token>, pos: nat, names: set<Name>, cells: seq<Cell>)
    requires forall c | c in cells && c.Hole? :: c.name.Var?
    ensures var r := ReadCells(kind, ts, pos, names, cells);
      r.Some? ==> forall c | c in r.value.value && c.Hole? :: c.name.Var?
    decreases |ts| - pos
  {
    hide Kind.Fits;
    if pos < |ts| {
      match ts[pos]
      case Variable(n) =>
        if n !in names {
          CellsRead(kind, ts, pos + 1, names + {n}, cells + [Hole(n)]);
        }
      case Number(value) =>
        if ReadNumber(kind, value).Some? {
          CellsRead(kind, ts, pos + 1, names, cells + [Lit(ReadNumber(kind, value).value)]);
        }
      case Bool(b) =>
        if kind == Boolean {
          CellsRead(kind, ts, pos + 1, names, cells + [Lit(if b then 1 else 0)]);
        }
      case _ =>
    }
  }

  /** An item read: its factories accepted it, and its ellipses are numbered on from those before. */
  predicate WellRead(item: Item, k: nat, next: nat) {
    Rep(item) && !item.Slot? && !item.Empty? && Counted(ChildVariables(item), k, next)
  }

  predicate WellReadAll(items: seq<Item>, k: nat, next: nat) {
    (forall i | 0 <= i < |items| :: Rep(items[i]) && !items[i].Empty?) && Counted(ListVariables(items), k, next)
  }

  lemma AsciiRead(ts: seq<Token>, pos: nat, names: set<Name>, k: nat, low: nat, high: int)
    ensures var r := ReadAscii(ts, pos, names, k, low, high);
      r.Some? ==> r.value.ellipses == k && WellRead(r.value.value, k, k)
  {
    hide ReadText, Counted;
    var r := ReadAscii(ts, pos, names, k, low, high);
    if r.Some? {
      var item := r.value.value;
      assert item.AsciiVar? ==> ChildVariables(item) == [item.name];
      assert item.Ascii? ==> ChildVariables(item) == [];
      NoneCounted(ChildVariables(item), k);
    }
  }

  lemma NumbersRead(kind: Kind, ts: seq<Token>, pos: nat, names: set<Name>, k: nat, low: nat, high: int)
    ensures var r := ReadNumbers(kind, ts, pos, names, k, low, high);
      r.Some? ==> r.value.ellipses == k && WellRead(r.value.value, k, k)
  {
    hide ReadCells, Counted, CellsOk;
    CellsRead(kind, ts, pos, names, []);
    var r := ReadNumbers(kind, ts, pos, names, k, low, high);
    if r.Some? {
      HolesOnly(r.value.value.cells);
      NoneCounted(CellNames(r.value.value.cells), k);
      assert ChildVariables(r.value.value) == CellNames(r.value.value.cells);
    }
  }

  lemma Append(items: seq<Item>, item: Item, k: nat, mid: nat, next: nat)
    requires WellReadAll(items, k, mid) && Rep(item) && !item.Empty? && Counted(ChildVariables(item), mid, next)
    ensures WellReadAll(items + [item], k, next)
  {
    hide Rep, Counted;
    ListVariablesSnoc(items, item);
    CountedConcat(ListVariables(items), ChildVariables(item), k, mid, next);
  }

  lemma {:induction false} ElementsRead(ts: seq<Token>, pos: nat, names: set<Name>, next: nat, items: seq<Item>, k: nat)
    requires WellReadAll(items, k, next)
    ensures var r := ReadElements(ts, pos, names, next, items);
      r.Some? ==> WellReadAll(r.value.value, k, r.value.ellipses)
    decreases |ts| - pos, 1
  {
    hide WellReadAll, Counted, ReadItem, Rep, ChildVariables;
    if pos < |ts| {
      match ts[pos]
      case LeftAngle =>
        var child := ReadItem(ts, pos, names, next);
        if child.Some? {
          ItemRead(ts, pos, names, next);
          Append(items, child.value.value, k, next, child.value.ellipses);
          ElementsRead(ts, child.value.pos, child.value.names, child.value.ellipses, items + [child.value.value], k);
        }
      case Variable(n) =>
        if n !in names {
          SlotRead(n, next);
          Append(items, Slot(n), k, next, next);
          ElementsRead(ts, pos + 1, names + {n}, next, items + [Slot(n)], k);
        }
      case Ellipsis(_) =>
        if items != [] {
          SlotRead(DotsAt(next), next);
          Append(items, Slot(DotsAt(next)), k, next, next + 1);
          ElementsRead(ts, pos + 1, names, next + 1, items + [Slot(DotsAt(next))], k);
        }
      case _ =>
    }
  }

  lemma SlotRead(n: Name, k: nat)
    requires n.Var? || n == DotsAt(k)
    ensures Rep(Slot(n)) && Counted(ChildVariables(Slot(n)), k, if n.Var? then k else k + 1)
  {
    hide Counted;
    assert ChildVariables(Slot(n)) == [n];
    if n.Var? {
      NoneCounted([n], k);
    } else {
      OneCounted(k);
    }
  }

  lemma {:induction false} ItemRead(ts: seq<Token>, pos: nat, names: set<Name>, k: nat)
    ensures var r := ReadItem(ts, pos, names, k);
      r.Some? ==> WellRead(r.value.value, k, r.value.ellipses)
    decreases |ts| - pos, 0
  {
    hide WellRead, ReadList, ReadAscii, ReadNumbers;
    if Next(ts, pos, LeftAngle) && pos + 1 < |ts| && ts[pos + 1].TypeName? {
      var (low, high, start) := ReadSize(ts, pos + 2);
      match ts[pos + 1].typ
      case L =>
        if start <= |ts| {
          ListRead(ts, start, names, k, low, high);
        }
      case A =>
        AsciiRead(ts, start, names, k, low, high);
      case Of(kind) =>
        NumbersRead(kind, ts, start, names, k, low, high);
    }
  }

  lemma {:induction false} ListRead(ts: seq<Token>, pos: nat, names: set<Name>, k: nat, low: nat, high: int)
    ensures var r := ReadList(ts, pos, names, k, low, high);
      r.Some? ==> WellRead(r.value.value, k, r.value.ellipses)
    decreases |ts| - pos, 2
  {
    hide ReadElements, Counted, ListOk;
    NothingCounted(k);
    ElementsRead(ts, pos, names, k, [], k);
    var r := ReadList(ts, pos, names, k, low, high);
    if r.Some? {
      ListWellRead(r.value.value.items, k, r.value.ellipses);
    }
  }

  lemma NothingCounted(k: nat)
    ensures WellReadAll([], k, k)
  {
    NoneCounted([], k);
  }

  lemma ListWellRead(items: seq<Item>, k: nat, next: nat)
    requires ListOk(items) && WellReadAll(items, k, next)
    ensures WellRead(List(items), k, next)
  {
    hide Counted, ListOk;
    assert ChildVariables(List(items)) == ListVariables(items);
  }

  /**
   * In a message that was read, every name occurs once and the ellipses are numbered in order of appearance from 0
   * on.
   */
  predicate WellFormed(m: Message) {
    && m.Data? && MessageOk(m) && m.sessionId == -1 && m.system == NO_SYSTEM
    && (m.item.Empty? || (Distinct(Variables(m.item)) &&
      InOrder(Variables(m.item), 0, |EllipsesOf(Variables(m.item))|)))
  }

  lemma MessageRead(ts: seq<Token>, pos: nat)
    ensures var r := ReadOne(ts, pos); r.Some? ==> WellFormed(r.value.message)
  {
    hide ReadItem, ReadHeader, Rep, EllipsesOf, Numbered, Distinct;
    var r := ReadOne(ts, pos);
    if r.Some? {
      HeaderRead(ts, pos);
      var start := ReadHeader(ts, pos).value.pos;
      ItemRead(ts, start, {}, 0);
      if !r.value.message.item.Empty? {
        BodyRead(r.value.message.item, ReadItem(ts, start, {}, 0).value.ellipses);
      } else {
        EmptyRep();
      }
    }
  }

  lemma EmptyRep()
    ensures Rep(Empty)
  {
  }

  lemma HeaderRead(ts: seq<Token>, pos: nat)
    ensures var h := ReadHeader(ts, pos);
      h.Some? ==> h.value.message.Data? && h.value.message.sessionId == -1 && h.value.message.system == NO_SYSTEM
  {
  }

  lemma BodyRead(item: Item, next: nat)
    requires WellRead(item, 0, next)
    ensures Distinct(Variables(item)) && InOrder(Variables(item), 0, |EllipsesOf(Variables(item))|)
  {
    NumberedLength(0, next);
    DistinctVariables(item);
    assert ChildVariables(item) == Variables(item);
  }

  /** Every input without an error yields such messages only. */
  lemma {:induction false} AllWellFormed(ts: seq<Token>, pos: nat)
    ensures var r := ReadAll(ts, pos); r.Some? ==> forall i | 0 <= i < |r.value| :: WellFormed(r.value[i])
    decreases |ts| - pos
  {
    hide ReadOne, WellFormed;
    if pos < |ts| && ReadOne(ts, pos).Some? {
      MessageRead(ts, pos);
      AllWellFormed(ts, ReadOne(ts, pos).value.pos);
    }
  }

  // What does not survive

  /** A variable of a boolean item named by a reserved word is read back as a value. */
  lemma ReservedReadAsValue()
    ensures var item := Numbers(Boolean, [Hole(Var("T", []))]);
      Rep(item) && ReadItem(ItemTokens(item), 0, {}, 0) == Some(Read(Numbers(Boolean, [Lit(1)]), 5, {}, 0))
  {
    hide Reserved, ReadCells;
    var item := Numbers(Boolean, [Hole(Var("T", []))]);
    ReservedTokens();
    var ts := ItemTokens(item);
    assert ts == [LeftAngle, TypeName(Of(Boolean)), ItemSize(1, 1), Bool(true), RightAngle];
    TrueRead(ts);
    assert CellNames(Front([Lit(1)])) == [] && CellNames([Lit(1)]) == [];
  }

  lemma ReservedTokens()
    ensures Rep(Numbers(Boolean, [Hole(Var("T", []))])) && CellsTokens(Boolean, [Hole(Var("T", []))]) == [Bool(true)]
  {
    var cells := [Hole(Var("T", []))];
    assert CellNames(Front(cells)) == [] && CellsTokens(Boolean, Front(cells)) == [];
    assert CellNames(cells) == [Var("T", [])];
    assert Uppercase("T") == "T";
    assert CellTokens(Boolean, Hole(Var("T", []))) == [Bool(true)];
  }

  lemma TrueRead(ts: seq<Token>)
    requires |ts| == 5 && ts[3] == Bool(true) && ts[4] == RightAngle
    ensures ReadCells(Boolean, ts, 3, {}, []) == Some(Read([Lit(1)], 4, {}, 0))
  {
    assert ReadCells(Boolean, ts, 4, {}, [Lit(1)]) == Some(Read([Lit(1)], 4, {}, 0));
    assert [] + [Lit(1)] == [Lit(1)];
    assert ReadCells(Boolean, ts, 3, {}, []) == ReadCells(Boolean, ts, 4, {}, [] + [Lit(1)]);
  }

  /** A backslash on its own is lost without an error. */
  lemma BackslashLost()
    ensures ReadItem(ItemTokens(Ascii([92])), 0, {}, 0) == Some(Read(Ascii([]), 4, {}, 0))
  {
    assert TextTokens(Front([92])) == [];
    var ts := ItemTokens(Ascii([92]));
    assert ts == [LeftAngle, TypeName(A), Quoted([92]), RightAngle];
    assert ReadString([92]) == Some([]);
    assert ReadText(ts, 3, []) == Some(Read([], 3, {}, 0));
    assert ReadText(ts, 2, []) == ReadText(ts, 3, [] + []);
  }
}
