/** Printing a message and reading it back. */
module SmlRoundTrip {
  import opened Wrappers
  import opened Names
  import opened Items
  import opened Messages
  import Ellipsis
  import opened Numbering
  import opened SmlPrinting
  import opened SmlReading

  // Numbering the ellipses in order of appearance: the expansion in which nothing is filled in

  const NOTHING: Ellipsis.Counts := map[]

  function Renumbered(item: Item, k: nat): Item {
    Ellipsis.Expand(item, NOTHING, [], k, true)
  }

  function RenumberedAll(items: seq<Item>, k: nat): (r: seq<Item>)
    ensures |r| == |items|
  {
    Ellipsis.ExpandSeq(items, NOTHING, [], k, true)
  }

  function EllipsesIn(item: Item): nat {
    Ellipsis.Emitted(item, NOTHING)
  }

  function EllipsesInAll(items: seq<Item>): nat {
    Ellipsis.EmittedSeq(items, NOTHING)
  }

  lemma {:induction false} RenamedToItself(cells: seq<Cell>)
    ensures Ellipsis.RenameCells(cells, []) == cells
  {
    if cells != [] {
      RenamedToItself(Front(cells));
      var last := Last(cells);
      if last.Hole? && last.name.Var? {
        assert last.name.indices + [] == last.name.indices;
      }
    }
  }

  lemma RenumberedItem(item: Item, k: nat)
    requires Rep(item) && !item.Empty?
    ensures Renumbered(item, k)
         == match item
            case Slot(n) => if n.Var? then item else Slot(DotsAt(k))
            case List(items) => List(RenumberedAll(items, k))
            case _ => item
    ensures EllipsesIn(item)
         == match item
            case Slot(n) => if n.Var? then 0 else 1
            case List(items) => EllipsesInAll(items)
            case _ => 0
  {
    match item
    case Slot(n) =>
      if n.Var? {
        assert n.indices + [] == n.indices;
      }
    case AsciiVar(n, _, _) =>
      assert n.indices + [] == n.indices;
    case Numbers(_, cells) =>
      RenamedToItself(cells);
    case List(items) =>
      NothingFilled(items, k);
      assert Ellipsis.Emitted(item, NOTHING) == Ellipsis.EmittedList(items, NOTHING);
    case _ =>
  }

  lemma NothingFilled(items: seq<Item>, k: nat)
    ensures Ellipsis.ExpandList(items, NOTHING, [], k, true) == RenumberedAll(items, k)
    ensures Ellipsis.EmittedList(items, NOTHING) == EllipsesInAll(items)
  {
    hide Ellipsis.ExpandSeq, Ellipsis.EmittedSeq;
    assert Ellipsis.FilledAt(items, NOTHING) == |items|;
  }

  lemma RenumberedSnoc(items: seq<Item>, k: nat)
    requires items != []
    ensures RenumberedAll(items, k) ==
      RenumberedAll(Front(items), k) + [Renumbered(Last(items), k + EllipsesInAll(Front(items)))]
    ensures EllipsesInAll(items) == EllipsesInAll(Front(items)) + EllipsesIn(Last(items))
  {
  }

  // Names: all but the ellipses

  function VarSet(names: seq<Name>): set<Name> {
    set n | n in names && n.Var?
  }

  lemma VarSetConcat(a: seq<Name>, b: seq<Name>)
    ensures VarSet(a + b) == VarSet(a) + VarSet(b)
  {
  }

  // What can be printed

  predicate PrintableName(n: Name) {
    n.Var? ==> Reserved(n.base).None?
  }

  predicate PrintableText(text: seq<byte>) {
    forall i | 0 <= i < |text| :: text[i] != 34 && text[i] != 92
  }

  /** No bare empty items, no reserved names, no quotes and no backslashes. */
  predicate Printable(item: Item) {
    match item
    case Empty => false
    case Slot(n) => PrintableName(n)
    case Ascii(text) => PrintableText(text)
    case AsciiVar(n, _, _) => PrintableName(n)
    case Numbers(_, cells) => forall c | c in cells && c.Hole? :: PrintableName(c.name)
    case List(items) => forall c | c in items :: Printable(c)
  }

  // Renumbering keeps lists well-formed

  lemma {:induction false} RenumberedNames(item: Item, k: nat)
    requires Rep(item) && Printable(item)
    ensures Vars(ChildVariables(Renumbered(item, k))) == Vars(ChildVariables(item))
    decreases item, 1
  {
    RenumberedItem(item, k);
    match item
    case Slot(n) =>
      if !n.Var? {
        assert Front([n]) == [] && Front([DotsAt(k)]) == [];
      }
    case List(items) =>
      RenumberedAllNames(items, k);
    case _ =>
  }

  lemma {:induction false} RenumberedAllNames(items: seq<Item>, k: nat)
    requires forall c | c in items :: Rep(c) && Printable(c)
    ensures Vars(ListVariables(RenumberedAll(items, k))) == Vars(ListVariables(items))
    decreases items, 0
  {
    hide Rep, Printable, ChildVariables, Vars, RenumberedAll, Renumbered;
    if items == [] {
      return;
    }
    var front, last := Front(items), Last(items);
    var at := k + EllipsesInAll(front);
    assert last in items;
    RenumberedSnoc(items, k);
    RenumberedAllNames(front, k);
    RenumberedNames(last, at);
    ListVariablesSnoc(RenumberedAll(front, k), Renumbered(last, at));
    VarsConcat(ListVariables(front), ChildVariables(last));
    VarsConcat(ListVariables(RenumberedAll(front, k)), ChildVariables(Renumbered(last, at)));
  }

  lemma RenumberedListOk(items: seq<Item>, k: nat)
    requires ListOk(items) && forall c | c in items :: Rep(c) && Printable(c)
    ensures ListOk(RenumberedAll(items, k))
  {
    hide Rep, Printable, RenumberedAll, Renumbered, Distinct, ListVariables, Vars, EllipsesOf, Numbered;
    var r := RenumberedAll(items, k);
    RenumberedAllNames(items, k);
    AllNumbered(items, k);
    NumberedDistinct(k, EllipsesInAll(items));
    DistinctByParts(ListVariables(items));
    DistinctByParts(ListVariables(r));
    forall i | 0 <= i < |items| ensures IsOwnEllipsis(r[i]) <==> IsOwnEllipsis(items[i]) {
      SlotKept(items, k, i);
    }
    forall i | 0 <= i < |r| && r[i].Slot? ensures r[i].name.IsValidVarName() || (IsOwnEllipsis(r[i]) && i > 0) {
      SlotKept(items, k, i);
    }
  }

  lemma AllNumbered(items: seq<Item>, k: nat)
    requires forall c | c in items :: Rep(c)
    ensures EllipsesOf(ListVariables(RenumberedAll(items, k))) == Numbered(k, EllipsesInAll(items), true)
  {
    hide Rep, EllipsesOf, Numbered, ListVariables;
    ExpandSeqNumbered(items, NOTHING, [], k, true);
  }

  lemma SlotKept(items: seq<Item>, k: nat, i: nat)
    requires i < |items| && Rep(items[i]) && Printable(items[i])
    ensures var r := RenumberedAll(items, k)[i];
      && (IsOwnEllipsis(r) <==> IsOwnEllipsis(items[i])) && (r.Slot? <==> items[i].Slot?)
      && (r.Slot? && !IsOwnEllipsis(r) ==> r == items[i])
  {
    hide Rep, Ellipsis.Expand, Ellipsis.ExpandSeq;
    Ellipsis.ExpandSeqAt(items, NOTHING, [], k, true, i);
    RenumberedItem(items[i], k + EllipsesInAll(items[..i]));
  }

  // Reading what was printed

  /** `seg` stands in `ts` from `pos` on. */
  predicate TokensAt(ts: seq<Token>, pos: nat, seg: seq<Token>) {
    pos + |seg| <= |ts| && ts[pos..pos + |seg|] == seg
  }

  lemma TokensConcat(ts: seq<Token>, pos: nat, a: seq<Token>, b: seq<Token>)
    requires TokensAt(ts, pos, a + b)
    ensures TokensAt(ts, pos, a) && TokensAt(ts, pos + |a|, b)
  {
    var s := ts[pos..pos + |a + b|];
    assert ts[pos..pos + |a|] == s[..|a|];
    assert ts[pos + |a|..pos + |a| + |b|] == s[|a|..];
  }

  lemma TokenAt(ts: seq<Token>, pos: nat, seg: seq<Token>, i: nat)
    requires TokensAt(ts, pos, seg) && i < |seg|
    ensures pos + i < |ts| && ts[pos + i] == seg[i]
  {
    assert ts[pos..pos + |seg|][i] == ts[pos + i];
  }

  /** The names can be read after those in `seen`: none of them is repeated. */
  predicate Unseen(names: seq<Name>, seen: set<Name>) {
    Distinct(names) && forall n | n in names && n.Var? :: n !in seen
  }

  lemma UnseenConcat(a: seq<Name>, b: seq<Name>, seen: set<Name>)
    requires Unseen(a + b, seen)
    ensures Unseen(a, seen) && Unseen(b, seen + VarSet(a))
  {
    DistinctConcat(a, b);
    forall n | n in b && n.Var? ensures n !in seen + VarSet(a) {
      assert n in a + b;
    }
    forall n | n in a && n.Var? ensures n !in seen {
      assert n in a + b;
    }
  }

  // Arrays

  function CellName(cell: Cell): seq<Name> {
    match cell
    case Lit(_) => []
    case Hole(n) => [n]
  }

  predicate CellPrintable(kind: Kind, cell: Cell) {
    if cell.Lit? then kind.Fits(cell.value) else cell.name.Var? && PrintableName(cell.name)
  }

  lemma {:induction false} CellsBack(kind: Kind, cells: seq<Cell>, ts: seq<Token>, pos: nat, names: set<Name>)
    requires forall c | c in cells :: CellPrintable(kind, c)
    requires Unseen(CellNames(cells), names) && TokensAt(ts, pos, CellsTokens(kind, cells))
    ensures ReadCells(kind, ts, pos, names, [])
         == ReadCells(kind, ts, pos + |CellsTokens(kind, cells)|, names + VarSet(CellNames(cells)), cells)
  {
    hide ReadCells, TokensAt, Unseen, CellPrintable, CellTokens, VarSet;
    NoNames(names);
    if cells != [] {
      var front, last := Front(cells), Last(cells);
      assert cells == front + [last] && last in cells;
      assert CellNames(cells) == CellNames(front) + CellName(last);
      UnseenConcat(CellNames(front), CellName(last), names);
      TokensConcat(ts, pos, CellsTokens(kind, front), CellTokens(kind, last));
      CellsBack(kind, front, ts, pos, names);
      VarSetAdded(names, CellNames(front), CellName(last));
      CellBack(kind, front, last, ts, pos + |CellsTokens(kind, front)|, names + VarSet(CellNames(front)));
    }
  }

  lemma NoNames(names: set<Name>)
    ensures names + VarSet([]) == names
  {
  }

  lemma VarSetAdded(names: set<Name>, a: seq<Name>, b: seq<Name>)
    ensures names + VarSet(a) + VarSet(b) == names + VarSet(a + b)
  {
    VarSetConcat(a, b);
  }

  lemma CellBack(kind: Kind, front: seq<Cell>, last: Cell, ts: seq<Token>, pos: nat, names: set<Name>)
    requires CellPrintable(kind, last) && Unseen(CellName(last), names) && TokensAt(ts, pos, CellTokens(kind, last))
    ensures ReadCells(kind, ts, pos, names, front)
         == ReadCells(kind, ts, pos + |CellTokens(kind, last)|, names + VarSet(CellName(last)), front + [last])
  {
    hide Reserved, TokensAt;
    TokenAt(ts, pos, CellTokens(kind, last), 0);
    if last.Lit? {
      NoNames(names);
    } else {
      assert last.name in CellName(last) && VarSet([last.name]) == {last.name};
    }
  }

  /** The parts of an item: its type, its size if it is given, its contents and the closing bracket. */
  lemma Framed(t: ItemType, size: seq<Token>, body: seq<Token>, ts: seq<Token>, pos: nat)
    requires |size| <= 1 && (size != [] ==> size[0].ItemSize?) && (size == [] && body != [] ==> !body[0].ItemSize?)
    requires TokensAt(ts, pos, [LeftAngle, TypeName(t)] + size + body + [RightAngle])
    ensures Next(ts, pos, LeftAngle) && Next(ts, pos + 1, TypeName(t))
    ensures ReadSize(ts, pos + 2) == if size == [] then (0, -1, pos + 2) else (size[0].low, size[0].high, pos + 3)
    ensures TokensAt(ts, pos + 2 + |size|, body) && Next(ts, pos + 2 + |size| + |body|, RightAngle)
  {
    hide TokensAt;
    var head := [LeftAngle, TypeName(t)];
    TokensConcat(ts, pos, head + size + body, [RightAngle]);
    TokensConcat(ts, pos, head + size, body);
    TokensConcat(ts, pos, head, size);
    TokenAt(ts, pos, head, 0);
    TokenAt(ts, pos, head, 1);
    TokenAt(ts, pos + 2 + |size| + |body|, [RightAngle], 0);
    if size != [] {
      TokenAt(ts, pos + 2, size, 0);
    } else if body != [] {
      TokenAt(ts, pos + 2, body, 0);
    }
  }

  lemma NumbersBack(kind: Kind, cells: seq<Cell>, ts: seq<Token>, pos: nat, names: set<Name>, k: nat)
    requires Rep(Numbers(kind, cells)) && Printable(Numbers(kind, cells)) && Unseen(CellNames(cells), names)
    requires TokensAt(ts, pos, ItemTokens(Numbers(kind, cells)))
    ensures ReadItem(ts, pos, names, k)
         == Some(Read(Numbers(kind, cells), pos + |ItemTokens(Numbers(kind, cells))|, names + VarSet(CellNames(cells)),
           k))
  {
    hide ReadCells, TokensAt, Unseen, CellsTokens, VarSet, Reserved, ReadSize;
    var size, body := [ItemSize(|cells|, |cells|)], CellsTokens(kind, cells);
    assert ItemTokens(Numbers(kind, cells)) == [LeftAngle, TypeName(Of(kind))] + size + body + [RightAngle];
    Framed(Of(kind), size, body, ts, pos);
    CellsBack(kind, cells, ts, pos + 3, names);
    ClosedCells(kind, cells, ts, pos + 3 + |body|, names + VarSet(CellNames(cells)));
  }

  lemma ClosedCells(kind: Kind, cells: seq<Cell>, ts: seq<Token>, pos: nat, names: set<Name>)
    requires pos < |ts| && ts[pos] == RightAngle
    ensures ReadCells(kind, ts, pos, names, cells) == Some(Read(cells, pos, names, 0))
  {
  }

  // Texts

  predicate PlainRun(cs: seq<byte>) {
    forall i | 0 <= i < |cs| :: IsPrintable(cs[i]) && cs[i] < 127 && cs[i] != 34 && cs[i] != 92
  }

  lemma {:induction false} PlainUnescaped(cs: seq<byte>)
    requires PlainRun(cs)
    ensures Unescaped(cs) == Some(cs)
  {
    if cs != [] {
      assert PlainRun(cs[1..]);
      PlainUnescaped(cs[1..]);
      assert cs == [cs[0]] + cs[1..];
    }
  }

  lemma {:induction false} SameBytes(cs: seq<byte>)
    requires IsAscii(cs)
    ensures AsBytes(cs) == cs
  {
    if cs != [] {
      SameBytes(cs[1..]);
    }
  }

  lemma PlainRead(cs: seq<byte>)
    requires PlainRun(cs)
    ensures ReadString(cs) == Some(cs)
  {
    PlainUnescaped(cs);
    SameBytes(cs);
  }

  /** What a token of a text means. */
  function Meaning(t: Token): Option<seq<byte>> {
    match t
    case Quoted(chars) => ReadString(chars)
    case Number(value) => if value.Some? && 0 <= value.value < 128 then Some([value.value]) else None
    case _ => None
  }

  function TextOf(ts: seq<Token>): Option<seq<byte>> {
    if ts == [] then Some([])
    else
      var front :- TextOf(Front(ts));
      var last :- Meaning(Last(ts));
      Some(front + last)
  }

  lemma TextOfSnoc(ts: seq<Token>, t: Token)
    requires TextOf(ts).Some? && Meaning(t).Some?
    ensures TextOf(ts + [t]) == Some(TextOf(ts).value + Meaning(t).value)
  {
    assert Front(ts + [t]) == ts;
  }

  /** However a text is split into quoted runs and character codes, together they mean the text. */
  lemma {:induction false} TextMeaning(text: seq<byte>)
    requires PrintableText(text) && forall i | 0 <= i < |text| :: text[i] < 128
    ensures TextOf(TextTokens(text)) == Some(text)
    ensures text != [] ==> var ts := TextTokens(text); ts != [] && (Last(ts).Quoted? ==> PlainRun(Last(ts).chars))
  {
    hide ReadString, TextOf;
    if text == [] {
      NothingMeant();
      return;
    }
    var ts, c := TextTokens(Front(text)), Last(text);
    assert text == Front(text) + [c];
    TextMeaning(Front(text));
    if !IsPrintable(c) {
      TextOfSnoc(ts, Number(Some(c)));
    } else if ts != [] && Last(ts).Quoted? {
      RunExtended(ts, Front(text), c);
    } else {
      PlainRead([c]);
      TextOfSnoc(ts, Quoted([c]));
    }
  }

  lemma NothingMeant()
    ensures TextOf([]) == Some([])
  {
  }

  lemma RunExtended(ts: seq<Token>, text: seq<byte>, c: byte)
    requires ts != [] && Last(ts).Quoted? && PlainRun(Last(ts).chars) && PlainRun([c]) && TextOf(ts) == Some(text)
    ensures PlainRun(Last(ts).chars + [c])
    ensures TextOf(Front(ts) + [Quoted(Last(ts).chars + [c])]) == Some(text + [c])
  {
    hide ReadString, TextOf, PlainRun;
    var run := Last(ts).chars;
    PlainSnoc(run, c);
    PlainRead(run);
    PlainRead(run + [c]);
    LastMeant(ts);
    TextOfSnoc(Front(ts), Quoted(run + [c]));
    assert TextOf(Front(ts)).value + (run + [c]) == (TextOf(Front(ts)).value + run) + [c];
  }

  lemma PlainSnoc(run: seq<byte>, c: byte)
    requires PlainRun(run) && PlainRun([c])
    ensures PlainRun(run + [c])
  {
    assert c == [c][0];
  }

  lemma LastMeant(ts: seq<Token>)
    requires ts != [] && TextOf(ts).Some?
    ensures TextOf(Front(ts)).Some? && Meaning(Last(ts)).Some?
    ensures TextOf(ts).value == TextOf(Front(ts)).value + Meaning(Last(ts)).value
  {
  }

  /** Reading the tokens of a text adds their meaning to what was read before. */
  lemma {:induction false} TextRead(seg: seq<Token>, ts: seq<Token>, pos: nat)
    requires TextOf(seg).Some? && TokensAt(ts, pos, seg)
    ensures ReadText(ts, pos, []) == ReadText(ts, pos + |seg|, TextOf(seg).value)
  {
    hide ReadText, ReadString, TokensAt, Meaning;
    if seg != [] {
      var front, last := Front(seg), Last(seg);
      assert seg == front + [last];
      TokensConcat(ts, pos, front, [last]);
      TextRead(front, ts, pos);
      TokenRead(last, ts, pos + |front|, TextOf(front).value);
    }
  }

  lemma TokenRead(t: Token, ts: seq<Token>, pos: nat, text: seq<byte>)
    requires Meaning(t).Some? && TokensAt(ts, pos, [t])
    ensures ReadText(ts, pos, text) == ReadText(ts, pos + 1, text + Meaning(t).value)
  {
    hide ReadString;
    TokenAt(ts, pos, [t], 0);
  }

  lemma AsciiBack(text: seq<byte>, ts: seq<Token>, pos: nat, names: set<Name>, k: nat)
    requires Rep(Ascii(text)) && PrintableText(text) && TokensAt(ts, pos, ItemTokens(Ascii(text)))
    ensures ReadItem(ts, pos, names, k) == Some(Read(Ascii(text), pos + |ItemTokens(Ascii(text))|, names, k))
  {
    hide TokensAt, TextTokens, ReadText, TextOf, ReadString, Meaning, PrintableText, ReadSize, Rep;
    AsciiCodes(text);
    TextMeaning(text);
    if text == [] {
      assert ItemTokens(Ascii(text)) == [LeftAngle, TypeName(A)] + [ItemSize(0, 0)] + [] + [RightAngle];
      Framed(A, [ItemSize(0, 0)], [], ts, pos);
      ClosedText(text, ts, pos + 3);
    } else {
      var body := TextTokens(text);
      NoSizeFirst(text);
      assert ItemTokens(Ascii(text)) == [LeftAngle, TypeName(A)] + [] + body + [RightAngle];
      Framed(A, [], body, ts, pos);
      TokenAt(ts, pos + 2, body, 0);
      TextRead(body, ts, pos + 2);
      ClosedText(text, ts, pos + 2 + |body|);
    }
  }

  lemma AsciiCodes(text: seq<byte>)
    requires Rep(Ascii(text))
    ensures forall i | 0 <= i < |text| :: text[i] < 128
  {
    forall i | 0 <= i < |text| ensures text[i] < 128 {
      assert text[i] in text;
    }
  }

  lemma {:induction false} NoSizeFirst(text: seq<byte>)
    requires text != []
    ensures TextTokens(text) != [] && (TextTokens(text)[0].Quoted? || TextTokens(text)[0].Number?)
  {
    if |text| > 1 {
      NoSizeFirst(Front(text));
    }
  }

  lemma ClosedText(text: seq<byte>, ts: seq<Token>, pos: nat)
    requires pos < |ts| && ts[pos] == RightAngle
    ensures ReadText(ts, pos, text) == Some(Read(text, pos, {}, 0))
  {
  }

  lemma AsciiVarBack(n: Name, min: int, max: int, ts: seq<Token>, pos: nat, names: set<Name>, k: nat)
    requires var item := AsciiVar(n, min, max);
      Rep(item) && Printable(item) && n !in names && TokensAt(ts, pos, ItemTokens(item))
    ensures var item := AsciiVar(n, min, max);
      ReadItem(ts, pos, names, k) == Some(Read(item, pos + |ItemTokens(item)|, names + {n}, k))
  {
    hide Reserved, TokensAt, ReadSize;
    var size := LengthTokens(min, max);
    assert ItemTokens(AsciiVar(n, min, max)) == [LeftAngle, TypeName(A)] + size + [Variable(n)] + [RightAngle];
    Framed(A, size, [Variable(n)], ts, pos);
    TokenAt(ts, pos + 2 + |size|, [Variable(n)], 0);
  }

  // Lists

  lemma NameRead(n: Name, ts: seq<Token>, pos: nat, names: set<Name>, k: nat, items: seq<Item>)
    requires PrintableName(n) && TokensAt(ts, pos, NameTokens(n)) && (if n.Var? then n !in names else items != [])
    ensures |NameTokens(n)| == 1
    ensures ReadElements(ts, pos, names, k, items)
         == if n.Var? then ReadElements(ts, pos + 1, names + {n}, k, items + [Slot(n)])
            else ReadElements(ts, pos + 1, names, k + 1, items + [Slot(DotsAt(k))])
  {
    hide Reserved, TokensAt;
    TokenAt(ts, pos, NameTokens(n), 0);
  }

  /** One more element of a list. */
  lemma {:induction false} ElementBack(item: Item, ts: seq<Token>, pos: nat, names: set<Name>, k: nat,
                                       before: seq<Item>)
    requires Rep(item) && Printable(item) && Unseen(ChildVariables(item), names)
    requires TokensAt(ts, pos, ItemTokens(item)) && (IsOwnEllipsis(item) ==> before != [])
    ensures ReadElements(ts, pos, names, k, before)
         == ReadElements(ts, pos + |ItemTokens(item)|, names + VarSet(ChildVariables(item)), k + EllipsesIn(item),
           before + [Renumbered(item, k)])
    decreases item, 1
  {
    hide Reserved, TokensAt, ReadElements, Renumbered, VarSet, Distinct, NameTokens, Rep, Printable, ItemTokens,
      ChildVariables;
    if item.Slot? {
      SlotBack(item.name, ts, pos, names, k, before);
    } else {
      NotEmpty(item);
      ItemBack(item, ts, pos, names, k);
      ItemFirst(item);
      TokenAt(ts, pos, ItemTokens(item), 0);
      ChildElement(item, ts, pos, names, k, before);
    }
  }

  lemma SlotBack(n: Name, ts: seq<Token>, pos: nat, names: set<Name>, k: nat, before: seq<Item>)
    requires var item := Slot(n);
      Printable(item) && Unseen(ChildVariables(item), names) && TokensAt(ts, pos, ItemTokens(item))
    requires !n.Var? ==> before != []
    ensures var item := Slot(n);
      ReadElements(ts, pos, names, k, before)
      == ReadElements(ts, pos + |ItemTokens(item)|, names + VarSet(ChildVariables(item)), k + EllipsesIn(item),
        before + [Renumbered(item, k)])
  {
    hide Reserved, TokensAt, ReadElements, Renumbered, VarSet, Distinct, NameTokens;
    RenumberedItem(Slot(n), k);
    assert ChildVariables(Slot(n)) == [n] && n in [n];
    OneVar(n, names);
    NameRead(n, ts, pos, names, k, before);
  }

  lemma NotEmpty(item: Item)
    requires Printable(item)
    ensures !item.Empty?
  {
  }

  lemma OneVar(n: Name, names: set<Name>)
    ensures names + VarSet([n]) == if n.Var? then names + {n} else names
  {
    assert VarSet([n]) == if n.Var? then {n} else {};
  }

  lemma ItemFirst(item: Item)
    requires Rep(item) && !item.Empty? && !item.Slot?
    ensures ItemTokens(item) != [] && ItemTokens(item)[0] == LeftAngle
  {
    hide CellsTokens, TextTokens, ItemsTokens, NameTokens, LengthTokens;
  }

  lemma ChildElement(item: Item, ts: seq<Token>, pos: nat, names: set<Name>, k: nat, before: seq<Item>)
    requires Next(ts, pos, LeftAngle) && ReadItem(ts, pos, names, k).Some?
    ensures var r := ReadItem(ts, pos, names, k).value;
      ReadElements(ts, pos, names, k, before) == ReadElements(ts, r.pos, r.names, r.ellipses, before + [r.value])
  {
    hide ReadItem;
  }

  lemma {:induction false} ElementsBack(items: seq<Item>, ts: seq<Token>, pos: nat, names: set<Name>, k: nat)
    requires forall c | c in items :: Rep(c) && Printable(c)
    requires Unseen(ListVariables(items), names) && TokensAt(ts, pos, ItemsTokens(items))
    requires items != [] ==> !IsOwnEllipsis(items[0])
    ensures ReadElements(ts, pos, names, k, [])
         == ReadElements(ts, pos + |ItemsTokens(items)|, names + VarSet(ListVariables(items)), k +
           EllipsesInAll(items), RenumberedAll(items, k))
    decreases items, 0
  {
    hide Rep, Printable, Unseen, TokensAt, ReadElements, VarSet, ItemTokens, ChildVariables, Renumbered;
    NoNames(names);
    if items != [] {
      var front, last := Front(items), Last(items);
      assert last in items;
      UnseenConcat(ListVariables(front), ChildVariables(last), names);
      TokensConcat(ts, pos, ItemsTokens(front), ItemTokens(last));
      ElementsBack(front, ts, pos, names, k);
      RenumberedSnoc(items, k);
      VarSetAdded(names, ListVariables(front), ChildVariables(last));
      ElementBack(last, ts, pos + |ItemsTokens(front)|, names + VarSet(ListVariables(front)), k + EllipsesInAll(front),
        RenumberedAll(front, k));
    }
  }

  lemma {:induction false} ItemBack(item: Item, ts: seq<Token>, pos: nat, names: set<Name>, k: nat)
    requires Rep(item) && Printable(item) && !item.Slot? && Unseen(ChildVariables(item), names)
    requires TokensAt(ts, pos, ItemTokens(item))
    ensures ReadItem(ts, pos, names, k)
         == Some(Read(Renumbered(item, k), pos + |ItemTokens(item)|, names + VarSet(ChildVariables(item)), k +
           EllipsesIn(item)))
    decreases item, 0
  {
    hide Reserved, TokensAt, ReadItem, Renumbered, VarSet, Distinct;
    RenumberedItem(item, k);
    match item
    case Ascii(text) =>
      NoNames(names);
      AsciiBack(text, ts, pos, names, k);
    case AsciiVar(n, min, max) =>
      assert ChildVariables(item) == [n] && n in [n];
      OneVar(n, names);
      AsciiVarBack(n, min, max, ts, pos, names, k);
    case Numbers(kind, cells) =>
      assert ChildVariables(item) == CellNames(cells);
      NumbersBack(kind, cells, ts, pos, names, k);
    case List(items) =>
      assert ChildVariables(item) == ListVariables(items);
      ListBack(items, ts, pos, names, k);
  }

  lemma {:induction false} ListBack(items: seq<Item>, ts: seq<Token>, pos: nat, names: set<Name>, k: nat)
    requires Rep(List(items)) && Printable(List(items)) && Unseen(ListVariables(items), names)
    requires TokensAt(ts, pos, ItemTokens(List(items)))
    ensures ReadItem(ts, pos, names, k)
         == Some(Read(List(RenumberedAll(items, k)), pos + |ItemTokens(List(items))|, names +
           VarSet(ListVariables(items)), k + EllipsesInAll(items)))
    decreases items, 2
  {
    hide TokensAt, ReadElements, VarSet, Unseen, ItemsTokens, ListVariables, ListOk, RenumberedAll, ReadSize;
    FirstItem(items);
    var size, body := if HasSlot(items) then [] else [ItemSize(|items|, |items|)], ItemsTokens(items);
    assert ItemTokens(List(items)) == [LeftAngle, TypeName(L)] + size + body + [RightAngle];
    NoSizeBefore(items);
    Framed(L, size, body, ts, pos);
    var start := pos + 2 + |size|;
    ElementsBack(items, ts, start, names, k);
    RenumberedListOk(items, k);
    ClosedElements(ts, start + |body|, names + VarSet(ListVariables(items)), k + EllipsesInAll(items),
      RenumberedAll(items, k));
  }

  lemma FirstItem(items: seq<Item>)
    requires Rep(List(items))
    ensures ListOk(items) && (forall c | c in items :: Rep(c)) && (items != [] ==> !IsOwnEllipsis(items[0]))
  {
  }

  lemma ClosedElements(ts: seq<Token>, pos: nat, names: set<Name>, k: nat, items: seq<Item>)
    requires pos < |ts| && ts[pos] == RightAngle
    ensures ReadElements(ts, pos, names, k, items) == Some(Read(items, pos, names, k))
  {
  }

  lemma {:induction false} NoSizeBefore(items: seq<Item>)
    requires forall c | c in items :: Rep(c)
    ensures ItemsTokens(items) != [] ==> !ItemsTokens(items)[0].ItemSize?
  {
    hide Rep, ItemTokens;
    if items != [] {
      assert Last(items) in items;
      NoSizeBefore(Front(items));
      FirstToken(Last(items));
    }
  }

  lemma FirstToken(item: Item)
    requires Rep(item)
    ensures ItemTokens(item) != [] ==> !ItemTokens(item)[0].ItemSize?
  {
    hide Reserved, CellsTokens, TextTokens, ItemsTokens, LengthTokens;
    if item.Slot? && item.name.Var? {
      ReservedToken(item.name.base);
    }
  }

  lemma ReservedToken(word: string)
    ensures Reserved(word).Some? ==> Reserved(word).value.TypeName? || Reserved(word).value.Bool?
  {
  }

  // Messages

  /** A message as it is read from its text: its ellipses numbered, with no session id and no system bytes. */
  function AsRead(m: Message): Message
    requires m.Data?
  {
    m.(item := if m.item.Empty? then Empty else Renumbered(m.item, 0), sessionId := -1, system := NO_SYSTEM)
  }

  predicate PrintableMessage(m: Message) {
    m.Data? && MessageOk(m) && (m.item.Empty? || Printable(m.item))
  }

  lemma DistinctVariables(item: Item)
    requires Rep(item)
    ensures Distinct(ChildVariables(item)) && Unseen(ChildVariables(item), {})
  {
    hide Distinct;
    match item
    case Empty =>
      DistinctSnoc([], Var("", []));
      assert [] + [Var("", [])] == [Var("", [])];
      NoneDistinct();
    case Slot(n) =>
      DistinctSnoc([], n);
      assert [] + [n] == [n];
      NoneDistinct();
    case AsciiVar(n, _, _) =>
      DistinctSnoc([], n);
      assert [] + [n] == [n];
      NoneDistinct();
    case Ascii(_) =>
      NoneDistinct();
    case Numbers(_, cells) =>
      assert ChildVariables(item) == CellNames(cells);
    case List(items) =>
      assert ChildVariables(item) == ListVariables(items);
  }

  lemma BodyBack(item: Item, ts: seq<Token>, pos: nat)
    requires Rep(item) && !item.Slot? && (item.Empty? || Printable(item))
    requires TokensAt(ts, pos, ItemTokens(item) + [MessageEnd])
    ensures var end := pos + |ItemTokens(item)|;
      && Next(ts, end, MessageEnd) && ReadBody(ts, pos).Some?
      && ReadBody(ts, pos).value.value == (if item.Empty? then Empty else Renumbered(item, 0)) &&
        ReadBody(ts, pos).value.pos == end
  {
    hide TokensAt, Rep, Printable, ReadItem, Renumbered;
    TokensConcat(ts, pos, ItemTokens(item), [MessageEnd]);
    TokenAt(ts, pos + |ItemTokens(item)|, [MessageEnd], 0);
    if !item.Empty? {
      DistinctVariables(item);
      ItemBack(item, ts, pos, {}, 0);
      ItemFirst(item);
      TokenAt(ts, pos, ItemTokens(item), 0);
    }
  }

  lemma HeaderBack(m: Message, ts: seq<Token>, pos: nat)
    requires DataOk(m) && TokensAt(ts, pos, HeaderTokens(m))
    requires var end := pos + |HeaderTokens(m)|; end < |ts| && !ts[end].MessageName?
    ensures ReadHeader(ts, pos) == Some(ReadMessage(AsRead(m.(item := Empty)), pos + |HeaderTokens(m)|))
  {
    hide TokensAt, HeaderTokens, ReadWait, ReadDirection, ReadName, Renumbered;
    var wait := if m.waitBit == 0 then [] else [WaitBit(m.waitBit == 2)];
    HeaderParts(m, ts, pos);
    WaitRead(m.waitBit, ts, pos + 1);
    DirectionRead(m.direction, ts, pos + 1 + |wait|);
    MessageNameRead(m.name, ts, pos + 2 + |wait|);
  }

  lemma HeaderParts(m: Message, ts: seq<Token>, pos: nat)
    requires DataOk(m) && TokensAt(ts, pos, HeaderTokens(m)) && pos + |HeaderTokens(m)| < |ts|
    ensures pos < |ts| && ts[pos] == StreamFunction(m.stream, m.function_)
    ensures var wait := if m.waitBit == 0 then [] else [WaitBit(m.waitBit == 2)];
      var name := if m.name == "" then [] else [MessageName(m.name)];
      && |HeaderTokens(m)| == 2 + |wait| + |name|
      && TokensAt(ts, pos + 1, wait)
      && ts[pos + 1 + |wait|] == Direction(m.direction)
      && TokensAt(ts, pos + 2 + |wait|, name)
  {
    hide TokensAt;
    var code, wait := [StreamFunction(m.stream, m.function_)], if m.waitBit == 0 then [] else [WaitBit(m.waitBit == 2)];
    var directed, name := [Direction(m.direction)], if m.name == "" then [] else [MessageName(m.name)];
    TokensConcat(ts, pos, code + wait + directed, name);
    TokensConcat(ts, pos, code + wait, directed);
    TokensConcat(ts, pos, code, wait);
    TokenAt(ts, pos, code, 0);
    TokenAt(ts, pos + 1 + |wait|, directed, 0);
  }

  lemma DirectionRead(direction: string, ts: seq<Token>, pos: nat)
    requires pos < |ts| && ts[pos] == Direction(direction)
    ensures ReadDirection(ts, pos) == (direction, pos + 1)
  {
  }

  lemma MessageNameRead(name: string, ts: seq<Token>, pos: nat)
    requires var tokens := if name == "" then [] else [MessageName(name)];
      TokensAt(ts, pos, tokens) && pos + |tokens| < |ts| && !ts[pos + |tokens|].MessageName?
    ensures ReadName(ts, pos) == (name, if name == "" then pos else pos + 1)
  {
    hide TokensAt;
    if name != "" {
      TokenAt(ts, pos, [MessageName(name)], 0);
    }
  }

  lemma WaitRead(waitBit: int, ts: seq<Token>, pos: nat)
    requires 0 <= waitBit <= 2
    requires var wait := if waitBit == 0 then [] else [WaitBit(waitBit == 2)];
      TokensAt(ts, pos, wait) && pos + |wait| < |ts| && ts[pos + |wait|].Direction?
    ensures ReadWait(ts, pos) == (waitBit, if waitBit == 0 then pos else pos + 1)
  {
    hide TokensAt;
    if waitBit != 0 {
      TokenAt(ts, pos, [WaitBit(waitBit == 2)], 0);
    }
  }

  lemma MessageBack(m: Message, ts: seq<Token>, pos: nat)
    requires PrintableMessage(m) && TokensAt(ts, pos, MessageTokens(m))
    ensures ReadOne(ts, pos) == Some(ReadMessage(AsRead(m), pos + |MessageTokens(m)|))
  {
    hide TokensAt, Rep, Printable, ReadBody, ReadHeader, ItemTokens, HeaderTokens, Renumbered;
    var header, rest := HeaderTokens(m), ItemTokens(m.item) + [MessageEnd];
    assert MessageTokens(m) == header + rest;
    TokensConcat(ts, pos, header, rest);
    TextFirst(m.item);
    TokenAt(ts, pos + |header|, rest, 0);
    HeaderBack(m, ts, pos);
    BodyBack(m.item, ts, pos + |header|);
  }

  lemma TextFirst(item: Item)
    requires Rep(item) && !item.Slot?
    ensures var first := (ItemTokens(item) + [MessageEnd])[0]; first == LeftAngle || first == MessageEnd
  {
    hide Rep, ItemTokens;
    NoTokens();
    if !item.Empty? {
      ItemFirst(item);
    }
  }

  lemma NoTokens()
    ensures ItemTokens(Empty) == []
  {
  }

  predicate AllPrintable(ms: seq<Message>) {
    forall i | 0 <= i < |ms| :: PrintableMessage(ms[i])
  }

  predicate AllData(ms: seq<Message>) {
    forall i | 0 <= i < |ms| :: ms[i].Data? && MessageOk(ms[i])
  }

  function AllAsRead(ms: seq<Message>): seq<Message>
    requires AllData(ms)
  {
    seq(|ms|, i requires 0 <= i < |ms| => AsRead(ms[i]))
  }

  /** The tokens of messages, one after the other. */
  function Printed(ms: seq<Message>): seq<Token>
    requires AllData(ms)
  {
    if ms == [] then [] else MessageTokens(ms[0]) + Printed(ms[1..])
  }

  lemma {:induction false} MessagesBack(ms: seq<Message>, ts: seq<Token>, pos: nat)
    requires AllData(ms) && AllPrintable(ms)
    requires pos <= |ts| && ts[pos..] == Printed(ms)
    ensures ReadAll(ts, pos) == Some(AllAsRead(ms))
    decreases |ms|
  {
    hide AsRead, MessageOk, Printable, MessageTokens, ReadOne, AllAsRead, ReadAll;
    if ms == [] {
      NoMessages(ts);
      return;
    }
    assert PrintableMessage(ms[0]);
    var first, rest := MessageTokens(ms[0]), Printed(ms[1..]);
    assert ts[pos..pos + |first|] == ts[pos..][..|first|] == first;
    assert ts[pos + |first|..] == ts[pos..][|first|..] == rest;
    MessageBack(ms[0], ts, pos);
    MessagesBack(ms[1..], ts, pos + |first|);
    OneMoreMessage(ms, ts, pos);
  }

  lemma NoMessages(ts: seq<Token>)
    ensures ReadAll(ts, |ts|) == Some(AllAsRead([]))
  {
    assert AllAsRead([]) == [];
  }

  lemma OneMoreMessage(ms: seq<Message>, ts: seq<Token>, pos: nat)
    requires ms != [] && AllData(ms) && ReadOne(ts, pos).Some? && ReadOne(ts, pos).value.message == AsRead(ms[0])
    requires ReadAll(ts, ReadOne(ts, pos).value.pos) == Some(AllAsRead(ms[1..]))
    ensures ReadAll(ts, pos) == Some(AllAsRead(ms))
  {
    hide AsRead, MessageOk, Printable, ReadOne;
    assert AllAsRead(ms) == [AsRead(ms[0])] + AllAsRead(ms[1..]);
  }

  /** Messages that are printed are read back in order and in full, with their ellipses numbered. */
  lemma PrintedReadBack(ms: seq<Message>)
    requires AllData(ms) && AllPrintable(ms)
    ensures ReadAll(Printed(ms), 0) == Some(AllAsRead(ms))
  {
    assert Printed(ms)[0..] == Printed(ms);
    MessagesBack(ms, Printed(ms), 0);
  }

  // When a message is read back as itself

  /** The ellipses of the item are numbered in order of appearance, from `k` on. */
  predicate InOrder(names: seq<Name>, k: nat, count: nat) {
    EllipsesOf(names) == Numbered(k, count, true)
  }

  lemma {:induction false} NumberedLength(k: nat, e: nat)
    ensures |Numbered(k, e, true)| == e
  {
    if e > 0 {
      NumberedLength(k, e - 1);
    }
  }

  lemma {:induction false} EllipsesCounted(item: Item)
    requires Rep(item) && Printable(item)
    ensures |EllipsesOf(ChildVariables(item))| == EllipsesIn(item)
    decreases item, 1
  {
    hide EllipsesOf, Distinct;
    RenumberedItem(item, 0);
    match item
    case Slot(n) =>
      OneName(n);
    case List(items) =>
      EllipsesCountedAll(items);
    case Ascii(_) =>
      NoEllipses([]);
    case AsciiVar(n, _, _) =>
      OneName(n);
    case Numbers(_, cells) =>
      HolesOnly(cells);
      NoEllipses(CellNames(cells));
  }

  lemma {:induction false} HolesOnly(cells: seq<Cell>)
    requires forall c | c in cells && c.Hole? :: c.name.Var?
    ensures forall n | n in CellNames(cells) :: n.Var?
  {
    if cells != [] {
      assert Last(cells) in cells;
      HolesOnly(Front(cells));
    }
  }

  lemma {:induction false} EllipsesCountedAll(items: seq<Item>)
    requires forall c | c in items :: Rep(c) && Printable(c)
    ensures |EllipsesOf(ListVariables(items))| == EllipsesInAll(items)
    decreases items, 0
  {
    hide Rep, Printable, ChildVariables, EllipsesOf;
    if items == [] {
      NoEllipses([]);
    } else {
      assert Last(items) in items;
      EllipsesCountedAll(Front(items));
      EllipsesCounted(Last(items));
      RenumberedSnoc(items, 0);
      EllipsesOfConcat(ListVariables(Front(items)), ChildVariables(Last(items)));
    }
  }

  /** Renumbering changes nothing exactly when the ellipses are numbered in order already. */
  lemma {:induction false} SameIffInOrder(item: Item, k: nat)
    requires Rep(item) && Printable(item)
    ensures Renumbered(item, k) == item <==> InOrder(ChildVariables(item), k, EllipsesIn(item))
    decreases item, 1
  {
    hide EllipsesOf, Distinct, Numbered, Renumbered;
    RenumberedItem(item, k);
    match item
    case Slot(n) =>
      OneName(n);
      OneNumbered(k);
    case List(items) =>
      SameIffAllInOrder(items, k);
    case Ascii(_) =>
      NoEllipses([]);
      OneNumbered(k);
    case AsciiVar(n, _, _) =>
      OneName(n);
      OneNumbered(k);
    case Numbers(_, cells) =>
      HolesOnly(cells);
      NoEllipses(CellNames(cells));
      OneNumbered(k);
  }

  lemma OneNumbered(k: nat)
    ensures Numbered(k, 0, true) == [] && Numbered(k, 1, true) == [DotsAt(k)]
  {
    assert Numbered(k, 0, true) == [];
  }

  lemma {:induction false} SameIffAllInOrder(items: seq<Item>, k: nat)
    requires forall c | c in items :: Rep(c) && Printable(c)
    ensures RenumberedAll(items, k) == items <==> InOrder(ListVariables(items), k, EllipsesInAll(items))
    decreases items, 0
  {
    hide Rep, Printable, ChildVariables, EllipsesOf, Numbered, Renumbered, RenumberedAll;
    OneNumbered(k);
    if items == [] {
      NoEllipses([]);
    } else {
      var front, last := Front(items), Last(items);
      assert items == front + [last] && last in items;
      var at := k + EllipsesInAll(front);
      RenumberedSnoc(items, k);
      SameIffAllInOrder(front, k);
      SameIffInOrder(last, at);
      EllipsesCountedAll(front);
      NumberedLength(k, EllipsesInAll(front));
      EllipsesOfConcat(ListVariables(front), ChildVariables(last));
      NumberedConcat(k, EllipsesInAll(front), EllipsesIn(last), true);
      SamePieces(EllipsesOf(ListVariables(front)), EllipsesOf(ChildVariables(last)),
        Numbered(k, EllipsesInAll(front), true), Numbered(at, EllipsesIn(last), true));
      LastSame(RenumberedAll(front, k), Renumbered(last, at), front, last);
    }
  }

  lemma SamePieces(a: seq<Name>, b: seq<Name>, c: seq<Name>, d: seq<Name>)
    requires |a| == |c|
    ensures a + b == c + d <==> a == c && b == d
  {
    if a + b == c + d {
      assert a == (a + b)[..|a|] && b == (a + b)[|a|..] && c == (c + d)[..|c|] && d == (c + d)[|c|..];
    }
  }

  lemma LastSame(a: seq<Item>, x: Item, b: seq<Item>, y: Item)
    requires |a| == |b|
    ensures a + [x] == b + [y] <==> a == b && x == y
  {
    if a + [x] == b + [y] {
      assert a == (a + [x])[..|a|] && b == (b + [y])[..|b|] && x == (a + [x])[|a|] && y == (b + [y])[|b|];
    }
  }
}
