/** Exactly which messages are read back as themselves: nothing but printable ones, with their ellipses in order. */
module SmlExact {
  import opened Wrappers
  import opened Names
  import opened Items
  import opened Messages
  import opened Numbering
  import opened SmlPrinting
  import opened SmlReading
  import opened SmlRoundTrip
  import opened SmlSound

  // A text with a quote or a backslash comes back shorter, if at all

  lemma {:induction false} UnescapedShorter(cs: seq<byte>)
    ensures var v := Unescaped(cs); v.Some? ==> |v.value| <= |cs| && (|v.value| == |cs| ==> PrintableText(cs))
    decreases |cs|
  {
    hide Escape;
    if cs != [] && cs[0] != 34 && cs[0] != 10 {
      if cs[0] != 92 {
        UnescapedShorter(cs[1..]);
        if Unescaped(cs).Some? && |Unescaped(cs).value| == |cs| {
          PrintableCons(cs);
        }
      } else if |cs| > 1 {
        var (c, length) := Escape(cs[1..]);
        if c.Some? {
          UnescapedShorter(cs[1 + length..]);
        }
      }
    }
  }

  lemma PrintableCons(cs: seq<byte>)
    requires cs != [] && cs[0] != 34 && cs[0] != 92 && PrintableText(cs[1..])
    ensures PrintableText(cs)
  {
    forall i | 0 <= i < |cs| ensures cs[i] != 34 && cs[i] != 92 {
      assert i > 0 ==> cs[i] == cs[1..][i - 1];
    }
  }

  lemma {:induction false} AsManyBytes(s: seq<nat>)
    requires IsAscii(s)
    ensures |AsBytes(s)| == |s|
  {
    if s != [] {
      AsManyBytes(s[1..]);
    }
  }

  lemma StringShorter(cs: seq<byte>)
    ensures var v := ReadString(cs); v.Some? ==> |v.value| <= |cs| && (|v.value| == |cs| ==> PrintableText(cs))
  {
    UnescapedShorter(cs);
    if Unescaped(cs).Some? && IsAscii(Unescaped(cs).value) {
      AsManyBytes(Unescaped(cs).value);
    }
  }

  /** What the tokens of a text are made of, before the strings among them are read. */
  function Raw(ts: seq<Token>): seq<byte>
    requires OfText(ts)
  {
    if ts == [] then []
    else Raw(Front(ts)) + RawToken(Last(ts))
  }

  function RawToken(t: Token): seq<byte>
    requires IsOfText(t)
  {
    if t.Quoted? then t.chars else [t.value.value]
  }

  predicate OfText(ts: seq<Token>) {
    forall i | 0 <= i < |ts| :: IsOfText(ts[i])
  }

  predicate IsOfText(t: Token) {
    t.Quoted? || (t.Number? && t.value.Some? && 0 <= t.value.value < 128 && !IsPrintable(t.value.value))
  }

  lemma RawSnoc(ts: seq<Token>, t: Token)
    requires OfText(ts) && IsOfText(t)
    ensures OfText(ts + [t]) && Raw(ts + [t]) == Raw(ts) + RawToken(t)
  {
    assert Front(ts + [t]) == ts;
  }

  lemma {:induction false} RawText(text: seq<byte>)
    requires forall i | 0 <= i < |text| :: text[i] < 128
    ensures OfText(TextTokens(text)) && Raw(TextTokens(text)) == text
  {
    if text == [] {
      return;
    }
    hide Raw;
    var ts, c := TextTokens(Front(text)), Last(text);
    assert text == Front(text) + [c];
    RawText(Front(text));
    if !IsPrintable(c) {
      RawSnoc(ts, Number(Some(c)));
    } else if ts != [] && Last(ts).Quoted? {
      LongerRun(ts, c);
    } else {
      RawSnoc(ts, Quoted([c]));
    }
  }

  lemma LongerRun(ts: seq<Token>, c: byte)
    requires ts != [] && OfText(ts) && Last(ts).Quoted?
    ensures OfText(Front(ts) + [Quoted(Last(ts).chars + [c])]) &&
      Raw(Front(ts) + [Quoted(Last(ts).chars + [c])]) == Raw(ts) + [c]
  {
    hide Raw;
    assert OfText(Front(ts)) && ts == Front(ts) + [Last(ts)];
    RawSnoc(Front(ts), Last(ts));
    RawSnoc(Front(ts), Quoted(Last(ts).chars + [c]));
    assert Raw(Front(ts)) + (Last(ts).chars + [c]) == (Raw(Front(ts)) + Last(ts).chars) + [c];
  }

  lemma {:induction false} MeaningShorter(ts: seq<Token>)
    requires OfText(ts)
    ensures var v := TextOf(ts); v.Some? ==>
      |v.value| <= |Raw(ts)| && (|v.value| == |Raw(ts)| ==> PrintableText(Raw(ts)))
  {
    if ts != [] {
      hide ReadString, PrintableText;
      assert OfText(Front(ts));
      MeaningShorter(Front(ts));
      TokenShorter(Last(ts));
      if TextOf(ts).Some? && |TextOf(ts).value| == |Raw(ts)| {
        PrintableConcat(Raw(Front(ts)), RawToken(Last(ts)));
      }
    } else {
      assert PrintableText([]);
    }
  }

  lemma TokenShorter(t: Token)
    requires IsOfText(t)
    ensures var raw, v := RawToken(t), Meaning(t); v.Some? ==>
      |v.value| <= |raw| && (|v.value| == |raw| ==> PrintableText(raw))
  {
    if t.Quoted? {
      StringShorter(t.chars);
    }
  }

  lemma PrintableConcat(a: seq<byte>, b: seq<byte>)
    requires PrintableText(a) && PrintableText(b)
    ensures PrintableText(a + b)
  {
  }

  lemma {:induction false} TextUnread(seg: seq<Token>, ts: seq<Token>, pos: nat)
    requires OfText(seg) && TextOf(seg).None? && TokensAt(ts, pos, seg)
    ensures ReadText(ts, pos, []).None?
  {
    hide ReadText, ReadString, TokensAt, Meaning;
    var front, last := Front(seg), Last(seg);
    assert seg == front + [last] && OfText(front);
    TokensConcat(ts, pos, front, [last]);
    if TextOf(front).None? {
      TextUnread(front, ts, pos);
    } else {
      TextRead(front, ts, pos);
      TokenUnread(last, ts, pos + |front|, TextOf(front).value);
    }
  }

  lemma TokenUnread(t: Token, ts: seq<Token>, pos: nat, text: seq<byte>)
    requires IsOfText(t) && Meaning(t).None? && TokensAt(ts, pos, [t])
    ensures ReadText(ts, pos, text).None?
  {
    hide ReadString;
    TokenAt(ts, pos, [t], 0);
  }

  lemma AsciiOnlyIf(text: seq<byte>, ts: seq<Token>, pos: nat, names: set<Name>, k: nat)
    requires Rep(Ascii(text)) && TokensAt(ts, pos, ItemTokens(Ascii(text)))
    requires var r := ReadItem(ts, pos, names, k); r.Some? && r.value.value == Ascii(text)
    ensures PrintableText(text)
  {
    hide TokensAt, TextTokens, ReadText, TextOf, ReadString, Meaning, PrintableText, ReadSize, Rep, OfText;
    if text == [] {
      NothingToPrint();
      return;
    }
    var body := TextTokens(text);
    AsciiCodes(text);
    RawText(text);
    MeaningShorter(body);
    NoSizeFirst(text);
    assert ItemTokens(Ascii(text)) == [LeftAngle, TypeName(A)] + [] + body + [RightAngle];
    Framed(A, [], body, ts, pos);
    TokenAt(ts, pos + 2, body, 0);
    if TextOf(body).None? {
      TextUnread(body, ts, pos + 2);
    } else {
      TextRead(body, ts, pos + 2);
      ClosedText(TextOf(body).value, ts, pos + 2 + |body|);
    }
  }

  lemma NothingToPrint()
    ensures PrintableText([])
  {
  }

  // A reserved name is never read as a variable

  lemma AsciiVarOnlyIf(n: Name, min: int, max: int, ts: seq<Token>, pos: nat, names: set<Name>, k: nat)
    requires var item := AsciiVar(n, min, max); Rep(item) && TokensAt(ts, pos, ItemTokens(item))
    requires ReadItem(ts, pos, names, k).Some?
    ensures PrintableName(n)
  {
    hide Reserved, TokensAt, ReadSize;
    ReservedToken(n.base);
    if Reserved(n.base).Some? {
      var size, body := LengthTokens(min, max), NameTokens(n);
      assert ItemTokens(AsciiVar(n, min, max)) == [LeftAngle, TypeName(A)] + size + body + [RightAngle];
      Framed(A, size, body, ts, pos);
      TokenAt(ts, pos + 2 + |size|, body, 0);
    }
  }

  lemma {:induction false} CellsExtend(kind: Kind, ts: seq<Token>, pos: nat, names: set<Name>, cells: seq<Cell>)
    ensures var r := ReadCells(kind, ts, pos, names, cells); r.Some? ==> cells <= r.value.value
    decreases |ts| - pos
  {
    hide Kind.Fits;
    if pos < |ts| {
      match ts[pos]
      case Variable(n) =>
        if n !in names {
          CellsExtend(kind, ts, pos + 1, names + {n}, cells + [Hole(n)]);
        }
      case Number(value) =>
        if ReadNumber(kind, value).Some? {
          CellsExtend(kind, ts, pos + 1, names, cells + [Lit(ReadNumber(kind, value).value)]);
        }
      case Bool(b) =>
        if kind == Boolean {
          CellsExtend(kind, ts, pos + 1, names, cells + [Lit(if b then 1 else 0)]);
        }
      case _ =>
    }
  }

  /** A reserved name at this position: the array read is none, or holds a value in its place. */
  lemma ReservedCell(kind: Kind, n: Name, ts: seq<Token>, pos: nat, names: set<Name>, front: seq<Cell>)
    requires n.Var? && Reserved(n.base).Some? && TokensAt(ts, pos, NameTokens(n))
    ensures var r := ReadCells(kind, ts, pos, names, front); r.Some? ==>
      |front| < |r.value.value| && r.value.value[|front|].Lit?
  {
    hide Reserved, TokensAt, ReadNumber;
    ReservedToken(n.base);
    TokenAt(ts, pos, NameTokens(n), 0);
    if ts[pos].Bool? && kind == Boolean {
      CellsExtend(kind, ts, pos + 1, names, front + [Lit(if ts[pos].isTrue then 1 else 0)]);
    }
  }

  lemma ValidCell(kind: Kind, cells: seq<Cell>, i: nat)
    requires i < |cells| && CellsOk(kind, cells)
    ensures if cells[i].Lit? then kind.Fits(cells[i].value) else cells[i].name.Var?
  {
    hide Kind.Fits;
    assert cells[i] in cells;
  }

  lemma HoleTokens(kind: Kind, cell: Cell)
    requires cell.Hole?
    ensures CellTokens(kind, cell) == NameTokens(cell.name)
  {
  }

  /** The first `i` names among the values that were read as they were printed are not reserved. */
  lemma {:induction false} CellsOnlyIf(kind: Kind, cells: seq<Cell>, i: nat, ts: seq<Token>, pos: nat, names: set<Name>)
    requires i <= |cells| && CellsOk(kind, cells) && Unseen(CellNames(cells), names)
    requires TokensAt(ts, pos, CellsTokens(kind, cells))
    requires var r := ReadCells(kind, ts, pos, names, []); r.Some? && r.value.value == cells
    ensures forall j | 0 <= j < i :: CellPrintable(kind, cells[j])
  {
    hide ReadCells, TokensAt, Unseen, CellsTokens, CellNames, Reserved, VarSet, Kind.Fits, CellTokens, CellsOk;
    if i > 0 {
      CellsOnlyIf(kind, cells, i - 1, ts, pos, names);
      var front, last := cells[..i - 1], cells[i - 1];
      ValidCell(kind, cells, i - 1);
      CellsSplit(kind, cells, i - 1);
      UnseenConcat(CellNames(front), CellNames(cells[i - 1..]), names);
      TokensConcat(ts, pos, CellsTokens(kind, front), CellTokens(kind, last) + CellsTokens(kind, cells[i..]));
      CellsBack(kind, front, ts, pos, names);
      if last.Hole? && Reserved(last.name.base).Some? {
        TokensConcat(ts, pos + |CellsTokens(kind, front)|, CellTokens(kind, last), CellsTokens(kind, cells[i..]));
        assert CellTokens(kind, last) == NameTokens(last.name) by {
          HoleTokens(kind, last);
        }
        ReservedCell(kind, last.name, ts, pos + |CellsTokens(kind, front)|, names + VarSet(CellNames(front)), front);
      }
    }
  }

  lemma {:induction false} CellsTokensConcat(kind: Kind, a: seq<Cell>, b: seq<Cell>)
    ensures CellsTokens(kind, a + b) == CellsTokens(kind, a) + CellsTokens(kind, b)
  {
    hide CellTokens;
    if b == [] {
      assert a + b == a;
    } else {
      CellsTokensConcat(kind, a, Front(b));
      assert Front(a + b) == a + Front(b) && Last(a + b) == Last(b);
    }
  }

  lemma {:induction false} CellNamesConcat(a: seq<Cell>, b: seq<Cell>)
    ensures CellNames(a + b) == CellNames(a) + CellNames(b)
  {
    if b == [] {
      assert a + b == a;
    } else {
      CellNamesConcat(a, Front(b));
      assert Front(a + b) == a + Front(b) && Last(a + b) == Last(b);
    }
  }

  lemma CellsSplit(kind: Kind, cells: seq<Cell>, i: nat)
    requires i < |cells|
    ensures CellsTokens(kind, cells) ==
      CellsTokens(kind, cells[..i]) + (CellTokens(kind, cells[i]) + CellsTokens(kind, cells[i + 1..]))
    ensures CellNames(cells) == CellNames(cells[..i]) + CellNames(cells[i..])
  {
    hide CellTokens;
    assert cells == cells[..i] + cells[i..] && cells[i..] == [cells[i]] + cells[i + 1..];
    CellsTokensConcat(kind, cells[..i], cells[i..]);
    CellNamesConcat(cells[..i], cells[i..]);
    CellsTokensConcat(kind, [cells[i]], cells[i + 1..]);
    assert Front([cells[i]]) == [] && [] + CellTokens(kind, cells[i]) == CellTokens(kind, cells[i]);
    assert CellsTokens(kind, [cells[i]]) == CellTokens(kind, cells[i]);
  }

  lemma NumbersOnlyIf(kind: Kind, cells: seq<Cell>, ts: seq<Token>, pos: nat, names: set<Name>, k: nat)
    requires Rep(Numbers(kind, cells)) && Unseen(CellNames(cells), names) &&
      TokensAt(ts, pos, ItemTokens(Numbers(kind, cells)))
    requires var r := ReadItem(ts, pos, names, k); r.Some? && r.value.value == Numbers(kind, cells)
    ensures Printable(Numbers(kind, cells))
  {
    hide ReadCells, TokensAt, Unseen, CellsTokens, Reserved, ReadSize, CellsOk, Kind.Fits;
    var size, body := [ItemSize(|cells|, |cells|)], CellsTokens(kind, cells);
    assert ItemTokens(Numbers(kind, cells)) == [LeftAngle, TypeName(Of(kind))] + size + body + [RightAngle];
    Framed(Of(kind), size, body, ts, pos);
    CellsOnlyIf(kind, cells, |cells|, ts, pos + 3, names);
    forall c | c in cells && c.Hole? ensures PrintableName(c.name) {
      var j :| 0 <= j < |cells| && cells[j] == c;
      assert CellPrintable(kind, cells[j]);
    }
  }

  // Lists

  lemma {:induction false} ElementsExtend(ts: seq<Token>, pos: nat, names: set<Name>, k: nat, items: seq<Item>)
    ensures var r := ReadElements(ts, pos, names, k, items); r.Some? ==> items <= r.value.value
    decreases |ts| - pos
  {
    hide ReadItem;
    if pos < |ts| {
      match ts[pos]
      case LeftAngle =>
        var child := ReadItem(ts, pos, names, k);
        if child.Some? {
          ElementsExtend(ts, child.value.pos, child.value.names, child.value.ellipses, items + [child.value.value]);
        }
      case Variable(n) =>
        if n !in names {
          ElementsExtend(ts, pos + 1, names + {n}, k, items + [Slot(n)]);
        }
      case Ellipsis(_) =>
        if items != [] {
          ElementsExtend(ts, pos + 1, names, k + 1, items + [Slot(DotsAt(k))]);
        }
      case _ =>
    }
  }

  lemma ReservedSlot(n: Name, ts: seq<Token>, pos: nat, names: set<Name>, k: nat, items: seq<Item>)
    requires n.Var? && Reserved(n.base).Some? && TokensAt(ts, pos, NameTokens(n))
    ensures ReadElements(ts, pos, names, k, items).None?
  {
    hide Reserved, TokensAt;
    ReservedToken(n.base);
    TokenAt(ts, pos, NameTokens(n), 0);
  }

  lemma {:induction false} ItemsTokensConcat(a: seq<Item>, b: seq<Item>)
    requires (forall c | c in a :: Rep(c)) && forall c | c in b :: Rep(c)
    ensures (forall c | c in a + b :: Rep(c)) && ItemsTokens(a + b) == ItemsTokens(a) + ItemsTokens(b)
  {
    hide Rep, ItemTokens;
    if b == [] {
      assert a + b == a;
    } else {
      assert Last(b) in b;
      ItemsTokensConcat(a, Front(b));
      assert Front(a + b) == a + Front(b);
    }
  }

  lemma ItemsSplit(items: seq<Item>, i: nat)
    requires i < |items| && forall c | c in items :: Rep(c)
    ensures (forall c | c in items[..i] :: Rep(c)) && (forall c | c in items[i + 1..] :: Rep(c)) && Rep(items[i])
    ensures ItemsTokens(items) == ItemsTokens(items[..i]) + (ItemTokens(items[i]) + ItemsTokens(items[i + 1..]))
    ensures ListVariables(items) ==
      ListVariables(items[..i]) + (ChildVariables(items[i]) + ListVariables(items[i + 1..]))
  {
    hide Rep, ItemTokens, ChildVariables;
    assert items == items[..i] + items[i..] && items[i..] == [items[i]] + items[i + 1..] && items[i] in items;
    ItemsTokensConcat([items[i]], items[i + 1..]);
    ItemsTokensConcat(items[..i], items[i..]);
    ListVariablesConcat([items[i]], items[i + 1..]);
    ListVariablesConcat(items[..i], items[i..]);
    OneItem(items[i]);
  }

  lemma OneItem(item: Item)
    requires Rep(item)
    ensures ItemsTokens([item]) == ItemTokens(item) && ListVariables([item]) == ChildVariables(item)
  {
    hide Rep, ItemTokens, ChildVariables;
    assert Front([item]) == [];
    assert ItemsTokens([]) == [] && ListVariables([]) == [];
  }

  /** What a list read as it was printed holds is never a bare empty item. */
  lemma NoneEmptyRead(ts: seq<Token>, pos: nat, names: set<Name>, k: nat)
    ensures var r := ReadElements(ts, pos, names, k, []);
      r.Some? ==> forall i | 0 <= i < |r.value.value| :: !r.value.value[i].Empty?
  {
    hide ReadElements, Rep, Counted;
    NothingCounted(k);
    ElementsRead(ts, pos, names, k, [], k);
  }

  /** The list is read as it was printed, from `pos` on. */
  predicate ElementsSame(items: seq<Item>, ts: seq<Token>, pos: nat, names: set<Name>, k: nat)
    requires forall c | c in items :: Rep(c)
  {
    && TokensAt(ts, pos, ItemsTokens(items)) && Unseen(ListVariables(items), names)
    && var r := ReadElements(ts, pos, names, k, []); r.Some? && r.value.value == items
  }


  /** Where the reader stands before item `i`, the items before it being printable. */
  lemma BeforeItem(items: seq<Item>, i: nat, ts: seq<Token>, pos: nat, names: set<Name>, k: nat)
    requires i < |items| && (forall c | c in items :: Rep(c)) && !IsOwnEllipsis(items[0])
    requires ElementsSame(items, ts, pos, names, k) && forall c | c in items[..i] :: Printable(c)
    ensures forall c | c in items[..i] :: Rep(c)
    ensures var front := items[..i];
      var at, seen, count := pos + |ItemsTokens(front)|, names + VarSet(ListVariables(front)), k + EllipsesInAll(front);
      && ReadElements(ts, pos, names, k, []) == ReadElements(ts, at, seen, count, RenumberedAll(front, k))
      && TokensAt(ts, at, ItemTokens(items[i])) && Unseen(ChildVariables(items[i]), seen)
  {
    hide Rep, Printable, Unseen, TokensAt, ReadElements, VarSet, ItemTokens, ChildVariables, ItemsTokens,
      ListVariables, RenumberedAll;
    var front, behind := items[..i], items[i + 1..];
    ItemsSplit(items, i);
    UnseenConcat(ListVariables(front), ChildVariables(items[i]) + ListVariables(behind), names);
    UnseenConcat(ChildVariables(items[i]), ListVariables(behind), names + VarSet(ListVariables(front)));
    TokensConcat(ts, pos, ItemsTokens(front), ItemTokens(items[i]) + ItemsTokens(behind));
    TokensConcat(ts, pos + |ItemsTokens(front)|, ItemTokens(items[i]), ItemsTokens(behind));
    ElementsBack(front, ts, pos, names, k);
  }

  /** An item that a list holds after it was read, and was printed from, can be printed. */
  lemma {:induction false} ElementOnlyIf(item: Item, ts: seq<Token>, pos: nat, names: set<Name>, k: nat,
                                         before: seq<Item>)
    requires Rep(item) && !item.Empty? && Unseen(ChildVariables(item), names) && TokensAt(ts, pos, ItemTokens(item))
    requires var r := ReadElements(ts, pos, names, k, before);
      r.Some? && |before| < |r.value.value| && r.value.value[|before|] == item
    ensures Printable(item)
    decreases item, 1
  {
    hide Rep, Unseen, TokensAt, ReadElements, ReadItem, Reserved, ItemTokens, ChildVariables;
    if item.Slot? {
      SlotOnlyIf(item.name, ts, pos, names, k, before);
    } else {
      ItemFirst(item);
      TokenAt(ts, pos, ItemTokens(item), 0);
      ChildRead(ts, pos, names, k, before);
      ItemOnlyIf(item, ts, pos, names, k);
    }
  }

  lemma SlotOnlyIf(n: Name, ts: seq<Token>, pos: nat, names: set<Name>, k: nat, before: seq<Item>)
    requires TokensAt(ts, pos, ItemTokens(Slot(n))) && ReadElements(ts, pos, names, k, before).Some?
    ensures PrintableName(n)
  {
    hide TokensAt, ReadElements, Reserved;
    if n.Var? && Reserved(n.base).Some? {
      ReservedSlot(n, ts, pos, names, k, before);
    }
  }

  /** The first item read behind `before`. */
  lemma ChildRead(ts: seq<Token>, pos: nat, names: set<Name>, k: nat, before: seq<Item>)
    requires Next(ts, pos, LeftAngle) && ReadElements(ts, pos, names, k, before).Some?
    ensures ReadItem(ts, pos, names, k).Some?
    ensures var r := ReadElements(ts, pos, names, k, before).value.value;
      |before| < |r| && r[|before|] == ReadItem(ts, pos, names, k).value.value
  {
    hide ReadItem;
    var child := ReadItem(ts, pos, names, k).value;
    ElementsExtend(ts, child.pos, child.names, child.ellipses, before + [child.value]);
  }

  /** The first `i` items of a list that was read as it was printed can be printed. */
  lemma {:induction false} ElementsOnlyIf(items: seq<Item>, i: nat, ts: seq<Token>, pos: nat, names: set<Name>, k: nat)
    requires i <= |items| && (forall c | c in items :: Rep(c)) && (items != [] ==> !IsOwnEllipsis(items[0]))
    requires ElementsSame(items, ts, pos, names, k)
    ensures forall c | c in items[..i] :: Printable(c)
    decreases items, 0, i
  {
    hide Rep, Printable, ElementsSame, ReadElements, ItemsTokens, ItemTokens, ListVariables, ChildVariables, VarSet,
      Unseen, TokensAt;
    if i > 0 {
      ElementsOnlyIf(items, i - 1, ts, pos, names, k);
      var front, item := items[..i - 1], items[i - 1];
      BeforeItem(items, i - 1, ts, pos, names, k);
      ItemThere(items, i - 1, ts, pos, names, k);
      ElementOnlyIf(item, ts, pos + |ItemsTokens(front)|, names + VarSet(ListVariables(front)), k +
        EllipsesInAll(front), RenumberedAll(front, k));
      assert items[..i] == front + [item];
    }
  }

  lemma ItemThere(items: seq<Item>, i: nat, ts: seq<Token>, pos: nat, names: set<Name>, k: nat)
    requires i < |items| && (forall c | c in items :: Rep(c)) && ElementsSame(items, ts, pos, names, k)
    ensures Rep(items[i]) && !items[i].Empty?
    ensures var r := ReadElements(ts, pos, names, k, []); r.Some? && i < |r.value.value| && r.value.value[i] == items[i]
  {
    hide Rep, ReadElements, ItemsTokens, ListVariables;
    assert items[i] in items;
    NoneEmptyRead(ts, pos, names, k);
  }

  lemma {:induction false} ListOnlyIf(items: seq<Item>, ts: seq<Token>, pos: nat, names: set<Name>, k: nat)
    requires Rep(List(items)) && Unseen(ListVariables(items), names) && TokensAt(ts, pos, ItemTokens(List(items)))
    requires var r := ReadItem(ts, pos, names, k); r.Some? && r.value.value == List(items)
    ensures Printable(List(items))
    decreases items, 2
  {
    hide TokensAt, ReadElements, Unseen, ItemsTokens, ListVariables, ListOk, ReadSize;
    FirstItem(items);
    var size, body := if HasSlot(items) then [] else [ItemSize(|items|, |items|)], ItemsTokens(items);
    assert ItemTokens(List(items)) == [LeftAngle, TypeName(L)] + size + body + [RightAngle];
    NoSizeBefore(items);
    Framed(L, size, body, ts, pos);
    ElementsOnlyIf(items, |items|, ts, pos + 2 + |size|, names, k);
    assert items[..|items|] == items;
  }

  /** An item read as itself from what it was printed as can be printed: nothing in it is lost on the way. */
  lemma {:induction false} ItemOnlyIf(item: Item, ts: seq<Token>, pos: nat, names: set<Name>, k: nat)
    requires Rep(item) && !item.Empty? && !item.Slot? && Unseen(ChildVariables(item), names)
    requires TokensAt(ts, pos, ItemTokens(item))
    requires var r := ReadItem(ts, pos, names, k); r.Some? && r.value.value == item
    ensures Printable(item)
    decreases item, 0
  {
    hide TokensAt, ReadItem, Unseen, Reserved;
    match item
    case Ascii(text) =>
      AsciiOnlyIf(text, ts, pos, names, k);
    case AsciiVar(n, min, max) =>
      AsciiVarOnlyIf(n, min, max, ts, pos, names, k);
    case Numbers(kind, cells) =>
      assert ChildVariables(item) == CellNames(cells);
      NumbersOnlyIf(kind, cells, ts, pos, names, k);
    case List(items) =>
      assert ChildVariables(item) == ListVariables(items);
      ListOnlyIf(items, ts, pos, names, k);
  }

  // Messages

  /** Nothing in the message is lost when it is printed, and its ellipses are numbered in order. */
  predicate Survives(m: Message) {
    PrintableMessage(m) && (m.item.Empty? || InOrder(ChildVariables(m.item), 0, EllipsesIn(m.item)))
  }

  /** The message without session id and system bytes, which its text does not carry. */
  function Unaddressed(m: Message): Message
    requires m.Data?
  {
    m.(sessionId := -1, system := NO_SYSTEM)
  }

  lemma SurvivesIffSame(m: Message)
    requires PrintableMessage(m)
    ensures AsRead(m) == Unaddressed(m) <==> Survives(m)
  {
    hide Rep, Printable, DataOk, Renumbered, InOrder;
    if !m.item.Empty? {
      SameIffInOrder(m.item, 0);
    }
  }

  lemma MessageOnlyIf(m: Message, ts: seq<Token>, pos: nat)
    requires m.Data? && MessageOk(m) && TokensAt(ts, pos, MessageTokens(m))
    requires var r := ReadOne(ts, pos); r.Some? && r.value.message == Unaddressed(m)
    ensures PrintableMessage(m)
  {
    hide TokensAt, Rep, Printable, ReadHeader, ReadItem, ItemTokens, HeaderTokens, DataOk;
    if m.item.Empty? {
      return;
    }
    var header, rest := HeaderTokens(m), ItemTokens(m.item) + [MessageEnd];
    assert MessageTokens(m) == header + rest;
    TokensConcat(ts, pos, header, rest);
    ItemFirst(m.item);
    TokenAt(ts, pos + |header|, rest, 0);
    SmlRoundTrip.HeaderBack(m, ts, pos);
    TokensConcat(ts, pos + |header|, ItemTokens(m.item), [MessageEnd]);
    DistinctVariables(m.item);
    ItemOnlyIf(m.item, ts, pos + |header|, {}, 0);
  }

  predicate AllSurvive(ms: seq<Message>) {
    forall i | 0 <= i < |ms| :: Survives(ms[i])
  }

  function AllUnaddressed(ms: seq<Message>): (r: seq<Message>)
    requires AllData(ms)
    ensures |r| == |ms|
  {
    seq(|ms|, i requires 0 <= i < |ms| => Unaddressed(ms[i]))
  }

  lemma {:induction false} MessagesOnlyIf(ms: seq<Message>, ts: seq<Token>, pos: nat)
    requires AllData(ms) && pos <= |ts| && ts[pos..] == Printed(ms)
    requires ReadAll(ts, pos) == Some(AllUnaddressed(ms))
    ensures AllSurvive(ms)
    decreases |ms|
  {
    hide AllData, Printed, MessageTokens, ReadOne, ReadAll, AllUnaddressed, Survives;
    if ms != [] {
      FirstPrinted(ms, ts, pos);
      FirstMessage(ms, ts, pos);
      MessageSurvives(ms[0], ts, pos);
      MessagesOnlyIf(ms[1..], ts, pos + |MessageTokens(ms[0])|);
      SurvivesCons(ms);
    }
  }

  lemma FirstPrinted(ms: seq<Message>, ts: seq<Token>, pos: nat)
    requires ms != [] && AllData(ms) && pos <= |ts| && ts[pos..] == Printed(ms)
    ensures ms[0].Data? && MessageOk(ms[0]) && AllData(ms[1..])
    ensures TokensAt(ts, pos, MessageTokens(ms[0]))
    ensures ts[pos + |MessageTokens(ms[0])|..] == Printed(ms[1..])
  {
    hide MessageOk, MessageTokens;
    var first, rest := MessageTokens(ms[0]), Printed(ms[1..]);
    assert ts[pos..pos + |first|] == ts[pos..][..|first|] == first;
    assert ts[pos + |first|..] == ts[pos..][|first|..] == rest;
  }

  lemma MessageSurvives(m: Message, ts: seq<Token>, pos: nat)
    requires m.Data? && MessageOk(m) && TokensAt(ts, pos, MessageTokens(m))
    requires var r := ReadOne(ts, pos); r.Some? && r.value.message == Unaddressed(m)
    ensures Survives(m) && ReadOne(ts, pos).value.pos == pos + |MessageTokens(m)|
  {
    hide *;
    MessageOnlyIf(m, ts, pos);
    MessageBack(m, ts, pos);
    SurvivesIffSame(m);
  }

  lemma SurvivesCons(ms: seq<Message>)
    requires ms != [] && Survives(ms[0]) && AllSurvive(ms[1..])
    ensures AllSurvive(ms)
  {
    hide Survives;
    forall i | 0 <= i < |ms| ensures Survives(ms[i]) {
      assert i > 0 ==> ms[i] == ms[1..][i - 1];
    }
  }

  lemma FirstMessage(ms: seq<Message>, ts: seq<Token>, pos: nat)
    requires ms != [] && AllData(ms) && pos <= |ts| && ReadAll(ts, pos) == Some(AllUnaddressed(ms))
    ensures ReadOne(ts, pos).Some? && ReadOne(ts, pos).value.message == Unaddressed(ms[0])
    ensures AllData(ms[1..]) && ReadAll(ts, ReadOne(ts, pos).value.pos) == Some(AllUnaddressed(ms[1..]))
  {
    hide MessageOk, ReadOne, Unaddressed;
    var all := AllUnaddressed(ms);
    assert all[0] == Unaddressed(ms[0]);
    var r := ReadOne(ts, pos);
    var behind := ReadAll(ts, r.value.pos).value;
    assert all == [r.value.message] + behind;
    assert all[1..] == behind == AllUnaddressed(ms[1..]);
  }

  lemma AllPrintableIf(ms: seq<Message>)
    requires AllData(ms) && AllSurvive(ms)
    ensures AllPrintable(ms) && AllAsRead(ms) == AllUnaddressed(ms)
  {
    hide MessageOk, PrintableMessage, AsRead, Unaddressed, InOrder;
    forall i | 0 <= i < |ms| ensures PrintableMessage(ms[i]) && AsRead(ms[i]) == Unaddressed(ms[i]) {
      assert Survives(ms[i]);
      SurvivesIffSame(ms[i]);
    }
  }

  /**
   * Any sequence of data messages is read back as itself, apart from session ids and system bytes, exactly when no
   * message holds a bare empty item, a reserved name, a quote or a backslash, and the ellipses of each are numbered
   * in order.
   */
  lemma ReadBackIff(ms: seq<Message>)
    requires AllData(ms)
    ensures ReadAll(Printed(ms), 0) == Some(AllUnaddressed(ms)) <==> AllSurvive(ms)
  {
    hide AllData, AllSurvive, AllPrintable, AllAsRead, AllUnaddressed, ReadAll, Printed;
    var ts := Printed(ms);
    assert ts[0..] == ts;
    if AllSurvive(ms) {
      AllPrintableIf(ms);
      PrintedReadBack(ms);
    }
    if ReadAll(ts, 0) == Some(AllUnaddressed(ms)) {
      MessagesOnlyIf(ms, ts, 0);
    }
  }

  lemma ReadSurvives(m: Message)
    requires WellFormed(m)
    ensures m.Data? && MessageOk(m) && Unaddressed(m) == m && (Survives(m) <==> PrintableMessage(m))
  {
    hide Rep, Distinct, EllipsesOf, Numbered, DataOk;
    if PrintableMessage(m) && !m.item.Empty? {
      ReadInOrder(m.item);
    }
  }

  lemma ReadInOrder(item: Item)
    requires Rep(item) && Printable(item) && InOrder(Variables(item), 0, |EllipsesOf(Variables(item))|)
    ensures InOrder(ChildVariables(item), 0, EllipsesIn(item))
  {
    hide EllipsesOf, Numbered;
    ItemVariables(item);
    EllipsesCounted(item);
  }

  lemma ItemVariables(item: Item)
    requires Printable(item)
    ensures ChildVariables(item) == Variables(item)
  {
  }

  /**
   * Printing what was read and reading it again yields the same messages exactly when none of them holds a quote, a
   * backslash or a reserved name.
   */
  lemma ReadAgainIff(ts: seq<Token>)
    requires ReadAll(ts, 0).Some?
    ensures var ms := ReadAll(ts, 0).value;
      AllData(ms) && (ReadAll(Printed(ms), 0) == Some(ms) <==> AllPrintable(ms))
  {
    hide ReadAll, WellFormed, MessageOk, PrintableMessage, Survives, Printed, Unaddressed;
    var ms := ReadAll(ts, 0).value;
    AllWellFormed(ts, 0);
    forall i | 0 <= i < |ms|
      ensures ms[i].Data? && MessageOk(ms[i]) && Unaddressed(ms[i]) == ms[i] &&
        (Survives(ms[i]) <==> PrintableMessage(ms[i])) {
      ReadSurvives(ms[i]);
    }
    ReadBackIff(ms);
    assert AllUnaddressed(ms) == ms;
  }
}
