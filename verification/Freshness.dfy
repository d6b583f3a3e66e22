/** Which names an expansion holds, and exactly when they are distinct. */
module Freshness {
  import opened Names
  import opened Items
  import opened Ellipsis
  import opened Numbering

  /**
   * A variable of a tree whose ellipses are about to be filled in: its base, its own indices, and how many copies
   * each of the ellipses that repeat it will make of it, outermost first.
   */
  datatype Leaf = Leaf(base: string, own: seq<nat>, copies: seq<nat>)

  function LeafOf(n: Name): seq<Leaf> {
    if n.Var? then [Leaf(n.base, n.indices, [])] else []
  }

  function CellLeaves(cells: seq<Cell>): seq<Leaf> {
    if cells == [] then [] else CellLeaves(Front(cells)) + if Last(cells).Hole? then LeafOf(Last(cells).name) else []
  }

  function Leaves(item: Item, counts: Counts): seq<Leaf>
    decreases item, 2
  {
    match item
    case Empty => LeafOf(Var("", []))
    case Slot(n) => LeafOf(n)
    case Ascii(_) => []
    case AsciiVar(n, _, _) => LeafOf(n)
    case Numbers(_, cells) => CellLeaves(cells)
    case List(items) => ListLeaves(items, counts)
  }

  function ListLeaves(items: seq<Item>, counts: Counts): seq<Leaf>
    decreases items, 1
  {
    var p := FilledAt(items, counts);
    if p == |items| then SeqLeaves(items, counts)
    else
      var n := counts[items[p].name];
      var before := SeqLeaves(items[..p], counts);
      (if n == 0 then before else Deepened(before, n + 1)) + SeqLeaves(items[p + 1..], counts)
  }

  function SeqLeaves(items: seq<Item>, counts: Counts): seq<Leaf>
    decreases items, 0
  {
    if items == [] then [] else SeqLeaves(Front(items), counts) + Leaves(Last(items), counts)
  }

  function Deep(l: Leaf, m: nat): Leaf {
    l.(copies := [m] + l.copies)
  }

  function Deepened(ls: seq<Leaf>, m: nat): (r: seq<Leaf>)
    ensures |r| == |ls|
  {
    seq(|ls|, i requires 0 <= i < |ls| => Deep(ls[i], m))
  }

  // The names of a variable's copies

  /** `n` is the name of a copy of the variable, under `path`. */
  predicate Instance(n: Name, l: Leaf, path: seq<nat>) {
    && n.Var? && n.base == l.base && |n.indices| == |l.own| + |path| + |l.copies|
    && n.indices[..|l.own| + |path|] == l.own + path
    && forall j | 0 <= j < |l.copies| :: n.indices[|l.own| + |path| + j] < l.copies[j]
  }

  predicate Reaches(n: Name, ls: seq<Leaf>, path: seq<nat>) {
    exists i | 0 <= i < |ls| :: Instance(n, ls[i], path)
  }

  /** No two of the variables have copies of the same name. */
  ghost predicate Apart(ls: seq<Leaf>, path: seq<nat>) {
    forall i, j, n | 0 <= i < j < |ls| :: !(Instance(n, ls[i], path) && Instance(n, ls[j], path))
  }

  /** The names are those of all copies of the variables, each copy once. */
  ghost predicate Spans(names: seq<Name>, ls: seq<Leaf>, path: seq<nat>) {
    && (forall n :: n in names <==> Reaches(n, ls, path))
    && (Distinct(names) <==> Apart(ls, path))
  }

  lemma ReachesConcat(n: Name, a: seq<Leaf>, b: seq<Leaf>, path: seq<nat>)
    ensures Reaches(n, a + b, path) <==> Reaches(n, a, path) || Reaches(n, b, path)
  {
    hide Instance;
    var c := a + b;
    if Reaches(n, a, path) {
      var i :| 0 <= i < |a| && Instance(n, a[i], path);
      assert c[i] == a[i];
    }
    if Reaches(n, b, path) {
      var i :| 0 <= i < |b| && Instance(n, b[i], path);
      assert c[|a| + i] == b[i];
    }
    if Reaches(n, c, path) {
      var i :| 0 <= i < |c| && Instance(n, c[i], path);
      assert c[i] == if i < |a| then a[i] else b[i - |a|];
    }
  }

  ghost predicate NoneShared(a: seq<Leaf>, b: seq<Leaf>, path: seq<nat>) {
    forall n :: !(Reaches(n, a, path) && Reaches(n, b, path))
  }

  lemma ApartConcat(a: seq<Leaf>, b: seq<Leaf>, path: seq<nat>)
    ensures Apart(a + b, path) <==> Apart(a, path) && Apart(b, path) && NoneShared(a, b, path)
  {
    hide Instance;
    var c := a + b;
    if Apart(c, path) {
      forall i, j, n | 0 <= i < j < |a| ensures !(Instance(n, a[i], path) && Instance(n, a[j], path)) {
        assert c[i] == a[i] && c[j] == a[j];
      }
      forall i, j, n | 0 <= i < j < |b| ensures !(Instance(n, b[i], path) && Instance(n, b[j], path)) {
        assert c[|a| + i] == b[i] && c[|a| + j] == b[j];
      }
      forall n ensures !(Reaches(n, a, path) && Reaches(n, b, path)) {
        forall i, j | 0 <= i < |a| && 0 <= j < |b| ensures !(Instance(n, a[i], path) && Instance(n, b[j], path)) {
          assert c[i] == a[i] && c[|a| + j] == b[j];
        }
      }
    }
    if Apart(a, path) && Apart(b, path) && NoneShared(a, b, path) {
      forall i, j, n | 0 <= i < j < |c| ensures !(Instance(n, c[i], path) && Instance(n, c[j], path)) {
        assert c[i] == if i < |a| then a[i] else b[i - |a|];
        assert c[j] == if j < |a| then a[j] else b[j - |a|];
        assert i < |a| && Instance(n, c[i], path) ==> Reaches(n, a, path);
        assert j >= |a| && Instance(n, c[j], path) ==> Reaches(n, b, path);
      }
    }
  }

  lemma SpansConcat(a: seq<Name>, b: seq<Name>, la: seq<Leaf>, lb: seq<Leaf>, path: seq<nat>)
    requires Spans(a, la, path) && Spans(b, lb, path)
    ensures Spans(a + b, la + lb, path)
  {
    hide Reaches, Distinct, Apart;
    DistinctConcat(a, b);
    ApartConcat(la, lb, path);
    forall n ensures n in a + b <==> Reaches(n, la + lb, path) {
      ReachesConcat(n, la, lb, path);
    }
    assert Disjoint(a, b) <==> NoneShared(la, lb, path) by {
      if Disjoint(a, b) {
        forall n ensures !(Reaches(n, la, path) && Reaches(n, lb, path)) {
          assert n in a <==> Reaches(n, la, path);
        }
      }
      if NoneShared(la, lb, path) {
        forall n | n in a ensures n !in b {
          assert Reaches(n, la, path);
        }
      }
    }
  }

  // One copy more

  /** Among m + 1 copies a copy is one of the first m or the last, and never both. */
  lemma OneCopyMore(n: Name, l: Leaf, path: seq<nat>, m: nat)
    ensures Instance(n, Deep(l, m + 1), path) <==> Instance(n, Deep(l, m), path) || Instance(n, l, path + [m])
    ensures !(Instance(n, Deep(l, m), path) && Instance(n, l, path + [m]))
  {
    var at := |l.own| + |path|;
    if n.Var? && |n.indices| == at + 1 + |l.copies| {
      assert n.indices[..at + 1] == n.indices[..at] + [n.indices[at]];
      assert l.own + (path + [m]) == (l.own + path) + [m];
      DeepInstance(n, l, path, m);
      DeepInstance(n, l, path, m + 1);
      assert Instance(n, l, path + [m]) <==>
        n.base == l.base && n.indices[..at] == l.own + path && n.indices[at] == m && Below(n, l, at + 1);
    }
  }

  predicate Below(n: Name, l: Leaf, at: nat)
    requires n.Var? && |n.indices| == at + |l.copies|
  {
    forall j | 0 <= j < |l.copies| :: n.indices[at + j] < l.copies[j]
  }

  lemma DeepInstance(n: Name, l: Leaf, path: seq<nat>, m: nat)
    requires n.Var? && |n.indices| == |l.own| + |path| + 1 + |l.copies|
    ensures var at := |l.own| + |path|;
      Instance(n, Deep(l, m), path) <==>
        n.base == l.base && n.indices[..at] == l.own + path && n.indices[at] < m && Below(n, l, at + 1)
  {
    var at, copies := |l.own| + |path|, [m] + l.copies;
    if Instance(n, Deep(l, m), path) {
      assert n.indices[at + 0] < copies[0];
      forall j | 0 <= j < |l.copies| ensures n.indices[at + 1 + j] < l.copies[j] {
        assert n.indices[at + (j + 1)] < copies[j + 1];
      }
    }
    if n.base == l.base && n.indices[..at] == l.own + path && n.indices[at] < m && Below(n, l, at + 1) {
      forall j | 0 <= j < |copies| ensures n.indices[at + j] < copies[j] {
        assert j > 0 ==> n.indices[at + 1 + (j - 1)] < l.copies[j - 1];
      }
    }
  }

  lemma ReachesDeepened(n: Name, ls: seq<Leaf>, path: seq<nat>, m: nat)
    ensures Reaches(n, Deepened(ls, m + 1), path) <==> Reaches(n, Deepened(ls, m), path) || Reaches(n, ls, path + [m])
  {
    hide Instance, Deep;
    forall i | 0 <= i < |ls|
      ensures Instance(n, Deepened(ls, m + 1)[i], path) <==>
        Instance(n, Deepened(ls, m)[i], path) || Instance(n, ls[i], path + [m])
    {
      OneCopyMore(n, ls[i], path, m);
    }
  }

  lemma ApartDeepened(ls: seq<Leaf>, path: seq<nat>, m: nat)
    ensures Apart(Deepened(ls, m + 1), path) ==> Apart(Deepened(ls, m), path) && Apart(ls, path + [m])
    ensures Apart(Deepened(ls, m + 1), path) ==> forall n ::
      !(Reaches(n, Deepened(ls, m), path) && Reaches(n, ls, path + [m]))
  {
    hide Instance, Deep;
    var more, less := Deepened(ls, m + 1), Deepened(ls, m);
    if Apart(more, path) {
      forall i, j, n | 0 <= i < j < |ls|
        ensures !(Instance(n, less[i], path) && Instance(n, less[j], path)) &&
          !(Instance(n, ls[i], path + [m]) && Instance(n, ls[j], path + [m]))
      {
        OneCopyMore(n, ls[i], path, m);
        OneCopyMore(n, ls[j], path, m);
        assert !(Instance(n, more[i], path) && Instance(n, more[j], path));
      }
      forall n ensures !(Reaches(n, less, path) && Reaches(n, ls, path + [m])) {
        forall i, j | 0 <= i < |ls| && 0 <= j < |ls|
          ensures !(Instance(n, less[i], path) && Instance(n, ls[j], path + [m])) {
          OneCopyMore(n, ls[i], path, m);
          OneCopyMore(n, ls[j], path, m);
          assert i != j ==> !(Instance(n, more[i], path) && Instance(n, more[j], path));
        }
      }
    }
  }

  lemma DeepenedApart(ls: seq<Leaf>, path: seq<nat>, m: nat)
    requires Apart(Deepened(ls, m), path) && Apart(ls, path + [m])
    requires forall n :: !(Reaches(n, Deepened(ls, m), path) && Reaches(n, ls, path + [m]))
    ensures Apart(Deepened(ls, m + 1), path)
  {
    hide Instance, Deep;
    var more, less := Deepened(ls, m + 1), Deepened(ls, m);
    forall i, j, n | 0 <= i < j < |ls| ensures !(Instance(n, more[i], path) && Instance(n, more[j], path)) {
      OneCopyMore(n, ls[i], path, m);
      OneCopyMore(n, ls[j], path, m);
      assert !(Instance(n, less[i], path) && Instance(n, less[j], path));
      assert !(Instance(n, ls[i], path + [m]) && Instance(n, ls[j], path + [m]));
      assert Instance(n, less[i], path) || Instance(n, less[j], path) ==> Reaches(n, less, path);
      assert Instance(n, ls[i], path + [m]) || Instance(n, ls[j], path + [m]) ==> Reaches(n, ls, path + [m]);
    }
  }

  lemma SpansCopy(a: seq<Name>, b: seq<Name>, ls: seq<Leaf>, path: seq<nat>, m: nat)
    requires Spans(a, Deepened(ls, m), path) && Spans(b, ls, path + [m])
    ensures Spans(a + b, Deepened(ls, m + 1), path)
  {
    hide Reaches, Distinct, Apart, Deepened;
    DistinctConcat(a, b);
    ApartDeepened(ls, path, m);
    forall n ensures n in a + b <==> Reaches(n, Deepened(ls, m + 1), path) {
      ReachesDeepened(n, ls, path, m);
    }
    if Distinct(a + b) {
      forall n ensures !(Reaches(n, Deepened(ls, m), path) && Reaches(n, ls, path + [m])) {
        assert n in a <==> Reaches(n, Deepened(ls, m), path);
      }
      DeepenedApart(ls, path, m);
    }
    if Apart(Deepened(ls, m + 1), path) {
      forall n | n in a ensures n !in b {
        assert Reaches(n, Deepened(ls, m), path);
      }
    }
  }

  lemma SpansNoCopy(ls: seq<Leaf>, path: seq<nat>)
    ensures Spans([], Deepened(ls, 0), path)
  {
    forall n, i | 0 <= i < |ls| ensures !Instance(n, Deepened(ls, 0)[i], path) {
      if n.Var? && |n.indices| == |ls[i].own| + |path| + 1 + |ls[i].copies| {
        DeepInstance(n, ls[i], path, 0);
      }
    }
  }

  // An expansion holds the copies of its variables

  lemma SpansNothing(path: seq<nat>)
    ensures Spans([], [], path)
  {
  }

  lemma SpansName(n: Name, path: seq<nat>)
    requires n.Var?
    ensures Spans([n.Suffixed(path)], LeafOf(n), path)
  {
    var l := LeafOf(n)[0];
    forall other ensures other in [n.Suffixed(path)] <==> Reaches(other, LeafOf(n), path) {
      if Instance(other, l, path) {
        assert other.indices == other.indices[..|l.own| + |path|];
      }
      assert Instance(n.Suffixed(path), LeafOf(n)[0], path);
    }
  }

  lemma OneVar(n: Name)
    ensures Vars([n]) == if n.Var? then [n] else []
  {
    assert Front([n]) == [] && Vars([]) == [];
  }

  lemma SpansNewName(n: Name, path: seq<nat>, k: nat, many: bool)
    ensures Spans(Vars([NewName(n, path, k, many)]), LeafOf(n), path)
  {
    hide Spans;
    OneVar(NewName(n, path, k, many));
    if n.Var? {
      SpansName(n, path);
    } else {
      SpansNothing(path);
    }
  }

  lemma {:induction false} CellsSpan(cells: seq<Cell>, path: seq<nat>)
    ensures Spans(Vars(CellNames(RenameCells(cells, path))), CellLeaves(cells), path)
  {
    hide Spans, Vars, RenameCell;
    if cells == [] {
      NoVars();
      SpansNothing(path);
    } else {
      CellsSpan(Front(cells), path);
      CellSpans(Last(cells), path);
      var front, last := RenameCells(Front(cells), path), RenameCell(Last(cells), path);
      assert Front(front + [last]) == front && Last(front + [last]) == last;
      VarsConcat(CellNames(front), CellNameOf(last));
      SpansConcat(Vars(CellNames(front)), Vars(CellNameOf(last)), CellLeaves(Front(cells)), CellLeaf(Last(cells)),
        path);
    }
  }

  lemma NoVars()
    ensures Vars([]) == []
  {
  }

  function CellNameOf(cell: Cell): seq<Name> {
    match cell
    case Lit(_) => []
    case Hole(n) => [n]
  }

  function CellLeaf(cell: Cell): seq<Leaf> {
    if cell.Hole? then LeafOf(cell.name) else []
  }

  lemma CellSpans(cell: Cell, path: seq<nat>)
    ensures Spans(Vars(CellNameOf(RenameCell(cell, path))), CellLeaf(cell), path)
  {
    hide Spans;
    NoVars();
    SpansNothing(path);
    if cell.Hole? {
      OneVar(RenameCell(cell, path).name);
      if cell.name.Var? {
        SpansName(cell.name, path);
      }
    }
  }

  lemma {:induction false} ExpandSpans(item: Item, counts: Counts, path: seq<nat>, k: nat, many: bool)
    ensures Spans(Vars(Variables(Expand(item, counts, path, k, many))), Leaves(item, counts), path)
    decreases item, 3
  {
    hide Spans, Vars, NewName;
    match item
    case Empty =>
      SpansNewName(Var("", []), path, k, many);
    case Slot(n) =>
      SpansNewName(n, path, k, many);
    case Ascii(_) =>
      NoVars();
      SpansNothing(path);
    case AsciiVar(n, _, _) =>
      SpansNewName(n, path, k, many);
    case Numbers(_, cells) =>
      CellsSpan(cells, path);
    case List(items) =>
      ExpandListSpans(items, counts, path, k, many);
  }

  lemma {:induction false} ExpandListSpans(items: seq<Item>, counts: Counts, path: seq<nat>, k: nat, many: bool)
    ensures Spans(Vars(ListVariables(ExpandList(items, counts, path, k, many))), ListLeaves(items, counts), path)
    decreases items, 2
  {
    hide Spans, Vars, ListVariables, Expand, ExpandSeq, Copies, EmittedSeq, Times, SeqLeaves, Deepened;
    var p := FilledAt(items, counts);
    if p == |items| {
      ExpandSeqSpans(items, counts, path, k, many);
    } else {
      var n := counts[items[p].name];
      var before := items[..p];
      var at := k + Times(n + 1, EmittedSeq(before, counts));
      var copies, rest := Copies(before, counts, path, k, many, n, n + 1),
        ExpandSeq(items[p + 1..], counts, path, at, many);
      ExpandSeqSpans(items[p + 1..], counts, path, at, many);
      if n == 0 {
        SingleCopy(before, counts, path, k, many);
        ExpandSeqSpans(before, counts, path, k, many);
      } else {
        CopiesSpan(before, counts, path, k, many, n, n + 1);
      }
      ListVariablesConcat(copies, rest);
      VarsConcat(ListVariables(copies), ListVariables(rest));
      SpansConcat(Vars(ListVariables(copies)), Vars(ListVariables(rest)),
        if n == 0 then SeqLeaves(before, counts)
          else Deepened(SeqLeaves(before, counts), n + 1), SeqLeaves(items[p + 1..], counts), path);
    }
  }

  /** An ellipsis filled with 0 leaves one copy, without an index. */
  lemma SingleCopy(items: seq<Item>, counts: Counts, path: seq<nat>, k: nat, many: bool)
    ensures Copies(items, counts, path, k, many, 0, 1) == ExpandSeq(items, counts, path, k, many)
  {
    hide ExpandSeq, EmittedSeq;
    assert Copies(items, counts, path, k, many, 0, 0) == [];
    assert Times(0, EmittedSeq(items, counts)) == 0;
  }

  lemma {:induction false} CopiesSpan(items: seq<Item>, counts: Counts, path: seq<nat>, k: nat, many: bool, n: nat,
                                      m: nat)
    requires n > 0
    ensures Spans(Vars(ListVariables(Copies(items, counts, path, k, many, n, m))),
      Deepened(SeqLeaves(items, counts), m), path)
    decreases items, 1, m
  {
    hide Spans, Vars, ListVariables, Copies, ExpandSeq, EmittedSeq, Times, SeqLeaves, Deepened;
    if m == 0 {
      NoCopies(items, counts, path, k, many, n);
      NoVars();
      SpansNoCopy(SeqLeaves(items, counts), path);
      return;
    }
    var at := k + Times(m - 1, EmittedSeq(items, counts));
    var earlier, last := Copies(items, counts, path, k, many, n, m - 1),
      ExpandSeq(items, counts, CopyPath(path, n, m - 1), at, many);
    CopiesSnoc(items, counts, path, k, many, n, m - 1);
    CopiesSpan(items, counts, path, k, many, n, m - 1);
    ExpandSeqSpans(items, counts, path + [m - 1], at, many);
    ListVariablesConcat(earlier, last);
    VarsConcat(ListVariables(earlier), ListVariables(last));
    SpansCopy(Vars(ListVariables(earlier)), Vars(ListVariables(last)), SeqLeaves(items, counts), path, m - 1);
  }

  lemma {:induction false} ExpandSeqSpans(items: seq<Item>, counts: Counts, path: seq<nat>, k: nat, many: bool)
    ensures Spans(Vars(ListVariables(ExpandSeq(items, counts, path, k, many))), SeqLeaves(items, counts), path)
    decreases items, 0
  {
    hide Spans, Vars, ListVariables, Variables, Expand, ExpandSeq, Emitted, EmittedSeq, Leaves;
    UnfoldSeq(items, counts, path, k, many);
    if items == [] {
      NoVars();
      SpansNothing(path);
    } else {
      var front, last := Front(items), Last(items);
      var at := k + EmittedSeq(front, counts);
      ExpandSeqSpans(front, counts, path, k, many);
      ExpandSpans(last, counts, path, at, many);
      var a, b := ListVariables(ExpandSeq(front, counts, path, k, many)),
        Variables(Expand(last, counts, path, at, many));
      VarsConcat(a, b);
      SpansConcat(Vars(a), Vars(b), SeqLeaves(front, counts), Leaves(last, counts), path);
    }
  }

  /** The names of an expansion are distinct exactly when no two variables have copies of the same name. */
  lemma ExpandDistinctIff(item: Item, counts: Counts, path: seq<nat>, k: nat, many: bool)
    requires Rep(item) && Numberable(Emitted(item, counts), many)
    ensures Distinct(Variables(Expand(item, counts, path, k, many))) <==> Apart(Leaves(item, counts), path)
  {
    hide Rep, Variables, Expand, Emitted, Vars, EllipsesOf, Distinct, Apart, Reaches, Leaves;
    var names := Variables(Expand(item, counts, path, k, many));
    ExpandSpans(item, counts, path, k, many);
    ExpandNumbered(item, counts, path, k, many);
    DistinctByParts(names);
    AnyNumberedDistinct(k, Emitted(item, counts), many);
  }

  lemma AnyNumberedDistinct(k: nat, e: nat, many: bool)
    requires Numberable(e, many)
    ensures Distinct(Numbered(k, e, many))
  {
    if many {
      NumberedDistinct(k, e);
    } else if e == 1 {
      assert Numbered(k, 0, many) == [];
    }
  }
}
