/** Two variables whose copies share a name, told from the tree before anything is filled in. */
module Clashes {
  import opened Names
  import opened Items
  import opened Ellipsis
  import opened Numbering
  import opened Freshness

  function Depth(l: Leaf): nat {
    |l.own| + |l.copies|
  }

  /** The indices a copy can have at a position: its variable's own index, or any below the number of copies. */
  function Low(l: Leaf, d: nat): int
    requires d < Depth(l)
  {
    if d < |l.own| then l.own[d] else 0
  }

  function High(l: Leaf, d: nat): int
    requires d < Depth(l)
  {
    if d < |l.own| then l.own[d] else l.copies[d - |l.own|] as int - 1
  }

  /** Same base, same number of indices in the end, and at every position an index that both can have. */
  predicate Clash(a: Leaf, b: Leaf) {
    && a.base == b.base && Depth(a) == Depth(b)
    && forall d | 0 <= d < Depth(a) :: Low(a, d) <= High(b, d) && Low(b, d) <= High(a, d)
  }

  predicate NoClash(ls: seq<Leaf>) {
    forall i, j | 0 <= i < j < |ls| :: !Clash(ls[i], ls[j])
  }

  predicate IsCopied(l: Leaf) {
    forall j | 0 <= j < |l.copies| :: l.copies[j] > 0
  }

  predicate AllCopied(ls: seq<Leaf>) {
    forall i | 0 <= i < |ls| :: IsCopied(ls[i])
  }

  lemma CopiedDeepened(ls: seq<Leaf>, m: nat)
    requires AllCopied(ls) && m > 0
    ensures AllCopied(Deepened(ls, m))
  {
    forall i | 0 <= i < |ls| ensures IsCopied(Deepened(ls, m)[i]) {
      var l := Deepened(ls, m)[i];
      forall j | 0 <= j < |l.copies| ensures l.copies[j] > 0 {
        assert IsCopied(ls[i]) && (j > 0 ==> l.copies[j] == ls[i].copies[j - 1]);
      }
    }
  }

  lemma {:induction false} CellsCopied(cells: seq<Cell>)
    ensures AllCopied(CellLeaves(cells))
  {
    if cells != [] {
      CellsCopied(Front(cells));
    }
  }

  lemma {:induction false} LeavesCopied(item: Item, counts: Counts)
    ensures AllCopied(Leaves(item, counts))
    decreases item, 2
  {
    match item
    case Numbers(_, cells) =>
      CellsCopied(cells);
    case List(items) =>
      ListCopied(items, counts);
    case _ =>
  }

  lemma {:induction false} ListCopied(items: seq<Item>, counts: Counts)
    ensures AllCopied(ListLeaves(items, counts))
    decreases items, 1
  {
    hide SeqLeaves, Deepened, IsCopied;
    var p := FilledAt(items, counts);
    if p == |items| {
      SeqCopied(items, counts);
    } else {
      SeqCopied(items[..p], counts);
      SeqCopied(items[p + 1..], counts);
      CopiedDeepened(SeqLeaves(items[..p], counts), counts[items[p].name] + 1);
    }
  }

  lemma {:induction false} SeqCopied(items: seq<Item>, counts: Counts)
    ensures AllCopied(SeqLeaves(items, counts))
    decreases items, 0
  {
    hide Leaves, IsCopied;
    if items != [] {
      SeqCopied(Front(items), counts);
      LeavesCopied(Last(items), counts);
    }
  }

  // Clashing is sharing a name

  lemma InstanceIff(n: Name, l: Leaf)
    requires n.Var?
    ensures Instance(n, l, [])
        <==> n.base == l.base && |n.indices| == Depth(l) && forall d | 0 <= d < Depth(l) ::
          Low(l, d) <= n.indices[d] <= High(l, d)
  {
    assert l.own + [] == l.own;
    if Instance(n, l, []) {
      forall d | 0 <= d < Depth(l) ensures Low(l, d) <= n.indices[d] <= High(l, d) {
        assert d < |l.own| ==> n.indices[d] == n.indices[..|l.own|][d];
        assert d >= |l.own| ==> n.indices[|l.own| + 0 + (d - |l.own|)] < l.copies[d - |l.own|];
      }
    }
    if n.base == l.base && |n.indices| == Depth(l) && forall d | 0 <= d < Depth(l) ::
      Low(l, d) <= n.indices[d] <= High(l, d) {
      assert n.indices[..|l.own|] == l.own;
      forall j | 0 <= j < |l.copies| ensures n.indices[|l.own| + j] < l.copies[j] {
        assert n.indices[|l.own| + j] <= High(l, |l.own| + j);
      }
    }
  }

  /** The lowest name both can have. */
  function Common(a: Leaf, b: Leaf): Name
    requires Depth(a) == Depth(b)
  {
    Var(a.base, seq(Depth(a), d requires 0 <= d < Depth(a) => if Low(a, d) < Low(b, d) then Low(b, d) as nat
      else Low(a, d) as nat))
  }

  lemma ClashIff(a: Leaf, b: Leaf)
    requires IsCopied(a) && IsCopied(b)
    ensures Clash(a, b) <==> exists n :: Instance(n, a, []) && Instance(n, b, [])
  {
    hide Instance;
    if Clash(a, b) {
      var n := Common(a, b);
      InstanceIff(n, a);
      InstanceIff(n, b);
      assert Instance(n, a, []) && Instance(n, b, []);
    }
    forall n | Instance(n, a, []) && Instance(n, b, []) ensures Clash(a, b) {
      IsVar(n, a);
      InstanceIff(n, a);
      InstanceIff(n, b);
    }
  }

  lemma IsVar(n: Name, l: Leaf)
    requires Instance(n, l, [])
    ensures n.Var?
  {
  }

  lemma ApartIffNoClash(ls: seq<Leaf>)
    requires AllCopied(ls)
    ensures Apart(ls, []) <==> NoClash(ls)
  {
    hide Instance, Clash, IsCopied;
    forall i, j | 0 <= i < j < |ls| ensures Clash(ls[i], ls[j]) <==> exists n ::
      Instance(n, ls[i], []) && Instance(n, ls[j], []) {
      ClashIff(ls[i], ls[j]);
    }
  }

  // Names of which none begins another

  /** Among names of one base, the indices of none begin those of another. */
  predicate PrefixFree(names: seq<Name>) {
    forall i, j | 0 <= i < j < |names| :: !Begins(names[i], names[j]) && !Begins(names[j], names[i])
  }

  predicate Begins(a: Name, b: Name) {
    a.Var? && b.Var? && a.base == b.base && a.indices <= b.indices
  }

  lemma SuffixlessPrefixFree(names: seq<Name>)
    requires Distinct(names) && forall n | n in names :: n.Var? && n.indices == []
    ensures PrefixFree(names)
  {
    forall i, j | 0 <= i < |names| && 0 <= j < |names| && i != j ensures !Begins(names[i], names[j]) {
      assert names[i] in names && names[j] in names;
    }
  }

  function Origins(ls: seq<Leaf>): (r: seq<Name>)
    ensures |r| == |ls|
  {
    seq(|ls|, i requires 0 <= i < |ls| => Var(ls[i].base, ls[i].own))
  }

  lemma OriginsConcat(a: seq<Leaf>, b: seq<Leaf>)
    ensures Origins(a + b) == Origins(a) + Origins(b)
  {
  }

  lemma OriginOf(n: Name)
    ensures Origins(LeafOf(n)) == Vars([n])
  {
    OneVar(n);
  }

  lemma NoOrigins()
    ensures Origins([]) == []
  {
  }

  lemma {:induction false} CellOrigins(cells: seq<Cell>)
    ensures Origins(CellLeaves(cells)) == Vars(CellNames(cells))
  {
    hide Vars;
    NoVars();
    NoOrigins();
    if cells != [] {
      CellOrigins(Front(cells));
      VarsConcat(CellNames(Front(cells)), CellNameOf(Last(cells)));
      OriginsConcat(CellLeaves(Front(cells)), CellLeaf(Last(cells)));
      if Last(cells).Hole? {
        OriginOf(Last(cells).name);
      }
    }
  }

  /** Every variable of the tree has its leaf, in order. */
  lemma {:induction false} LeafOrigins(item: Item, counts: Counts)
    ensures Origins(Leaves(item, counts)) == Vars(ChildVariables(item))
    decreases item, 2
  {
    hide Vars;
    NoVars();
    NoOrigins();
    match item
    case Empty =>
      OriginOf(Var("", []));
    case Slot(n) =>
      OriginOf(n);
    case Ascii(_) =>
    case AsciiVar(n, _, _) =>
      OriginOf(n);
    case Numbers(_, cells) =>
      CellOrigins(cells);
    case List(items) =>
      ListOrigins(items, counts);
  }

  lemma {:induction false} ListOrigins(items: seq<Item>, counts: Counts)
    ensures Origins(ListLeaves(items, counts)) == Vars(ListVariables(items))
    decreases items, 1
  {
    hide Vars, SeqLeaves, ListVariables, Origins, Deepened;
    var p := FilledAt(items, counts);
    if p == |items| {
      SeqOrigins(items, counts);
      return;
    }
    var n := counts[items[p].name];
    var before, behind := items[..p], items[p + 1..];
    SeqOrigins(before, counts);
    SeqOrigins(behind, counts);
    DeepenedOrigins(SeqLeaves(before, counts), n + 1);
    OriginsConcat(if n == 0 then SeqLeaves(before, counts)
      else Deepened(SeqLeaves(before, counts), n + 1), SeqLeaves(behind, counts));
    ListVariablesSplit(items, p);
    assert ChildVariables(items[p]) == [items[p].name];
    OneVar(items[p].name);
    VarsConcat(ListVariables(before) + [items[p].name], ListVariables(behind));
    VarsConcat(ListVariables(before), [items[p].name]);
    assert Vars(ListVariables(before)) + [] == Vars(ListVariables(before));
  }

  lemma DeepenedOrigins(ls: seq<Leaf>, m: nat)
    ensures Origins(Deepened(ls, m)) == Origins(ls)
  {
  }

  lemma {:induction false} SeqOrigins(items: seq<Item>, counts: Counts)
    ensures Origins(SeqLeaves(items, counts)) == Vars(ListVariables(items))
    decreases items, 0
  {
    hide Vars, Leaves, ChildVariables, Origins;
    NoVars();
    NoOrigins();
    if items != [] {
      SeqOrigins(Front(items), counts);
      LeafOrigins(Last(items), counts);
      OriginsConcat(SeqLeaves(Front(items), counts), Leaves(Last(items), counts));
      VarsConcat(ListVariables(Front(items)), ChildVariables(Last(items)));
    }
  }

  lemma PrefixFreeNoClash(ls: seq<Leaf>)
    requires PrefixFree(Origins(ls))
    ensures NoClash(ls)
  {
    forall i, j | 0 <= i < j < |ls| ensures !Clash(ls[i], ls[j]) {
      assert !Begins(Origins(ls)[i], Origins(ls)[j]) && !Begins(Origins(ls)[j], Origins(ls)[i]);
      OwnsAgree(ls[i], ls[j]);
    }
  }

  lemma OwnsAgree(a: Leaf, b: Leaf)
    ensures Clash(a, b) ==> a.base == b.base && (a.own <= b.own || b.own <= a.own)
  {
    if !Clash(a, b) {
      return;
    }
    var m := if |a.own| < |b.own| then |a.own| else |b.own|;
    forall d | 0 <= d < m ensures a.own[d] == b.own[d] {
      assert Low(a, d) <= High(b, d) && Low(b, d) <= High(a, d);
    }
  }

  lemma InstancesBegin(a: Name, b: Name, l: Leaf, m: Leaf)
    requires Instance(a, l, []) && Instance(b, m, [])
    ensures Begins(a, b) ==> l.base == m.base && (l.own <= m.own || m.own <= l.own) && (l == m ==> a == b)
  {
    if !Begins(a, b) {
      return;
    }
    assert l.own + [] == l.own && m.own + [] == m.own;
    var least := if |l.own| < |m.own| then |l.own| else |m.own|;
    forall d | 0 <= d < least ensures l.own[d] == m.own[d] {
      assert l.own[d] == a.indices[..|l.own|][d] && m.own[d] == b.indices[..|m.own|][d];
    }
  }

  /** Names of which none begins another stay that way, so that filling can go on step by step. */
  lemma ExpandPrefixFree(item: Item, counts: Counts, k: nat, many: bool)
    requires PrefixFree(Vars(ChildVariables(item)))
    ensures PrefixFree(Vars(Variables(Expand(item, counts, [], k, many))))
  {
    hide Expand, Leaves, Vars, Variables, ChildVariables, Instance, Clash, Origins;
    var names, ls := Vars(Variables(Expand(item, counts, [], k, many))), Leaves(item, counts);
    LeafOrigins(item, counts);
    PrefixFreeNoClash(ls);
    LeavesCopied(item, counts);
    ApartIffNoClash(ls);
    ExpandSpans(item, counts, [], k, many);
    forall i, j | 0 <= i < |names| && 0 <= j < |names| && i != j ensures !Begins(names[i], names[j]) {
      assert names[i] in names && names[j] in names;
      SpanPrefixFree(names[i], names[j], ls);
    }
  }

  lemma SpanPrefixFree(a: Name, b: Name, ls: seq<Leaf>)
    requires PrefixFree(Origins(ls)) && Reaches(a, ls, []) && Reaches(b, ls, []) && a != b
    ensures !Begins(a, b)
  {
    hide Instance;
    var i :| 0 <= i < |ls| && Instance(a, ls[i], []);
    var j :| 0 <= j < |ls| && Instance(b, ls[j], []);
    InstancesBegin(a, b, ls[i], ls[j]);
    var names := Origins(ls);
    assert i != j ==> !Begins(names[i], names[j]) && !Begins(names[j], names[i]);
  }
}
