/** What filling in the ellipses of a list means: the recursive expansion of the item tree. */
module Ellipsis {
  import opened Names
  import opened Items

  type Counts = map<Name, nat>

  /** The name an item takes in a copy reached along `path`, when `k` ellipses were left unfilled before it. */
  function NewName(n: Name, path: seq<nat>, k: nat, many: bool): Name {
    if n.Var? then n.Suffixed(path) else if many then DotsAt(k) else Dots
  }

  function RenameCell(cell: Cell, path: seq<nat>): Cell {
    if cell.Hole? && cell.name.Var? then Hole(cell.name.Suffixed(path)) else cell
  }

  function RenameCells(cells: seq<Cell>, path: seq<nat>): (r: seq<Cell>)
    ensures |r| == |cells|
  {
    if cells == [] then [] else RenameCells(Front(cells), path) + [RenameCell(Last(cells), path)]
  }

  predicate IsFilled(item: Item, counts: Counts) {
    IsOwnEllipsis(item) && item.name in counts
  }

  /** The position of the list's own ellipsis, if it is to be filled in; the list's size otherwise. */
  function FilledAt(items: seq<Item>, counts: Counts): (p: nat)
    ensures p <= |items|
    ensures p < |items| ==> IsFilled(items[p], counts)
    ensures forall i | 0 <= i < p :: !IsFilled(items[i], counts)
  {
    if items == [] then 0
    else
      var q := FilledAt(Front(items), counts);
      assert forall i | 0 <= i < |items| - 1 :: items[i] == Front(items)[i];
      if q < |items| - 1 then q
      else if IsFilled(Last(items), counts) then |items| - 1
      else |items|
  }

  /** The number filled into the list's own ellipsis. */
  function Repeat(items: seq<Item>, counts: Counts): nat {
    var p := FilledAt(items, counts);
    if p < |items| then counts[items[p].name] else 0
  }

  /** The indices in force in copy `c` of what a filled ellipsis repeats `n` times. */
  function CopyPath(path: seq<nat>, n: nat, c: nat): seq<nat> {
    if n == 0 then path else path + [c]
  }

  /** m * x, as repeated addition. */
  function Times(m: nat, x: nat): nat {
    if m == 0 then 0 else Times(m - 1, x) + x
  }

  lemma TimesIsProduct(m: nat, x: nat)
    ensures Times(m, x) == m * x
  {
    if m > 0 {
      TimesIsProduct(m - 1, x);
      assert m * x == (m - 1) * x + x;
    }
  }

  // How many ellipses the expansion still holds

  function Emitted(item: Item, counts: Counts): nat
    decreases item, 3
  {
    match item
    case Slot(n) => if n.IsEllipsis() then 1 else 0
    case List(items) => EmittedList(items, counts)
    case _ => 0
  }

  function EmittedList(items: seq<Item>, counts: Counts): nat
    decreases items, 2
  {
    var p := FilledAt(items, counts);
    if p == |items| then EmittedSeq(items, counts)
    else Times(counts[items[p].name] + 1, EmittedSeq(items[..p], counts)) + EmittedSeq(items[p + 1..], counts)
  }

  function EmittedSeq(items: seq<Item>, counts: Counts): nat
    decreases items, 0
  {
    if items == [] then 0 else EmittedSeq(Front(items), counts) + Emitted(Last(items), counts)
  }

  // The expansion

  function Expand(item: Item, counts: Counts, path: seq<nat>, k: nat, many: bool): Item
    decreases item, 3
  {
    match item
    case Empty => Slot(NewName(Var("", []), path, k, many))
    case Slot(n) => Slot(NewName(n, path, k, many))
    case Ascii(_) => item
    case AsciiVar(n, min, max) => AsciiVar(NewName(n, path, k, many), min, max)
    case Numbers(kind, cells) => Numbers(kind, RenameCells(cells, path))
    case List(items) => List(ExpandList(items, counts, path, k, many))
  }

  function ExpandList(items: seq<Item>, counts: Counts, path: seq<nat>, k: nat, many: bool): seq<Item>
    decreases items, 2
  {
    var p := FilledAt(items, counts);
    if p == |items| then ExpandSeq(items, counts, path, k, many)
    else
      var n := counts[items[p].name];
      Copies(items[..p], counts, path, k, many, n, n + 1)
      + ExpandSeq(items[p + 1..], counts, path, k + Times(n + 1, EmittedSeq(items[..p], counts)), many)
  }

  /** The first `m` of the `n + 1` copies of `items`, one after the other. */
  function Copies(items: seq<Item>, counts: Counts, path: seq<nat>, k: nat, many: bool, n: nat, m: nat): seq<Item>
    decreases items, 1, m
  {
    if m == 0 then []
    else
      Copies(items, counts, path, k, many, n, m - 1)
      + ExpandSeq(items, counts, CopyPath(path, n, m - 1), k + Times(m - 1, EmittedSeq(items, counts)), many)
  }

  function ExpandSeq(items: seq<Item>, counts: Counts, path: seq<nat>, k: nat, many: bool): (r: seq<Item>)
    ensures |r| == |items|
    decreases items, 0
  {
    if items == [] then []
    else
      ExpandSeq(Front(items), counts, path, k, many)
      + [Expand(Last(items), counts, path, k + EmittedSeq(Front(items), counts), many)]
  }

  /** Copy by copy and position by position, what stands where in an expanded list. */
  lemma {:induction false} ExpandSeqAt(items: seq<Item>, counts: Counts, path: seq<nat>, k: nat, many: bool, i: nat)
    requires i < |items|
    ensures ExpandSeq(items, counts, path, k, many)[i]
         == Expand(items[i], counts, path, k + EmittedSeq(items[..i], counts), many)
  {
    if i == |items| - 1 {
      assert items[..i] == Front(items);
    } else {
      ExpandSeqAt(Front(items), counts, path, k, many, i);
      assert Front(items)[..i] == items[..i];
    }
  }

  lemma CopiesSnoc(items: seq<Item>, counts: Counts, path: seq<nat>, k: nat, many: bool, n: nat, m: nat)
    ensures Copies(items, counts, path, k, many, n, m + 1)
         == Copies(items, counts, path, k, many, n, m)
          + ExpandSeq(items, counts, CopyPath(path, n, m), k + Times(m, EmittedSeq(items, counts)), many)
  {
    hide ExpandSeq, EmittedSeq, Times;
  }

  lemma {:induction false} CopiesLength(items: seq<Item>, counts: Counts, path: seq<nat>, k: nat, many: bool, n: nat,
                                        m: nat)
    ensures |Copies(items, counts, path, k, many, n, m)| == Times(m, |items|)
  {
    if m > 0 {
      CopiesLength(items, counts, path, k, many, n, m - 1);
    }
  }

  lemma {:induction false} TimesMonotone(c: nat, m: nat, x: nat)
    requires c < m
    ensures Times(c, x) + x <= Times(m, x)
  {
    if c < m - 1 {
      TimesMonotone(c, m - 1, x);
    }
  }

  lemma SliceLeft<T>(a: seq<T>, b: seq<T>, lo: nat, hi: nat)
    requires lo <= hi <= |a|
    ensures (a + b)[lo..hi] == a[lo..hi]
  {
  }

  lemma SliceRight<T>(a: seq<T>, b: seq<T>)
    ensures (a + b)[|a|..|a| + |b|] == b
  {
  }

  /** Copy `c` stands as a block behind the `c` copies before it. */
  lemma {:induction false} CopyAt(items: seq<Item>, counts: Counts, path: seq<nat>, k: nat, many: bool, n: nat, m: nat,
                                  c: nat)
    requires c < m
    ensures Times(c, |items|) + |items| <= |Copies(items, counts, path, k, many, n, m)|
    ensures Copies(items, counts, path, k, many, n, m)[Times(c, |items|)..Times(c, |items|) + |items|]
         == ExpandSeq(items, counts, CopyPath(path, n, c), k + Times(c, EmittedSeq(items, counts)), many)
  {
    hide Expand, ExpandSeq, EmittedSeq, Copies;
    CopiesSnoc(items, counts, path, k, many, n, m - 1);
    var earlier := Copies(items, counts, path, k, many, n, m - 1);
    var last := ExpandSeq(items, counts, CopyPath(path, n, m - 1), k + Times(m - 1, EmittedSeq(items, counts)), many);
    CopiesLength(items, counts, path, k, many, n, m - 1);
    if c == m - 1 {
      SliceRight(earlier, last);
    } else {
      CopyAt(items, counts, path, k, many, n, m - 1, c);
      var lo, hi := Times(c, |items|), Times(c, |items|) + |items|;
      SliceLeft(earlier, last, lo, hi);
    }
  }

  /** The size of an expanded list: what stands before the filled ellipsis `n + 1` times, what follows it once. */
  function ExpandedSize(items: seq<Item>, counts: Counts): int {
    var p := FilledAt(items, counts);
    if p == |items| then p else (counts[items[p].name] + 1) * p + (|items| - p - 1)
  }

  lemma {:induction false} ExpandListSize(items: seq<Item>, counts: Counts, path: seq<nat>, k: nat, many: bool)
    ensures |ExpandList(items, counts, path, k, many)| == ExpandedSize(items, counts)
  {
    var p := FilledAt(items, counts);
    if p < |items| {
      var n := counts[items[p].name];
      CopiesLength(items[..p], counts, path, k, many, n, n + 1);
      TimesIsProduct(n + 1, p);
    }
  }

  // What renaming the variables of a single item keeps

  function SuffixedAll(names: seq<Name>, path: seq<nat>): seq<Name>
    requires forall n | n in names :: n.Var?
  {
    seq(|names|, i requires 0 <= i < |names| => names[i].Suffixed(path))
  }

  lemma {:induction false} RenamedNames(cells: seq<Cell>, path: seq<nat>)
    requires forall c | c in cells && c.Hole? :: c.name.Var?
    ensures forall n | n in CellNames(cells) :: n.Var?
    ensures CellNames(RenameCells(cells, path)) == SuffixedAll(CellNames(cells), path)
  {
    if cells != [] {
      RenamedNames(Front(cells), path);
      assert Front(RenameCells(cells, path)) == RenameCells(Front(cells), path);
      assert Last(cells) in cells;
    }
  }

  lemma SuffixedDistinct(names: seq<Name>, path: seq<nat>)
    requires forall n | n in names :: n.Var?
    requires Distinct(names)
    ensures Distinct(SuffixedAll(names, path))
  {
    var r := SuffixedAll(names, path);
    forall i, j | 0 <= i < j < |r| ensures r[i] != r[j] {
      assert names[i].indices == (names[i].indices + path)[..|names[i].indices + path| - |path|];
      assert names[j].indices == (names[j].indices + path)[..|names[j].indices + path| - |path|];
      assert names[i] != names[j];
    }
  }

  lemma {:induction false} RenamedMembers(cells: seq<Cell>, path: seq<nat>)
    ensures forall i | 0 <= i < |cells| :: RenameCells(cells, path)[i] == RenameCell(cells[i], path)
  {
    if cells != [] {
      RenamedMembers(Front(cells), path);
    }
  }

  lemma RenamedCellsOk(kind: Kind, cells: seq<Cell>, path: seq<nat>)
    requires CellsOk(kind, cells)
    ensures CellsOk(kind, RenameCells(cells, path))
  {
    hide CellNames, RenameCells, SuffixedAll;
    RenamedNames(cells, path);
    SuffixedDistinct(CellNames(cells), path);
    RenamedMembers(cells, path);
  }
}
