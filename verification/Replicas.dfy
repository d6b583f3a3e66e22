/** What stands where once ellipses are filled in, said position by position and without expanding anything. */
module Replicas {
  import opened Names
  import opened Items
  import opened Ellipsis

  /** A variable takes the indices in force behind its own; an ellipsis remains one. */
  predicate IsRenamed(n: Name, m: Name, path: seq<nat>) {
    if n.Var? then m == Var(n.base, n.indices + path) else !m.Var?
  }

  predicate IsCellCopy(cell: Cell, r: Cell, path: seq<nat>) {
    match cell
    case Lit(v) => r == Lit(v)
    case Hole(n) => r.Hole? && IsRenamed(n, r.name, path)
  }

  /**
   * `r` is what `item` becomes where the indices `path` are in force: texts, kinds, literals, length bounds and the
   * order of everything stay, and variables are renamed.
   */
  predicate IsCopy(item: Item, r: Item, counts: Counts, path: seq<nat>)
    decreases item, 1
  {
    match item
    case Empty => r == Slot(Var("", path))
    case Slot(n) => r.Slot? && IsRenamed(n, r.name, path)
    case Ascii(text) => r == Ascii(text)
    case AsciiVar(n, min, max) =>
      r.AsciiVar? && IsRenamed(n, r.name, path) && r.minLength == min && r.maxLength == max
    case Numbers(kind, cells) =>
      && r.Numbers? && r.kind == kind && |r.cells| == |cells|
      && forall i | 0 <= i < |cells| :: IsCellCopy(cells[i], r.cells[i], path)
    case List(items) =>
      && r.List?
      && var p := FilledAt(items, counts);
        if p == |items| then AreCopies(items, r.items, counts, path)
        else
          var n := counts[items[p].name];
          var m := (n + 1) * p;
          && |r.items| >= m
          && AreTurns(items[..p], r.items[..m], counts, path, n)
          && AreCopies(items[p + 1..], r.items[m..], counts, path)
  }

  predicate AreCopies(items: seq<Item>, rs: seq<Item>, counts: Counts, path: seq<nat>)
    decreases items, 0
  {
    |rs| == |items| && forall i | 0 <= i < |items| :: IsCopy(items[i], rs[i], counts, path)
  }

  /**
   * What stands before a filled ellipsis, `n + 1` times: position `j` holds item `j % |items|` of copy `j / |items|`,
   * whose number is the last of its indices unless there is but one copy.
   */
  predicate AreTurns(items: seq<Item>, rs: seq<Item>, counts: Counts, path: seq<nat>, n: nat)
    decreases items, 0
  {
    && |rs| == (n + 1) * |items|
    && forall j | 0 <= j < |rs| && items != [] ::
      IsCopy(items[j % |items|], rs[j], counts, if n == 0 then path else path + [j / |items|])
  }

  lemma {:induction false} RenameCellsAt(cells: seq<Cell>, path: seq<nat>, i: nat)
    requires i < |cells|
    ensures RenameCells(cells, path)[i] == RenameCell(cells[i], path)
  {
    if i < |cells| - 1 {
      RenameCellsAt(Front(cells), path, i);
    }
  }

  lemma CellsCopied(cells: seq<Cell>, path: seq<nat>)
    ensures forall i | 0 <= i < |cells| :: IsCellCopy(cells[i], RenameCells(cells, path)[i], path)
  {
    forall i | 0 <= i < |cells| ensures IsCellCopy(cells[i], RenameCells(cells, path)[i], path) {
      RenameCellsAt(cells, path, i);
    }
  }

  /** Expanding yields exactly that, whatever is filled in, wherever the item stands. */
  lemma {:induction false} ExpandCopies(item: Item, counts: Counts, path: seq<nat>, k: nat, many: bool)
    ensures IsCopy(item, Expand(item, counts, path, k, many), counts, path)
    decreases item, 1
  {
    match item
    case Empty =>
      assert [] + path == path;
    case Numbers(_, cells) =>
      CellsCopied(cells, path);
    case List(items) =>
      ExpandListCopies(items, counts, path, k, many);
    case _ =>
  }

  lemma {:induction false} SeqCopied(items: seq<Item>, counts: Counts, path: seq<nat>, k: nat, many: bool)
    ensures AreCopies(items, ExpandSeq(items, counts, path, k, many), counts, path)
    decreases items, 1
  {
    hide IsCopy, Expand, ExpandSeq;
    forall i | 0 <= i < |items|
      ensures IsCopy(items[i], ExpandSeq(items, counts, path, k, many)[i], counts, path)
    {
      ExpandSeqAt(items, counts, path, k, many, i);
      ExpandCopies(items[i], counts, path, k + EmittedSeq(items[..i], counts), many);
    }
  }

  lemma {:induction false} TurnCopied(items: seq<Item>, counts: Counts, path: seq<nat>, k: nat, many: bool, n: nat,
                                      c: nat, i: nat)
    requires c <= n && i < |items|
    ensures Times(c, |items|) + i < |Copies(items, counts, path, k, many, n, n + 1)|
    ensures IsCopy(items[i], Copies(items, counts, path, k, many, n, n + 1)[Times(c, |items|) + i], counts,
                   CopyPath(path, n, c))
    decreases items, 2
  {
    hide IsCopy, Expand, ExpandSeq, Copies, EmittedSeq, Times, CopyPath;
    var all, from := Copies(items, counts, path, k, many, n, n + 1), Times(c, |items|);
    CopyAt(items, counts, path, k, many, n, n + 1, c);
    SeqCopied(items, counts, CopyPath(path, n, c), k + Times(c, EmittedSeq(items, counts)), many);
    assert all[from + i] == all[from..from + |items|][i];
  }

  lemma Ordered(a: nat, b: nat, x: nat)
    ensures a <= b ==> a * x <= b * x
  {
  }

  lemma InTurn(j: nat, p: nat, m: nat)
    requires p > 0 && j < m * p
    ensures j / p < m && Times(j / p, p) + j % p == j
  {
    TimesIsProduct(j / p, p);
    Ordered(m, j / p, p);
  }

  lemma {:induction false} TurnsCopied(items: seq<Item>, counts: Counts, path: seq<nat>, k: nat, many: bool, n: nat)
    ensures AreTurns(items, Copies(items, counts, path, k, many, n, n + 1), counts, path, n)
    decreases items, 3
  {
    hide IsCopy, Copies, Times;
    var p, all := |items|, Copies(items, counts, path, k, many, n, n + 1);
    CopiesLength(items, counts, path, k, many, n, n + 1);
    TimesIsProduct(n + 1, p);
    forall j | 0 <= j < |all| && items != []
      ensures IsCopy(items[j % p], all[j], counts, if n == 0 then path else path + [j / p])
    {
      InTurn(j, p, n + 1);
      TurnCopied(items, counts, path, k, many, n, j / p, j % p);
    }
  }

  lemma {:induction false} ExpandListCopies(items: seq<Item>, counts: Counts, path: seq<nat>, k: nat, many: bool)
    ensures IsCopy(List(items), List(ExpandList(items, counts, path, k, many)), counts, path)
    decreases items, 4
  {
    hide Expand, ExpandSeq, Copies, EmittedSeq, FilledAt, Times, AreCopies, AreTurns;
    var p := FilledAt(items, counts);
    if p == |items| {
      SeqCopied(items, counts, path, k, many);
    } else {
      var n := counts[items[p].name];
      var front, l := items[..p], k + Times(n + 1, EmittedSeq(items[..p], counts));
      var repeated, rest := Copies(front, counts, path, k, many, n, n + 1),
        ExpandSeq(items[p + 1..], counts, path, l, many);
      TurnsCopied(front, counts, path, k, many, n);
      TurnsLength(front, repeated, counts, path, n);
      SeqCopied(items[p + 1..], counts, path, l, many);
      assert (repeated + rest)[..|repeated|] == repeated && (repeated + rest)[|repeated|..] == rest;
    }
  }

  lemma TurnsLength(items: seq<Item>, rs: seq<Item>, counts: Counts, path: seq<nat>, n: nat)
    requires AreTurns(items, rs, counts, path, n)
    ensures |rs| == (n + 1) * |items|
  {
  }
}
