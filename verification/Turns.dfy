/** The turns of the loop that expands a list, and what each of them adds. */
module Turns {
  import opened Items
  import opened Ellipsis

  // A turn is in copy `c` (of 0 to n) at position `i`, or behind the filled ellipsis for i > p

  /** How many items the turns before this one have contributed. */
  ghost function TurnPosition(items: seq<Item>, counts: Counts, c: nat, i: nat): nat {
    var p := FilledAt(items, counts);
    if i <= p then Times(c, p) + i else Times(Repeat(items, counts) + 1, p) + (i - p - 1)
  }

  ghost function CopyStart(items: seq<Item>, counts: Counts, k: nat, c: nat): nat {
    k + Times(c, EmittedSeq(items[..FilledAt(items, counts)], counts))
  }

  /** How many ellipses have been left unfilled before this turn. */
  ghost function TurnCount(items: seq<Item>, counts: Counts, k: nat, c: nat, i: nat): nat
    requires i <= |items|
  {
    var p := FilledAt(items, counts);
    if i <= p then CopyStart(items, counts, k, c) + EmittedSeq(items[..i], counts)
    else CopyStart(items, counts, k, Repeat(items, counts) + 1) + EmittedSeq(items[p + 1..i], counts)
  }

  ghost function TurnPath(items: seq<Item>, counts: Counts, path: seq<nat>, c: nat, i: nat): seq<nat> {
    if i <= FilledAt(items, counts) then CopyPath(path, Repeat(items, counts), c) else path
  }

  /** The path at the first turn, from one turn to the next, and behind the last. */
  lemma TurnPaths(items: seq<Item>, counts: Counts, path: seq<nat>)
    ensures TurnPath(items, counts, path, 0, 0) == CopyPath(path, Repeat(items, counts), 0)
    ensures forall c, i | 0 <= c && 0 <= i != FilledAt(items, counts) ::
      TurnPath(items, counts, path, c, i + 1) == TurnPath(items, counts, path, c, i)
    ensures forall c | 0 <= c <= Repeat(items, counts) :: TurnPath(items, counts, path, c, |items|) == path
  {
  }

  lemma TurnStart(items: seq<Item>, counts: Counts, k: nat)
    ensures TurnCount(items, counts, k, 0, 0) == k && TurnPosition(items, counts, 0, 0) == 0
  {
  }

  lemma TurnStep(items: seq<Item>, counts: Counts, k: nat, c: nat, i: nat)
    requires i < |items| && i != FilledAt(items, counts)
    ensures TurnCount(items, counts, k, c, i + 1) == TurnCount(items, counts, k, c, i) + Emitted(items[i], counts)
    ensures TurnPosition(items, counts, c, i + 1) == TurnPosition(items, counts, c, i) + 1
  {
    hide Emitted, FilledAt, Times;
    var p := FilledAt(items, counts);
    if i < p {
      assert Front(items[..i + 1]) == items[..i];
    } else {
      assert Front(items[p + 1..i + 1]) == items[p + 1..i];
    }
  }

  /** Resetting the counter starts the next copy. */
  lemma TurnRepeat(items: seq<Item>, counts: Counts, k: nat, c: nat)
    ensures var p := FilledAt(items, counts);
      && TurnCount(items, counts, k, c, p) == TurnCount(items, counts, k, c + 1, 0)
      && TurnPosition(items, counts, c, p) == TurnPosition(items, counts, c + 1, 0)
  {
  }

  lemma TurnExit(items: seq<Item>, counts: Counts, k: nat)
    requires FilledAt(items, counts) < |items|
    ensures var p, n := FilledAt(items, counts), Repeat(items, counts);
      && TurnCount(items, counts, k, n, p) == TurnCount(items, counts, k, n, p + 1)
      && TurnPosition(items, counts, n, p) == TurnPosition(items, counts, n, p + 1)
  {
    var p := FilledAt(items, counts);
    assert items[p + 1..p + 1] == [];
  }

  lemma TurnEnd(items: seq<Item>, counts: Counts, path: seq<nat>, k: nat, many: bool, c: nat)
    requires c <= Repeat(items, counts)
    ensures TurnPosition(items, counts, c, |items|) == |ExpandList(items, counts, path, k, many)|
    ensures TurnCount(items, counts, k, c, |items|) == k + EmittedList(items, counts)
  {
    var p, n := FilledAt(items, counts), Repeat(items, counts);
    if p < |items| {
      CopiesLength(items[..p], counts, path, k, many, n, n + 1);
      assert items[p + 1..|items|] == items[p + 1..];
    } else {
      assert items[..p] == items;
    }
  }

  lemma TurnBefore(items: seq<Item>, counts: Counts, path: seq<nat>, k: nat, many: bool, n: nat, c: nat, i: nat)
    requires c <= n && i < |items|
    ensures Times(c, |items|) + i < |Copies(items, counts, path, k, many, n, n + 1)|
    ensures Copies(items, counts, path, k, many, n, n + 1)[Times(c, |items|) + i]
         == Expand(items[i], counts, CopyPath(path, n, c), k + Times(c, EmittedSeq(items, counts)) +
           EmittedSeq(items[..i], counts), many)
  {
    hide *;
    var at := k + Times(c, EmittedSeq(items, counts));
    CopyAt(items, counts, path, k, many, n, n + 1, c);
    ExpandSeqAt(items, counts, CopyPath(path, n, c), at, many, i);
    AtOfSlice(Copies(items, counts, path, k, many, n, n + 1), Times(c, |items|), |items|, i);
  }

  lemma AtOfSlice<T>(s: seq<T>, lo: nat, len: nat, i: nat)
    requires lo + len <= |s| && i < len
    ensures s[lo + i] == s[lo..lo + len][i]
  {
  }

  lemma TurnAtBefore(items: seq<Item>, counts: Counts, path: seq<nat>, k: nat, many: bool, c: nat, i: nat)
    requires i < FilledAt(items, counts) < |items| && c <= Repeat(items, counts)
    ensures TurnPosition(items, counts, c, i) < |ExpandList(items, counts, path, k, many)|
    ensures ExpandList(items, counts, path, k, many)[TurnPosition(items, counts, c, i)]
         == Expand(items[i], counts, TurnPath(items, counts, path, c, i), TurnCount(items, counts, k, c, i), many)
  {
    hide Expand, ExpandSeq, Copies, Emitted, EmittedSeq, FilledAt;
    var p, n := FilledAt(items, counts), Repeat(items, counts);
    var copies := Copies(items[..p], counts, path, k, many, n, n + 1);
    var rest := ExpandSeq(items[p + 1..], counts, path, CopyStart(items, counts, k, n + 1), many);
    assert items[..p][..i] == items[..i] && items[..p][i] == items[i];
    TurnBefore(items[..p], counts, path, k, many, n, c, i);
    assert ExpandList(items, counts, path, k, many) == copies + rest;
    AtOfConcat(copies, rest, Times(c, p) + i);
  }

  lemma TurnAtAfter(items: seq<Item>, counts: Counts, path: seq<nat>, k: nat, many: bool, c: nat, i: nat)
    requires FilledAt(items, counts) < i < |items|
    ensures TurnPosition(items, counts, c, i) < |ExpandList(items, counts, path, k, many)|
    ensures ExpandList(items, counts, path, k, many)[TurnPosition(items, counts, c, i)]
         == Expand(items[i], counts, TurnPath(items, counts, path, c, i), TurnCount(items, counts, k, c, i), many)
  {
    hide Expand, ExpandSeq, Copies, Emitted, EmittedSeq, FilledAt;
    var p, n := FilledAt(items, counts), Repeat(items, counts);
    var copies := Copies(items[..p], counts, path, k, many, n, n + 1);
    var rest := ExpandSeq(items[p + 1..], counts, path, CopyStart(items, counts, k, n + 1), many);
    assert items[p + 1..][..i - p - 1] == items[p + 1..i];
    CopiesLength(items[..p], counts, path, k, many, n, n + 1);
    assert ExpandList(items, counts, path, k, many) == copies + rest;
    AtOfConcat(copies, rest, |copies| + i - p - 1);
    ExpandSeqAt(items[p + 1..], counts, path, CopyStart(items, counts, k, n + 1), many, i - p - 1);
  }

  lemma AtOfConcat<T>(a: seq<T>, b: seq<T>, i: nat)
    requires i < |a| + |b|
    ensures (a + b)[i] == if i < |a| then a[i] else b[i - |a|]
  {
  }

  /** Turn by turn, what stands where in an expanded list. */
  lemma TurnAt(items: seq<Item>, counts: Counts, path: seq<nat>, k: nat, many: bool, c: nat, i: nat)
    requires i < |items| && i != FilledAt(items, counts) && c <= Repeat(items, counts)
    ensures TurnPosition(items, counts, c, i) < |ExpandList(items, counts, path, k, many)|
    ensures ExpandList(items, counts, path, k, many)[TurnPosition(items, counts, c, i)]
         == Expand(items[i], counts, TurnPath(items, counts, path, c, i), TurnCount(items, counts, k, c, i), many)
  {
    var p := FilledAt(items, counts);
    if p == |items| {
      ExpandSeqAt(items, counts, path, k, many, i);
    } else if i < p {
      TurnAtBefore(items, counts, path, k, many, c, i);
    } else {
      TurnAtAfter(items, counts, path, k, many, c, i);
    }
  }
}
