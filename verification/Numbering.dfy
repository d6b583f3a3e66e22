/** The ellipses left in an expansion are numbered in order of appearance. */
module Numbering {
  import opened Names
  import opened Items
  import opened Ellipsis

  function EllipsesOf(names: seq<Name>): seq<Name> {
    if names == [] then []
    else EllipsesOf(Front(names)) + if Last(names).IsEllipsis() then [Last(names)] else []
  }

  /** `e` ellipses in a row, numbered from `k` on when there are many. */
  function Numbered(k: nat, e: nat, many: bool): seq<Name> {
    if e == 0 then [] else Numbered(k, e - 1, many) + [if many then DotsAt(k + e - 1) else Dots]
  }

  lemma {:induction false} EllipsesOfConcat(a: seq<Name>, b: seq<Name>)
    ensures EllipsesOf(a + b) == EllipsesOf(a) + EllipsesOf(b)
  {
    if b == [] {
      assert a + b == a;
    } else {
      EllipsesOfConcat(a, Front(b));
      assert Front(a + b) == a + Front(b);
    }
  }

  lemma {:induction false} NumberedConcat(k: nat, a: nat, b: nat, many: bool)
    ensures Numbered(k, a + b, many) == Numbered(k, a, many) + Numbered(k + a, b, many)
  {
    if b > 0 {
      NumberedConcat(k, a, b - 1, many);
    }
  }

  lemma {:induction false} NoEllipses(names: seq<Name>)
    requires forall n | n in names :: n.Var?
    ensures EllipsesOf(names) == []
  {
    if names != [] {
      assert Last(names) in names;
      NoEllipses(Front(names));
    }
  }

  /** What is numbered on both sides is numbered as a whole. */
  lemma Joined(a: seq<Name>, b: seq<Name>, k: nat, ea: nat, eb: nat, many: bool)
    requires EllipsesOf(a) == Numbered(k, ea, many) && EllipsesOf(b) == Numbered(k + ea, eb, many)
    ensures EllipsesOf(a + b) == Numbered(k, ea + eb, many)
  {
    hide EllipsesOf, Numbered;
    EllipsesOfConcat(a, b);
    NumberedConcat(k, ea, eb, many);
  }

  lemma {:induction false} ExpandNumbered(item: Item, counts: Counts, path: seq<nat>, k: nat, many: bool)
    requires Rep(item)
    ensures EllipsesOf(Variables(Expand(item, counts, path, k, many))) == Numbered(k, Emitted(item, counts), many)
    decreases item, 3
  {
    hide EllipsesOf, Numbered, ExpandList, EmittedList, RenameCells, ListVariables, CellNames, Distinct;
    FewNumbered(k, many);
    match item
    case Empty =>
      OneName(Var("", [] + path));
    case Slot(n) =>
      OneName(NewName(n, path, k, many));
    case Ascii(_) =>
    case AsciiVar(n, _, _) =>
      OneName(NewName(n, path, k, many));
    case Numbers(_, cells) =>
      RenamedNames(cells, path);
      NoEllipses(CellNames(RenameCells(cells, path)));
    case List(items) =>
      ExpandListNumbered(items, counts, path, k, many);
  }

  lemma FewNumbered(k: nat, many: bool)
    ensures EllipsesOf([]) == [] && Numbered(k, 0, many) == []
    ensures Numbered(k, 1, many) == [if many then DotsAt(k) else Dots]
  {
    assert Numbered(k, 0, many) + [if many then DotsAt(k) else Dots] == [if many then DotsAt(k) else Dots];
  }

  lemma OneName(n: Name)
    ensures EllipsesOf([n]) == if n.IsEllipsis() then [n] else []
  {
    assert Front([n]) == [];
  }

  lemma {:induction false} ExpandListNumbered(items: seq<Item>, counts: Counts, path: seq<nat>, k: nat, many: bool)
    requires forall c | c in items :: Rep(c)
    ensures EllipsesOf(ListVariables(ExpandList(items, counts, path, k, many))) ==
      Numbered(k, EmittedList(items, counts), many)
    decreases items, 2
  {
    hide ListVariables, ExpandSeq, Copies, EmittedSeq, Times, EllipsesOf, Numbered, Rep;
    var p := FilledAt(items, counts);
    if p == |items| {
      ExpandSeqNumbered(items, counts, path, k, many);
    } else {
      var n := counts[items[p].name];
      var before, behind := items[..p], items[p + 1..];
      var eb := Times(n + 1, EmittedSeq(before, counts));
      CopiesNumbered(before, counts, path, k, many, n, n + 1);
      ExpandSeqNumbered(behind, counts, path, k + eb, many);
      var copies := Copies(before, counts, path, k, many, n, n + 1);
      var rest := ExpandSeq(behind, counts, path, k + eb, many);
      ListVariablesConcat(copies, rest);
      Joined(ListVariables(copies), ListVariables(rest), k, eb, EmittedSeq(behind, counts), many);
    }
  }

  lemma {:induction false} CopiesNumbered(items: seq<Item>, counts: Counts, path: seq<nat>, k: nat, many: bool, n: nat,
                                          m: nat)
    requires forall c | c in items :: Rep(c)
    ensures EllipsesOf(ListVariables(Copies(items, counts, path, k, many, n, m))) ==
      Numbered(k, Times(m, EmittedSeq(items, counts)), many)
    decreases items, 1, m
  {
    hide ListVariables, ExpandSeq, Copies, EmittedSeq, EllipsesOf, Numbered, Rep;
    if m == 0 {
      NoCopies(items, counts, path, k, many, n);
      NoneNumbered(k, many);
      return;
    }
    var e := EmittedSeq(items, counts);
    var at := k + Times(m - 1, e);
    var earlier := Copies(items, counts, path, k, many, n, m - 1);
    var last := ExpandSeq(items, counts, CopyPath(path, n, m - 1), at, many);
    CopiesSnoc(items, counts, path, k, many, n, m - 1);
    CopiesNumbered(items, counts, path, k, many, n, m - 1);
    ExpandSeqNumbered(items, counts, CopyPath(path, n, m - 1), at, many);
    ListVariablesConcat(earlier, last);
    Joined(ListVariables(earlier), ListVariables(last), k, Times(m - 1, e), e, many);
  }

  lemma NoneNumbered(k: nat, many: bool)
    ensures EllipsesOf([]) == Numbered(k, 0, many)
  {
  }

  lemma {:induction false} ExpandSeqNumbered(items: seq<Item>, counts: Counts, path: seq<nat>, k: nat, many: bool)
    requires forall c | c in items :: Rep(c)
    ensures EllipsesOf(ListVariables(ExpandSeq(items, counts, path, k, many))) ==
      Numbered(k, EmittedSeq(items, counts), many)
    decreases items, 0
  {
    hide ListVariables, ChildVariables, Variables, Expand, ExpandSeq, Emitted, Rep;
    UnfoldSeq(items, counts, path, k, many);
    if items != [] {
      var front, last := Front(items), Last(items);
      var at := k + EmittedSeq(front, counts);
      ExpandSeqNumbered(front, counts, path, k, many);
      ExpandNumbered(last, counts, path, at, many);
      Joined(ListVariables(ExpandSeq(front, counts, path, k, many)), Variables(Expand(last, counts, path, at, many)),
        k, EmittedSeq(front, counts), Emitted(last, counts), many);
    }
  }

  // The names of an expansion, piece by piece

  /** An expanded item always stands in its list as itself: bare empty items are gone. */
  lemma UnfoldSeq(items: seq<Item>, counts: Counts, path: seq<nat>, k: nat, many: bool)
    ensures items == [] ==> ListVariables(ExpandSeq(items, counts, path, k, many)) == []
    ensures items != [] ==>
      && Last(items) in items
      && ListVariables(items) == ListVariables(Front(items)) + ChildVariables(Last(items))
      && EmittedSeq(items, counts) == EmittedSeq(Front(items), counts) + Emitted(Last(items), counts)
      && ListVariables(ExpandSeq(items, counts, path, k, many))
         == ListVariables(ExpandSeq(Front(items), counts, path, k, many))
          + Variables(Expand(Last(items), counts, path, k + EmittedSeq(Front(items), counts), many))
  {
    hide Expand, Emitted, Variables;
    var k' := if items == [] then 0 else k + EmittedSeq(Front(items), counts);
    if items != [] {
      NeverEmpty(Last(items), counts, path, k', many);
      ListVariablesSnoc(ExpandSeq(Front(items), counts, path, k, many), Expand(Last(items), counts, path, k', many));
    }
  }

  lemma NeverEmpty(item: Item, counts: Counts, path: seq<nat>, k: nat, many: bool)
    ensures !Expand(item, counts, path, k, many).Empty?
  {
  }

  lemma NoCopies(items: seq<Item>, counts: Counts, path: seq<nat>, k: nat, many: bool, n: nat)
    ensures ListVariables(Copies(items, counts, path, k, many, n, 0)) == []
  {
  }

  lemma SplitAt<T>(s: seq<T>, p: nat)
    requires p < |s|
    ensures s == s[..p] + [s[p]] + s[p + 1..]
  {
  }

  /** The names of a list, split around position `p`. */
  lemma ListVariablesSplit(items: seq<Item>, p: nat)
    requires p < |items|
    ensures ListVariables(items) == ListVariables(items[..p]) + ChildVariables(items[p]) + ListVariables(items[p + 1..])
  {
    hide *;
    SplitAt(items, p);
    ListVariablesConcat(items[..p] + [items[p]], items[p + 1..]);
    ListVariablesSnoc(items[..p], items[p]);
  }

  /** At most one ellipsis remains when remaining ellipses are not numbered. */
  predicate Numberable(e: nat, many: bool) {
    many || e <= 1
  }

  // Ellipses and other names

  function Vars(names: seq<Name>): seq<Name> {
    if names == [] then [] else Vars(Front(names)) + if Last(names).Var? then [Last(names)] else []
  }

  lemma {:induction false} VarsConcat(a: seq<Name>, b: seq<Name>)
    ensures Vars(a + b) == Vars(a) + Vars(b)
  {
    if b == [] {
      assert a + b == a;
    } else {
      VarsConcat(a, Front(b));
      assert Front(a + b) == a + Front(b);
    }
  }

  lemma {:induction false} VarsMembers(names: seq<Name>)
    ensures forall n :: n in Vars(names) <==> n in names && n.Var?
    ensures forall n :: n in EllipsesOf(names) <==> n in names && !n.Var?
  {
    if names != [] {
      VarsMembers(Front(names));
      assert names == Front(names) + [Last(names)];
    }
  }

  /** Names are distinct exactly when the ellipses among them and the others are. */
  lemma {:induction false} DistinctByParts(names: seq<Name>)
    ensures Distinct(names) <==> Distinct(Vars(names)) && Distinct(EllipsesOf(names))
  {
    hide Distinct;
    if names == [] {
      NoneDistinct();
    } else {
      var front, last := Front(names), Last(names);
      assert names == front + [last];
      DistinctByParts(front);
      VarsMembers(front);
      DistinctSnoc(front, last);
      DistinctSnoc(Vars(front), last);
      DistinctSnoc(EllipsesOf(front), last);
      assert Vars(front) + [] == Vars(front) && EllipsesOf(front) + [] == EllipsesOf(front);
    }
  }

  lemma NoneDistinct()
    ensures Distinct([])
  {
  }

  lemma DistinctSnoc(names: seq<Name>, n: Name)
    ensures Distinct(names + [n]) <==> Distinct(names) && n !in names
  {
    DistinctConcat(names, [n]);
  }

  lemma {:induction false} NumberedDistinct(k: nat, e: nat)
    ensures Distinct(Numbered(k, e, true))
    ensures forall n | n in Numbered(k, e, true) :: n.DotsAt? && k <= n.number < k + e
  {
    if e > 0 {
      NumberedDistinct(k, e - 1);
      DistinctSnoc(Numbered(k, e - 1, true), DotsAt(k + e - 1));
    }
  }
}
