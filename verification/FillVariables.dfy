/** Filling in all variables of a list: its ellipses first, then the variables of the expansion. */
module FillVariables {
  import opened Wrappers
  import opened Names
  import opened Items
  import opened Ellipsis
  import opened Freshness
  import opened Clashes
  import opened Building
  import opened Filling
  import opened FillState
  import opened Numbering
  import opened Replicas

  // The analysis that comes first: ellipses to fill, and an estimate of those that will remain

  function OwnEllipses(items: seq<Item>): nat {
    if items == [] then 0 else OwnEllipses(Front(items)) + if IsOwnEllipsis(Last(items)) then 1 else 0
  }

  function ToFill(items: seq<Item>, counts: Counts): nat
    decreases items, 1
  {
    (if FilledAt(items, counts) < |items| then 1 else 0) + Times(Repeat(items, counts) + 1, ToFillBelow(items, counts))
  }

  function ToFillBelow(items: seq<Item>, counts: Counts): nat
    decreases items, 0
  {
    if items == [] then 0
    else ToFillBelow(Front(items), counts) + match Last(items) case List(below) => ToFill(below, counts) case _ => 0
  }

  function Remaining(items: seq<Item>, counts: Counts): nat
    decreases items, 1
  {
    (if FilledAt(items, counts) == |items| && OwnEllipses(items) > 0 then 1 else 0)
    + Times(Repeat(items, counts) + 1, RemainingBelow(items, counts))
  }

  function RemainingBelow(items: seq<Item>, counts: Counts): nat
    decreases items, 0
  {
    if items == [] then 0
    else RemainingBelow(Front(items), counts) + match Last(items) case List(below) =>
      Remaining(below, counts) case _ => 0
  }

  // The estimate is never too low

  lemma {:induction false} TimesAtMost(m: nat, x: nat, y: nat)
    requires x <= y
    ensures Times(m, x) <= Times(m, y)
  {
    if m > 0 {
      TimesAtMost(m - 1, x, y);
    }
  }

  lemma {:induction false} TimesAtLeastOnce(m: nat, x: nat)
    ensures x <= Times(m + 1, x) && Times(m + 1, x) == Times(m, x) + x
  {
  }

  lemma {:induction false} RemainingBelowConcat(a: seq<Item>, b: seq<Item>, counts: Counts)
    ensures RemainingBelow(a + b, counts) == RemainingBelow(a, counts) + RemainingBelow(b, counts)
  {
    if b == [] {
      assert a + b == a;
    } else {
      RemainingBelowConcat(a, Front(b), counts);
      assert Front(a + b) == a + Front(b);
    }
  }

  lemma {:induction false} NoneOfTheirOwn(items: seq<Item>)
    requires NoOwnEllipsis(items)
    ensures OwnEllipses(items) == 0
  {
    if items != [] {
      assert Last(items) in items;
      NoneOfTheirOwn(Front(items));
    }
  }

  lemma {:induction false} AtMostOneOfItsOwn(items: seq<Item>)
    requires forall i, j | 0 <= i < j < |items| :: !(IsOwnEllipsis(items[i]) && IsOwnEllipsis(items[j]))
    ensures OwnEllipses(items) <= 1
  {
    if items != [] {
      AtMostOneOfItsOwn(Front(items));
      if IsOwnEllipsis(Last(items)) {
        NoneOfTheirOwn(Front(items));
      }
    }
  }

  lemma {:induction false} EmittedBelow(items: seq<Item>, counts: Counts)
    requires forall c | c in items :: Rep(c)
    ensures EmittedSeq(items, counts) <= OwnEllipses(items) + RemainingBelow(items, counts)
    decreases items, 0
  {
    if items == [] {
      return;
    }
    EmittedBelow(Front(items), counts);
    var last := Last(items);
    assert last in items;
    match last
    case List(below) =>
      EmittedAtMostRemaining(below, counts);
    case _ =>
  }

  lemma {:induction false} EmittedAtMostRemaining(items: seq<Item>, counts: Counts)
    requires Rep(List(items))
    ensures EmittedList(items, counts) <= Remaining(items, counts)
    decreases items, 1
  {
    hide EmittedSeq, Times, RemainingBelow, OwnEllipses, ListVariables;
    var p := FilledAt(items, counts);
    assert forall c | c in items :: Rep(c);
    if p == |items| {
      AtMostOneOfItsOwn(items);
      EmittedBelow(items, counts);
      TimesAtLeastOnce(0, RemainingBelow(items, counts));
    } else {
      var n, before, behind := counts[items[p].name], items[..p], items[p + 1..];
      NoneOfTheirOwn(before);
      NoneOfTheirOwn(behind);
      EmittedBelow(before, counts);
      EmittedBelow(behind, counts);
      BoundOfParts(items, counts, p, n);
    }
  }

  lemma BoundOfParts(items: seq<Item>, counts: Counts, p: nat, n: nat)
    requires p < |items|
    requires EmittedSeq(items[..p], counts) <= RemainingBelow(items[..p], counts)
    requires EmittedSeq(items[p + 1..], counts) <= RemainingBelow(items[p + 1..], counts)
    ensures Times(n + 1, EmittedSeq(items[..p], counts)) +
      EmittedSeq(items[p + 1..], counts) <= Times(n + 1, RemainingBelow(items, counts))
  {
    hide EmittedSeq, RemainingBelow, Times;
    var before, middle, behind := items[..p], [items[p]], items[p + 1..];
    SplitAt(items, p);
    RemainingBelowConcat(before + middle, behind, counts);
    RemainingBelowConcat(before, middle, counts);
    var rb, rr := RemainingBelow(before, counts), RemainingBelow(behind, counts);
    TimesAtMost(n + 1, EmittedSeq(before, counts), rb);
    TimesAtMost(n + 1, rb + rr, RemainingBelow(items, counts));
    TimesSum(n + 1, rb, rr);
    TimesAtLeastOnce(n, rr);
  }

  lemma {:induction false} TimesSum(m: nat, x: nat, y: nat)
    ensures Times(m, x + y) == Times(m, x) + Times(m, y)
  {
    if m > 0 {
      TimesSum(m - 1, x, y);
    }
  }

  // When the estimate is exact

  /** Some ellipsis of the tree is not filled in. */
  predicate HoldsOpenEllipsis(item: Item, counts: Counts) {
    match item
    case Slot(n) => !n.Var? && n !in counts
    case List(items) => exists i | 0 <= i < |items| :: HoldsOpenEllipsis(items[i], counts)
    case _ => false
  }

  /** Nowhere does an open ellipsis stand behind one that is filled in with more than 0. */
  predicate NoneOpenBehind(item: Item, counts: Counts) {
    item.List? ==>
      && (forall i | 0 <= i < |item.items| :: NoneOpenBehind(item.items[i], counts))
      && (forall i, j | 0 <= i < j < |item.items| && IsFilled(item.items[i], counts) &&
            counts[item.items[i].name] > 0 :: !HoldsOpenEllipsis(item.items[j], counts))
  }

  predicate AllNoneOpenBehind(items: seq<Item>, counts: Counts) {
    forall i | 0 <= i < |items| :: NoneOpenBehind(items[i], counts)
  }

  lemma {:induction false} EmittedIff(item: Item, counts: Counts)
    requires Rep(item) && !IsFilled(item, counts)
    ensures Emitted(item, counts) > 0 <==> HoldsOpenEllipsis(item, counts)
    decreases item, 2
  {
    if item.List? {
      EmittedListIff(item.items, counts);
    }
  }

  lemma {:induction false} EmittedListIff(items: seq<Item>, counts: Counts)
    requires Rep(List(items))
    ensures EmittedList(items, counts) > 0 <==> HoldsOpenEllipsis(List(items), counts)
    decreases items, 1
  {
    hide EmittedSeq, EmittedList, Times, FilledAt, HoldsOpenEllipsis, Rep, NoOwnEllipsis;
    var p := FilledAt(items, counts);
    if p == |items| {
      NoneFilled(items, counts);
      EmittedSeqIff(items, counts);
    } else {
      OnlyOneFilled(items, counts, p);
      FilledParts(items, counts, p);
      EmittedSeqIff(items[..p], counts);
      EmittedSeqIff(items[p + 1..], counts);
      TimesAtLeastOnce(counts[items[p].name], EmittedSeq(items[..p], counts));
      TimesIsProduct(counts[items[p].name] + 1, 0);
      OpenParts(items, counts, p);
    }
  }

  lemma NoneFilled(items: seq<Item>, counts: Counts)
    requires Rep(List(items)) && FilledAt(items, counts) == |items|
    ensures EmittedList(items, counts) == EmittedSeq(items, counts)
    ensures forall c | c in items :: Rep(c) && !IsFilled(c, counts)
    ensures HoldsOpenEllipsis(List(items), counts) <==>
      exists i | 0 <= i < |items| :: HoldsOpenEllipsis(items[i], counts)
  {
    hide EmittedSeq, ListVariables;
  }

  lemma OpenParts(items: seq<Item>, counts: Counts, p: nat)
    requires p < |items| && items[p].Slot? && IsFilled(items[p], counts)
    ensures var before, behind := items[..p], items[p + 1..];
      HoldsOpenEllipsis(List(items), counts) <==>
        || (exists i | 0 <= i < |before| :: HoldsOpenEllipsis(before[i], counts))
        || (exists i | 0 <= i < |behind| :: HoldsOpenEllipsis(behind[i], counts))
  {
    var before, behind := items[..p], items[p + 1..];
    assert !HoldsOpenEllipsis(items[p], counts);
    hide HoldsOpenEllipsis, IsFilled;
    assert forall i | 0 <= i < p :: items[i] == before[i];
    assert forall i | p < i < |items| :: items[i] == behind[i - p - 1];
    assert forall i | 0 <= i < |behind| :: behind[i] == items[p + 1 + i];
    assert HoldsOpenEllipsis(List(items), counts)
        <==> exists i | 0 <= i < |items| :: HoldsOpenEllipsis(items[i], counts);
  }

  lemma {:induction false} EmittedSeqIff(items: seq<Item>, counts: Counts)
    requires forall c | c in items :: Rep(c) && !IsFilled(c, counts)
    ensures EmittedSeq(items, counts) > 0 <==> exists i | 0 <= i < |items| :: HoldsOpenEllipsis(items[i], counts)
    decreases items, 0
  {
    hide Rep, IsFilled, Emitted, HoldsOpenEllipsis;
    if items != [] {
      assert Last(items) in items && items == Front(items) + [Last(items)];
      EmittedSeqIff(Front(items), counts);
      EmittedIff(Last(items), counts);
    }
  }

  lemma {:induction false} ExactBelow(items: seq<Item>, counts: Counts)
    requires forall c | c in items :: Rep(c)
    ensures EmittedSeq(items, counts) == OwnEllipses(items) + RemainingBelow(items, counts)
        <==> AllNoneOpenBehind(items, counts)
    decreases items, 0
  {
    hide Rep, EmittedList, Remaining;
    if items != [] {
      var front, last := Front(items), Last(items);
      assert last in items && items == front + [last];
      ExactBelow(front, counts);
      EmittedBelow(front, counts);
      if last.List? {
        EmittedAtMostRemaining(last.items, counts);
        EstimateExactIff(last.items, counts);
      }
    }
  }

  lemma {:induction false} ExactParts(items: seq<Item>, counts: Counts, p: nat)
    requires Rep(List(items)) && p == FilledAt(items, counts) < |items|
    ensures EmittedList(items, counts) == Remaining(items, counts) <==> NoneOpenBehind(List(items), counts)
    decreases items, 1, 0
  {
    hide EmittedSeq, Times, RemainingBelow, OwnEllipses, ListVariables, NoneOpenBehind, FilledAt, EmittedList,
      Remaining, Rep, AllNoneOpenBehind, HoldsOpenEllipsis, NoOwnEllipsis;
    FilledParts(items, counts, p);
    var n, before, behind := counts[items[p].name], items[..p], items[p + 1..];
    OnlyOneFilled(items, counts, p);
    NoneOfTheirOwn(before);
    NoneOfTheirOwn(behind);
    EmittedBelow(before, counts);
    EmittedBelow(behind, counts);
    ExactBelow(before, counts);
    ExactBelow(behind, counts);
    EmittedSeqIff(behind, counts);
    SplitAt(items, p);
    RemainingBelowConcat(before + [items[p]], behind, counts);
    RemainingBelowConcat(before, [items[p]], counts);
    OneSlotBelow(items[p], counts);
    var eb, er, rb, rr := EmittedSeq(before, counts), EmittedSeq(behind, counts), RemainingBelow(before, counts),
      RemainingBelow(behind, counts);
    TimesIsProduct(n + 1, eb);
    TimesIsProduct(n + 1, rb + rr);
    Balance(n, eb, er, rb, rr);
    NoneOpenParts(items, counts, p);
  }

  lemma FilledParts(items: seq<Item>, counts: Counts, p: nat)
    requires p == FilledAt(items, counts) < |items|
    ensures var n := counts[items[p].name];
      && EmittedList(items, counts) == Times(n + 1, EmittedSeq(items[..p], counts)) + EmittedSeq(items[p + 1..], counts)
      && Remaining(items, counts) == Times(n + 1, RemainingBelow(items, counts))
  {
    hide EmittedSeq, Times, RemainingBelow, OwnEllipses;
    var q := FilledAt(items, counts);
    hide FilledAt;
    assert items[..q] == items[..p];
  }

  lemma OneSlotBelow(item: Item, counts: Counts)
    requires item.Slot?
    ensures RemainingBelow([item], counts) == 0
  {
    assert Front([item]) == [] && RemainingBelow([], counts) == 0;
  }

  lemma Balance(n: nat, eb: nat, er: nat, rb: nat, rr: nat)
    requires eb <= rb && er <= rr
    ensures (n + 1) * eb + er == (n + 1) * (rb + rr) <==> eb == rb && er == rr && (n == 0 || er == 0)
  {
    assert (n + 1) * (rb + rr) == (n + 1) * eb + (n + 1) * (rb - eb) + n * rr + rr;
    assert rb > eb ==> (n + 1) * (rb - eb) > 0;
    assert n > 0 && rr > 0 ==> n * rr > 0;
  }

  /** In a well-formed list, no item but the filled ellipsis is an ellipsis. */
  lemma OnlyOneFilled(items: seq<Item>, counts: Counts, p: nat)
    requires Rep(List(items)) && p == FilledAt(items, counts) < |items|
    ensures items[p].Slot? && IsFilled(items[p], counts) && NoOwnEllipsis(items[..p]) && NoOwnEllipsis(items[p + 1..])
    ensures forall c | c in items[..p] || c in items[p + 1..] :: Rep(c) && !IsFilled(c, counts)
    ensures forall i | 0 <= i < |items| && i != p :: !IsFilled(items[i], counts)
  {
    hide ListVariables;
  }

  lemma NoneOpenParts(items: seq<Item>, counts: Counts, p: nat)
    requires p < |items| && items[p].Slot? && IsFilled(items[p], counts)
    requires forall i | 0 <= i < |items| && i != p :: !IsFilled(items[i], counts)
    ensures var behind := items[p + 1..];
      NoneOpenBehind(List(items), counts) <==>
        && AllNoneOpenBehind(items[..p], counts) && AllNoneOpenBehind(behind, counts)
        && (counts[items[p].name] > 0 ==>
              forall i | 0 <= i < |behind| :: !HoldsOpenEllipsis(behind[i], counts))
  {
    hide HoldsOpenEllipsis, IsFilled;
    var before, behind := items[..p], items[p + 1..];
    assert NoneOpenBehind(items[p], counts);
    assert forall i | p < i < |items| :: items[i] == behind[i - p - 1];
    assert forall i | 0 <= i < |behind| :: behind[i] == items[p + 1 + i];
    assert forall i | 0 <= i < p :: items[i] == before[i];
  }

  /** The estimate is exact exactly when no open ellipsis stands behind one that is filled in with more than 0. */
  lemma {:induction false} EstimateExactIff(items: seq<Item>, counts: Counts)
    requires Rep(List(items))
    ensures EmittedList(items, counts) == Remaining(items, counts) <==> NoneOpenBehind(List(items), counts)
    decreases items, 1, 1
  {
    hide EmittedSeq, Times, RemainingBelow, OwnEllipses, ListVariables, HoldsOpenEllipsis;
    var p := FilledAt(items, counts);
    assert forall c | c in items :: Rep(c);
    if p == |items| {
      AtMostOneOfItsOwn(items);
      ExactBelow(items, counts);
      TimesIsProduct(1, RemainingBelow(items, counts));
    } else {
      ExactParts(items, counts, p);
    }
  }

  // The whole operation

  /** Every value for an ellipsis is a count. */
  predicate CountsForEllipses(values: Values) {
    forall n | n in values && n.IsEllipsis() :: values[n].Count?
  }

  function CountsOf(values: Values): Counts
    requires CountsForEllipses(values)
  {
    map n | n in values && n.IsEllipsis() :: values[n].count
  }

  function OthersOf(values: Values): Values {
    map n | n in values && !n.IsEllipsis() :: values[n]
  }

  /** The list with its ellipses filled in, or None when a factory panics on the way. */
  function Expanded(node: Item, counts: Counts): Option<Item>
    requires node.List?
  {
    if ToFill(node.items, counts) == 0 then Some(node)
    else Built(Expand(node, counts, [], 0, Remaining(node.items, counts) > 1))
  }

  method Fill(node: Item, values: Values) returns (r: Option<Item>)
    requires node.List? && Rep(node) && CountsForEllipses(values)
    ensures r == Then(Expanded(node, CountsOf(values)), OthersOf(values))
  {
    hide *;
    var counts, others := CountsOf(values), OthersOf(values);
    var filled := node;
    if ToFill(node.items, counts) > 0 {
      var state := new State(Remaining(node.items, counts));
      var expansion := FillEllipsis(node, counts, state);
      if expansion.None? {
        NothingThen(node, counts, others);
        return None;
      }
      filled := expansion.value;
    }
    r := Filling.Fill(filled, others);
    SomethingThen(node, counts, others, filled);
  }

  lemma NothingThen(node: Item, counts: Counts, others: Values)
    requires node.List? && ToFill(node.items, counts) > 0
    requires Built(Expand(node, counts, [], 0, Remaining(node.items, counts) > 1)) == None
    ensures Then(Expanded(node, counts), others) == None
  {
    hide ToFill, Expand, Remaining;
  }

  lemma SomethingThen(node: Item, counts: Counts, others: Values, filled: Item)
    requires node.List?
    requires if ToFill(node.items, counts) > 0
             then Built(Expand(node, counts, [], 0, Remaining(node.items, counts) > 1)) == Some(filled)
               else filled == node
    ensures Then(Expanded(node, counts), others) == Filling.Fill(filled, others)
  {
    hide ToFill, Expand, Remaining, Filling.Fill;
  }

  // What the whole operation leaves where

  /** Some list of the tree holds an ellipsis for which there is a count. */
  predicate HoldsEllipsisToFill(item: Item, counts: Counts) {
    item.List? && exists i | 0 <= i < |item.items| ::
      IsFilled(item.items[i], counts) || HoldsEllipsisToFill(item.items[i], counts)
  }

  /** The analysis finds something to fill in exactly when there is something, at whatever depth. */
  lemma {:induction false} ToFillIff(items: seq<Item>, counts: Counts)
    ensures ToFill(items, counts) > 0 <==> HoldsEllipsisToFill(List(items), counts)
    decreases items, 1
  {
    hide ToFillBelow, Times;
    var n, below := Repeat(items, counts), ToFillBelow(items, counts);
    TimesAtLeastOnce(n, below);
    TimesIsProduct(n + 1, 0);
    ToFillBelowIff(items, counts);
    if FilledAt(items, counts) < |items| {
      assert IsFilled(items[FilledAt(items, counts)], counts);
    }
  }

  lemma {:induction false} ToFillBelowIff(items: seq<Item>, counts: Counts)
    ensures ToFillBelow(items, counts) > 0 <==> exists i | 0 <= i < |items| :: HoldsEllipsisToFill(items[i], counts)
    decreases items, 0
  {
    hide ToFill, HoldsEllipsisToFill;
    if items != [] {
      var last := Last(items);
      ToFillBelowIff(Front(items), counts);
      assert items == Front(items) + [last];
      NoList(last, counts);
      if last.List? {
        ToFillIff(last.items, counts);
      }
    }
  }

  lemma NoList(item: Item, counts: Counts)
    ensures HoldsEllipsisToFill(item, counts) ==> item.List?
  {
  }

  /** `counts` are the values for ellipses and `others` those for all other variables. */
  predicate AreParts(values: Values, counts: Counts, others: Values) {
    && (forall n | n in values ::
          if n.Var? then n in others && n !in counts && others[n] == values[n]
          else n in counts && n !in others && values[n] == Count(counts[n]))
    && (forall n | n in counts :: n in values) && (forall n | n in others :: n in values)
  }

  /**
   * What filling yields: with an ellipsis to fill in somewhere, the items repeated and their variables renamed, and
   * then, as without one, every other value in its place.
   */
  lemma FilledWhole(node: Item, values: Values, counts: Counts, others: Values, r: Item) returns (e: Item)
    requires node.List? && Rep(node) && CountsForEllipses(values) && NodesBuilt(values)
    requires AreParts(values, counts, others)
    requires Then(Expanded(node, CountsOf(values)), OthersOf(values)) == Some(r)
    ensures if HoldsEllipsisToFill(node, counts) then IsCopy(node, e, counts, []) else e == node
    ensures HasValues(e, others, r) && Rep(r)
  {
    hide Rep, ToFill, Remaining, Expand, IsCopy, HasValues, Filling.Fill, HoldsEllipsisToFill;
    assert counts == CountsOf(values) && others == OthersOf(values);
    e := Expanded(node, counts).value;
    ToFillIff(node.items, counts);
    ExpandCopies(node, counts, [], 0, Remaining(node.items, counts) > 1);
    FilledIff(e, others, r);
  }

  /**
   * Filling in ellipses succeeds exactly when no list holds a bare empty item, every list stays within the size limit
   * and no two variables clash. What it yields has distinct names, and its ellipses are numbered in order, or there
   * is at most one.
   */
  lemma ExpandedIff(node: Item, counts: Counts)
    requires node.List? && Rep(node) && ToFill(node.items, counts) > 0
    ensures Expanded(node, counts).Some? <==> Expandable(node, counts) && NoClash(Leaves(node, counts))
    ensures var e, many := Emitted(node, counts), Remaining(node.items, counts) > 1;
      Expanded(node, counts).Some? ==>
        && Distinct(Variables(Expanded(node, counts).value))
        && EllipsesOf(Variables(Expanded(node, counts).value)) == Numbered(0, e, many)
        && (many || e <= 1)
  {
    hide ToFill, Expand, Remaining, Emitted, Leaves, Variables, Expandable, EllipsesOf, Numbered, Rep, Distinct,
      Apart, NoClash, AllCopied;
    var many := Remaining(node.items, counts) > 1;
    ListNode(node, counts);
    EmittedAtMostRemaining(node.items, counts);
    RepIffExpandable(node, counts, [], 0, many);
    LeavesCopied(node, counts);
    ApartIffNoClash(Leaves(node, counts));
    ExpandDistinctIff(node, counts, [], 0, many);
    ExpandNumbered(node, counts, [], 0, many);
  }

  lemma ListNode(node: Item, counts: Counts)
    requires node.List? && Rep(node)
    ensures Emitted(node, counts) == EmittedList(node.items, counts)
  {
  }

  /** Names of which none begins another: no filling fails on a duplicate, and its result is of that kind again. */
  lemma NeverClashes(node: Item, counts: Counts)
    requires node.List? && Rep(node) && PrefixFree(Vars(ListVariables(node.items)))
    ensures Expanded(node, counts).Some? <==> ToFill(node.items, counts) == 0 || Expandable(node, counts)
    ensures var filled := Expanded(node, counts);
      filled.Some? ==> filled.value.List? && Rep(filled.value) && PrefixFree(Vars(ListVariables(filled.value.items)))
  {
    hide ToFill, Remaining, Expandable, Rep, Vars, PrefixFree, NoClash, ExpandList, ListVariables, Leaves, Origins;
    if ToFill(node.items, counts) > 0 {
      var many := Remaining(node.items, counts) > 1;
      NamesOfList(node);
      ExpandedIff(node, counts);
      LeafOrigins(node, counts);
      PrefixFreeNoClash(Leaves(node, counts));
      ExpandPrefixFree(node, counts, 0, many);
      NamesOfList(Expand(node, counts, [], 0, many));
    }
  }

  lemma NamesOfList(node: Item)
    requires node.List?
    ensures Variables(node) == ListVariables(node.items) && ChildVariables(node) == ListVariables(node.items)
  {
  }

  /** What can be filled in step by step: counts for ellipses, and for other variables values that bring no new ones. */
  predicate IsStep(values: Values) {
    CountsForEllipses(values) && PlainValues(OthersOf(values))
  }

  predicate AreSteps(steps: seq<Values>) {
    forall i | 0 <= i < |steps| :: IsStep(steps[i])
  }

  /** One filling after the other, each of ellipses and of other variables. */
  function Stepwise(node: Item, steps: seq<Values>): Option<Item>
    requires node.List? && AreSteps(steps)
    ensures Stepwise(node, steps).Some? ==> Stepwise(node, steps).value.List?
  {
    if steps == [] then Some(node)
    else
      var before :- Stepwise(node, steps[..|steps| - 1]);
      var values := steps[|steps| - 1];
      Then(Expanded(before, CountsOf(values)), OthersOf(values))
  }

  // Names that go do no harm

  lemma {:induction false} VarsWithout(names: seq<Name>, gone: set<Name>)
    ensures Vars(Without(names, gone)) == Without(Vars(names), gone)
  {
    if names == [] {
    } else {
      VarsWithout(Front(names), gone);
      var last := if Last(names) in gone then [] else [Last(names)];
      var vars := if Last(names).Var? then [Last(names)] else [];
      VarsConcat(Without(Front(names), gone), last);
      WithoutConcat(Vars(Front(names)), vars, gone);
      WithoutOne(Last(names), gone);
      OneVar(Last(names));
      NoVars();
    }
  }

  lemma {:induction false} WithoutMembers(names: seq<Name>, gone: set<Name>)
    ensures forall n | n in Without(names, gone) :: n in names
  {
    if names != [] {
      WithoutMembers(Front(names), gone);
    }
  }

  lemma PrefixFreeSnoc(names: seq<Name>, n: Name)
    ensures PrefixFree(names + [n]) <==> PrefixFree(names) && forall m | m in names :: !Begins(m, n) && !Begins(n, m)
  {
    hide Begins;
    var all := names + [n];
    if PrefixFree(all) {
      forall i, j | 0 <= i < j < |names| ensures !Begins(names[i], names[j]) && !Begins(names[j], names[i]) {
        assert all[i] == names[i] && all[j] == names[j];
      }
      forall m | m in names ensures !Begins(m, n) && !Begins(n, m) {
        var i :| 0 <= i < |names| && names[i] == m;
        assert all[i] == m && all[|names|] == n;
      }
    }
  }

  lemma {:induction false} WithoutPrefixFree(names: seq<Name>, gone: set<Name>)
    requires PrefixFree(names)
    ensures PrefixFree(Without(names, gone))
  {
    hide Begins;
    if names != [] {
      var front, last := Front(names), Last(names);
      assert names == front + [last];
      PrefixFreeSnoc(front, last);
      WithoutPrefixFree(front, gone);
      WithoutMembers(front, gone);
      PrefixFreeSnoc(Without(front, gone), last);
      assert Without(front, gone) + [] == Without(front, gone);
    }
  }

  /** A filling fails only where an ellipsis does not fit or a value does not suit: never on a duplicate name. */
  lemma StepNeverClashes(node: Item, values: Values)
    requires node.List? && Rep(node) && PrefixFree(Vars(ListVariables(node.items))) && IsStep(values)
    ensures var counts, others := CountsOf(values), OthersOf(values);
      var expanded := Expanded(node, counts);
      && (expanded.Some? <==> ToFill(node.items, counts) == 0 || Expandable(node, counts))
      && (Then(expanded, others).Some? <==> expanded.Some? && Suits(expanded.value, others))
    ensures var filled := Then(Expanded(node, CountsOf(values)), OthersOf(values));
      filled.Some? ==> filled.value.List? && Rep(filled.value) && PrefixFree(Vars(ListVariables(filled.value.items)))
  {
    hide ToFill, Expanded, Expandable, Rep, Vars, PrefixFree, ListVariables, Without, PlainValues, Filling.Fill, Suits,
      Variables, ChildVariables;
    var counts, others := CountsOf(values), OthersOf(values);
    NeverClashes(node, counts);
    var expanded := Expanded(node, counts);
    if expanded.Some? {
      FillIffSuits(expanded.value, others);
      if Filling.Fill(expanded.value, others).Some? {
        var filled := Filling.Fill(expanded.value, others).value;
        StillList(expanded.value, others);
        FillRemains(expanded.value, others);
        NamesOfList(expanded.value);
        NamesOfList(filled);
        VarsWithout(ListVariables(expanded.value.items), others.Keys);
        WithoutPrefixFree(Vars(ListVariables(expanded.value.items)), others.Keys);
      }
    }
  }

  lemma StillList(node: Item, values: Values)
    requires node.List? && Filling.Fill(node, values).Some?
    ensures Filling.Fill(node, values).value.List?
  {
    hide FillItems;
  }

  /** From a tree with distinct names without suffixes, however many fillings follow, none fails on a duplicate name. */
  lemma {:induction false} StepsNeverClash(node: Item, steps: seq<Values>)
    requires node.List? && Rep(node) && Distinct(ListVariables(node.items)) && AreSteps(steps)
    requires forall n | n in ListVariables(node.items) && n.Var? :: n.indices == []
    ensures var r := Stepwise(node, steps);
      r.Some? ==> Rep(r.value) && PrefixFree(Vars(ListVariables(r.value.items)))
    ensures steps != [] && Stepwise(node, steps[..|steps| - 1]).Some? ==>
      var before, values := Stepwise(node, steps[..|steps| - 1]).value, steps[|steps| - 1];
      var counts, others := CountsOf(values), OthersOf(values);
      var expanded := Expanded(before, counts);
      && (expanded.Some? <==> ToFill(before.items, counts) == 0 || Expandable(before, counts))
      && (Stepwise(node, steps).Some? <==> expanded.Some? && Suits(expanded.value, others))
  {
    hide ToFill, Expanded, Expandable, Rep, Vars, PrefixFree, ListVariables, Distinct, IsStep, Filling.Fill, Suits;
    if steps == [] {
      var names := ListVariables(node.items);
      DistinctByParts(names);
      VarsMembers(names);
      SuffixlessPrefixFree(Vars(names));
    } else {
      var front, last := steps[..|steps| - 1], steps[|steps| - 1];
      assert IsStep(last);
      StepsNeverClash(node, front);
      if Stepwise(node, front).Some? {
        StepNeverClashes(Stepwise(node, front).value, last);
      }
    }
  }

  /** A tree in which "x" clashes with "x[0]": filling it fails although nothing else stands in the way. */
  lemma SuffixesCollide()
    ensures var node, counts := List([Slot(Var("x", [0])), List([Slot(Var("x", [])), Slot(Dots)])]), map[Dots := 1];
      Rep(node) && ToFill(node.items, counts) > 0 && Expandable(node, counts) && Expanded(node, counts) == None
  {
    hide Rep, ToFill, Expandable, Leaves, Expanded;
    var inner, counts: Counts := [Slot(Var("x", [])), Slot(Dots)], map[Dots := 1];
    var node := List([Slot(Var("x", [0])), List(inner)]);
    CollidingTree();
    CollidingFits();
    CollidingLeaves();
    var ls := Leaves(node, counts);
    assert Clash(ls[0], ls[1]);
    ExpandedIff(node, counts);
  }

  lemma CollidingTree()
    ensures Rep(List([Slot(Var("x", [0])), List([Slot(Var("x", [])), Slot(Dots)])]))
  {
    hide Distinct, ListVariables;
    var taken, x := Slot(Var("x", [0])), Slot(Var("x", []));
    var inner := [x, Slot(Dots)];
    TwoNames(x, Slot(Dots));
    TwoNames(taken, List(inner));
    ThreeDistinct();
    assert ListVariables(inner) == [Var("x", []), Dots];
    assert ListVariables([taken, List(inner)]) == [Var("x", [0]), Var("x", []), Dots];
    assert Rep(List(inner));
  }

  lemma CollidingFits()
    ensures var node, counts := List([Slot(Var("x", [0])), List([Slot(Var("x", [])), Slot(Dots)])]), map[Dots := 1];
      ToFill(node.items, counts) > 0 && Expandable(node, counts)
  {
    hide ExpandedSize, ToFill;
    CollidingSizes();
  }

  lemma CollidingSizes()
    ensures var inner, counts: Counts := [Slot(Var("x", [])), Slot(Dots)], map[Dots := 1];
      var items := [Slot(Var("x", [0])), List(inner)];
      ExpandedSize(inner, counts) == 2 && ExpandedSize(items, counts) == 2 && ToFill(items, counts) > 0
  {
    var taken, x := Slot(Var("x", [0])), Slot(Var("x", []));
    var inner, counts: Counts := [x, Slot(Dots)], map[Dots := 1];
    var items := [taken, List(inner)];
    assert Front(inner) == [x] && Front([x]) == [] && Front(items) == [taken] && Front([taken]) == [];
    assert FilledAt([x], counts) == 1 && FilledAt(inner, counts) == 1;
    assert FilledAt([taken], counts) == 1 && FilledAt(items, counts) == 2;
  }

  lemma ThreeDistinct()
    ensures Distinct([Var("x", [0]), Var("x", []), Dots]) && Distinct([Var("x", []), Dots])
  {
    assert |Var("x", [0]).indices| != |Var("x", []).indices|;
  }

  lemma TwoNames(a: Item, b: Item)
    ensures ListVariables([a, b]) == ChildVariables(a) + ChildVariables(b)
  {
    hide ChildVariables;
    assert Front([a, b]) == [a] && Front([a]) == [];
    assert ListVariables([]) == [];
    assert ListVariables([a]) == ChildVariables(a);
  }

  lemma CollidingLeaves()
    ensures var node, counts := List([Slot(Var("x", [0])), List([Slot(Var("x", [])), Slot(Dots)])]), map[Dots := 1];
      Leaves(node, counts) == [Leaf("x", [0], []), Leaf("x", [], [2])]
  {
    var taken, x := Slot(Var("x", [0])), Slot(Var("x", []));
    var inner, counts: Counts := [x, Slot(Dots)], map[Dots := 1];
    var items := [taken, List(inner)];
    assert Front(inner) == [x] && Front([x]) == [] && inner[..1] == [x] && inner[2..] == [];
    assert FilledAt([x], counts) == 1 && FilledAt(inner, counts) == 1;
    assert SeqLeaves([], counts) == [] && SeqLeaves([x], counts) == [Leaf("x", [], [])];
    assert [2] + [] == [2];
    assert ListLeaves(inner, counts) == [Leaf("x", [], [2])];
    assert Front(items) == [taken] && Front([taken]) == [];
    assert FilledAt([taken], counts) == 1 && FilledAt(items, counts) == 2;
    assert SeqLeaves([taken], counts) == [Leaf("x", [0], [])];
  }
}
