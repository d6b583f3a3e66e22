/** When an expansion can be built: the list factories check sizes and names on every level. */
module Building {
  import opened Names
  import opened Items
  import opened Ellipsis
  import opened Numbering
  import opened Freshness
  import opened Turns

  /** No list in the tree holds a bare empty item. */
  predicate NoBareEmpty(item: Item) {
    item.List? ==> forall c | c in item.items :: !c.Empty? && NoBareEmpty(c)
  }

  /** Every list in the tree keeps within the size limit when its ellipsis is filled in. */
  predicate FitsExpanded(item: Item, counts: Counts) {
    item.List? ==> ExpandedSize(item.items, counts) <= MAX_BYTE_SIZE && forall c | c in item.items ::
      FitsExpanded(c, counts)
  }

  predicate Expandable(item: Item, counts: Counts) {
    NoBareEmpty(item) && FitsExpanded(item, counts)
  }

  predicate AllExpandable(items: seq<Item>, counts: Counts) {
    forall c | c in items :: !c.Empty? && Expandable(c, counts)
  }

  predicate AllRep(items: seq<Item>) {
    forall c | c in items :: Rep(c)
  }

  /** The variables among a list's own items are named as a list allows, positions aside. */
  predicate SlotsNamed(items: seq<Item>) {
    forall c | c in items && c.Slot? :: c.name.IsEllipsis() || c.name.IsValidVarName()
  }

  predicate NoOwnEllipsis(items: seq<Item>) {
    forall c | c in items :: !IsOwnEllipsis(c)
  }

  /** What holds of a list's items for each of its parts too. */
  ghost predicate Parts(items: seq<Item>, counts: Counts, path: seq<nat>, many: bool) {
    && AllRep(items) && SlotsNamed(items)
    && Apart(SeqLeaves(items, counts), path)
    && Numberable(EmittedSeq(items, counts), many)
  }

  predicate Good(items: seq<Item>) {
    AllRep(items) && SlotsNamed(items)
  }

  lemma PartsFront(items: seq<Item>, counts: Counts, path: seq<nat>, many: bool)
    requires items != [] && Parts(items, counts, path, many)
    ensures Parts(Front(items), counts, path, many)
    ensures Apart(Leaves(Last(items), counts), path) && Numberable(Emitted(Last(items), counts), many)
    ensures Rep(Last(items)) &&
      (Last(items).Slot? ==> Last(items).name.IsEllipsis() || Last(items).name.IsValidVarName())
  {
    hide Rep, Emitted, Leaves, Apart;
    ApartConcat(SeqLeaves(Front(items), counts), Leaves(Last(items), counts), path);
    assert forall c | c in Front(items) :: c in items;
    assert Last(items) in items;
  }

  // Expandable items give well-formed lists

  lemma {:induction false} ExpandRep(item: Item, counts: Counts, path: seq<nat>, k: nat, many: bool)
    requires Rep(item) && Apart(Leaves(item, counts), path) && Numberable(Emitted(item, counts), many)
    requires Expandable(item, counts)
    ensures Rep(Expand(item, counts, path, k, many))
    decreases item, 3
  {
    match item
    case Empty =>
    case Slot(_) =>
    case Ascii(_) =>
    case AsciiVar(_, _, _) =>
    case Numbers(kind, cells) =>
      RenamedCellsOk(kind, cells, path);
    case List(items) =>
      ExpandListRep(items, counts, path, k, many);
  }

  lemma {:induction false} ExpandListRep(items: seq<Item>, counts: Counts, path: seq<nat>, k: nat, many: bool)
    requires ListOk(items) && AllRep(items) && Apart(ListLeaves(items, counts), path)
    requires Numberable(EmittedList(items, counts), many)
    requires AllExpandable(items, counts) && ExpandedSize(items, counts) <= MAX_BYTE_SIZE
    ensures Rep(List(ExpandList(items, counts, path, k, many)))
    decreases items, 2
  {
    hide Rep, ListVariables, Expand, ExpandSeq, Copies, EmittedSeq, Times, SeqLeaves, Apart, Deepened;
    var r := ExpandList(items, counts, path, k, many);
    ExpandListSize(items, counts, path, k, many);
    ListDistinct(items, counts, path, k, many);
    var p := FilledAt(items, counts);
    if p == |items| {
      SlotsOfList(items);
      ExpandSeqGood(items, counts, path, k, many);
      EllipsesKept(items, counts, path, k, many);
    } else {
      ExpandFilledGood(items, counts, path, k, many);
    }
    RepOfList(r);
  }

  lemma ListDistinct(items: seq<Item>, counts: Counts, path: seq<nat>, k: nat, many: bool)
    requires ListOk(items) && AllRep(items) && Apart(ListLeaves(items, counts), path)
    requires Numberable(EmittedList(items, counts), many)
    ensures Distinct(ListVariables(ExpandList(items, counts, path, k, many)))
  {
    hide ListLeaves, Apart, ListOk, ExpandList, EmittedList, ListVariables;
    RepOfList(items);
    ExpandDistinctIff(List(items), counts, path, k, many);
  }

  lemma RepOfList(items: seq<Item>)
    requires ListOk(items) && AllRep(items)
    ensures Rep(List(items))
  {
  }

  lemma SlotsOfList(items: seq<Item>)
    requires ListOk(items)
    ensures SlotsNamed(items)
  {
  }

  /** A list whose own ellipsis is filled in has no other, and its expansion has none. */
  lemma {:induction false} ExpandFilledGood(items: seq<Item>, counts: Counts, path: seq<nat>, k: nat, many: bool)
    requires ListOk(items) && AllRep(items) && Apart(ListLeaves(items, counts), path)
    requires FilledAt(items, counts) < |items|
    requires Numberable(EmittedList(items, counts), many) && AllExpandable(items, counts)
    ensures Good(ExpandList(items, counts, path, k, many)) && NoOwnEllipsis(ExpandList(items, counts, path, k, many))
    decreases items, 1
  {
    hide Rep, ListVariables, Expand, ExpandSeq, Copies, EmittedSeq, Times, ChildVariables, SeqLeaves, Apart, Deepened;
    var p := FilledAt(items, counts);
    var n := counts[items[p].name];
    SlotsOfList(items);
    TimesMonotone(0, n + 1, EmittedSeq(items[..p], counts));
    NoTimes(EmittedSeq(items[..p], counts));
    var before, behind := SeqLeaves(items[..p], counts), SeqLeaves(items[p + 1..], counts);
    ApartConcat(if n == 0 then before else Deepened(before, n + 1), behind, path);
    forall c | 0 <= c < n + 1 ensures Parts(items[..p], counts, CopyPath(path, n, c), many) {
      if n > 0 {
        CopyApart(before, path, n + 1, c);
      }
    }
    CopiesGood(items[..p], counts, path, k, many, n, n + 1);
    ExpandSeqGood(items[p + 1..], counts, path, k + Times(n + 1, EmittedSeq(items[..p], counts)), many);
    CopiesPlain(items[..p], counts, path, k, many, n, n + 1);
    ExpandSeqPlain(items[p + 1..], counts, path, k + Times(n + 1, EmittedSeq(items[..p], counts)), many);
  }

  /** What is apart in all copies is apart in each. */
  lemma {:induction false} CopyApart(ls: seq<Leaf>, path: seq<nat>, m: nat, c: nat)
    requires c < m && Apart(Deepened(ls, m), path)
    ensures Apart(ls, path + [c])
  {
    hide Apart, Deepened, Reaches;
    ApartDeepened(ls, path, m - 1);
    if c < m - 1 {
      CopyApart(ls, path, m - 1, c);
    }
  }

  lemma NoTimes(x: nat)
    ensures Times(0, x) == 0
  {
  }

  lemma {:induction false} CopiesGood(items: seq<Item>, counts: Counts, path: seq<nat>, k: nat, many: bool, n: nat,
                                      m: nat)
    requires AllExpandable(items, counts) && forall c | 0 <= c < m :: Parts(items, counts, CopyPath(path, n, c), many)
    ensures Good(Copies(items, counts, path, k, many, n, m))
    decreases items, 1, m
  {
    hide Rep, Parts, AllExpandable, ExpandSeq, EmittedSeq, Times;
    if m > 0 {
      CopiesGood(items, counts, path, k, many, n, m - 1);
      ExpandSeqGood(items, counts, CopyPath(path, n, m - 1), k + Times(m - 1, EmittedSeq(items, counts)), many);
    }
  }

  lemma {:induction false} ExpandSeqGood(items: seq<Item>, counts: Counts, path: seq<nat>, k: nat, many: bool)
    requires Parts(items, counts, path, many) && AllExpandable(items, counts)
    ensures Good(ExpandSeq(items, counts, path, k, many))
    decreases items, 0
  {
    hide Rep, Emitted, EmittedSeq, Leaves, Apart, Parts, Expandable;
    if items != [] {
      PartsFront(items, counts, path, many);
      assert Last(items) in items;
      ExpandSeqGood(Front(items), counts, path, k, many);
      ExpandRep(Last(items), counts, path, k + EmittedSeq(Front(items), counts), many);
    }
  }

  lemma {:induction false} CopiesPlain(items: seq<Item>, counts: Counts, path: seq<nat>, k: nat, many: bool, n: nat,
                                       m: nat)
    requires NoOwnEllipsis(items)
    ensures NoOwnEllipsis(Copies(items, counts, path, k, many, n, m))
  {
    hide ExpandSeq, EmittedSeq, Times;
    if m > 0 {
      CopiesPlain(items, counts, path, k, many, n, m - 1);
      ExpandSeqPlain(items, counts, CopyPath(path, n, m - 1), k + Times(m - 1, EmittedSeq(items, counts)), many);
    }
  }

  lemma {:induction false} ExpandSeqPlain(items: seq<Item>, counts: Counts, path: seq<nat>, k: nat, many: bool)
    requires NoOwnEllipsis(items)
    ensures NoOwnEllipsis(ExpandSeq(items, counts, path, k, many))
  {
    hide Emitted, EmittedSeq;
    if items != [] {
      assert Last(items) in items;
      ExpandSeqPlain(Front(items), counts, path, k, many);
    }
  }

  /** Without a filled ellipsis every item stays in place, and so does the list's own ellipsis. */
  lemma {:induction false} EllipsesKept(items: seq<Item>, counts: Counts, path: seq<nat>, k: nat, many: bool)
    ensures forall i | 0 <= i < |items| :: IsOwnEllipsis(ExpandSeq(items, counts, path, k, many)[i]) <==>
      IsOwnEllipsis(items[i])
  {
    hide Emitted, EmittedSeq, ExpandSeq;
    forall i | 0 <= i < |items| ensures IsOwnEllipsis(ExpandSeq(items, counts, path, k, many)[i]) <==>
      IsOwnEllipsis(items[i]) {
      ExpandSeqAt(items, counts, path, k, many, i);
    }
  }

  // Nothing else does

  lemma {:induction false} RepExpandable(item: Item, counts: Counts, path: seq<nat>, k: nat, many: bool)
    requires Rep(item) && Rep(Expand(item, counts, path, k, many))
    ensures Expandable(item, counts)
  {
    if item.List? {
      var items := item.items;
      ExpandListSize(items, counts, path, k, many);
      forall i | 0 <= i < |items| ensures !items[i].Empty? && Expandable(items[i], counts) {
        if i != FilledAt(items, counts) {
          assert items[i] in items;
          ItemOfExpansion(items, counts, path, k, many, i);
          RepExpandable(items[i], counts, TurnPath(items, counts, path, 0, i), TurnCount(items, counts, k, 0, i), many);
        }
      }
      AllOf(items, counts);
    }
  }

  lemma AllOf(items: seq<Item>, counts: Counts)
    requires forall i | 0 <= i < |items| :: !items[i].Empty? && Expandable(items[i], counts)
    requires ExpandedSize(items, counts) <= MAX_BYTE_SIZE
    ensures Expandable(List(items), counts)
  {
  }

  lemma ItemOfExpansion(items: seq<Item>, counts: Counts, path: seq<nat>, k: nat, many: bool, i: nat)
    requires i < |items| && i != FilledAt(items, counts)
    requires Rep(List(ExpandList(items, counts, path, k, many)))
    ensures Rep(Expand(items[i], counts, TurnPath(items, counts, path, 0, i), TurnCount(items, counts, k, 0, i), many))
    ensures !items[i].Empty?
  {
    hide ExpandList, ListVariables, TurnPath, TurnCount, TurnPosition;
    TurnAt(items, counts, path, k, many, 0, i);
    var r := ExpandList(items, counts, path, k, many);
    var at := TurnPosition(items, counts, 0, i);
    assert r[at] in r;
    assert r[at].Slot? ==> r[at].name.IsValidVarName() || r[at].name.IsEllipsis();
  }

  /**
   * An expansion passes every check of every list on the way exactly when the tree has no bare empty item, all sizes
   * fit and no two variables have copies of the same name.
   */
  lemma RepIffExpandable(item: Item, counts: Counts, path: seq<nat>, k: nat, many: bool)
    requires Rep(item) && Numberable(Emitted(item, counts), many)
    ensures Rep(Expand(item, counts, path, k, many)) <==> Expandable(item, counts) && Apart(Leaves(item, counts), path)
  {
    hide *;
    if Rep(Expand(item, counts, path, k, many)) {
      RepExpandable(item, counts, path, k, many);
      NeverEmpty(item, counts, path, k, many);
      RepDistinct(Expand(item, counts, path, k, many));
      ExpandDistinctIff(item, counts, path, k, many);
    }
    if Expandable(item, counts) && Apart(Leaves(item, counts), path) {
      ExpandRep(item, counts, path, k, many);
    }
  }

  lemma RepDistinct(item: Item)
    requires Rep(item)
    ensures Distinct(Variables(item))
  {
    assert Distinct([]);
    match item
    case Slot(n) =>
      assert Distinct([n]);
    case AsciiVar(n, _, _) =>
      assert Distinct([n]);
    case _ =>
  }
}
