/** Filling in ellipses the way the lists do it: one loop whose counter is reset, over a state shared by all levels. */
module FillState {
  import opened Wrappers
  import opened Names
  import opened Items
  import opened Ellipsis
  import opened Turns

  class State {
    var currentDimension: nat
    var currentIndices: seq<nat>
    var ellipsisCount: nat
    const multipleEllipsis: bool
    /** All ellipses left unfilled so far; `ellipsisCount` follows it only when more than one will remain. */
    ghost var emitted: nat

    ghost predicate Valid()
      reads this
    {
      && currentDimension <= |currentIndices|
      && (multipleEllipsis ==> ellipsisCount == emitted)
    }

    /** The indices in force. Slots at and above the current dimension are left over from earlier repeats. */
    ghost function Path(): seq<nat>
      requires Valid()
      reads this
    {
      currentIndices[..currentDimension]
    }

    constructor (remainingEllipsisCount: nat)
      ensures Valid() && Path() == [] && emitted == 0
      ensures multipleEllipsis == (remainingEllipsisCount > 1)
    {
      currentDimension, currentIndices, ellipsisCount, emitted := 0, [], 0, 0;
      multipleEllipsis := remainingEllipsisCount > 1;
    }

    method GrowDimension()
      requires Valid()
      modifies `currentDimension, `currentIndices
      ensures Valid() && Path() == old(Path()) + [0]
    {
      if currentDimension == |currentIndices| {
        currentIndices := currentIndices + [0];
      } else {
        currentIndices := currentIndices[currentDimension := 0];
      }
      currentDimension := currentDimension + 1;
    }

    method ExitDimension()
      requires Valid() && currentDimension > 0
      modifies `currentDimension
      ensures Valid() && Path() == Front(old(Path()))
    {
      currentDimension := currentDimension - 1;
    }

    function CurrentDimensionIndex(): (c: nat)
      requires Valid() && currentDimension > 0
      reads this
      ensures c == Last(Path())
    {
      currentIndices[currentDimension - 1]
    }

    method GrowIndex()
      requires Valid() && currentDimension > 0
      modifies `currentIndices
      ensures Valid() && Path() == Front(old(Path())) + [Last(old(Path())) + 1]
    {
      currentIndices := currentIndices[currentDimension - 1 := currentIndices[currentDimension - 1] + 1];
    }

    method NewVariableName(name: Name) returns (r: Name)
      requires Valid()
      modifies `ellipsisCount, `emitted
      ensures Valid() && r == NewName(name, Path(), old(emitted), multipleEllipsis)
      ensures emitted == old(emitted) + if name.IsEllipsis() then 1 else 0
    {
      if name.IsEllipsis() {
        emitted := emitted + 1;
        if multipleEllipsis {
          r := DotsAt(ellipsisCount);
          ellipsisCount := ellipsisCount + 1;
        } else {
          r := Dots;
        }
        return;
      }
      r := name;
      for i := 0 to currentDimension
        invariant r == name.Suffixed(currentIndices[..i])
      {
        r := Var(r.base, r.indices + [currentIndices[i]]);
      }
    }
  }

  method FindEllipsis(items: seq<Item>, counts: Counts) returns (position: int, value: nat)
    ensures position == if FilledAt(items, counts) < |items| then FilledAt(items, counts) else -1
    ensures value == Repeat(items, counts)
  {
    for pos := 0 to |items|
      invariant pos <= FilledAt(items, counts)
    {
      if IsFilled(items[pos], counts) {
        return pos, counts[items[pos].name];
      }
    }
    return -1, 0;
  }

  method RenameVariables(kind: Kind, cells: seq<Cell>, state: State) returns (r: seq<Cell>)
    requires CellsOk(kind, cells) && state.Valid()
    modifies state
    ensures state.Valid() && state.Path() == old(state.Path()) && state.emitted == old(state.emitted)
    ensures r == RenameCells(cells, state.Path())
  {
    r := [];
    for i := 0 to |cells|
      invariant state.Valid() && state.Path() == old(state.Path()) && state.emitted == old(state.emitted)
      invariant r == RenameCells(cells[..i], state.Path())
    {
      assert Front(cells[..i + 1]) == cells[..i];
      assert cells[i] in cells;
      if cells[i].Hole? {
        var name := state.NewVariableName(cells[i].name);
        r := r + [Hole(name)];
      } else {
        r := r + [cells[i]];
      }
    }
    assert cells[..|cells|] == cells;
  }

  /** One turn of the loop: the item a list contributes to its expansion. */
  method FillChild(item: Item, counts: Counts, state: State) returns (r: Option<Item>)
    requires Rep(item) && state.Valid()
    modifies state
    ensures state.Valid()
    ensures r == Built(Expand(item, counts, old(state.Path()), old(state.emitted), state.multipleEllipsis))
    ensures r.Some? ==> state.Path() == old(state.Path()) && state.emitted == old(state.emitted) + Emitted(item, counts)
    decreases item, 1
  {
    match item
    case List(_) =>
      r := FillEllipsis(item, counts, state);
    case Ascii(_) =>
      r := Some(item);
    case AsciiVar(n, min, max) =>
      var name := state.NewVariableName(n);
      r := Some(AsciiVar(name, min, max));
    case Empty =>
      var name := state.NewVariableName(Var("", []));
      r := Some(Slot(name));
    case Slot(n) =>
      var name := state.NewVariableName(n);
      r := Some(Slot(name));
    case Numbers(kind, cells) =>
      var renamed := RenameVariables(kind, cells, state);
      RenamedCellsOk(kind, cells, state.Path());
      r := Some(Numbers(kind, renamed));
  }

  /** A list is built when its items are and the list itself passes its checks. */
  lemma BuiltList(items: seq<Item>)
    ensures Built(List(items)) == if forall c | c in items :: Rep(c) then NewListNode(items) else None
  {
  }

  lemma ListBuilt(items: seq<Item>, counts: Counts)
    requires Rep(List(items))
    ensures forall c | c in items :: Rep(c)
    ensures 0 < FilledAt(items, counts) || items == []
  {
  }

  /** At a filled ellipsis, in copy `c`: start the next copy, or leave the repeated part behind. */
  method AtEllipsis(value: nat, state: State, ghost items: seq<Item>, ghost counts: Counts, ghost path: seq<nat>,
                    ghost c: nat)
    returns (again: bool)
    requires state.Valid() && value == Repeat(items, counts) && FilledAt(items, counts) < |items| && c <= value
    requires state.Path() == TurnPath(items, counts, path, c, FilledAt(items, counts))
    modifies state
    ensures state.Valid() && state.emitted == old(state.emitted)
    ensures again <==> c < value
    ensures state.Path() == if again then TurnPath(items, counts, path, c + 1, 0)
                            else TurnPath(items, counts, path, value, FilledAt(items, counts) + 1)
  {
    hide FilledAt;
    again := false;
    if value == 0 {
      return;
    }
    if state.CurrentDimensionIndex() < value {
      state.GrowIndex();
      again := true;
    } else {
      state.ExitDimension();
    }
  }

  method FillEllipsis(node: Item, counts: Counts, state: State) returns (r: Option<Item>)
    requires node.List? && Rep(node) && state.Valid()
    modifies state
    ensures state.Valid()
    ensures r == Built(Expand(node, counts, old(state.Path()), old(state.emitted), state.multipleEllipsis))
    ensures r.Some? ==> state.Path() == old(state.Path()) && state.emitted == old(state.emitted) + Emitted(node, counts)
    decreases node, 0
  {
    hide ExpandList, ExpandSeq, Copies, EmittedSeq, EmittedList, Times, TurnCount, TurnPosition, TurnPath, FilledAt,
      ListOk, Rep;
    var items := node.items;
    ListBuilt(items, counts);
    ghost var path, k, many := state.Path(), state.emitted, state.multipleEllipsis;
    var position, value := FindEllipsis(items, counts);
    if value > 0 {
      state.GrowDimension();
    }
    var nodeValues, i := [], 0;
    ghost var c, target := 0, ExpandList(items, counts, path, k, many);
    TurnStart(items, counts, k);
    TurnPaths(items, counts, path);
    BuiltList(target);
    while i < |items|
      invariant i <= |items| && c <= value && (FilledAt(items, counts) < i ==> c == value)
      invariant state.Valid() && state.Path() == TurnPath(items, counts, path, c, i)
      invariant state.emitted == TurnCount(items, counts, k, c, i)
      invariant |nodeValues| == TurnPosition(items, counts, c, i) && nodeValues <= target
      invariant forall v | v in nodeValues :: Rep(v)
      decreases value - c, |items| - i
    {
      if i == position {
        var again := AtEllipsis(value, state, items, counts, path, c);
        if again {
          TurnRepeat(items, counts, k, c);
          i, c := 0, c + 1;
        } else {
          TurnExit(items, counts, k);
          i := i + 1;
          continue;
        }
      }
      assert items[i] in items;
      TurnAt(items, counts, path, k, many, c, i);
      var child := FillChild(items[i], counts, state);
      if child.None? {
        assert !Rep(target[|nodeValues|]);
        return None;
      }
      TurnStep(items, counts, k, c, i);
      nodeValues, i := nodeValues + [child.value], i + 1;
    }
    TurnEnd(items, counts, path, k, many, c);
    assert nodeValues == target;
    r := NewListNode(nodeValues);
  }
}
