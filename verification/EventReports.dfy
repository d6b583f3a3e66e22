/** Event reports: what equipment sends when an event occurs, and what the host reads. */
module EventReports {
  import opened Wrappers
  import opened Names
  import opened Items
  import opened Encoding
  import opened RoundTrip
  import opened Messages
  import opened EventTables
  import opened Consistency
  import opened Effects
  import opened EventMessages

  // Values

  /** What each registered variable reads as at the moment; None when reading fails or yields nothing. */
  datatype Values = Values(status: map<Key, Option<Item>>, data: map<Key, Option<Item>>)

  function OrEmpty(value: Option<Item>): Item {
    if value.Some? then value.value else Empty
  }

  function Resolve(v: Values, vid: Key): Item {
    if vid in v.status then OrEmpty(v.status[vid])
    else if vid in v.data then OrEmpty(v.data[vid])
    else Empty
  }

  function Collect(v: Values, vids: seq<Key>): seq<Item> {
    seq(|vids|, i requires 0 <= i < |vids| => Resolve(v, vids[i]))
  }

  // Building

  datatype Payload = Payload(reports: seq<Item>, dataId: nat, event: Item)

  function ReportNode(v: Values, key: Key, vids: seq<Key>): Attempt<Item> {
    var values :- NewList(Collect(v, vids));
    NewList([KeyNode(key), values])
  }

  /** The reports that are defined; others are skipped. */
  function ReportNodes(t: Tables, v: Values, keys: seq<Key>): Attempt<seq<Item>> {
    if keys == [] then Ok([])
    else
      var front :- ReportNodes(t, v, keys[..|keys| - 1]);
      var key := keys[|keys| - 1];
      if key !in t.reports then Ok(front)
      else
        var last :- ReportNode(v, key, t.reports[key]);
        Ok(front + [last])
  }

  function BuildPayload(t: Tables, v: Values, ce: Key): Attempt<Option<Payload>> {
    if ce !in t.events then Refused
    else if ce !in t.links || !t.links[ce].enabled || t.links[ce].reports == [] then Ok(None)
    else
      var nodes :- ReportNodes(t, v, t.links[ce].reports);
      Ok(if nodes == [] then None else Some(Payload(nodes, 1, KeyNode(ce))))
  }

  function DataIdNode(dataId: nat): Item {
    Numbers(Unsigned(ByteSize(dataId)), [Lit(dataId)])
  }

  function EventBody(p: Payload): Attempt<Item> {
    var list :- NewList(p.reports);
    NewList([DataIdNode(p.dataId), p.event, list])
  }

  /** The body of the message an event causes, if it causes one. */
  function BuildEvent(t: Tables, v: Values, ce: Key): Attempt<Option<Item>> {
    var payload :- BuildPayload(t, v, ce);
    if payload.None? then Ok(None)
    else
      var body :- EventBody(payload.value);
      Ok(Some(body))
  }

  method CollectReportValues(v: Values, vidKeys: seq<Key>) returns (values: seq<Item>)
    ensures values == Collect(v, vidKeys)
  {
    values := [];
    for i := 0 to |vidKeys|
      invariant values == Collect(v, vidKeys[..i])
    {
      values := values + [Resolve(v, vidKeys[i])];
    }
    assert vidKeys[..|vidKeys|] == vidKeys;
  }

  method BuildCollectionEventPayload(t: Tables, v: Values, ce: Key) returns (r: Attempt<Option<Payload>>)
    ensures r == BuildPayload(t, v, ce)
  {
    hide NewList, KeyNode;
    if ce !in t.events {
      return Refused;
    }
    if ce !in t.links || !t.links[ce].enabled || |t.links[ce].reports| == 0 {
      return Ok(None);
    }
    var reportKeys := t.links[ce].reports;
    var reportNodes := [];
    for i := 0 to |reportKeys|
      invariant ReportNodes(t, v, reportKeys[..i]) == Ok(reportNodes)
    {
      assert reportKeys[..i + 1][..i] == reportKeys[..i];
      var key := reportKeys[i];
      if key in t.reports {
        var values := CollectReportValues(v, t.reports[key]);
        var list := NewList(values);
        var node := if list.Ok? then NewList([KeyNode(key), list.value]) else list;
        if node.IsFailure() {
          FirstReportFailure(t, v, reportKeys, i);
          return node.PropagateFailure();
        }
        reportNodes := reportNodes + [node.value];
      }
    }
    assert reportKeys[..|reportKeys|] == reportKeys;
    r := Ok(if |reportNodes| == 0 then None else Some(Payload(reportNodes, 1, KeyNode(ce))));
  }

  lemma {:induction false} FirstReportFailure(t: Tables, v: Values, keys: seq<Key>, i: nat)
    requires i < |keys| && ReportNodes(t, v, keys[..i]).Ok? && keys[i] in t.reports
    requires ReportNode(v, keys[i], t.reports[keys[i]]).IsFailure()
    ensures ReportNodes(t, v, keys) == ReportNode(v, keys[i], t.reports[keys[i]]).PropagateFailure()
    decreases |keys|
  {
    hide ReportNode;
    var front := keys[..|keys| - 1];
    if i < |keys| - 1 {
      assert front[..i] == keys[..i];
      FirstReportFailure(t, v, front, i);
    }
  }

  // Reading

  datatype ReportValue = ReportValue(rptid: Key, values: seq<Item>)

  datatype EventReport = EventReport(dataId: int, ceid: Key, reports: seq<ReportValue>)

  function ReadReport(node: Item): Option<ReportValue> {
    if !node.List? || |node.items| < 2 || !node.items[1].List? then None
    else
      var id :- IdOfNode(node.items[0]);
      Some(ReportValue(id.key, node.items[1].items))
  }

  function ReadReports(nodes: seq<Item>): Option<seq<ReportValue>> {
    if nodes == [] then Some([])
    else
      var front :- ReadReports(Front(nodes));
      var last :- ReadReport(Last(nodes));
      Some(front + [last])
  }

  /** A number read as a 64-bit signed integer; zero where there is none. */
  function ReadDataId(node: Item): int {
    match node
    case Numbers(kind, cells) =>
      if cells == [] || kind == Boolean || kind == Float4 || kind == Float8 then 0
      else if ReadValue(cells[0]) < 0x8000_0000_0000_0000 then ReadValue(cells[0])
      else ReadValue(cells[0]) - Modulus(8)
    case _ => 0
  }

  function ReadEvent(root: Item): Option<EventReport> {
    if !root.List? || |root.items| < 3 || !root.items[2].List? then None
    else
      var ce :- IdOfNode(root.items[1]);
      var reports :- ReadReports(root.items[2].items);
      Some(EventReport(ReadDataId(root.items[0]), ce.key, reports))
  }

  method ParseEventReportMessage(root: Item) returns (r: Option<EventReport>)
    ensures r == ReadEvent(root)
  {
    hide IdOfNode, ReadDataId;
    if !root.List? || |root.items| < 3 {
      return None;
    }
    var ce :- IdOfNode(root.items[1]);
    if !root.items[2].List? {
      return None;
    }
    var nodes := root.items[2].items;
    var reports := [];
    for i := 0 to |nodes|
      invariant ReadReports(nodes[..i]) == Some(reports)
    {
      assert Front(nodes[..i + 1]) == nodes[..i];
      var entry := nodes[i];
      var id := if entry.List? && |entry.items| >= 2 then IdOfNode(entry.items[0]) else None;
      if id.None? || !entry.items[1].List? {
        UnreadableReport(nodes, i);
        return None;
      }
      reports := reports + [ReportValue(id.value.key, entry.items[1].items)];
    }
    assert nodes[..|nodes|] == nodes;
    r := Some(EventReport(ReadDataId(root.items[0]), ce.key, reports));
  }

  lemma {:induction false} UnreadableReport(nodes: seq<Item>, i: nat)
    requires i < |nodes| && ReadReport(nodes[i]).None?
    ensures ReadReports(nodes).None?
  {
    hide ReadReport;
    if i < |nodes| - 1 {
      UnreadableReport(Front(nodes), i);
    }
  }

  // What is built reads as the reports of the tables

  /** The values of the defined reports among `keys`. */
  function Reported(t: Tables, v: Values, keys: seq<Key>): seq<ReportValue> {
    if keys == [] then []
    else
      var front, key := Reported(t, v, keys[..|keys| - 1]), keys[|keys| - 1];
      if key in t.reports then front + [ReportValue(key, Collect(v, t.reports[key]))] else front
  }

  /** The reports among `keys` that are defined. */
  function Defined(t: Tables, keys: seq<Key>): seq<Key> {
    if keys == [] then []
    else
      var front, key := Defined(t, keys[..|keys| - 1]), keys[|keys| - 1];
      if key in t.reports then front + [key] else front
  }

  lemma {:induction false} AllDefined(t: Tables, keys: seq<Key>)
    requires forall i | 0 <= i < |keys| :: keys[i] in t.reports
    ensures Defined(t, keys) == keys
  {
    if keys != [] {
      AllDefined(t, keys[..|keys| - 1]);
    }
  }

  lemma {:induction false} NoneDefined(t: Tables, keys: seq<Key>)
    requires forall i | 0 <= i < |keys| :: keys[i] !in t.reports
    ensures Defined(t, keys) == []
  {
    if keys != [] {
      NoneDefined(t, keys[..|keys| - 1]);
    }
  }

  lemma {:induction false} FewerDefined(t: Tables, keys: seq<Key>)
    ensures |Defined(t, keys)| <= |keys|
  {
    if keys != [] {
      FewerDefined(t, keys[..|keys| - 1]);
    }
  }

  lemma {:induction false} OneDefined(t: Tables, keys: seq<Key>, i: nat)
    requires i < |keys|
    ensures if keys[i] in t.reports then Defined(t, keys) != [] else |Defined(t, keys)| < |keys|
  {
    FewerDefined(t, keys[..|keys| - 1]);
    if i < |keys| - 1 {
      OneDefined(t, keys[..|keys| - 1], i);
    }
  }

  lemma DefinedAmong(t: Tables, keys: seq<Key>)
    ensures var defined := Defined(t, keys);
      && |defined| <= |keys|
      && (|defined| == |keys| <==> forall i | 0 <= i < |keys| :: keys[i] in t.reports)
      && (defined == [] <==> forall i | 0 <= i < |keys| :: keys[i] !in t.reports)
      && (|defined| == |keys| ==> defined == keys)
  {
    hide Defined;
    FewerDefined(t, keys);
    forall i | 0 <= i < |keys|
      ensures if keys[i] in t.reports then Defined(t, keys) != [] else |Defined(t, keys)| < |keys|
    {
      OneDefined(t, keys, i);
    }
    if forall i | 0 <= i < |keys| :: keys[i] in t.reports {
      AllDefined(t, keys);
    }
    if forall i | 0 <= i < |keys| :: keys[i] !in t.reports {
      NoneDefined(t, keys);
    }
  }

  predicate Reports(r: ReportValue, t: Tables, v: Values, key: Key) {
    key in t.reports && r == ReportValue(key, Collect(v, t.reports[key]))
  }

  lemma {:induction false} ReportedDefined(t: Tables, v: Values, keys: seq<Key>)
    ensures |Reported(t, v, keys)| == |Defined(t, keys)|
    ensures forall i | 0 <= i < |Defined(t, keys)| :: Reports(Reported(t, v, keys)[i], t, v, Defined(t, keys)[i])
  {
    if keys != [] {
      var key := keys[|keys| - 1];
      ReportedDefined(t, v, keys[..|keys| - 1]);
      assert key in t.reports ==> Reports(ReportValue(key, Collect(v, t.reports[key])), t, v, key);
      hide Reports, Collect;
    }
  }

  /** Report by report, with the value of every variable, in order; undefined ones are skipped, and no others. */
  lemma ReportedInOrder(t: Tables, v: Values, keys: seq<Key>)
    ensures var reported, defined := Reported(t, v, keys), Defined(t, keys);
      && |reported| == |defined| <= |keys|
      && (forall i | 0 <= i < |defined| :: Reports(reported[i], t, v, defined[i]))
      && (|reported| == |keys| <==> forall i | 0 <= i < |keys| :: keys[i] in t.reports)
      && (reported == [] <==> forall i | 0 <= i < |keys| :: keys[i] !in t.reports)
      && (|defined| == |keys| ==> defined == keys)
  {
    hide Reported, Defined, Reports;
    DefinedAmong(t, keys);
    ReportedDefined(t, v, keys);
  }

  lemma ReportReads(v: Values, key: Key, vids: seq<Key>)
    ensures var r := ReportNode(v, key, vids);
      r.Ok? ==> ReadReport(r.value) == Some(ReportValue(key, Collect(v, vids)))
  {
    hide Collect, IdOfNode, ListOk, KeyNode;
    KeyNodeComplete(key);
  }

  lemma {:induction false} ReportsRead(t: Tables, v: Values, keys: seq<Key>)
    ensures var r := ReportNodes(t, v, keys);
      r.Ok? ==> ReadReports(r.value) == Some(Reported(t, v, keys))
  {
    hide ReportNode, ReadReport, Collect;
    if keys != [] {
      ReportsRead(t, v, keys[..|keys| - 1]);
      var key := keys[|keys| - 1];
      var r := ReportNodes(t, v, keys);
      if r.Ok? && key in t.reports {
        ReportReads(v, key, t.reports[key]);
        assert Front(r.value) == ReportNodes(t, v, keys[..|keys| - 1]).value;
      }
    }
  }


  // Values that could not be read

  /** `count` times the name under which an empty item is a variable of its list. */
  function Blanks(count: nat): seq<Name> {
    seq(count, _ => Var("", []))
  }

  lemma BlanksDistinct(count: nat)
    ensures Distinct(Blanks(count)) <==> count <= 1
  {
    if count > 1 {
      assert Blanks(count)[0] == Blanks(count)[1];
    }
  }

  lemma BlanksAdd(a: nat, b: nat)
    ensures Blanks(a) + Blanks(b) == Blanks(a + b)
  {
  }

  /** An item in which `count` values are empty, and which lacks nothing else. */
  predicate Lacks(item: Item, count: nat) {
    Rep(item) && !item.Slot? && ChildVariables(item) == Blanks(count)
  }

  function Sum(counts: seq<nat>): nat {
    if counts == [] then 0 else Sum(counts[..|counts| - 1]) + counts[|counts| - 1]
  }

  predicate AllLack(items: seq<Item>, counts: seq<nat>) {
    |items| == |counts| && forall i | 0 <= i < |items| :: Lacks(items[i], counts[i])
  }

  lemma {:induction false} LackingVariables(items: seq<Item>, counts: seq<nat>)
    requires AllLack(items, counts)
    ensures ListVariables(items) == Blanks(Sum(counts))
  {
    hide Rep, ChildVariables, Blanks;
    if items == [] {
      NoBlanks();
    } else {
      LackingVariables(Front(items), counts[..|counts| - 1]);
      BlanksAdd(Sum(counts[..|counts| - 1]), counts[|counts| - 1]);
      assert Lacks(Last(items), counts[|counts| - 1]);
    }
  }

  lemma NoBlanks()
    ensures Blanks(0) == []
  {
  }

  /** A list can be built exactly while it lacks at most one value. */
  lemma ListLacks(items: seq<Item>, counts: seq<nat>)
    requires AllLack(items, counts) && |items| <= MAX_BYTE_SIZE
    ensures NewList(items) == if Sum(counts) <= 1 then Ok(List(items)) else Crashed
    ensures Sum(counts) <= 1 ==> Lacks(List(items), Sum(counts))
  {
    hide Blanks, Distinct, ChildVariables, ListVariables, Sum;
    LackingVariables(items, counts);
    ListCompleteness(items);
    BlanksDistinct(Sum(counts));
    forall i | 0 <= i < |items| ensures Rep(items[i]) && !items[i].Slot? {
      assert Lacks(items[i], counts[i]);
    }
  }

  lemma PairLacks(key: Key, last: Item, count: nat)
    requires IsBuildable(key) && Lacks(last, count) && count <= 1
    ensures NewList([KeyNode(key), last]) == Ok(List([KeyNode(key), last])) && Lacks(List([KeyNode(key), last]), count)
  {
    hide Lacks, NewList, IsBuildable;
    KeyLacks(key);
    assert Sum([0, count][..1]) == Sum([0, count][..1][..0]) + 0;
    assert Sum([0, count]) == count;
    ListLacks([KeyNode(key), last], [0, count]);
  }

  lemma KeyLacks(key: Key)
    requires IsBuildable(key)
    ensures Lacks(KeyNode(key), 0)
  {
    KeyNodeComplete(key);
    NoBlanks();
  }

  /** How many of the values are empty. */
  function Missing(v: Values, vids: seq<Key>): nat {
    if vids == [] then 0
    else Missing(v, vids[..|vids| - 1]) + if Resolve(v, vids[|vids| - 1]).Empty? then 1 else 0
  }

  function MissingInAll(t: Tables, v: Values, keys: seq<Key>): nat {
    if keys == [] then 0
    else
      var key := keys[|keys| - 1];
      MissingInAll(t, v, keys[..|keys| - 1]) + if key in t.reports then Missing(v, t.reports[key]) else 0
  }

  /** Per value, whether it is empty. */
  function Empties(v: Values, vids: seq<Key>): seq<nat> {
    if vids == [] then []
    else Empties(v, vids[..|vids| - 1]) + [if Resolve(v, vids[|vids| - 1]).Empty? then 1 else 0]
  }

  lemma ValueLacks(item: Item)
    requires item.Empty? || Complete(item)
    ensures Lacks(item, if item.Empty? then 1 else 0)
  {
    NoBlanks();
    SlotVariables(item);
    if item.Empty? {
      assert ChildVariables(item) == [Var("", [])] == Blanks(1);
    }
  }

  lemma {:induction false} ValuesLack(v: Values, vids: seq<Key>)
    requires forall i | 0 <= i < |vids| :: Resolve(v, vids[i]).Empty? || Complete(Resolve(v, vids[i]))
    ensures AllLack(Collect(v, vids), Empties(v, vids)) && Sum(Empties(v, vids)) == Missing(v, vids)
  {
    hide Complete, Lacks, Resolve;
    if vids != [] {
      var front, last := vids[..|vids| - 1], vids[|vids| - 1];
      ValuesLack(v, front);
      ValueLacks(Resolve(v, last));
      assert Collect(v, vids) == Collect(v, front) + [Resolve(v, last)];
    }
  }

  lemma ReportLacks(v: Values, key: Key, vids: seq<Key>)
    requires IsBuildable(key) && |vids| <= MAX_BYTE_SIZE
    requires forall i | 0 <= i < |vids| :: Resolve(v, vids[i]).Empty? || Complete(Resolve(v, vids[i]))
    ensures var r := ReportNode(v, key, vids);
      if Missing(v, vids) <= 1 then r.Ok? && Lacks(r.value, Missing(v, vids)) else r == Crashed
  {
    hide Complete, Lacks, Empties, Missing, NewList, KeyNode, Resolve, AllLack, IsBuildable;
    ValuesLack(v, vids);
    ListLacks(Collect(v, vids), Empties(v, vids));
    if Missing(v, vids) <= 1 {
      PairLacks(key, List(Collect(v, vids)), Missing(v, vids));
    }
  }

  predicate ReportReady(t: Tables, v: Values, key: Key)
    requires key in t.reports
  {
    && IsBuildable(key) && |t.reports[key]| <= MAX_BYTE_SIZE
    && forall i | 0 <= i < |t.reports[key]| :: var value := Resolve(v, t.reports[key][i]);
      value.Empty? || Complete(value)
  }

  predicate ReportsReady(t: Tables, v: Values, keys: seq<Key>) {
    forall i | 0 <= i < |keys| && keys[i] in t.reports :: ReportReady(t, v, keys[i])
  }

  function PerReport(t: Tables, v: Values, keys: seq<Key>): seq<nat>
    requires ReportsReady(t, v, keys)
  {
    if keys == [] then []
    else
      var front, key := PerReport(t, v, keys[..|keys| - 1]), keys[|keys| - 1];
      if key in t.reports then front + [Missing(v, t.reports[key])] else front
  }

  lemma {:induction false} ReportsLack(t: Tables, v: Values, keys: seq<Key>)
    requires ReportsReady(t, v, keys)
    ensures Sum(PerReport(t, v, keys)) == MissingInAll(t, v, keys)
    ensures var r := ReportNodes(t, v, keys);
      if r.Ok? then AllLack(r.value, PerReport(t, v, keys)) else r == Crashed && MissingInAll(t, v, keys) > 1
  {
    hide ReportNode, Lacks, Missing, ReportReady;
    if keys != [] {
      var front, last := keys[..|keys| - 1], keys[|keys| - 1];
      assert keys == front + [last];
      ReportsLack(t, v, front);
      if last in t.reports {
        ReportIsReady(t, v, last);
      }
    }
  }

  lemma ReportIsReady(t: Tables, v: Values, key: Key)
    requires key in t.reports && ReportReady(t, v, key)
    ensures var r := ReportNode(v, key, t.reports[key]);
      if Missing(v, t.reports[key]) <= 1 then r.Ok? && Lacks(r.value, Missing(v, t.reports[key])) else r == Crashed
  {
    ReportLacks(v, key, t.reports[key]);
  }

  lemma DataIdComplete()
    ensures Lacks(DataIdNode(1), 0) && ReadDataId(DataIdNode(1)) == 1
  {
    LiteralNames(1);
    NoBlanks();
  }

  lemma BodyLacks(ce: Key, nodes: seq<Item>, counts: seq<nat>)
    requires IsBuildable(ce) && AllLack(nodes, counts) && |nodes| <= MAX_BYTE_SIZE
    ensures var body := List([DataIdNode(1), KeyNode(ce), List(nodes)]);
      && EventBody(Payload(nodes, 1, KeyNode(ce))) == (if Sum(counts) <= 1 then Ok(body) else Crashed)
      && (Sum(counts) <= 1 ==> Lacks(body, Sum(counts)))
  {
    hide Lacks, NewList, IsBuildable, KeyNode, DataIdNode, AllLack, Sum;
    ListLacks(nodes, counts);
    if Sum(counts) <= 1 {
      DataIdComplete();
      KeyLacks(ce);
      SumThree(Sum(counts));
      AllThree(DataIdNode(1), KeyNode(ce), List(nodes), Sum(counts));
      ListLacks([DataIdNode(1), KeyNode(ce), List(nodes)], [0, 0, Sum(counts)]);
    }
  }

  lemma SumThree(count: nat)
    ensures Sum([0, 0, count]) == count
  {
    assert [0, 0, count][..2] == [0, 0] && [0, 0][..1] == [0] && [0][..0] == [];
  }

  lemma AllThree(a: Item, b: Item, c: Item, count: nat)
    requires Lacks(a, 0) && Lacks(b, 0) && Lacks(c, count)
    ensures AllLack([a, b, c], [0, 0, count])
  {
    hide Lacks;
  }

  /**
   * What becomes of an event. With no linked report defined, there is no message. Otherwise, with every value read, the
   * message is complete and reads as the defined reports in order, with their values in order; with one value missing
   * it has no bytes; with more, building it panics.
   */
  lemma EventFate(t: Tables, v: Values, ce: Key)
    requires ce in t.events && IsBuildable(ce) && ce in t.links && t.links[ce].enabled
    requires var keys := t.links[ce].reports; 0 < |keys| <= MAX_BYTE_SIZE && ReportsReady(t, v, keys)
    ensures var keys, r := t.links[ce].reports, BuildEvent(t, v, ce);
      var missing := MissingInAll(t, v, keys);
      if missing > 1 then r == Crashed
      else if forall i | 0 <= i < |keys| :: keys[i] !in t.reports then r == Ok(None)
      else
        && r.Ok? && r.value.Some? && Rep(r.value.value)
        && (Encode(r.value.value) != [] <==> missing == 0) && (missing == 0 ==> Complete(r.value.value))
        && ReadEvent(r.value.value) == Some(EventReport(1, ce, Reported(t, v, keys)))
  {
    hide Rep, Encode, Complete, Lacks, ReportsReady, ReportNodes, EventBody, IsBuildable, KeyNode, DataIdNode,
      MissingInAll, Sum, ReadReports, Reported, IdOfNode, ReadDataId, AllLack;
    var keys := t.links[ce].reports;
    ReportsLack(t, v, keys);
    ReportsRead(t, v, keys);
    ReportedInOrder(t, v, keys);
    if ReportNodes(t, v, keys).Ok? {
      var nodes := ReportNodes(t, v, keys).value;
      NodeCount(t, v, keys);
      BodyLacks(ce, nodes, PerReport(t, v, keys));
      if nodes == [] {
        NothingLacks(nodes, PerReport(t, v, keys));
      } else if MissingInAll(t, v, keys) <= 1 {
        EncodedUnlessLacking(List([DataIdNode(1), KeyNode(ce), List(nodes)]), MissingInAll(t, v, keys));
        KeyNodeComplete(ce);
        DataIdComplete();
      }
    }
  }

  lemma NothingLacks(nodes: seq<Item>, counts: seq<nat>)
    requires nodes == [] && AllLack(nodes, counts)
    ensures Sum(counts) == 0
  {
  }

  lemma {:induction false} NodeCount(t: Tables, v: Values, keys: seq<Key>)
    requires ReportNodes(t, v, keys).Ok?
    ensures |ReportNodes(t, v, keys).value| == |Reported(t, v, keys)|
  {
    hide ReportNode;
    if keys != [] {
      NodeCount(t, v, keys[..|keys| - 1]);
    }
  }

  lemma EncodedUnlessLacking(item: Item, count: nat)
    requires Lacks(item, count)
    ensures Rep(item) && (Encode(item) != [] <==> count == 0) && (count == 0 ==> Complete(item))
  {
    hide Encode;
    EncodedIffComplete(item);
    NoBlanks();
    if count > 0 {
      assert Blanks(count)[0] == Var("", []);
    }
  }

  // Over all runs

  /** Every report and every event has an item that stands for it. */
  predicate Itemized(t: Tables) {
    (forall r | r in t.reports :: IsBuildable(r)) && forall ce | ce in t.events :: IsBuildable(ce)
  }

  lemma {:induction false} DefinitionsItemized(t: Tables, batch: seq<Definition>)
    requires Itemized(t)
    ensures Itemized(ApplyDefinitions(t, batch).tables)
  {
    hide IsBuildable, Unlinked;
    if batch != [] {
      DefinitionsItemized(t, batch[..|batch| - 1]);
    }
  }

  lemma {:induction false} EnableEventsFrame(t: Tables, enable: bool, ceids: seq<Key>)
    ensures var u := EnableEvents(t, enable, ceids); u.reports == t.reports && u.events == t.events
    decreases |ceids|
  {
    if ceids != [] && ceids[0] in t.links {
      EnableEventsFrame(t.(links := t.links[ceids[0] := t.links[ceids[0]].(enabled := enable)]), enable, ceids[1..]);
    }
  }

  lemma PerformItemized(t: Tables, op: Operation)
    requires Itemized(t)
    ensures Itemized(Perform(t, op))
  {
    hide IsBuildable, ApplyDefinitions, Redefines, NamesUnknownVid, LinkRefusal, ApplyLinks, EnableEvents;
    match op
    case Define(batch) =>
      DefinitionsItemized(t, batch);
    case LinkUp(batch) =>
      LinksFrame(t, batch);
    case Enable(enable, ceids) =>
      EnableEventsFrame(t, enable, ceids);
    case RegisterVariable(id) =>
    case RegisterEvent(id) =>
  }

  lemma {:induction false} AlwaysItemized(ops: seq<Operation>)
    ensures Itemized(Run(ops))
  {
    hide Perform, IsBuildable;
    if ops != [] {
      AlwaysItemized(ops[..|ops| - 1]);
      PerformItemized(Run(ops[..|ops| - 1]), ops[|ops| - 1]);
    }
  }

  /** Linked events are registered, and so is every variable of every report. */
  predicate Registered(t: Tables) {
    && (forall ce | ce in t.links :: ce in t.events)
    && forall r | r in t.reports :: AllKnown(t, t.reports[r])
  }

  predicate AllKnown(t: Tables, vids: seq<Key>) {
    forall i | 0 <= i < |vids| :: vids[i] in t.variables
  }

  lemma {:induction false} DefinitionsRegistered(t: Tables, batch: seq<Definition>)
    requires Registered(t) && !NamesUnknownVid(t, batch)
    ensures var u := ApplyDefinitions(t, batch).tables;
      Registered(u) && u.events == t.events && u.variables == t.variables
  {
    hide IsBuildable, WithoutFirst;
    if batch != [] {
      KnownVids(t, batch);
      DefinitionsRegistered(t, batch[..|batch| - 1]);
      LastKnown(t, batch);
    }
  }

  lemma LastKnown(t: Tables, batch: seq<Definition>)
    requires batch != [] && !NamesUnknownVid(t, batch)
    ensures AllKnown(t, batch[|batch| - 1].vids)
  {
  }

  lemma {:induction false} LinksRegistered(t: Tables, batch: seq<LinkRequest>)
    requires Registered(t) && forall i | 0 <= i < |batch| :: batch[i].ceid in t.events
    ensures Registered(ApplyLinks(t, batch))
  {
    hide Registered, ApplyLink;
    if batch != [] {
      LinksRegistered(t, batch[..|batch| - 1]);
      LinksFrame(t, batch[..|batch| - 1]);
      LinkRegistered(ApplyLinks(t, batch[..|batch| - 1]), batch[|batch| - 1]);
    }
  }

  lemma LinkRegistered(t: Tables, request: LinkRequest)
    requires Registered(t) && request.ceid in t.events
    ensures Registered(ApplyLink(t, request))
  {
    var u := ApplyLink(t, request);
    forall r | r in u.reports ensures AllKnown(u, u.reports[r]) {
      assert AllKnown(t, t.reports[r]);
    }
  }

  lemma {:induction false} EnableRegistered(t: Tables, enable: bool, ceids: seq<Key>)
    requires Registered(t)
    ensures Registered(EnableEvents(t, enable, ceids))
    decreases |ceids|
  {
    hide AllKnown;
    if ceids != [] && ceids[0] in t.links {
      var u := t.(links := t.links[ceids[0] := t.links[ceids[0]].(enabled := enable)]);
      SameKnown(t, u);
      EnableRegistered(u, enable, ceids[1..]);
    }
  }

  lemma SameKnown(t: Tables, u: Tables)
    requires Registered(t) && u.reports == t.reports && u.links.Keys == t.links.Keys
    requires t.events <= u.events && t.variables <= u.variables
    ensures Registered(u)
  {
    forall r | r in u.reports ensures AllKnown(u, u.reports[r]) {
      assert AllKnown(t, t.reports[r]);
    }
  }

  lemma PerformRegistered(t: Tables, op: Operation)
    requires Registered(t)
    ensures Registered(Perform(t, op))
  {
    hide ApplyDefinitions, Redefines, NamesUnknownVid, LinkRefusal, ApplyLinks, EnableEvents, IsBuildable, Registered;
    match op
    case Define(batch) =>
      NothingRegistered(t);
      if !NamesUnknownVid(t, batch) {
        DefinitionsRegistered(t, batch);
      }
    case LinkUp(batch) =>
      RefusedIff(t, batch);
      if LinkRefusal(t, batch).None? {
        assert forall i | 0 <= i < |batch| :: Linkable(t, batch[i]);
        LinksRegistered(t, batch);
      }
    case Enable(enable, ceids) =>
      EnableRegistered(t, enable, ceids);
      SameKnown(t, EnableAll(t, enable));
    case RegisterVariable(id) =>
      SameKnown(t, t.(variables := t.variables + {id}));
    case RegisterEvent(id) =>
      SameKnown(t, t.(events := t.events + {id}));
  }

  lemma NothingRegistered(t: Tables)
    ensures Registered(t.(reports := map[], links := map[]))
  {
  }

  /** Over every run, repeated pairs and panics included. */
  lemma {:induction false} AlwaysRegistered(ops: seq<Operation>)
    ensures Registered(Run(ops))
  {
    hide Perform, AllKnown;
    if ops != [] {
      AlwaysRegistered(ops[..|ops| - 1]);
      PerformRegistered(Run(ops[..|ops| - 1]), ops[|ops| - 1]);
    }
  }

  /** Every registered variable can be read. */
  predicate AllRead(t: Tables, v: Values) {
    forall vid | vid in t.variables :: Complete(Resolve(v, vid))
  }

  /** No list of the event is longer than an item can be. */
  predicate EventFits(t: Tables, ce: Key)
    requires ce in t.links
  {
    |t.links[ce].reports| <= MAX_BYTE_SIZE && forall r | r in t.reports :: |t.reports[r]| <= MAX_BYTE_SIZE
  }

  /**
   * After every run of requests and registrations, an enabled event whose variables can be read causes a message that
   * holds every linked report that is defined, in order, with the value of every variable, in order. It causes none at
   * all when no linked report is defined, and leaves none out exactly when all are.
   */
  lemma EventReported(ops: seq<Operation>, v: Values, ce: Key)
    requires var t := Run(ops); ce in t.links && t.links[ce].enabled && AllRead(t, v) && EventFits(t, ce)
    ensures var t, r := Run(ops), BuildEvent(Run(ops), v, ce);
      var keys := t.links[ce].reports;
      if forall i | 0 <= i < |keys| :: keys[i] !in t.reports then r == Ok(None)
      else
        && r.Ok? && r.value.Some? && Complete(r.value.value)
        && ReadEvent(r.value.value) == Some(EventReport(1, ce, Reported(t, v, keys)))
    ensures var t := Run(ops);
      var keys := t.links[ce].reports;
      |Reported(t, v, keys)| == |keys| <==> forall i | 0 <= i < |keys| :: keys[i] in t.reports
  {
    hide Rep, Encode, Complete, Run, ReportReady, BuildEvent, ReadEvent, Reported, IsBuildable, MissingInAll, Collect,
      AllKnown, Defined;
    var t := Run(ops);
    AlwaysNoneEmpty(ops);
    AlwaysRegistered(ops);
    AlwaysItemized(ops);
    var keys := t.links[ce].reports;
    forall i | 0 <= i < |keys| && keys[i] in t.reports
      ensures ReportReady(t, v, keys[i]) && Missing(v, t.reports[keys[i]]) == 0
    {
      ReadReady(t, v, keys[i]);
    }
    NothingMissing(t, v, keys);
    EventFate(t, v, ce);
    ReportedInOrder(t, v, keys);
  }

  lemma ReadReady(t: Tables, v: Values, key: Key)
    requires key in t.reports && IsBuildable(key) && |t.reports[key]| <= MAX_BYTE_SIZE
    requires AllKnown(t, t.reports[key]) && AllRead(t, v)
    ensures ReportReady(t, v, key) && Missing(v, t.reports[key]) == 0
  {
    hide Complete, Missing, Resolve, IsBuildable;
    var vids := t.reports[key];
    forall i | 0 <= i < |vids| ensures Complete(Resolve(v, vids[i])) && !Resolve(v, vids[i]).Empty? {
      EmptyIncomplete();
    }
    NoneMissing(v, vids);
  }

  lemma EmptyIncomplete()
    ensures !Complete(Empty)
  {
  }

  lemma {:induction false} NoneMissing(v: Values, vids: seq<Key>)
    requires forall i | 0 <= i < |vids| :: !Resolve(v, vids[i]).Empty?
    ensures Missing(v, vids) == 0
  {
    hide Resolve;
    if vids != [] {
      NoneMissing(v, vids[..|vids| - 1]);
    }
  }

  lemma {:induction false} NothingMissing(t: Tables, v: Values, keys: seq<Key>)
    requires forall i | 0 <= i < |keys| :: keys[i] in t.reports ==> Missing(v, t.reports[keys[i]]) == 0
    ensures MissingInAll(t, v, keys) == 0
  {
    hide Missing;
    if keys != [] {
      NothingMissing(t, v, keys[..|keys| - 1]);
    }
  }

  /**
   * Once sent, it is received exactly when its lengths are decodable, and the host reads just those reports and
   * values.
   */
  lemma EventArrives(ops: seq<Operation>, v: Values, ce: Key, m: Message, buf: seq<byte>, n: nat, widened: bool)
    requires var t := Run(ops); ce in t.links && t.links[ce].enabled && AllRead(t, v) && EventFits(t, ce)
    requires Sent(m, buf, n) && BuildEvent(Run(ops), v, ce) == Ok(Some(m.item))
    ensures var t, received := Run(ops), ParseMessage(buf, n, widened);
      && (received == Some(Canonical(m)) <==> Decodable(m.item, widened))
      && (Decodable(m.item, widened) ==>
            received.value.Data? &&
              ReadEvent(received.value.item) == Some(EventReport(1, ce, Reported(t, v, t.links[ce].reports))))
  {
    hide MessageOk, EncodeMessage, LengthFits, ParseMessage, Decodable, BuildEvent, ReadEvent, AllRead, EventFits,
      Run, Complete, Reported, Collect;
    EventReported(ops, v, ce);
    MessageBackIffDecodable(m, buf, n, widened);
  }

  // Events with undefined reports and with unreadable variables

  /** The runs below register a variable and an event, and define a report of that variable. */
  function Prepared(): seq<Operation> {
    [RegisterVariable(Num(1)), RegisterEvent(Num(2)), Define([Definition(Num(3), [Num(1)])])]
  }

  lemma OneMore(ops: seq<Operation>, op: Operation)
    ensures Run(ops + [op]) == Perform(Run(ops), op)
  {
    assert (ops + [op])[..|ops|] == ops;
  }

  lemma PreparedTables()
    ensures Run(Prepared()) == Tables(map[Num(3) := [Num(1)]], map[], {Num(2)}, {Num(1)})
  {
    var variable, event := RegisterVariable(Num(1)), RegisterEvent(Num(2));
    var define := Define([Definition(Num(3), [Num(1)])]);
    assert Prepared() == ([] + [variable]) + [event] + [define];
    assert Run([]) == Tables(map[], map[], {}, {});
    OneMore([], variable);
    assert Run([] + [variable]) == Tables(map[], map[], {}, {Num(1)});
    OneMore([] + [variable], event);
    assert Run(([] + [variable]) + [event]) == Tables(map[], map[], {Num(2)}, {Num(1)});
    OneMore(([] + [variable]) + [event], define);
    DefineOne(Tables(map[], map[], {Num(2)}, {Num(1)}), Definition(Num(3), [Num(1)]));
    assert map[][Num(3) := [Num(1)]] == map[Num(3) := [Num(1)]];
  }

  lemma DefineOne(t: Tables, d: Definition)
    requires d.vids != [] && d.id !in t.reports && IsBuildable(d.id) && forall j | 0 <= j < |d.vids| ::
      d.vids[j] in t.variables
    ensures DefineReports(t, [d]) == Result(t.(reports := t.reports[d.id := d.vids]), Done(ACCEPT))
  {
    assert [d][..0] == [];
    assert !Redefines(t, [d]) && !NamesUnknownVid(t, [d]);
    assert ApplyDefinitions(t, [d][..0]) == Result(t, Done(ACCEPT));
  }

  /** Linked twice by one request and deleted once, the report stays linked, and its event causes no message. */
  lemma DanglingEventSilent(v: Values)
    ensures var ops := Prepared() + [LinkUp([LinkRequest(Num(2), [Num(3), Num(3)])])] +
      [Define([Definition(Num(3), [])])];
      var t := Run(ops);
      && Num(2) in t.links && t.links[Num(2)] == Link([Num(3)], true) && Num(3) !in t.reports
      && BuildEvent(t, v, Num(2)) == Ok(None)
  {
    var linked := Prepared() + [LinkUp([LinkRequest(Num(2), [Num(3), Num(3)])])];
    PreparedTables();
    OneMore(Prepared(), LinkUp([LinkRequest(Num(2), [Num(3), Num(3)])]));
    OneMore(linked, Define([Definition(Num(3), [])]));
    DanglingReport();
    var t := Run(linked + [Define([Definition(Num(3), [])])]);
    NoNodes(t, v);
  }

  lemma NoNodes(t: Tables, v: Values)
    requires Num(3) !in t.reports
    ensures ReportNodes(t, v, [Num(3)]) == Ok([])
  {
    assert [Num(3)][..0] == [];
    assert ReportNodes(t, v, []) == Ok([]);
  }

  /** An event with one report of two variables. */
  const TWO_VARIABLES := Tables(map[Num(3) := [Num(1), Num(4)]], map[Num(2) := Link([Num(3)], true)], {Num(2)},
    {Num(1), Num(4)})

  /** With one of them unreadable, the event makes a message without bytes; with both, making it panics. */
  lemma UnreadableVariables()
    ensures var one, both :=
      Values(map[Num(1) := None, Num(4) := Some(Ascii([]))], map[]), Values(map[Num(1) := None, Num(4) := None], map[]);
      && BuildEvent(TWO_VARIABLES, both, Num(2)) == Crashed
      && BuildEvent(TWO_VARIABLES, one, Num(2)).Ok?
      && var body := BuildEvent(TWO_VARIABLES, one, Num(2)).value; body.Some? && Encode(body.value) == []
  {
    hide Encode, BuildEvent, Complete, ReadEvent;
    var one := Values(map[Num(1) := None, Num(4) := Some(Ascii([]))], map[]);
    var both := Values(map[Num(1) := None, Num(4) := None], map[]);
    EmptyTextComplete();
    CountedMissing(one);
    CountedMissing(both);
    EventFate(TWO_VARIABLES, one, Num(2));
    EventFate(TWO_VARIABLES, both, Num(2));
  }

  lemma EmptyTextComplete()
    ensures Complete(Ascii([]))
  {
  }

  lemma CountedMissing(v: Values)
    ensures MissingInAll(TWO_VARIABLES, v, [Num(3)])
         == (if Resolve(v, Num(1)).Empty? then 1 else 0) + if Resolve(v, Num(4)).Empty? then 1 else 0
  {
    hide Resolve;
    var vids := [Num(1), Num(4)];
    assert vids[..1] == [Num(1)] && [Num(1)][..0] == [] && [Num(3)][..0] == [];
    assert Missing(v, []) == 0;
    assert Missing(v, [Num(1)]) == if Resolve(v, Num(1)).Empty? then 1 else 0;
    assert MissingInAll(TWO_VARIABLES, v, []) == 0;
  }
}
