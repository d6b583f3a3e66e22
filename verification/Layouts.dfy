/** How requests and event reports are laid out in items, said on the items themselves. */
module Layouts {
  import opened Wrappers
  import opened Names
  import opened Items
  import opened EventTables
  import opened EventMessages
  import opened EventReports

  // Identifiers

  /** A text, or an integer item whose first value is no less than zero; a variable there counts as zero. */
  predicate IsIdentifier(node: Item, key: Key) {
    match node
    case Ascii(text) => key == Str(text)
    case Numbers(kind, cells) =>
      && (kind.Signed? || kind.Unsigned?) && cells != []
      && (match cells[0] case Lit(v) => v >= 0 && key == Num(v) case Hole(_) => key == Num(0))
    case _ => false
  }

  /** A signed identifier is kept as an unsigned one of 1, 4 or 8 bytes. */
  lemma IdentifierIff(node: Item, info: IdInfo)
    ensures IdOfNode(node) == Some(info) <==>
      && IsIdentifier(node, info.key)
      && if node.Numbers? && node.kind.Signed? then
           var n := info.key.n;
           info.node == Numbers(Unsigned(if n <= 0xFF then 1 else if n <= 0xFFFF_FFFF then 4 else 8), [Lit(n)])
         else info.node == node
  {
  }

  lemma KeyIff(node: Item, key: Key)
    ensures IsIdentifier(node, key) <==> IdOfNode(node).Some? && IdOfNode(node).value.key == key
  {
  }

  // Requests, as they are read

  predicate AreIdentifiers(nodes: seq<Item>, keys: seq<Key>) {
    |nodes| == |keys| && forall i | 0 <= i < |nodes| :: IsIdentifier(nodes[i], keys[i])
  }

  /** A list of an identifier and a list of identifiers; what follows them does not matter. */
  predicate IsEntry(node: Item, entry: Entry) {
    && node.List? && |node.items| >= 2 && node.items[1].List?
    && IsIdentifier(node.items[0], entry.id) && AreIdentifiers(node.items[1].items, entry.members)
  }

  predicate AreEntries(nodes: seq<Item>, entries: seq<Entry>) {
    |nodes| == |entries| && forall i | 0 <= i < |nodes| :: IsEntry(nodes[i], entries[i])
  }

  /** Either layout: the entries themselves, or anything that is no list and then a list of them. */
  predicate IsBody(root: Item, entries: seq<Entry>) {
    && root.List?
    && if root.items == [] || root.items[0].List? then AreEntries(root.items, entries)
       else |root.items| >= 2 && root.items[1].List? && AreEntries(root.items[1].items, entries)
  }

  lemma {:induction false} KeysReadIff(nodes: seq<Item>, keys: seq<Key>)
    ensures ReadKeys(nodes) == Some(keys) <==> AreIdentifiers(nodes, keys)
  {
    hide IdOfNode, IsIdentifier;
    if nodes != [] && keys != [] {
      var n := |keys| - 1;
      KeysReadIff(Front(nodes), keys[..n]);
      KeyIff(Last(nodes), keys[n]);
      assert keys == keys[..n] + [keys[n]];
      if ReadKeys(nodes) == Some(keys) {
        assert keys[..n] == ReadKeys(Front(nodes)).value;
      }
    }
  }

  lemma EntryReadIff(node: Item, entry: Entry)
    ensures ReadEntry(node) == Some(entry) <==> IsEntry(node, entry)
  {
    hide IdOfNode, IsIdentifier, ReadKeys, AreIdentifiers;
    if node.List? && |node.items| >= 2 && node.items[1].List? {
      KeyIff(node.items[0], entry.id);
      KeysReadIff(node.items[1].items, entry.members);
    }
  }

  lemma {:induction false} EntriesReadIff(nodes: seq<Item>, entries: seq<Entry>)
    ensures ReadEntries(nodes) == Some(entries) <==> AreEntries(nodes, entries)
  {
    hide ReadEntry, IsEntry;
    if nodes != [] && entries != [] {
      var n := |entries| - 1;
      EntriesReadIff(Front(nodes), entries[..n]);
      EntryReadIff(Last(nodes), entries[n]);
      assert entries == entries[..n] + [entries[n]];
      if ReadEntries(nodes) == Some(entries) {
        assert entries[..n] == ReadEntries(Front(nodes)).value;
      }
    }
  }

  /** A request is read as just the entries it lays out. */
  lemma RequestReadIff(root: Item, entries: seq<Entry>)
    ensures ReadBody(root) == Some(entries) <==> IsBody(root, entries)
  {
    hide ReadEntries, AreEntries;
    if root.List? {
      EntriesReadIff(root.items, entries);
      if |root.items| >= 2 && root.items[1].List? {
        EntriesReadIff(root.items[1].items, entries);
      }
    }
  }

  /** A request is carried out as the batch of its entries. */
  lemma RequestHandled(t: Tables, root: Item, entries: seq<Entry>, definitions: seq<Definition>,
                       links: seq<LinkRequest>)
    requires IsBody(root, entries) && |definitions| == |links| == |entries|
    requires forall i | 0 <= i < |entries| :: definitions[i] == Definition(entries[i].id, entries[i].members)
    requires forall i | 0 <= i < |entries| :: links[i] == LinkRequest(entries[i].id, entries[i].members)
    ensures OnDefineReport(t, root) == DefineReports(t, definitions)
    ensures OnLinkEventReport(t, root) == LinkEvents(t, links)
  {
    hide IsBody, ReadBody, DefineReports, LinkEvents;
    RequestReadIff(root, entries);
    assert Definitions(entries) == definitions && LinkRequests(entries) == links;
  }

  /** An item that lays out no request is refused with code 2, and changes nothing. */
  lemma MalformedRefused(t: Tables, root: Item)
    requires forall entries :: !IsBody(root, entries)
    ensures OnDefineReport(t, root) == OnLinkEventReport(t, root) == Result(t, Done(2))
  {
    hide IsBody, ReadBody, DefineReports, LinkEvents;
    if ReadBody(root).Some? {
      RequestReadIff(root, ReadBody(root).value);
    }
  }

  // Requests, as they are built

  /** The item of an identifier that has one. */
  predicate IsIdItem(node: Item, id: RawId) {
    match id
    case Int(v) => v >= 0 && node == Numbers(Unsigned(4), [Lit(v)])
    case Text(text) => node == Ascii(text)
    case Other => false
  }

  predicate AreIdItems(nodes: seq<Item>, ids: seq<RawId>) {
    |nodes| == |ids| && forall i | 0 <= i < |ids| :: IsIdItem(nodes[i], ids[i])
  }

  predicate IsBuiltEntry(node: Item, request: Request) {
    && node.List? && |node.items| == 2 && node.items[1].List?
    && IsIdItem(node.items[0], request.id) && AreIdItems(node.items[1].items, request.members)
  }

  predicate AreBuiltEntries(nodes: seq<Item>, requests: seq<Request>) {
    |nodes| == |requests| && forall i | 0 <= i < |requests| :: IsBuiltEntry(nodes[i], requests[i])
  }

  /** A data id of 0 in one byte, and the list of entries. */
  predicate IsBuiltBody(body: Item, requests: seq<Request>) {
    && body.List? && |body.items| == 2 && body.items[0] == Numbers(Unsigned(1), [Lit(0)])
    && body.items[1].List? && AreBuiltEntries(body.items[1].items, requests)
  }

  lemma IdBuiltIff(id: RawId, node: Item)
    ensures NewIdInfo(id).Ok? && NewIdInfo(id).value.node == node <==> IsIdItem(node, id) && Rep(node)
  {
    hide Rep;
  }

  predicate AllRep(nodes: seq<Item>) {
    forall i | 0 <= i < |nodes| :: Rep(nodes[i])
  }

  lemma {:induction false} IdsBuiltIff(ids: seq<RawId>, nodes: seq<Item>)
    ensures IdNodes(ids) == Ok(nodes) <==> AreIdItems(nodes, ids) && AllRep(nodes)
    decreases |ids|
  {
    hide NewIdInfo, IsIdItem, Rep;
    if ids != [] && nodes != [] {
      var n := |ids| - 1;
      IdsBuiltIff(ids[..n], Front(nodes));
      IdBuiltIff(ids[n], Last(nodes));
      assert nodes == Front(nodes) + [Last(nodes)];
      if IdNodes(ids) == Ok(nodes) {
        assert Front(nodes) == IdNodes(ids[..n]).value;
      }
    }
  }

  lemma EntryBuiltIff(request: Request, node: Item)
    ensures EntryNode(request) == Ok(node) <==> IsBuiltEntry(node, request) && Rep(node)
  {
    hide NewIdInfo, IsIdItem, IdNodes, AreIdItems, ListOk, Complete;
    EntryBack(request);
    if node.List? && |node.items| == 2 && node.items[1].List? {
      var id, members := node.items[0], node.items[1].items;
      assert node.items == [id, List(members)];
      IdBuiltIff(request.id, id);
      IdsBuiltIff(request.members, members);
      CompleteRep(node);
    }
    if EntryNode(request).Ok? {
      IdBuiltIff(request.id, NewIdInfo(request.id).value.node);
      IdsBuiltIff(request.members, IdNodes(request.members).value);
      CompleteRep(EntryNode(request).value);
    }
  }

  lemma CompleteRep(item: Item)
    ensures Complete(item) ==> Rep(item)
    ensures Rep(item) && item.List? ==> ListOk(item.items) && AllRep(item.items)
  {
  }

  lemma {:induction false} EntriesBuiltIff(requests: seq<Request>, nodes: seq<Item>)
    ensures EntryNodes(requests) == Ok(nodes) <==> AreBuiltEntries(nodes, requests) && AllRep(nodes)
    decreases |requests|
  {
    hide EntryNode, IsBuiltEntry, Rep;
    if requests != [] && nodes != [] {
      var n := |requests| - 1;
      EntriesBuiltIff(requests[..n], Front(nodes));
      EntryBuiltIff(requests[n], Last(nodes));
      assert nodes == Front(nodes) + [Last(nodes)];
      if EntryNodes(requests) == Ok(nodes) {
        assert Front(nodes) == EntryNodes(requests[..n]).value;
      }
    }
  }

  /** What is built is just the body that lays the request out, provided it passes its factories. */
  lemma RequestBuiltIff(requests: seq<Request>, body: Item)
    ensures BuildBody(requests) == Ok(body) <==> IsBuiltBody(body, requests) && Rep(body)
  {
    hide EntryNodes, AreBuiltEntries, ListOk, Complete;
    BuiltBodyReadsBack(requests);
    if body.List? && |body.items| == 2 && body.items[1].List? {
      assert body.items == [body.items[0], List(body.items[1].items)];
      EntriesBuiltIff(requests, body.items[1].items);
      CompleteRep(body);
    }
    if BuildBody(requests).Ok? {
      EntriesBuiltIff(requests, EntryNodes(requests).value);
      CompleteRep(BuildBody(requests).value);
    }
  }

  /** An identifier of no use is refused as long as it is not one; one that no item can hold makes a factory panic. */
  predicate FailsLike(r: Attempt<Item>, id: RawId) {
    match id
    case Int(v) => if v < 0 then r == Refused else v > 0xFFFF_FFFF && r == Crashed
    case Text(text) => (|text| > 0xFF_FFFF || exists c | c in text :: c > 0x7F) && r == Crashed
    case Other => r == Refused
  }

  lemma IdFails(id: RawId)
    requires !Acceptable(id)
    ensures NewIdInfo(id).IsFailure() && FailsLike(NewIdInfo(id).PropagateFailure(), id)
  {
  }

  lemma {:induction false} IdsFail(ids: seq<RawId>, j: nat)
    requires j < |ids| && IdsAcceptable(ids[..j]) && !Acceptable(ids[j])
    ensures IdNodes(ids).IsFailure() && FailsLike(IdNodes(ids).PropagateFailure(), ids[j])
  {
    hide NewIdInfo, Acceptable, FailsLike, Complete;
    IdsBack(ids[..j]);
    IdFails(ids[j]);
    FirstFailure(ids, j);
  }

  /** The first identifier that is not acceptable decides how building fails: an entry's own, then its members. */
  lemma FirstToFail(requests: seq<Request>, i: nat, j: nat)
    requires i < |requests| && forall k | 0 <= k < i :: RequestAcceptable(requests[k])
    ensures !Acceptable(requests[i].id) ==> FailsLike(BuildBody(requests), requests[i].id)
    ensures var ids := requests[i].members;
      Acceptable(requests[i].id) && j < |ids| && IdsAcceptable(ids[..j]) && !Acceptable(ids[j]) ==>
        FailsLike(BuildBody(requests), ids[j])
    ensures var ids := requests[i].members;
      Acceptable(requests[i].id) && IdsAcceptable(ids) && |ids| > 0xFF_FFFF ==> BuildBody(requests) == Crashed
  {
    hide NewIdInfo, Acceptable, FailsLike, Complete, IdNodes, ListOk;
    var request := requests[i];
    IdSurvives(request.id);
    EntriesBack(requests[..i]);
    if !Acceptable(request.id) {
      IdFails(request.id);
      FirstEntryFailure(requests, i);
    } else if j < |request.members| && IdsAcceptable(request.members[..j]) && !Acceptable(request.members[j]) {
      IdsFail(request.members, j);
      FirstEntryFailure(requests, i);
    } else if IdsAcceptable(request.members) && |request.members| > 0xFF_FFFF {
      IdsBack(request.members);
      CompleteList(IdNodes(request.members).value);
      FirstEntryFailure(requests, i);
    }
  }

  // Event reports, as they are read

  /** An identifier and a list of values; what follows them does not matter. */
  predicate IsReport(node: Item, report: ReportValue) {
    && node.List? && |node.items| >= 2
    && IsIdentifier(node.items[0], report.rptid) && node.items[1] == List(report.values)
  }

  /** The first value of an item of integers or bytes, in 64 bits with a sign; 0 for any other item. */
  predicate IsDataId(node: Item, dataId: int) {
    if node.Numbers? && (node.kind.Binary? || node.kind.Signed? || node.kind.Unsigned?) && node.cells != [] then
      match node.cells[0]
      case Hole(_) => dataId == 0
      case Lit(v) => dataId == if v < 0x8000_0000_0000_0000 then v else v - 0x1_0000_0000_0000_0000
    else dataId == 0
  }

  predicate AreReports(nodes: seq<Item>, reports: seq<ReportValue>) {
    |nodes| == |reports| && forall i | 0 <= i < |nodes| :: IsReport(nodes[i], reports[i])
  }

  predicate IsEventReport(root: Item, event: EventReport) {
    && root.List? && |root.items| >= 3 && root.items[2].List?
    && IsDataId(root.items[0], event.dataId) && IsIdentifier(root.items[1], event.ceid)
    && AreReports(root.items[2].items, event.reports)
  }

  lemma ReportReadIff(node: Item, report: ReportValue)
    ensures ReadReport(node) == Some(report) <==> IsReport(node, report)
  {
    hide IdOfNode, IsIdentifier;
    if node.List? && |node.items| >= 2 {
      KeyIff(node.items[0], report.rptid);
    }
  }

  lemma {:induction false} ReportsReadIff(nodes: seq<Item>, reports: seq<ReportValue>)
    ensures ReadReports(nodes) == Some(reports) <==> AreReports(nodes, reports)
  {
    hide ReadReport, IsReport;
    if nodes != [] && reports != [] {
      var n := |reports| - 1;
      ReportsReadIff(Front(nodes), reports[..n]);
      ReportReadIff(Last(nodes), reports[n]);
      assert reports == reports[..n] + [reports[n]];
      if ReadReports(nodes) == Some(reports) {
        assert reports[..n] == ReadReports(Front(nodes)).value;
      }
    }
  }

  lemma DataIdIff(node: Item, dataId: int)
    ensures IsDataId(node, dataId) <==> ReadDataId(node) == dataId
  {
  }

  /** A message is read as just the event, the reports and the values it lays out. */
  lemma EventReadIff(root: Item, event: EventReport)
    ensures ReadEvent(root) == Some(event) <==> IsEventReport(root, event)
  {
    hide ReadReports, AreReports, IdOfNode, IsIdentifier, ReadDataId, IsDataId;
    if root.List? && |root.items| >= 3 && root.items[2].List? {
      DataIdIff(root.items[0], event.dataId);
      KeyIff(root.items[1], event.ceid);
      ReportsReadIff(root.items[2].items, event.reports);
    }
  }

  // Event reports, as they are built

  /** The item of an identifier that is registered or defined. */
  predicate IsKeyItem(node: Item, key: Key) {
    match key
    case Num(n) => node == Numbers(Unsigned(4), [Lit(n)])
    case Str(text) => node == Ascii(text)
  }

  /** What a variable reads as: a status variable before a data variable of that name, an empty item without a value. */
  predicate IsReading(v: Values, vid: Key, item: Item) {
    if vid in v.status then v.status[vid] == Some(item) || (v.status[vid] == None && item == Empty)
    else if vid in v.data then v.data[vid] == Some(item) || (v.data[vid] == None && item == Empty)
    else item == Empty
  }

  predicate AreReadings(v: Values, vids: seq<Key>, items: seq<Item>) {
    |items| == |vids| && forall i | 0 <= i < |vids| :: IsReading(v, vids[i], items[i])
  }

  predicate IsReportOf(t: Tables, v: Values, key: Key, node: Item) {
    && key in t.reports
    && node.List? && |node.items| == 2 && node.items[1].List?
    && IsKeyItem(node.items[0], key) && AreReadings(v, t.reports[key], node.items[1].items)
  }

  /** The positions of the defined reports among `keys`, in order. */
  predicate AreDefined(t: Tables, keys: seq<Key>, at: seq<nat>) {
    && (forall j | 0 <= j < |at| :: at[j] < |keys| && keys[at[j]] in t.reports)
    && (forall j, k | 0 <= j < k < |at| :: at[j] < at[k])
    && (forall i | 0 <= i < |keys| && keys[i] in t.reports :: i in at)
  }

  predicate AreReportsOf(t: Tables, v: Values, keys: seq<Key>, at: seq<nat>, nodes: seq<Item>) {
    && |nodes| == |at|
    && forall j | 0 <= j < |at| :: at[j] < |keys| && IsReportOf(t, v, keys[at[j]], nodes[j])
  }

  /** A data id of 1 in one byte, the event, and the list of its defined reports in order. */
  predicate IsEventOf(t: Tables, v: Values, ce: Key, at: seq<nat>, body: Item)
    requires ce in t.links
  {
    && body.List? && |body.items| == 3 && body.items[0] == Numbers(Unsigned(1), [Lit(1)])
    && IsKeyItem(body.items[1], ce) && body.items[2].List?
    && AreDefined(t, t.links[ce].reports, at)
    && AreReportsOf(t, v, t.links[ce].reports, at, body.items[2].items)
  }

  lemma ValuesRead(v: Values, vids: seq<Key>)
    ensures AreReadings(v, vids, Collect(v, vids))
  {
  }

  lemma ReportBuilt(t: Tables, v: Values, key: Key)
    requires key in t.reports
    ensures var r := ReportNode(v, key, t.reports[key]); r.Ok? ==> IsReportOf(t, v, key, r.value)
  {
    hide Collect, AreReadings, ListOk;
    ValuesRead(v, t.reports[key]);
  }

  lemma {:induction false} ReportsBuilt(t: Tables, v: Values, keys: seq<Key>) returns (at: seq<nat>)
    ensures AreDefined(t, keys, at)
    ensures ReportNodes(t, v, keys).Ok? ==> AreReportsOf(t, v, keys, at, ReportNodes(t, v, keys).value)
    decreases |keys|
  {
    hide ReportNode, IsReportOf;
    at := [];
    if keys != [] {
      var n := |keys| - 1;
      at := ReportsBuilt(t, v, keys[..n]);
      if keys[n] in t.reports {
        ReportBuilt(t, v, keys[n]);
        at := at + [n];
      }
    }
  }

  /** The message an event causes lays out the event with its defined reports and the values of their variables. */
  lemma EventBuilt(t: Tables, v: Values, ce: Key) returns (at: seq<nat>)
    requires ce in t.links && BuildEvent(t, v, ce).Ok? && BuildEvent(t, v, ce).value.Some?
    ensures IsEventOf(t, v, ce, at, BuildEvent(t, v, ce).value.value) && at != []
  {
    hide ReportNodes, AreDefined, AreReportsOf, ListOk;
    at := ReportsBuilt(t, v, t.links[ce].reports);
    SameNumber(t, v, t.links[ce].reports, at, ReportNodes(t, v, t.links[ce].reports).value);
  }

  lemma SameNumber(t: Tables, v: Values, keys: seq<Key>, at: seq<nat>, nodes: seq<Item>)
    requires AreReportsOf(t, v, keys, at, nodes)
    ensures |nodes| == |at|
  {
  }

  lemma {:induction false} ReportsNotRefused(t: Tables, v: Values, keys: seq<Key>)
    ensures ReportNodes(t, v, keys) != Refused
    decreases |keys|
  {
    hide ListOk;
    if keys != [] {
      ReportsNotRefused(t, v, keys[..|keys| - 1]);
    }
  }

  /** Without an enabled link there is no message, and for an event that is not registered an error. */
  lemma WithoutLink(t: Tables, v: Values, ce: Key)
    ensures ce !in t.events <==> BuildEvent(t, v, ce) == Refused
    ensures ce in t.events && (ce !in t.links || !t.links[ce].enabled || t.links[ce].reports == []) ==>
      BuildEvent(t, v, ce) == Ok(None)
  {
    hide ReportNodes, ListOk;
    if ce in t.links {
      ReportsNotRefused(t, v, t.links[ce].reports);
    }
  }
}
