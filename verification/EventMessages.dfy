/** The requests that define reports and link events, as a host builds them and equipment reads them. */
module EventMessages {
  import opened Wrappers
  import opened Items
  import opened Encoding
  import opened RoundTrip
  import opened Messages
  import opened EventTables

  // Identifiers

  /** An identifier as the application names it: an integer, a string, or a value of another type. */
  datatype RawId = Int(value: int) | Text(text: seq<byte>) | Other

  /** `Refused` is an error that is returned, `Crashed` a panic of an item factory. */
  datatype Attempt<+T> = Ok(value: T) | Refused | Crashed {
    predicate IsFailure() {
      !Ok?
    }

    function PropagateFailure<U>(): Attempt<U>
      requires IsFailure()
    {
      if Refused? then Attempt.Refused else Attempt.Crashed
    }

    function Extract(): T
      requires Ok?
    {
      value
    }
  }

  datatype IdInfo = IdInfo(node: Item, key: Key)

  function NewNode(item: Item): Attempt<Item> {
    if Rep(item) then Ok(item) else Crashed
  }

  function NewList(items: seq<Item>): Attempt<Item> {
    var list := NewListNode(items);
    if list.Some? then Ok(list.value) else Crashed
  }

  function NewIdInfo(id: RawId): Attempt<IdInfo> {
    match id
    case Int(v) =>
      if v < 0 then Refused
      else
        var node :- NewNode(Numbers(Unsigned(4), [Lit(v)]));
        Ok(IdInfo(node, Num(v)))
    case Text(text) =>
      var node :- NewNode(Ascii(text));
      Ok(IdInfo(node, Str(text)))
    case Other => Refused
  }

  function ByteSize(v: nat): Width {
    if v <= 0xFF then 1 else if v <= 0xFFFF_FFFF then 4 else 8
  }

  /** The value a position of a number item reads as: zero while it is a variable. */
  function ReadValue(c: Cell): int {
    if c.Lit? then c.value else 0
  }

  /** None when the item is no identifier. */
  function IdOfNode(node: Item): Option<IdInfo> {
    match node
    case Ascii(text) => Some(IdInfo(node, Str(text)))
    case Numbers(Unsigned(_), cells) =>
      if cells == [] || ReadValue(cells[0]) < 0 then None else Some(IdInfo(node, Num(ReadValue(cells[0]))))
    case Numbers(Signed(_), cells) =>
      if cells == [] || ReadValue(cells[0]) < 0 then None
      else
        var v := ReadValue(cells[0]);
        Some(IdInfo(Numbers(Unsigned(ByteSize(v)), [Lit(v)]), Num(v)))
    case _ => None
  }

  /** The item an identifier is sent as. */
  function KeyNode(key: Key): Item {
    match key
    case Num(n) => Numbers(Unsigned(4), [Lit(n)])
    case Str(text) => Ascii(text)
  }

  /** The key of an identifier, wherever it has one. */
  function KeyOf(id: RawId): Option<Key> {
    match id
    case Int(v) => if v < 0 then None else Some(Num(v))
    case Text(text) => Some(Str(text))
    case Other => None
  }

  predicate Acceptable(id: RawId) {
    KeyOf(id).Some? && IsBuildable(KeyOf(id).value)
  }

  /** Items that are encoded. */
  predicate Complete(item: Item) {
    Rep(item) && ChildVariables(item) == []
  }

  lemma LiteralNames(v: int)
    ensures CellNames([Lit(v)]) == []
  {
  }

  lemma KeyNodeComplete(key: Key)
    ensures IsBuildable(key) <==> Rep(KeyNode(key))
    ensures IsBuildable(key) ==> Complete(KeyNode(key))
    ensures IdOfNode(KeyNode(key)) == Some(IdInfo(KeyNode(key), key))
  {
    if key.Num? {
      LiteralNames(key.n);
      assert [Lit(key.n)][0] == Lit(key.n);
    }
  }

  /** An identifier survives being sent: exactly the acceptable ones become items, which are read as the same key. */
  lemma IdSurvives(id: RawId)
    ensures NewIdInfo(id).Ok? <==> Acceptable(id)
    ensures var r := NewIdInfo(id);
      r.Ok? ==> Complete(r.value.node) && KeyOf(id) == Some(r.value.key) && IdOfNode(r.value.node) == Some(r.value)
    ensures var r := NewIdInfo(id); r.Ok? ==> r.value.node == KeyNode(r.value.key)
  {
    hide Rep, Complete, IdOfNode, IsBuildable;
    if KeyOf(id).Some? {
      KeyNodeComplete(KeyOf(id).value);
    }
  }

  // Lists of complete items

  lemma {:induction false} NoListVariables(items: seq<Item>)
    ensures ListVariables(items) == [] <==> forall i | 0 <= i < |items| :: ChildVariables(items[i]) == []
  {
    hide ChildVariables;
    if items != [] {
      NoListVariables(Front(items));
    }
  }

  lemma CompleteList(items: seq<Item>)
    ensures Complete(List(items)) <==> |items| <= MAX_BYTE_SIZE && forall i | 0 <= i < |items| :: Complete(items[i])
    ensures Complete(List(items)) ==> NewListNode(items) == Some(List(items))
    ensures (forall i | 0 <= i < |items| :: Complete(items[i])) && |items| > MAX_BYTE_SIZE ==>
      NewListNode(items) == None
  {
    hide ChildVariables, ListVariables;
    NoListVariables(items);
    ListCompleteness(items);
    if forall i | 0 <= i < |items| :: Complete(items[i]) {
      forall i | 0 <= i < |items| ensures !items[i].Slot? {
        SlotVariables(items[i]);
      }
    }
  }

  lemma ListCompleteness(items: seq<Item>)
    ensures ChildVariables(List(items)) == ListVariables(items)
  {
  }

  lemma SlotVariables(item: Item)
    ensures item.Slot? ==> ChildVariables(item) != []
  {
    if item.Slot? {
      assert Variables(item) == [item.name];
    }
  }

  lemma CompletePair(a: Item, b: Item)
    requires Complete(a) && Complete(b)
    ensures NewListNode([a, b]) == Some(List([a, b])) && Complete(List([a, b]))
  {
    hide Complete;
    CompleteList([a, b]);
  }

  // Building requests

  /** A definition names a report and its variables, a link an event and its reports. */
  datatype Request = Request(id: RawId, members: seq<RawId>)

  datatype Entry = Entry(id: Key, members: seq<Key>)

  function IdNodes(ids: seq<RawId>): Attempt<seq<Item>> {
    if ids == [] then Ok([])
    else
      var front :- IdNodes(ids[..|ids| - 1]);
      var last :- NewIdInfo(ids[|ids| - 1]);
      Ok(front + [last.node])
  }

  function EntryNode(request: Request): Attempt<Item> {
    var info :- NewIdInfo(request.id);
    var nodes :- IdNodes(request.members);
    var list :- NewList(nodes);
    NewList([info.node, list])
  }

  function EntryNodes(requests: seq<Request>): Attempt<seq<Item>> {
    if requests == [] then Ok([])
    else
      var front :- EntryNodes(requests[..|requests| - 1]);
      var last :- EntryNode(requests[|requests| - 1]);
      Ok(front + [last])
  }

  function BuildBody(requests: seq<Request>): Attempt<Item> {
    var nodes :- EntryNodes(requests);
    var list :- NewList(nodes);
    NewList([Numbers(Unsigned(1), [Lit(0)]), list])
  }

  method BuildIds(ids: seq<RawId>) returns (r: Attempt<seq<Item>>)
    ensures r == IdNodes(ids)
  {
    hide NewIdInfo;
    var nodes := [];
    for i := 0 to |ids|
      invariant IdNodes(ids[..i]) == Ok(nodes)
    {
      assert ids[..i + 1][..i] == ids[..i];
      var info := NewIdInfo(ids[i]);
      if info.IsFailure() {
        FirstFailure(ids, i);
        return info.PropagateFailure();
      }
      nodes := nodes + [info.value.node];
    }
    assert ids[..|ids|] == ids;
    return Ok(nodes);
  }

  lemma {:induction false} FirstFailure(ids: seq<RawId>, i: nat)
    requires i < |ids| && IdNodes(ids[..i]).Ok? && NewIdInfo(ids[i]).IsFailure()
    ensures IdNodes(ids) == NewIdInfo(ids[i]).PropagateFailure()
    decreases |ids|
  {
    hide NewIdInfo;
    var front := ids[..|ids| - 1];
    if i < |ids| - 1 {
      assert front[..i] == ids[..i];
      FirstFailure(front, i);
    }
  }

  method BuildRequest(requests: seq<Request>) returns (r: Attempt<Item>)
    ensures r == BuildBody(requests)
  {
    hide EntryNode, NewList;
    var reports := [];
    for i := 0 to |requests|
      invariant EntryNodes(requests[..i]) == Ok(reports)
    {
      assert requests[..i + 1][..i] == requests[..i];
      var entry := BuildEntry(requests[i]);
      if entry.IsFailure() {
        FirstEntryFailure(requests, i);
        return entry.PropagateFailure();
      }
      reports := reports + [entry.value];
    }
    assert requests[..|requests|] == requests;
    var list :- NewList(reports);
    r := NewList([Numbers(Unsigned(1), [Lit(0)]), list]);
  }

  method BuildEntry(request: Request) returns (r: Attempt<Item>)
    ensures r == EntryNode(request)
  {
    hide NewIdInfo, NewList, IdNodes;
    var info :- NewIdInfo(request.id);
    var nodes :- BuildIds(request.members);
    var list :- NewList(nodes);
    r := NewList([info.node, list]);
  }

  lemma {:induction false} FirstEntryFailure(requests: seq<Request>, i: nat)
    requires i < |requests| && EntryNodes(requests[..i]).Ok? && EntryNode(requests[i]).IsFailure()
    ensures EntryNodes(requests) == EntryNode(requests[i]).PropagateFailure()
    decreases |requests|
  {
    hide EntryNode;
    var front := requests[..|requests| - 1];
    if i < |requests| - 1 {
      assert front[..i] == requests[..i];
      FirstEntryFailure(front, i);
    }
  }

  // Reading requests

  function ReadKeys(nodes: seq<Item>): Option<seq<Key>> {
    if nodes == [] then Some([])
    else
      var front :- ReadKeys(Front(nodes));
      var last :- IdOfNode(Last(nodes));
      Some(front + [last.key])
  }

  function ReadEntry(node: Item): Option<Entry> {
    if !node.List? || |node.items| < 2 || !node.items[1].List? then None
    else
      var id :- IdOfNode(node.items[0]);
      var members :- ReadKeys(node.items[1].items);
      Some(Entry(id.key, members))
  }

  function ReadEntries(nodes: seq<Item>): Option<seq<Entry>> {
    if nodes == [] then Some([])
    else
      var front :- ReadEntries(Front(nodes));
      var last :- ReadEntry(Last(nodes));
      Some(front + [last])
  }

  /** Where the entries are: in the second item, or in the list itself when it starts with a list. */
  function EntriesOf(root: Item): Option<seq<Item>> {
    if !root.List? then None
    else if root.items == [] || root.items[0].List? then Some(root.items)
    else if |root.items| < 2 || !root.items[1].List? then None
    else Some(root.items[1].items)
  }

  function ReadBody(root: Item): Option<seq<Entry>> {
    var nodes :- EntriesOf(root);
    ReadEntries(nodes)
  }

  method ParseIds(nodes: seq<Item>) returns (r: Option<seq<Key>>)
    ensures r == ReadKeys(nodes)
  {
    hide IdOfNode;
    var keys := [];
    for i := 0 to |nodes|
      invariant ReadKeys(nodes[..i]) == Some(keys)
    {
      assert Front(nodes[..i + 1]) == nodes[..i];
      var info := IdOfNode(nodes[i]);
      if info.None? {
        Unreadable(nodes, i);
        return None;
      }
      keys := keys + [info.value.key];
    }
    assert nodes[..|nodes|] == nodes;
    return Some(keys);
  }

  lemma {:induction false} Unreadable(nodes: seq<Item>, i: nat)
    requires i < |nodes| && IdOfNode(nodes[i]).None?
    ensures ReadKeys(nodes).None?
  {
    hide IdOfNode;
    if i < |nodes| - 1 {
      Unreadable(Front(nodes), i);
    }
  }

  method ParseRequest(root: Item) returns (r: Option<seq<Entry>>)
    ensures r == ReadBody(root)
  {
    hide ReadEntry;
    if !root.List? {
      return None;
    }
    var nodes := root.items;
    if |root.items| != 0 && !root.items[0].List? {
      if |root.items| < 2 || !root.items[1].List? {
        return None;
      }
      nodes := root.items[1].items;
    }
    var result := [];
    for i := 0 to |nodes|
      invariant ReadEntries(nodes[..i]) == Some(result)
    {
      assert Front(nodes[..i + 1]) == nodes[..i];
      var entry := ParseEntry(nodes[i]);
      if entry.None? {
        UnreadableEntry(nodes, i);
        return None;
      }
      result := result + [entry.value];
    }
    assert nodes[..|nodes|] == nodes;
    return Some(result);
  }

  method ParseEntry(node: Item) returns (r: Option<Entry>)
    ensures r == ReadEntry(node)
  {
    hide IdOfNode, ReadKeys;
    if !node.List? || |node.items| < 2 {
      return None;
    }
    var id :- IdOfNode(node.items[0]);
    if !node.items[1].List? {
      return None;
    }
    var members :- ParseIds(node.items[1].items);
    r := Some(Entry(id.key, members));
  }

  lemma {:induction false} UnreadableEntry(nodes: seq<Item>, i: nat)
    requires i < |nodes| && ReadEntry(nodes[i]).None?
    ensures ReadEntries(nodes).None?
  {
    hide ReadEntry;
    if i < |nodes| - 1 {
      UnreadableEntry(Front(nodes), i);
    }
  }

  // What is built is read back

  predicate IdsAcceptable(ids: seq<RawId>) {
    forall i | 0 <= i < |ids| :: Acceptable(ids[i])
  }

  /** Every identifier fits and no list is too long. */
  predicate RequestsAcceptable(requests: seq<Request>) {
    && |requests| <= MAX_BYTE_SIZE
    && forall i | 0 <= i < |requests| :: RequestAcceptable(requests[i])
  }

  predicate RequestAcceptable(request: Request) {
    Acceptable(request.id) && IdsAcceptable(request.members) && |request.members| <= MAX_BYTE_SIZE
  }

  /** `entry` names just what `request` names, in the same order. */
  predicate SameNames(entry: Entry, request: Request) {
    && KeyOf(request.id) == Some(entry.id)
    && SameKeys(entry.members, request.members)
  }

  predicate SameKeys(keys: seq<Key>, ids: seq<RawId>) {
    |keys| == |ids| && forall i | 0 <= i < |ids| :: KeyOf(ids[i]) == Some(keys[i])
  }

  predicate SameEntries(entries: seq<Entry>, requests: seq<Request>) {
    |entries| == |requests| && forall i | 0 <= i < |requests| :: SameNames(entries[i], requests[i])
  }

  predicate AllComplete(items: seq<Item>) {
    forall i | 0 <= i < |items| :: Complete(items[i])
  }

  lemma {:induction false} IdsBack(ids: seq<RawId>)
    ensures IdNodes(ids).Ok? <==> IdsAcceptable(ids)
    ensures IdNodes(ids).Ok? ==>
      var nodes := IdNodes(ids).value;
      |nodes| == |ids| && AllComplete(nodes) && ReadKeys(nodes).Some? && SameKeys(ReadKeys(nodes).value, ids)
    decreases |ids|
  {
    hide NewIdInfo, IdOfNode, Complete, Acceptable, KeyOf;
    if ids != [] {
      var front, last := ids[..|ids| - 1], ids[|ids| - 1];
      assert ids == front + [last];
      IdsBack(front);
      IdSurvives(last);
      if IdNodes(ids).Ok? {
        assert Front(IdNodes(ids).value) == IdNodes(front).value;
      }
    }
  }

  lemma EntryBack(request: Request)
    ensures EntryNode(request).Ok? <==> RequestAcceptable(request)
    ensures EntryNode(request).Ok? ==>
      var node := EntryNode(request).value;
      Complete(node) && node.List? && ReadEntry(node).Some? && SameNames(ReadEntry(node).value, request)
  {
    hide NewIdInfo, IdOfNode, Complete, Acceptable, KeyOf, IdNodes, ReadKeys, NewListNode;
    IdSurvives(request.id);
    IdsBack(request.members);
    if IdNodes(request.members).Ok? && NewIdInfo(request.id).Ok? {
      var nodes := IdNodes(request.members).value;
      CompleteList(nodes);
      if |nodes| <= MAX_BYTE_SIZE {
        CompletePair(NewIdInfo(request.id).value.node, List(nodes));
      }
    }
  }

  lemma {:induction false} EntriesBack(requests: seq<Request>)
    ensures EntryNodes(requests).Ok? <==> forall i | 0 <= i < |requests| :: RequestAcceptable(requests[i])
    ensures EntryNodes(requests).Ok? ==>
      var nodes := EntryNodes(requests).value;
      && |nodes| == |requests| && AllComplete(nodes) && (forall i | 0 <= i < |nodes| :: nodes[i].List?)
      && ReadEntries(nodes).Some? && SameEntries(ReadEntries(nodes).value, requests)
    decreases |requests|
  {
    hide EntryNode, ReadEntry, Complete, RequestAcceptable, SameNames;
    if requests != [] {
      var front, last := requests[..|requests| - 1], requests[|requests| - 1];
      assert requests == front + [last];
      EntriesBack(front);
      EntryBack(last);
      if EntryNodes(requests).Ok? {
        assert Front(EntryNodes(requests).value) == EntryNodes(front).value;
      }
    }
  }

  lemma ZeroComplete()
    ensures Complete(Numbers(Unsigned(1), [Lit(0)]))
  {
    LiteralNames(0);
  }

  /**
   * A request is built exactly when its identifiers fit, and its body reads as the same identifiers in the same
   * order.
   */
  lemma BuiltBodyReadsBack(requests: seq<Request>)
    ensures BuildBody(requests).Ok? <==> RequestsAcceptable(requests)
    ensures BuildBody(requests).Ok? ==>
      var body := BuildBody(requests).value;
      Complete(body) && ReadBody(body).Some? && SameEntries(ReadBody(body).value, requests)
  {
    hide Complete, RequestAcceptable, SameEntries, ReadEntries, EntryNodes, NewListNode;
    EntriesBack(requests);
    if EntryNodes(requests).Ok? {
      var nodes := EntryNodes(requests).value;
      CompleteList(nodes);
      if |nodes| <= MAX_BYTE_SIZE {
        ZeroComplete();
        CompletePair(Numbers(Unsigned(1), [Lit(0)]), List(nodes));
      }
    }
  }

  // Over the wire

  /** The lengths in a request the decoder can put together again. */
  predicate DecodableId(id: RawId, widened: bool) {
    id.Text? ==> DecodableLength(|id.text|, widened)
  }

  predicate DecodableIds(ids: seq<RawId>, widened: bool) {
    forall i | 0 <= i < |ids| :: DecodableId(ids[i], widened)
  }

  predicate DecodableRequest(request: Request, widened: bool) {
    && DecodableId(request.id, widened) && DecodableIds(request.members, widened)
    && DecodableLength(|request.members|, widened)
  }

  predicate DecodableRequests(requests: seq<Request>, widened: bool) {
    && DecodableLength(|requests|, widened)
    && forall i | 0 <= i < |requests| :: DecodableRequest(requests[i], widened)
  }

  predicate AllDecodable(items: seq<Item>, widened: bool) {
    forall i | 0 <= i < |items| :: Decodable(items[i], widened)
  }

  lemma DecodableList(items: seq<Item>, widened: bool)
    ensures Decodable(List(items), widened)
        <==> DecodableLength(|items|, widened) && AllDecodable(items, widened)
  {
  }

  lemma DecodablePair(a: Item, b: Item, widened: bool)
    ensures Decodable(List([a, b]), widened) <==> Decodable(a, widened) && Decodable(b, widened)
  {
    hide Decodable;
    DecodableList([a, b], widened);
    assert [a, b][0] == a && [a, b][1] == b;
  }

  lemma IdDecodable(id: RawId, widened: bool)
    requires NewIdInfo(id).Ok?
    ensures Decodable(NewIdInfo(id).value.node, widened) <==> DecodableId(id, widened)
  {
    hide Rep;
  }

  lemma {:induction false} IdsDecodable(ids: seq<RawId>, widened: bool)
    requires IdNodes(ids).Ok?
    ensures var nodes := IdNodes(ids).value;
      |nodes| == |ids| && (AllDecodable(nodes, widened) <==> DecodableIds(ids, widened))
    decreases |ids|
  {
    hide NewIdInfo, AllDecodable, Decodable, DecodableId, DecodableIds, KeyNode;
    NoneDecodable(widened);
    if ids != [] {
      var front, last := ids[..|ids| - 1], ids[|ids| - 1];
      assert ids == front + [last];
      IdsDecodable(front, widened);
      IdDecodable(last, widened);
      assert IdNodes(ids).value == IdNodes(front).value + [NewIdInfo(last).value.node];
      SnocDecodable(IdNodes(front).value, NewIdInfo(last).value.node, widened);
      SnocDecodableIds(front, last, widened);
    }
  }

  lemma NoneDecodable(widened: bool)
    ensures AllDecodable([], widened) && DecodableIds([], widened)
  {
  }

  lemma SnocDecodableIds(front: seq<RawId>, last: RawId, widened: bool)
    ensures DecodableIds(front + [last], widened) <==> DecodableIds(front, widened) && DecodableId(last, widened)
  {
    hide DecodableId;
    var all := front + [last];
    assert all[..|front|] == front && all[|front|] == last;
    if DecodableIds(all, widened) {
      assert forall i | 0 <= i < |front| :: front[i] == all[i];
    }
  }

  lemma SnocDecodable(front: seq<Item>, last: Item, widened: bool)
    ensures AllDecodable(front + [last], widened) <==> AllDecodable(front, widened) && Decodable(last, widened)
  {
    hide Decodable;
    var all := front + [last];
    assert all[..|front|] == front && all[|front|] == last;
    if AllDecodable(all, widened) {
      assert forall i | 0 <= i < |front| :: front[i] == all[i];
    }
  }

  lemma EntryDecodable(request: Request, widened: bool)
    requires EntryNode(request).Ok?
    ensures Decodable(EntryNode(request).value, widened) <==> DecodableRequest(request, widened)
  {
    hide NewIdInfo, Decodable, DecodableId, DecodableIds, IdNodes, DecodableLength, ListOk;
    IdDecodable(request.id, widened);
    IdsDecodable(request.members, widened);
    var nodes := IdNodes(request.members).value;
    DecodableList(nodes, widened);
    DecodablePair(NewIdInfo(request.id).value.node, List(nodes), widened);
  }

  lemma {:induction false} EntriesDecodable(requests: seq<Request>, widened: bool)
    requires EntryNodes(requests).Ok?
    ensures var nodes := EntryNodes(requests).value;
      && |nodes| == |requests|
      && (AllDecodable(nodes, widened) <==> forall i | 0 <= i < |requests| :: DecodableRequest(requests[i], widened))
    decreases |requests|
  {
    hide EntryNode, Decodable, DecodableRequest;
    if requests != [] {
      var front, last := requests[..|requests| - 1], requests[|requests| - 1];
      assert requests == front + [last];
      EntriesDecodable(front, widened);
      EntryDecodable(last, widened);
      assert EntryNodes(requests).value == EntryNodes(front).value + [EntryNode(last).value];
      SnocDecodable(EntryNodes(front).value, EntryNode(last).value, widened);
    }
  }

  lemma BodyDecodable(requests: seq<Request>, widened: bool)
    requires BuildBody(requests).Ok?
    ensures Decodable(BuildBody(requests).value, widened) <==> DecodableRequests(requests, widened)
  {
    hide Decodable, DecodableLength, DecodableRequest, EntryNodes, ListOk;
    EntriesDecodable(requests, widened);
    var nodes := EntryNodes(requests).value;
    DecodableList(nodes, widened);
    ZeroDecodable(widened);
    DecodablePair(Numbers(Unsigned(1), [Lit(0)]), List(nodes), widened);
  }

  lemma ZeroDecodable(widened: bool)
    ensures Decodable(Numbers(Unsigned(1), [Lit(0)]), widened)
  {
  }

  /** A complete message and the memory of its receiver, whose first `n` bytes are what was sent. */
  predicate Sent(m: Message, buf: seq<byte>, n: nat) {
    m.Data? && MessageOk(m) && EncodeMessage(m) != [] && LengthFits(m) && n <= |buf| && buf[..n] == EncodeMessage(m)
  }

  /** A request that was built is a complete message. */
  lemma RequestSendable(requests: seq<Request>, m: Message)
    requires m.Data? && DataOk(m) && m.waitBit != 2 && m.sessionId != -1 && BuildBody(requests) == Ok(m.item)
    ensures MessageOk(m) && EncodeMessage(m) != []
  {
    hide EncodeMessage, BuildBody, Complete, DataOk;
    BuiltBodyReadsBack(requests);
    CompleteMessage(m);
  }

  /** A request that was sent is received, item for item, exactly when its own lengths are decodable. */
  lemma RequestReceived(requests: seq<Request>, m: Message, buf: seq<byte>, n: nat, widened: bool)
    requires Sent(m, buf, n) && BuildBody(requests) == Ok(m.item)
    ensures ParseMessage(buf, n, widened) == Some(Canonical(m)) <==> DecodableRequests(requests, widened)
  {
    hide MessageOk, EncodeMessage, LengthFits, BuildBody, ParseMessage, Decodable, DecodableRequests;
    BodyDecodable(requests, widened);
    MessageBackIffDecodable(m, buf, n, widened);
  }

  lemma CompleteMessage(m: Message)
    requires m.Data? && DataOk(m) && Complete(m.item) && m.waitBit != 2 && m.sessionId != -1
    ensures MessageOk(m) && EncodeMessage(m) != []
  {
    hide Encode, DataOk, HeaderBytes;
    SlotVariables(m.item);
    NoVariables(m.item);
  }

  lemma NoVariables(item: Item)
    requires ChildVariables(item) == []
    ensures Variables(item) == []
  {
  }

  // What equipment does with them

  const INVALID_FORMAT := 2

  function Definitions(entries: seq<Entry>): seq<Definition> {
    seq(|entries|, i requires 0 <= i < |entries| => Definition(entries[i].id, entries[i].members))
  }

  function LinkRequests(entries: seq<Entry>): seq<LinkRequest> {
    seq(|entries|, i requires 0 <= i < |entries| => LinkRequest(entries[i].id, entries[i].members))
  }

  function OnDefineReport(t: Tables, body: Item): Result {
    var entries := ReadBody(body);
    if entries.None? then Result(t, Done(INVALID_FORMAT)) else DefineReports(t, Definitions(entries.value))
  }

  function OnLinkEventReport(t: Tables, body: Item): Result {
    var entries := ReadBody(body);
    if entries.None? then Result(t, Done(INVALID_FORMAT)) else LinkEvents(t, LinkRequests(entries.value))
  }

  /** The same reports with the same variables in the same order, named by the application or by their keys. */
  predicate DefinesTheSame(batch: seq<Definition>, requests: seq<Request>) {
    && |batch| == |requests|
    && forall i | 0 <= i < |requests| ::
      KeyOf(requests[i].id) == Some(batch[i].id) && SameKeys(batch[i].vids, requests[i].members)
  }

  predicate LinksTheSame(batch: seq<LinkRequest>, requests: seq<Request>) {
    && |batch| == |requests|
    && forall i | 0 <= i < |requests| ::
      KeyOf(requests[i].id) == Some(batch[i].ceid) && SameKeys(batch[i].rptids, requests[i].members)
  }

  /** Definitions that arrive change the tables as if the batch had been handed over directly. */
  lemma DefinitionsArrive(t: Tables, requests: seq<Request>, batch: seq<Definition>, m: Message, buf: seq<byte>,
                          n: nat, widened: bool)
    requires DefinesTheSame(batch, requests) && DecodableRequests(requests, widened)
    requires Sent(m, buf, n) && BuildBody(requests) == Ok(m.item)
    ensures var received := ParseMessage(buf, n, widened);
      received.Some? && received.value.Data? && OnDefineReport(t, received.value.item) == DefineReports(t, batch)
  {
    hide MessageOk, EncodeMessage, LengthFits, ParseMessage, DecodableRequests, BuildBody, DefineReports, ReadBody,
      Complete, SameEntries, DefinesTheSame;
    RequestReceived(requests, m, buf, n, widened);
    BuiltBodyReadsBack(requests);
    SameDefinitions(ReadBody(m.item).value, batch, requests);
  }

  lemma SameDefinitions(entries: seq<Entry>, batch: seq<Definition>, requests: seq<Request>)
    requires SameEntries(entries, requests) && DefinesTheSame(batch, requests)
    ensures Definitions(entries) == batch
  {
    hide KeyOf, SameKeys;
    forall i | 0 <= i < |batch| ensures Definitions(entries)[i] == batch[i] {
      assert SameNames(entries[i], requests[i]);
      KeysDetermined(entries[i].members, batch[i].vids, requests[i].members);
    }
  }

  lemma KeysDetermined(a: seq<Key>, b: seq<Key>, ids: seq<RawId>)
    requires SameKeys(a, ids) && SameKeys(b, ids)
    ensures a == b
  {
    hide KeyOf;
    forall i | 0 <= i < |a| ensures a[i] == b[i] {
      assert KeyOf(ids[i]) == Some(a[i]);
    }
  }

  /** Links that arrive change the tables as if the batch had been handed over directly. */
  lemma LinksArrive(t: Tables, requests: seq<Request>, batch: seq<LinkRequest>, m: Message, buf: seq<byte>, n: nat,
                    widened: bool)
    requires LinksTheSame(batch, requests) && DecodableRequests(requests, widened)
    requires Sent(m, buf, n) && BuildBody(requests) == Ok(m.item)
    ensures var received := ParseMessage(buf, n, widened);
      received.Some? && received.value.Data? && OnLinkEventReport(t, received.value.item) == LinkEvents(t, batch)
  {
    hide MessageOk, EncodeMessage, LengthFits, ParseMessage, DecodableRequests, BuildBody, LinkEvents, ReadBody,
      Complete, SameEntries, LinksTheSame;
    RequestReceived(requests, m, buf, n, widened);
    BuiltBodyReadsBack(requests);
    SameLinks(ReadBody(m.item).value, batch, requests);
  }

  lemma SameLinks(entries: seq<Entry>, batch: seq<LinkRequest>, requests: seq<Request>)
    requires SameEntries(entries, requests) && LinksTheSame(batch, requests)
    ensures LinkRequests(entries) == batch
  {
    hide KeyOf, SameKeys;
    forall i | 0 <= i < |batch| ensures LinkRequests(entries)[i] == batch[i] {
      assert SameNames(entries[i], requests[i]);
      KeysDetermined(entries[i].members, batch[i].rptids, requests[i].members);
    }
  }

  // An identifier that equipment cannot define

  /**
   * A report number that needs more than 32 bits: equipment reads it from the 8-byte item, and panics defining the
   * report.
   */
  lemma WideIdentifierPanics()
    ensures var wide := 0x1_0000_0000;
      var report := List([Numbers(Unsigned(8), [Lit(wide)]), List([Numbers(Unsigned(4), [Lit(7)])])]);
      var body := List([Numbers(Unsigned(1), [Lit(0)]), List([report])]);
      var t := Tables(map[], map[], {}, {Num(7)});
      && ReadBody(body) == Some([Entry(Num(wide), [Num(7)])]) && OnDefineReport(t, body) == Result(t, Panicked)
  {
    var wide, vid := Numbers(Unsigned(8), [Lit(0x1_0000_0000)]), Numbers(Unsigned(4), [Lit(7)]);
    var report := List([wide, List([vid])]);
    assert Front([vid]) == [] && ReadKeys([]) == Some([]) && [] + [Num(7)] == [Num(7)];
    assert ReadKeys([vid]) == Some([Num(7)]);
    var entry := Entry(Num(0x1_0000_0000), [Num(7)]);
    assert ReadEntry(report) == Some(entry);
    assert Front([report]) == [] && ReadEntries([]) == Some([]) && [] + [entry] == [entry];
    assert ReadEntries([report]) == Some([entry]);
    WideDefinitionPanics(Tables(map[], map[], {}, {Num(7)}));
    assert Definitions([entry]) == [Definition(entry.id, entry.members)];
  }

  lemma WideDefinitionPanics(t: Tables)
    requires t == Tables(map[], map[], {}, {Num(7)})
    ensures DefineReports(t, [Definition(Num(0x1_0000_0000), [Num(7)])]) == Result(t, Panicked)
  {
    var batch := [Definition(Num(0x1_0000_0000), [Num(7)])];
    assert batch[..0] == [];
    assert ApplyDefinitions(t, batch[..0]) == Result(t, Done(ACCEPT));
    assert !Redefines(t, batch) && !NamesUnknownVid(t, batch);
  }
}
