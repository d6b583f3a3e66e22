/** What an accepted batch amounts to on the plain relations, in whatever state earlier batches have left the tables. */
module Effects {
  import opened Wrappers
  import opened EventTables
  import opened Consistency

  /** No report is without variables and no link without reports. */
  predicate NoneEmpty(t: Tables) {
    && (forall r | r in t.reports :: t.reports[r] != [])
    && forall ce | ce in t.links :: t.links[ce].reports != []
  }

  // What a batch of definitions amounts to

  /** The variables the last entry for a report names, if there is an entry. */
  function LastEntry(batch: seq<Definition>, id: Key): Option<seq<Key>> {
    if batch == [] then None
    else if batch[|batch| - 1].id == id then Some(batch[|batch| - 1].vids)
    else LastEntry(batch[..|batch| - 1], id)
  }

  /** How many entries delete a report. */
  function Deletions(batch: seq<Definition>, id: Key): nat {
    if batch == [] then 0
    else
      var last := batch[|batch| - 1];
      Deletions(batch[..|batch| - 1], id) + if last.id == id && last.vids == [] then 1 else 0
  }

  function Occurrences(s: seq<Key>, key: Key): nat {
    if s == [] then 0 else Occurrences(s[..|s| - 1], key) + if s[|s| - 1] == key then 1 else 0
  }

  /** What stays linked, in order: each deletion of a report takes its first occurrence that is still there. */
  function Kept(reports: seq<Key>, batch: seq<Definition>): seq<Key> {
    if reports == [] then []
    else
      var front, last := reports[..|reports| - 1], reports[|reports| - 1];
      if Occurrences(front, last) >= Deletions(batch, last) then Kept(front, batch) + [last] else Kept(front, batch)
  }

  function VidsOf(t: Tables, id: Key): seq<Key> {
    if id in t.reports then t.reports[id] else []
  }

  lemma {:induction false} OccursIff(s: seq<Key>, key: Key)
    ensures Occurrences(s, key) > 0 <==> key in s
  {
    if s != [] {
      OccursIff(s[..|s| - 1], key);
    }
  }

  /** Of a report that occurs m times and is deleted n times, m - n occurrences stay, or none. */
  lemma {:induction false} KeptCount(reports: seq<Key>, batch: seq<Definition>, key: Key)
    ensures var m, n := Occurrences(reports, key), Deletions(batch, key);
      Occurrences(Kept(reports, batch), key) == if m > n then m - n else 0
  {
    if reports != [] {
      hide Deletions, Occurrences, Kept;
      var front, last := reports[..|reports| - 1], reports[|reports| - 1];
      KeptCount(front, batch, key);
      UnfoldKept(reports, batch);
      assert reports == front + [last];
      OccurrencesSnoc(front, last, key);
      OccurrencesSnoc(Kept(front, batch), last, key);
    }
  }

  lemma UnfoldKept(reports: seq<Key>, batch: seq<Definition>)
    requires reports != []
    ensures var front, last := reports[..|reports| - 1], reports[|reports| - 1];
      Kept(reports, batch) == if Occurrences(front, last) >= Deletions(batch, last) then Kept(front, batch) + [last]
        else Kept(front, batch)
  {
  }

  lemma OccurrencesSnoc(s: seq<Key>, last: Key, key: Key)
    ensures Occurrences(s + [last], key) == Occurrences(s, key) + if last == key then 1 else 0
  {
    assert (s + [last])[..|s|] == s;
  }

  lemma {:induction false} KeptAll(reports: seq<Key>, batch: seq<Definition>)
    requires forall r :: Deletions(batch, r) == 0
    ensures Kept(reports, batch) == reports
  {
    if reports != [] {
      KeptAll(reports[..|reports| - 1], batch);
    }
  }

  lemma {:induction false} WithoutFirstSnoc(s: seq<Key>, last: Key, key: Key)
    ensures WithoutFirst(s + [last], key) == if key in s then WithoutFirst(s, key) + [last] else if last == key then s
      else s + [last]
  {
    if s == [] {
      assert s + [last] == [last] && [last][1..] == [] && [last] + [] == [last];
      assert WithoutFirst([], key) == [];
    } else {
      WithoutFirstSnoc(s[1..], last, key);
      assert (s + [last])[1..] == s[1..] + [last];
    }
  }

  /** One more entry keeps what the batch before it has kept, less one occurrence of the report it may delete. */
  lemma {:induction false} KeptSnoc(reports: seq<Key>, batch: seq<Definition>, d: Definition)
    ensures Kept(reports, batch + [d]) == if d.vids == [] then WithoutFirst(Kept(reports, batch), d.id)
      else Kept(reports, batch)
  {
    hide Deletions, WithoutFirst;
    if reports == [] {
      NoneLeft(d.id);
      return;
    }
    var front, last := reports[..|reports| - 1], reports[|reports| - 1];
    KeptSnoc(front, batch, d);
    DeletionsSnoc(batch, d, last);
    KeptCount(front, batch, d.id);
    OccursIff(Kept(front, batch), d.id);
    WithoutFirstSnoc(Kept(front, batch), last, d.id);
    if d.id !in Kept(front, batch) {
      WithoutAbsent(Kept(front, batch), d.id);
    }
  }

  lemma NoneLeft(key: Key)
    ensures WithoutFirst([], key) == []
  {
  }

  lemma DeletionsSnoc(batch: seq<Definition>, d: Definition, id: Key)
    ensures Deletions(batch + [d], id) == Deletions(batch, id) + if d.id == id && d.vids == [] then 1 else 0
  {
    assert (batch + [d])[..|batch|] == batch;
  }

  lemma {:induction false} WithoutAbsent(s: seq<Key>, key: Key)
    requires key !in s
    ensures WithoutFirst(s, key) == s
  {
    if s != [] {
      WithoutAbsent(s[1..], key);
    }
  }

  /** The definitions, the links and the flags after the first entries of a batch. */
  predicate Amounts(u: Tables, t: Tables, batch: seq<Definition>, id: Key, ce: Key) {
    && VidsOf(u, id) == (if LastEntry(batch, id).Some? then LastEntry(batch, id).value else VidsOf(t, id))
    && ReportsOf(u, ce) == Kept(ReportsOf(t, ce), batch)
    && (ce in u.links ==> ce in t.links && u.links[ce].enabled == t.links[ce].enabled)
  }

  lemma DefinitionEffect(u: Tables, t: Tables, batch: seq<Definition>, d: Definition, id: Key, ce: Key)
    requires NoneEmpty(u) && Amounts(u, t, batch, id, ce) && (d.vids != [] ==> IsBuildable(d.id))
    ensures NoneEmpty(ApplyDefinition(u, d).tables) && Amounts(ApplyDefinition(u, d).tables, t, batch + [d], id, ce)
  {
    hide Kept, WithoutFirst, IsBuildable;
    assert (batch + [d])[..|batch|] == batch;
    KeptSnoc(ReportsOf(t, ce), batch, d);
    NoneLeft(d.id);
  }

  lemma {:induction false} DefinitionsEffect(t: Tables, batch: seq<Definition>, id: Key, ce: Key)
    requires NoneEmpty(t) && AllBuildable(batch)
    ensures NoneEmpty(ApplyDefinitions(t, batch).tables) && Amounts(ApplyDefinitions(t, batch).tables, t, batch, id, ce)
  {
    hide Amounts, NoneEmpty, IsBuildable, ApplyDefinition, AllBuildable;
    if batch == [] {
      NothingAmounts(t, id, ce);
      return;
    }
    var front, last := batch[..|batch| - 1], batch[|batch| - 1];
    assert batch == front + [last];
    BuildableFront(batch);
    DefinitionsEffect(t, front, id, ce);
    PanicsIff(t, front);
    DefinitionEffect(ApplyDefinitions(t, front).tables, t, front, last, id, ce);
  }

  lemma NothingAmounts(t: Tables, id: Key, ce: Key)
    ensures Amounts(t, t, [], id, ce)
  {
    KeptAll(ReportsOf(t, ce), []);
  }

  lemma BuildableFront(batch: seq<Definition>)
    requires batch != [] && AllBuildable(batch)
    ensures AllBuildable(batch[..|batch| - 1])
    ensures batch[|batch| - 1].vids != [] ==> IsBuildable(batch[|batch| - 1].id)
  {
  }

  /** Events and variables are untouched by definitions, even by those that panic half-way. */
  lemma {:induction false} DefinitionsFrame(t: Tables, batch: seq<Definition>)
    ensures ApplyDefinitions(t, batch).tables.(reports := t.reports, links := t.links) == t
  {
    hide IsBuildable, Unlinked;
    if batch != [] {
      DefinitionsFrame(t, batch[..|batch| - 1]);
    }
  }

  /**
   * An accepted batch of definitions, however often it repeats an id: each report holds what its last entry names, or
   * what it held before; each event keeps its reports in order, less one occurrence for each deletion. A batch without
   * entries leaves no report defined and no event linked.
   */
  lemma DefineReportsEffect(t: Tables, batch: seq<Definition>, id: Key, ce: Key)
    requires NoneEmpty(t) && DefineReports(t, batch).outcome == Done(ACCEPT)
    ensures var u := DefineReports(t, batch).tables;
      && NoneEmpty(u) && u.events == t.events && u.variables == t.variables
      && (batch == [] ==> u.reports == map[] && u.links == map[])
      && (batch != [] ==>
        && VidsOf(u, id) == (if LastEntry(batch, id).Some? then LastEntry(batch, id).value else VidsOf(t, id))
        && ReportsOf(u, ce) == Kept(ReportsOf(t, ce), batch)
        && (ce in u.links ==> ce in t.links && u.links[ce].enabled == t.links[ce].enabled))
    ensures var m, n := Occurrences(ReportsOf(t, ce), id), Deletions(batch, id);
      batch != [] ==>
        Occurrences(ReportsOf(DefineReports(t, batch).tables, ce), id) == if m > n then m - n else 0
  {
    hide Redefines, NamesUnknownVid, AllBuildable, ApplyDefinitions, Kept, LastEntry, Occurrences, Deletions;
    if batch != [] {
      PanicsIff(t, batch);
      DefinitionsEffect(t, batch, id, ce);
      DefinitionsFrame(t, batch);
      KeptCount(ReportsOf(t, ce), batch, id);
    }
  }

  /** What a batch that panics leaves behind: its entries before the first id to define that no item can hold. */
  lemma PanicEffect(t: Tables, batch: seq<Definition>, n: nat, id: Key, ce: Key)
    requires NoneEmpty(t) && DefineReports(t, batch).outcome == Panicked
    requires n < |batch| && batch[n].vids != [] && IsUnfit(batch[n].id)
    requires forall i | 0 <= i < n && batch[i].vids != [] :: !IsUnfit(batch[i].id)
    ensures var u := DefineReports(t, batch).tables;
      NoneEmpty(u) && u.events == t.events && u.variables == t.variables && Amounts(u, t, batch[..n], id, ce)
  {
    hide Redefines, NamesUnknownVid, ApplyDefinitions, Amounts, NoneEmpty;
    forall i | 0 <= i <= n ensures IsUnfit(batch[i].id) <==> !IsBuildable(batch[i].id) {
    }
    StopsAt(t, batch, n);
    DefinitionsEffect(t, batch[..n], id, ce);
    DefinitionsFrame(t, batch[..n]);
  }

  lemma {:induction false} StopsAt(t: Tables, batch: seq<Definition>, n: nat)
    requires n < |batch| && batch[n].vids != [] && !IsBuildable(batch[n].id) && AllBuildable(batch[..n])
    ensures ApplyDefinitions(t, batch) == Result(ApplyDefinitions(t, batch[..n]).tables, Panicked)
  {
    hide IsBuildable;
    PanicsIff(t, batch[..n]);
    if n < |batch| - 1 {
      assert batch[..|batch| - 1][..n] == batch[..n];
      StopsAt(t, batch[..|batch| - 1], n);
    }
  }

  // What a batch of link requests amounts to

  predicate Linked(u: Tables, t: Tables, batch: seq<LinkRequest>, ce: Key) {
    ce in u.links ==> u.links[ce].enabled == (if ce in t.links && !Clears(batch, ce) then t.links[ce].enabled else true)
  }

  lemma {:induction false} LinksFlags(t: Tables, batch: seq<LinkRequest>, ce: Key)
    requires NoneEmpty(t)
    ensures Linked(ApplyLinks(t, batch), t, batch, ce) && NoneEmpty(ApplyLinks(t, batch))
  {
    if batch != [] {
      hide Named, ApplyLink, NoneEmpty;
      var front := batch[..|batch| - 1];
      LinksFlags(t, front, ce);
      NoneEmptyLinks(t);
      LinksEffect(t, front, ce);
      ClearedOrNamed(t, front, ce);
      FlagAt(ApplyLinks(t, front), batch[|batch| - 1], ce);
    }
  }

  lemma NoneEmptyLinks(t: Tables)
    requires NoneEmpty(t)
    ensures forall ce | ce in t.links :: t.links[ce].reports != []
  {
  }

  lemma FlagAt(t: Tables, request: LinkRequest, ce: Key)
    requires NoneEmpty(t)
    ensures var u := ApplyLink(t, request);
      && NoneEmpty(u)
      && (ce in u.links ==> u.links[ce].enabled == if ce in t.links then t.links[ce].enabled else true)
      && (request.ceid != ce ==> (ce in u.links <==> ce in t.links))
      && (request.ceid == ce ==> (ce in u.links <==> request.rptids != []))
  {
  }

  /** An event without links has none of its own left, or had none. */
  lemma ClearedOrNamed(t: Tables, batch: seq<LinkRequest>, ce: Key)
    requires NoneEmpty(t) && StandsIn(ApplyLinks(t, batch), t, batch, ce)
    ensures ce !in ApplyLinks(t, batch).links ==> ce !in t.links || Clears(batch, ce)
  {
    hide ApplyLinks, Clears, Named;
  }

  /**
   * An accepted batch of link requests: what was linked, unless some entry clears the event, then what is named
   * since.
   */
  lemma LinkEventsEffect(t: Tables, batch: seq<LinkRequest>, ce: Key)
    requires NoneEmpty(t) && LinkEvents(t, batch).outcome == Done(ACCEPT)
    ensures var u := LinkEvents(t, batch).tables;
      && NoneEmpty(u) && u.reports == t.reports && u.events == t.events && u.variables == t.variables
      && ReportsOf(u, ce) == (if Clears(batch, ce) then [] else ReportsOf(t, ce)) + Named(batch, ce)
      && Linked(u, t, batch, ce)
  {
    hide LinkRefusal, ApplyLinks, Named, Clears, NoDuplicates;
    RefusalCode(t, batch);
    LinksFrame(t, batch);
    LinksEffect(t, batch, ce);
    LinksFlags(t, batch, ce);
  }

  // Over all runs

  lemma {:induction false} PanickedNoneEmpty(t: Tables, batch: seq<Definition>)
    requires NoneEmpty(t)
    ensures NoneEmpty(ApplyDefinitions(t, batch).tables)
  {
    hide IsBuildable, WithoutFirst;
    if batch != [] {
      PanickedNoneEmpty(t, batch[..|batch| - 1]);
    }
  }

  lemma {:induction false} EnableNoneEmpty(t: Tables, enable: bool, ceids: seq<Key>)
    requires NoneEmpty(t)
    ensures NoneEmpty(EnableEvents(t, enable, ceids))
    decreases |ceids|
  {
    if ceids != [] && ceids[0] in t.links {
      EnableNoneEmpty(t.(links := t.links[ceids[0] := t.links[ceids[0]].(enabled := enable)]), enable, ceids[1..]);
    }
  }

  lemma PerformNoneEmpty(t: Tables, op: Operation)
    requires NoneEmpty(t)
    ensures NoneEmpty(Perform(t, op))
  {
    hide ApplyDefinitions, Redefines, NamesUnknownVid, LinkRefusal, ApplyLinks, EnableEvents, IsBuildable;
    match op
    case Define(batch) =>
      PanickedNoneEmpty(t, batch);
    case LinkUp(batch) =>
      LinksFlags(t, batch, Num(0));
    case Enable(enable, ceids) =>
      EnableNoneEmpty(t, enable, ceids);
    case RegisterVariable(id) =>
    case RegisterEvent(id) =>
  }

  /**
   * Over every sequence of requests and registrations, repeated pairs and panics included, nothing is ever left
   * empty.
   */
  lemma {:induction false} AlwaysNoneEmpty(ops: seq<Operation>)
    ensures NoneEmpty(Run(ops))
  {
    hide Perform;
    if ops != [] {
      AlwaysNoneEmpty(ops[..|ops| - 1]);
      hide NoneEmpty;
      PerformNoneEmpty(Run(ops[..|ops| - 1]), ops[|ops| - 1]);
    }
  }
}
