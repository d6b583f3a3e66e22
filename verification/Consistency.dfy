/** What the two tables keep over all runs, and what a batch of entries amounts to. */
module Consistency {
  import opened Wrappers
  import opened EventTables

  predicate LinkOk(t: Tables, ce: Key, reports: seq<Key>) {
    && reports != [] && NoDuplicates(reports) && ce in t.events
    && forall r | r in reports :: r in t.reports
  }

  predicate ReportOk(t: Tables, vids: seq<Key>) {
    vids != [] && forall v | v in vids :: v in t.variables
  }

  /**
   * Every linked report is defined, no link is empty or holds a duplicate, every linked event and every variable is
   * registered.
   */
  predicate Consistent(t: Tables) {
    && (forall ce | ce in t.links :: LinkOk(t, ce, t.links[ce].reports))
    && (forall r | r in t.reports :: ReportOk(t, t.reports[r]))
  }

  // Deleting a report

  lemma {:induction false} WithoutFirstMembers(s: seq<Key>, key: Key)
    requires NoDuplicates(s)
    ensures NoDuplicates(WithoutFirst(s, key))
    ensures forall x :: x in WithoutFirst(s, key) <==> x in s && x != key
  {
    if s != [] {
      assert forall x :: x in s <==> x == s[0] || x in s[1..];
      if s[0] != key {
        WithoutFirstMembers(s[1..], key);
        FreshHead(s[0], WithoutFirst(s[1..], key));
      }
    }
  }

  lemma FreshHead(x: Key, s: seq<Key>)
    requires NoDuplicates(s) && x !in s
    ensures NoDuplicates([x] + s)
  {
  }

  lemma RemoveReportKeeps(t: Tables, key: Key)
    requires Consistent(t)
    ensures Consistent(RemoveReport(t, key))
  {
    var u := RemoveReport(t, key);
    forall ce | ce in u.links ensures LinkOk(u, ce, u.links[ce].reports) {
      assert LinkOk(t, ce, t.links[ce].reports);
      WithoutFirstMembers(t.links[ce].reports, key);
    }
    forall r | r in u.reports ensures ReportOk(u, u.reports[r]) {
      assert ReportOk(t, t.reports[r]);
    }
  }

  lemma DefineKeeps(t: Tables, d: Definition)
    requires Consistent(t) && forall v | v in d.vids :: v in t.variables
    ensures Consistent(ApplyDefinition(t, d).tables)
  {
    if d.vids == [] {
      RemoveReportKeeps(t, d.id);
    } else {
      AddReportKeeps(t, d);
    }
  }

  lemma AddReportKeeps(t: Tables, d: Definition)
    requires Consistent(t) && d.vids != [] && forall v | v in d.vids :: v in t.variables
    ensures Consistent(t.(reports := t.reports[d.id := d.vids]))
  {
    hide NoDuplicates;
    var u := t.(reports := t.reports[d.id := d.vids]);
    forall ce | ce in u.links ensures LinkOk(u, ce, u.links[ce].reports) {
      assert LinkOk(t, ce, t.links[ce].reports);
    }
    forall r | r in u.reports ensures ReportOk(u, u.reports[r]) {
      assert r != d.id ==> ReportOk(t, t.reports[r]);
    }
  }

  lemma {:induction false} DefinitionsKeep(t: Tables, batch: seq<Definition>)
    requires Consistent(t) && !NamesUnknownVid(t, batch)
    ensures var u := ApplyDefinitions(t, batch).tables;
      Consistent(u) && u.variables == t.variables && u.events == t.events
  {
    hide Consistent, RemoveReport, IsBuildable;
    if batch != [] {
      var front, last := batch[..|batch| - 1], batch[|batch| - 1];
      assert !NamesUnknownVid(t, front) && forall v | v in last.vids :: v in t.variables by {
        KnownVids(t, batch);
      }
      DefinitionsKeep(t, front);
      DefineKeeps(ApplyDefinitions(t, front).tables, last);
      RemoveKeepsRegistered(ApplyDefinitions(t, front).tables, last.id);
    }
  }

  lemma RemoveKeepsRegistered(t: Tables, key: Key)
    ensures RemoveReport(t, key).variables == t.variables && RemoveReport(t, key).events == t.events
  {
  }

  lemma KnownVids(t: Tables, batch: seq<Definition>)
    requires batch != [] && !NamesUnknownVid(t, batch)
    ensures !NamesUnknownVid(t, batch[..|batch| - 1])
    ensures forall v | v in batch[|batch| - 1].vids :: v in t.variables
  {
    var n := |batch| - 1;
    assert forall j | 0 <= j < |batch[n].vids| :: batch[n].vids[j] in t.variables;
    assert forall i, j | 0 <= i < n && 0 <= j < |batch[i].vids| :: batch[i].vids[j] in t.variables;
  }

  /** Requests to define reports keep the tables consistent, even one that panics half-way. */
  lemma DefineReportsKeeps(t: Tables, batch: seq<Definition>)
    requires Consistent(t)
    ensures Consistent(DefineReports(t, batch).tables)
  {
    hide Redefines, NamesUnknownVid, ApplyDefinitions;
    if batch != [] && !NamesUnknownVid(t, batch) {
      DefinitionsKeep(t, batch);
    }
  }

  // What a batch of link requests amounts to

  /** Some entry clears the event's links. */
  predicate Clears(batch: seq<LinkRequest>, ce: Key) {
    batch != [] && (Clears(batch[..|batch| - 1], ce) || (batch[|batch| - 1].ceid == ce &&
      batch[|batch| - 1].rptids == []))
  }

  /** The reports named for the event since it was last cleared. */
  function Named(batch: seq<LinkRequest>, ce: Key): seq<Key> {
    if batch == [] then []
    else
      var last := batch[|batch| - 1];
      if last.ceid != ce then Named(batch[..|batch| - 1], ce)
      else if last.rptids == [] then []
      else Named(batch[..|batch| - 1], ce) + last.rptids
  }

  function Standing(t: Tables, batch: seq<LinkRequest>, ce: Key): seq<Key> {
    (if Clears(batch, ce) then [] else ReportsOf(t, ce)) + Named(batch, ce)
  }

  lemma {:induction false} LinksFrame(t: Tables, batch: seq<LinkRequest>)
    ensures ApplyLinks(t, batch).(links := t.links) == t
  {
    if batch != [] {
      LinksFrame(t, batch[..|batch| - 1]);
    }
  }

  predicate StandsIn(u: Tables, t: Tables, batch: seq<LinkRequest>, ce: Key) {
    ReportsOf(u, ce) == Standing(t, batch, ce) && (ce in u.links <==> Standing(t, batch, ce) != [])
  }

  lemma ApplyLinkAt(t: Tables, request: LinkRequest, ce: Key)
    ensures ReportsOf(ApplyLink(t, request), ce)
         == if request.ceid != ce then ReportsOf(t, ce) else if request.rptids == [] then []
           else ReportsOf(t, ce) + request.rptids
    ensures ce in ApplyLink(t, request).links <==> if request.ceid != ce then ce in t.links else request.rptids != []
  {
  }

  lemma {:induction false} LinksEffect(t: Tables, batch: seq<LinkRequest>, ce: Key)
    requires forall e | e in t.links :: t.links[e].reports != []
    ensures StandsIn(ApplyLinks(t, batch), t, batch, ce)
  {
    if batch == [] {
      return;
    }
    hide ReportsOf, ApplyLink;
    var front, last := batch[..|batch| - 1], batch[|batch| - 1];
    LinksEffect(t, front, ce);
    ApplyLinkAt(ApplyLinks(t, front), last, ce);
    if last.ceid == ce && last.rptids != [] {
      assert Standing(t, batch, ce) == Standing(t, front, ce) + last.rptids;
    }
  }

  // Accepted requests name registered events, defined reports, and nothing already linked

  lemma {:induction false} NoReportRefused(t: Tables, request: LinkRequest, n: nat)
    requires n <= |request.rptids| && ReportRefusal(t, request, n).None?
    ensures forall j | 0 <= j < n :: request.rptids[j] in t.reports && request.rptids[j] !in ReportsOf(t, request.ceid)
  {
    hide ReportsOf;
    if n > 0 {
      NoReportRefused(t, request, n - 1);
    }
  }

  lemma {:induction false} NamedAccepted(t: Tables, batch: seq<LinkRequest>, ce: Key)
    requires LinkRefusal(t, batch).None?
    ensures forall r | r in Named(batch, ce) :: r in t.reports && r !in ReportsOf(t, ce) && ce in t.events
  {
    hide ReportsOf, ReportRefusal;
    if batch != [] {
      var last := batch[|batch| - 1];
      NamedAccepted(t, batch[..|batch| - 1], ce);
      NoReportRefused(t, last, |last.rptids|);
    }
  }

  predicate NamedOnce(batch: seq<LinkRequest>, ce: Key) {
    NoDuplicates(Named(batch, ce))
  }

  /** No event of the batch has a report named for it twice since it was last cleared. */
  predicate NamesOnce(batch: seq<LinkRequest>) {
    forall i | 0 <= i < |batch| :: NamedOnce(batch, batch[i].ceid)
  }

  lemma {:induction false} NamedOnlyByEntries(batch: seq<LinkRequest>, ce: Key)
    ensures Named(batch, ce) == [] || exists i | 0 <= i < |batch| :: batch[i].ceid == ce
  {
    if batch != [] {
      var n := |batch| - 1;
      NamedOnlyByEntries(batch[..n], ce);
      if Named(batch[..n], ce) != [] && batch[n].ceid != ce {
        var i :| 0 <= i < n && batch[..n][i].ceid == ce;
        assert batch[i].ceid == ce;
      }
    }
  }

  lemma NamesOnceForAll(batch: seq<LinkRequest>)
    ensures NamesOnce(batch) <==> forall ce :: NamedOnce(batch, ce)
  {
    hide Named;
    if NamesOnce(batch) {
      forall ce ensures NamedOnce(batch, ce) {
        NamedOnlyByEntries(batch, ce);
        if Named(batch, ce) != [] {
          var i :| 0 <= i < |batch| && batch[i].ceid == ce;
          assert NamedOnce(batch, batch[i].ceid);
        }
      }
    }
  }

  lemma DuplicatesConcat(a: seq<Key>, b: seq<Key>)
    requires NoDuplicates(a) && forall x | x in b :: x !in a
    ensures NoDuplicates(a + b) <==> NoDuplicates(b)
  {
    if NoDuplicates(a + b) {
      forall i, j | 0 <= i < j < |b| ensures b[i] != b[j] {
        assert (a + b)[|a| + i] == b[i] && (a + b)[|a| + j] == b[j];
      }
    }
    if NoDuplicates(b) {
      forall i, j | 0 <= i < j < |a + b| ensures (a + b)[i] != (a + b)[j] {
        if i < |a| <= j {
          assert (a + b)[j] == b[j - |a|] && b[j - |a|] in b;
        }
      }
    }
  }

  lemma LinksOk(t: Tables, ce: Key)
    requires Consistent(t)
    ensures NoDuplicates(ReportsOf(t, ce))
  {
    if ce in t.links {
      assert LinkOk(t, ce, t.links[ce].reports);
    }
  }

  lemma StandingOk(t: Tables, batch: seq<LinkRequest>, ce: Key)
    requires Consistent(t) && LinkRefusal(t, batch).None?
    ensures NoDuplicates(Standing(t, batch, ce)) <==> NoDuplicates(Named(batch, ce))
    ensures Standing(t, batch, ce) != [] ==> ce in t.events
    ensures forall r | r in Standing(t, batch, ce) :: r in t.reports
  {
    hide NoDuplicates, Named, Clears, LinkRefusal;
    NamedAccepted(t, batch, ce);
    LinksOk(t, ce);
    DuplicatesConcat(ReportsOf(t, ce), Named(batch, ce));
    if Clears(batch, ce) {
      assert Standing(t, batch, ce) == Named(batch, ce);
    }
    if Named(batch, ce) != [] {
      assert Named(batch, ce)[0] in Named(batch, ce);
    }
    if ce in t.links {
      assert LinkOk(t, ce, t.links[ce].reports);
    }
  }

  /**
   * An accepted batch of link requests leaves the tables consistent exactly when it names no report twice for one event
   * without clearing the event in between: the handler checks against what is linked already, not within the batch.
   */
  lemma LinkEventsKeepsIff(t: Tables, batch: seq<LinkRequest>)
    requires Consistent(t) && LinkRefusal(t, batch).None?
    ensures Consistent(LinkEvents(t, batch).tables) <==> NamesOnce(batch)
  {
    hide ApplyLinks, LinkRefusal, Standing, Named, NoDuplicates, NamesOnce, StandsIn;
    var u := ApplyLinks(t, batch);
    LinkedReports(t);
    LinksFrame(t, batch);
    NamesOnceForAll(batch);
    forall ce ensures StandsIn(u, t, batch, ce) {
      LinksEffect(t, batch, ce);
    }
    if NamesOnce(batch) {
      StandingConsistent(t, batch, u);
    }
    if Consistent(u) {
      forall ce ensures NamedOnce(batch, ce) {
        ConsistentNamed(t, batch, u, ce);
      }
    }
  }

  lemma ConsistentNamed(t: Tables, batch: seq<LinkRequest>, u: Tables, ce: Key)
    requires Consistent(t) && LinkRefusal(t, batch).None? && Consistent(u) && StandsIn(u, t, batch, ce)
    ensures NoDuplicates(Named(batch, ce))
  {
    hide LinkRefusal, Standing, NoDuplicates, Named, Consistent;
    LinksOk(u, ce);
    StandingOk(t, batch, ce);
  }

  lemma LinkedReports(t: Tables)
    requires Consistent(t)
    ensures forall e | e in t.links :: t.links[e].reports != []
  {
    forall e | e in t.links ensures t.links[e].reports != [] {
      assert LinkOk(t, e, t.links[e].reports);
    }
  }

  lemma StandingConsistent(t: Tables, batch: seq<LinkRequest>, u: Tables)
    requires Consistent(t) && LinkRefusal(t, batch).None?
    requires u.(links := t.links) == t
    requires forall ce :: StandsIn(u, t, batch, ce)
    requires forall ce :: NamedOnce(batch, ce)
    ensures Consistent(u)
  {
    hide LinkRefusal, Standing, NoDuplicates, Named;
    forall ce | ce in u.links ensures LinkOk(u, ce, u.links[ce].reports) {
      StandingOk(t, batch, ce);
      assert StandsIn(u, t, batch, ce) && NamedOnce(batch, ce);
    }
    forall r | r in u.reports ensures ReportOk(u, u.reports[r]) {
      assert ReportOk(t, t.reports[r]);
    }
  }

  // Runs

  datatype Operation =
    | Define(definitions: seq<Definition>)
    | LinkUp(requests: seq<LinkRequest>)
    | Enable(enable: bool, ceids: seq<Key>)
    | RegisterVariable(id: Key)
    | RegisterEvent(id: Key)

  function Perform(t: Tables, op: Operation): Tables {
    match op
    case Define(batch) => DefineReports(t, batch).tables
    case LinkUp(batch) => LinkEvents(t, batch).tables
    case Enable(enable, ceids) => if ceids == [] then EnableAll(t, enable) else EnableEvents(t, enable, ceids)
    case RegisterVariable(id) => if IsBuildable(id) then t.(variables := t.variables + {id}) else t
    case RegisterEvent(id) => if IsBuildable(id) then t.(events := t.events + {id}) else t
  }

  /** Registering adds the identifier, unless no item can hold it, and changes nothing else. */
  lemma RegisterEffect(t: Tables, id: Key)
    ensures Perform(t, RegisterVariable(id))
         == if IsUnfit(id) then t else Tables(t.reports, t.links, t.events, t.variables + {id})
    ensures Perform(t, RegisterEvent(id))
         == if IsUnfit(id) then t else Tables(t.reports, t.links, t.events + {id}, t.variables)
  {
  }

  function Run(ops: seq<Operation>): Tables {
    if ops == [] then Tables(map[], map[], {}, {}) else Perform(Run(ops[..|ops| - 1]), ops[|ops| - 1])
  }

  predicate LinksOnce(ops: seq<Operation>) {
    forall i | 0 <= i < |ops| && ops[i].LinkUp? :: NamesOnce(ops[i].requests)
  }

  lemma {:induction false} EnableEventsKeeps(t: Tables, enable: bool, ceids: seq<Key>)
    requires Consistent(t)
    ensures Consistent(EnableEvents(t, enable, ceids))
    decreases |ceids|
  {
    if ceids != [] && ceids[0] in t.links {
      EnableOneKeeps(t, enable, ceids[0]);
      EnableEventsKeeps(t.(links := t.links[ceids[0] := t.links[ceids[0]].(enabled := enable)]), enable, ceids[1..]);
    }
  }

  lemma EnableOneKeeps(t: Tables, enable: bool, ce: Key)
    requires Consistent(t) && ce in t.links
    ensures Consistent(t.(links := t.links[ce := t.links[ce].(enabled := enable)]))
  {
    hide NoDuplicates;
    var u := t.(links := t.links[ce := t.links[ce].(enabled := enable)]);
    SameReports(t, u);
  }

  /** Links that differ in their flags only, over no fewer events and variables. */
  lemma SameReports(t: Tables, u: Tables)
    requires Consistent(t) && u.reports == t.reports && t.events <= u.events && t.variables <= u.variables
    requires u.links.Keys == t.links.Keys && forall ce | ce in t.links :: u.links[ce].reports == t.links[ce].reports
    ensures Consistent(u)
  {
    hide NoDuplicates;
    forall ce | ce in u.links ensures LinkOk(u, ce, u.links[ce].reports) {
      assert LinkOk(t, ce, t.links[ce].reports);
    }
    forall r | r in u.reports ensures ReportOk(u, u.reports[r]) {
      assert ReportOk(t, t.reports[r]);
    }
  }

  lemma PerformKeeps(t: Tables, op: Operation)
    requires Consistent(t) && (op.LinkUp? ==> NamesOnce(op.requests))
    ensures Consistent(Perform(t, op))
  {
    hide Consistent, NamesOnce, LinkRefusal, DefineReports;
    match op
    case Define(batch) =>
      DefineReportsKeeps(t, batch);
    case LinkUp(batch) =>
      if LinkRefusal(t, batch).None? {
        LinkEventsKeepsIff(t, batch);
      }
    case Enable(enable, ceids) =>
      EnableEventsKeeps(t, enable, ceids);
      SameReports(t, EnableAll(t, enable));
    case RegisterVariable(id) =>
      SameReports(t, t.(variables := t.variables + {id}));
    case RegisterEvent(id) =>
      SameReports(t, t.(events := t.events + {id}));
  }

  /**
   * Over every sequence of requests and registrations in which no batch of link requests names a report twice for one
   * event: every linked report is defined, no link is empty or holds a duplicate, every linked event and every
   * variable is registered.
   */
  lemma {:induction false} AlwaysConsistent(ops: seq<Operation>)
    requires LinksOnce(ops)
    ensures Consistent(Run(ops))
  {
    hide Perform, NamesOnce;
    if ops == [] {
      EmptyConsistent();
    } else {
      AlwaysConsistent(ops[..|ops| - 1]);
      PerformKeeps(Run(ops[..|ops| - 1]), ops[|ops| - 1]);
    }
  }

  lemma EmptyConsistent()
    ensures Consistent(Tables(map[], map[], {}, {}))
  {
  }

  /** Without that condition: a report linked twice by one entry and then deleted stays linked, undefined. */
  lemma DanglingReport()
    ensures var v, ce, r := Num(1), Num(2), Num(3);
      var t := Tables(map[r := [v]], map[], {ce}, {v});
      var linked := LinkEvents(t, [LinkRequest(ce, [r, r])]);
      var deleted := DefineReports(linked.tables, [Definition(r, [])]);
      && Consistent(t) && linked.outcome == Done(ACCEPT) && deleted.outcome == Done(ACCEPT)
      && deleted.tables.links == map[ce := Link([r], true)] && r !in deleted.tables.reports
      && deleted.tables.events == {ce}
  {
    var v, ce, r := Num(1), Num(2), Num(3);
    var t := Tables(map[r := [v]], map[], {ce}, {v});
    var request, d := LinkRequest(ce, [r, r]), Definition(r, []);
    assert ReportRefusal(t, request, 0) == None && ReportRefusal(t, request, 1) == None;
    OneRequest(t, request);
    var u := ApplyLink(t, request);
    assert u.reports == t.reports && u.links[ce].reports == [r, r];
    OneDefinition(u, d);
    assert [r, r][1..] == [r] && WithoutFirst([r, r], r) == [r];
    assert ce in Unlinked(u.links, r);
  }

  lemma OneRequest(t: Tables, request: LinkRequest)
    ensures ApplyLinks(t, [request]) == ApplyLink(t, request) && LinkRefusal(t, [request]) == RequestRefusal(t, request)
  {
    assert [request][..0] == [];
  }

  lemma OneDefinition(t: Tables, d: Definition)
    requires d.vids == []
    ensures DefineReports(t, [d]) == Result(RemoveReport(t, d.id), Done(ACCEPT))
  {
    assert [d][..0] == [];
    assert !Redefines(t, [d]) && !NamesUnknownVid(t, [d]);
    assert ApplyDefinitions(t, [d][..0]) == Result(t, Done(ACCEPT));
  }
}
