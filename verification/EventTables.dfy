/** The event-report configuration: which variables a report holds, and which reports an event is linked to. */
module EventTables {
  import opened Wrappers
  import Items

  /** Numeric and textual identifiers never coincide. */
  datatype Key = Num(n: nat) | Str(text: seq<Items.byte>)

  datatype Link = Link(reports: seq<Key>, enabled: bool)

  datatype Tables = Tables(reports: map<Key, seq<Key>>, links: map<Key, Link>, events: set<Key>, variables: set<Key>)

  datatype Definition = Definition(id: Key, vids: seq<Key>)

  datatype LinkRequest = LinkRequest(ceid: Key, rptids: seq<Key>)

  /** The acknowledge code of a request, or a panic that leaves it half applied. */
  datatype Outcome = Done(code: nat) | Panicked

  datatype Result = Result(tables: Tables, outcome: Outcome)

  const ACCEPT := 0
  const DRACK_REDEFINED := 3
  const DRACK_UNKNOWN_VID := 4
  const LRACK_ALREADY_LINKED := 3
  const LRACK_UNKNOWN_EVENT := 4
  const LRACK_UNKNOWN_REPORT := 5

  /** Identifiers of registrations and definitions become items, of 4 bytes for a number; what does not fit panics. */
  predicate IsBuildable(id: Key) {
    match id
    case Num(n) => n < 0x1_0000_0000
    case Str(text) => Items.Rep(Items.Ascii(text))
  }

  predicate NoDuplicates(s: seq<Key>) {
    forall i, j | 0 <= i < j < |s| :: s[i] != s[j]
  }

  /** The sequence without the first occurrence of `key`. */
  function WithoutFirst(s: seq<Key>, key: Key): seq<Key> {
    if s == [] then [] else if s[0] == key then s[1..] else [s[0]] + WithoutFirst(s[1..], key)
  }

  function Unlinked(links: map<Key, Link>, key: Key): map<Key, Link> {
    map ce | ce in links && WithoutFirst(links[ce].reports, key) != [] ::
      links[ce].(reports := WithoutFirst(links[ce].reports, key))
  }

  // Defining and deleting reports (S2F33)

  function RemoveReport(t: Tables, key: Key): Tables {
    t.(reports := t.reports - {key}, links := Unlinked(t.links, key))
  }

  function ApplyDefinition(t: Tables, d: Definition): Result {
    if d.vids == [] then Result(RemoveReport(t, d.id), Done(ACCEPT))
    else if !IsBuildable(d.id) then Result(t, Panicked)
    else Result(t.(reports := t.reports[d.id := d.vids]), Done(ACCEPT))
  }

  /** The entries in order, up to the first that panics. */
  function ApplyDefinitions(t: Tables, batch: seq<Definition>): Result {
    if batch == [] then Result(t, Done(ACCEPT))
    else
      var before := ApplyDefinitions(t, batch[..|batch| - 1]);
      if before.outcome == Panicked then before else ApplyDefinition(before.tables, batch[|batch| - 1])
  }

  predicate Redefines(t: Tables, batch: seq<Definition>) {
    exists i | 0 <= i < |batch| :: batch[i].vids != [] && batch[i].id in t.reports
  }

  predicate NamesUnknownVid(t: Tables, batch: seq<Definition>) {
    exists i, j | 0 <= i < |batch| && 0 <= j < |batch[i].vids| :: batch[i].vids[j] !in t.variables
  }

  function DefineReports(t: Tables, batch: seq<Definition>): Result {
    if batch == [] then Result(t.(reports := map[], links := map[]), Done(ACCEPT))
    else if Redefines(t, batch) then Result(t, Done(DRACK_REDEFINED))
    else if NamesUnknownVid(t, batch) then Result(t, Done(DRACK_UNKNOWN_VID))
    else ApplyDefinitions(t, batch)
  }

  // Linking events to reports (S2F35)

  function ReportsOf(t: Tables, ce: Key): seq<Key> {
    if ce in t.links then t.links[ce].reports else []
  }

  /** The first reason to refuse one of the first `n` reports of an entry. */
  function ReportRefusal(t: Tables, request: LinkRequest, n: nat): Option<nat>
    requires n <= |request.rptids|
  {
    if n == 0 then None
    else if ReportRefusal(t, request, n - 1).Some? then ReportRefusal(t, request, n - 1)
    else if request.rptids[n - 1] !in t.reports then Some(LRACK_UNKNOWN_REPORT)
    else if request.rptids[n - 1] in ReportsOf(t, request.ceid) then Some(LRACK_ALREADY_LINKED)
    else None
  }

  function RequestRefusal(t: Tables, request: LinkRequest): Option<nat> {
    if request.ceid !in t.events then Some(LRACK_UNKNOWN_EVENT)
    else ReportRefusal(t, request, |request.rptids|)
  }

  function LinkRefusal(t: Tables, batch: seq<LinkRequest>): Option<nat> {
    if batch == [] then None
    else if LinkRefusal(t, batch[..|batch| - 1]).Some? then LinkRefusal(t, batch[..|batch| - 1])
    else RequestRefusal(t, batch[|batch| - 1])
  }

  function ApplyLink(t: Tables, request: LinkRequest): Tables {
    var ce := request.ceid;
    if request.rptids == [] then t.(links := t.links - {ce})
    else if ce in t.links then t.(links := t.links[ce := t.links[ce].(reports := t.links[ce].reports + request.rptids)])
    else t.(links := t.links[ce := Link(request.rptids, true)])
  }

  function ApplyLinks(t: Tables, batch: seq<LinkRequest>): Tables {
    if batch == [] then t else ApplyLink(ApplyLinks(t, batch[..|batch| - 1]), batch[|batch| - 1])
  }

  function LinkEvents(t: Tables, batch: seq<LinkRequest>): Result {
    var refusal := LinkRefusal(t, batch);
    if refusal.Some? then Result(t, Done(refusal.value)) else Result(ApplyLinks(t, batch), Done(ACCEPT))
  }

  // Enabling events (S2F37): a prefix is applied before an unknown event is refused

  function EnableEvents(t: Tables, enable: bool, ceids: seq<Key>): Tables
    decreases |ceids|
  {
    if ceids == [] then t
    else if ceids[0] in t.links then
      EnableEvents(t.(links := t.links[ceids[0] := t.links[ceids[0]].(enabled := enable)]), enable, ceids[1..])
    else t
  }

  function EnableAll(t: Tables, enable: bool): Tables {
    t.(links := map ce | ce in t.links :: t.links[ce].(enabled := enable))
  }

  /** Up to the first event without a link, the events named are enabled or disabled, and nothing else changes. */
  lemma {:induction false} EnableEffect(t: Tables, enable: bool, ceids: seq<Key>, ce: Key)
    ensures var u := EnableEvents(t, enable, ceids);
      && u.(links := t.links) == t && u.links.Keys == t.links.Keys
      && (ce in t.links ==> u.links[ce] == Link(t.links[ce].reports,
            if exists i | 0 <= i < |ceids| :: ceids[i] == ce && forall k | 0 <= k < i :: ceids[k] in t.links
            then enable else t.links[ce].enabled))
    decreases |ceids|
  {
    if ceids != [] && ceids[0] in t.links {
      var next := t.(links := t.links[ceids[0] := t.links[ceids[0]].(enabled := enable)]);
      var rest := ceids[1..];
      EnableEffect(next, enable, rest, ce);
      if i :| 0 <= i < |rest| && rest[i] == ce && forall k | 0 <= k < i :: rest[k] in next.links {
        assert ceids[i + 1] == ce && forall k | 0 <= k < i + 1 :: ceids[k] in t.links;
      }
      if i :| 0 < i < |ceids| && ceids[i] == ce && forall k | 0 <= k < i :: ceids[k] in t.links {
        assert rest[i - 1] == ce && forall k | 0 <= k < i - 1 :: rest[k] in next.links;
      }
    }
  }

  lemma EnableAllEffect(t: Tables, enable: bool)
    ensures var u := EnableAll(t, enable);
      && u.(links := t.links) == t && u.links.Keys == t.links.Keys
      && forall ce | ce in t.links :: u.links[ce] == Link(t.links[ce].reports, enable)
  {
  }

  // Atomicity

  predicate AllBuildable(batch: seq<Definition>) {
    forall i | 0 <= i < |batch| && batch[i].vids != [] :: IsBuildable(batch[i].id)
  }

  lemma {:induction false} PanicsIff(t: Tables, batch: seq<Definition>)
    ensures ApplyDefinitions(t, batch).outcome == if AllBuildable(batch) then Done(ACCEPT) else Panicked
  {
    if batch != [] {
      var front, last := batch[..|batch| - 1], batch[|batch| - 1];
      PanicsIff(t, front);
      assert batch == front + [last];
    }
  }

  /** An identifier no item of 4 bytes, or no ASCII item, can hold. */
  predicate IsUnfit(id: Key) {
    match id
    case Num(n) => n > 0xFFFF_FFFF
    case Str(text) => |text| > 0xFF_FFFF || exists c | c in text :: c > 0x7F
  }

  /**
   * Which batch has which outcome: 3 for one that defines a report again, else 4 for one that names an unknown
   * variable, else a panic for an id to define that no item can hold. A refused batch changes nothing.
   */
  lemma DefineReportsAtomic(t: Tables, batch: seq<Definition>)
    ensures var r := DefineReports(t, batch);
      var again := exists i | 0 <= i < |batch| :: batch[i].vids != [] && batch[i].id in t.reports;
      var unknown := exists i, j | 0 <= i < |batch| && 0 <= j < |batch[i].vids| :: batch[i].vids[j] !in t.variables;
      var unfit := exists i | 0 <= i < |batch| :: batch[i].vids != [] && IsUnfit(batch[i].id);
      && r.outcome == (if again then Done(3) else if unknown then Done(4) else if unfit then Panicked else Done(0))
      && (again || unknown ==> r.tables == t)
  {
    PanicsIff(t, batch);
    forall i | 0 <= i < |batch| ensures IsUnfit(batch[i].id) <==> !IsBuildable(batch[i].id) {
    }
  }

  /** The event is registered, and its reports are defined and not linked yet. */
  predicate Linkable(t: Tables, request: LinkRequest) {
    && request.ceid in t.events
    && forall j | 0 <= j < |request.rptids| ::
      request.rptids[j] in t.reports && request.rptids[j] !in ReportsOf(t, request.ceid)
  }

  /**
   * The code an entry is refused with: 4 for an event that is not registered, else what is wrong with its first report
   * that is not defined, which is 5, or linked already, which is 3.
   */
  predicate RefusedWith(t: Tables, request: LinkRequest, code: nat) {
    if request.ceid !in t.events then code == 4
    else
      exists j | 0 <= j < |request.rptids| ::
        && (request.rptids[j] !in t.reports || request.rptids[j] in ReportsOf(t, request.ceid))
        && (forall k | 0 <= k < j ::
              request.rptids[k] in t.reports && request.rptids[k] !in ReportsOf(t, request.ceid))
        && code == if request.rptids[j] !in t.reports then 5 else 3
  }

  /**
   * A batch is accepted exactly when every entry is linkable as the tables stood before it; otherwise the first that is
   * not decides how it is refused, and nothing changes.
   */
  lemma LinkEventsAtomic(t: Tables, batch: seq<LinkRequest>)
    ensures var r := LinkEvents(t, batch);
      && r.outcome.Done?
      && (r.outcome.code == 0 <==> forall i | 0 <= i < |batch| :: Linkable(t, batch[i]))
      && (r.outcome.code != 0 ==>
        && r.tables == t
        && exists i | 0 <= i < |batch| ::
          (forall k | 0 <= k < i :: Linkable(t, batch[k])) && RefusedWith(t, batch[i], r.outcome.code))
  {
    hide LinkRefusal, Linkable, RefusedWith;
    RefusalCode(t, batch);
    RefusedIff(t, batch);
    if LinkRefusal(t, batch).Some? {
      FirstRefused(t, batch);
    }
  }

  lemma {:induction false} FirstRefused(t: Tables, batch: seq<LinkRequest>)
    requires LinkRefusal(t, batch).Some?
    ensures exists i | 0 <= i < |batch| ::
      (forall k | 0 <= k < i :: Linkable(t, batch[k])) && RefusedWith(t, batch[i], LinkRefusal(t, batch).value)
  {
    hide RequestRefusal, Linkable, RefusedWith;
    var n := |batch| - 1;
    if LinkRefusal(t, batch[..n]).Some? {
      FirstRefused(t, batch[..n]);
      var i :| 0 <= i < n && (forall k | 0 <= k < i :: Linkable(t, batch[..n][k]))
        && RefusedWith(t, batch[..n][i], LinkRefusal(t, batch[..n]).value);
      assert batch[i] == batch[..n][i] && forall k | 0 <= k < i :: batch[k] == batch[..n][k];
    } else {
      RefusedIff(t, batch[..n]);
      assert forall k | 0 <= k < n :: batch[k] == batch[..n][k];
      EntryRefused(t, batch[n]);
    }
  }

  lemma EntryRefused(t: Tables, request: LinkRequest)
    requires RequestRefusal(t, request).Some?
    ensures RefusedWith(t, request, RequestRefusal(t, request).value)
  {
    hide ReportRefusal, ReportsOf;
    if request.ceid in t.events {
      var j := FirstReportRefused(t, request, |request.rptids|);
    }
  }

  lemma {:induction false} FirstReportRefused(t: Tables, request: LinkRequest, n: nat) returns (j: nat)
    requires n <= |request.rptids| && ReportRefusal(t, request, n).Some?
    ensures j < n && (request.rptids[j] !in t.reports || request.rptids[j] in ReportsOf(t, request.ceid))
    ensures forall k | 0 <= k < j :: request.rptids[k] in t.reports && request.rptids[k] !in ReportsOf(t, request.ceid)
    ensures ReportRefusal(t, request, n).value == if request.rptids[j] !in t.reports then 5 else 3
  {
    hide ReportsOf;
    if ReportRefusal(t, request, n - 1).Some? {
      j := FirstReportRefused(t, request, n - 1);
    } else {
      ReportRefusedIff(t, request, n - 1);
      j := n - 1;
    }
  }

  lemma {:induction false} RefusedIff(t: Tables, batch: seq<LinkRequest>)
    ensures LinkRefusal(t, batch).None? <==> forall i | 0 <= i < |batch| :: Linkable(t, batch[i])
  {
    hide RequestRefusal, Linkable;
    if batch != [] {
      RefusedIff(t, batch[..|batch| - 1]);
      EntryRefusedIff(t, batch[|batch| - 1]);
    }
  }

  lemma EntryRefusedIff(t: Tables, request: LinkRequest)
    ensures RequestRefusal(t, request).None? <==> Linkable(t, request)
  {
    hide ReportRefusal, ReportsOf;
    ReportRefusedIff(t, request, |request.rptids|);
  }

  lemma {:induction false} ReportRefusedIff(t: Tables, request: LinkRequest, n: nat)
    requires n <= |request.rptids|
    ensures ReportRefusal(t, request, n).None?
        <==> forall j | 0 <= j < n :: request.rptids[j] in t.reports && request.rptids[j] !in ReportsOf(t, request.ceid)
  {
    hide ReportsOf;
    if n > 0 {
      ReportRefusedIff(t, request, n - 1);
    }
  }

  lemma {:induction false} ReportRefusalCode(t: Tables, request: LinkRequest, n: nat)
    requires n <= |request.rptids|
    ensures ReportRefusal(t, request, n).Some? ==> ReportRefusal(t, request, n).value != ACCEPT
  {
    if n > 0 {
      ReportRefusalCode(t, request, n - 1);
    }
  }

  lemma {:induction false} RefusalCode(t: Tables, batch: seq<LinkRequest>)
    ensures LinkRefusal(t, batch).Some? ==> LinkRefusal(t, batch).value != ACCEPT
  {
    if batch != [] {
      RefusalCode(t, batch[..|batch| - 1]);
      ReportRefusalCode(t, batch[|batch| - 1], |batch[|batch| - 1].rptids|);
    }
  }
}
