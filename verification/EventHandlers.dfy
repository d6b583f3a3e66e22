/** The handler object that edits the event-report tables in place. */
module EventHandlers {
  import opened Wrappers
  import opened EventTables

  class CollectionEventLink {
    var reports: seq<Key>
    var enabled: bool

    constructor (reports: seq<Key>)
      ensures this.reports == reports && enabled
    {
      this.reports, enabled := reports, true;
    }

    method RemoveReport(key: Key)
      modifies `reports
      ensures reports == WithoutFirst(old(reports), key)
    {
      for idx := 0 to |reports|
        invariant reports == old(reports)
        invariant forall i | 0 <= i < idx :: reports[i] != key
      {
        if reports[idx] == key {
          WithoutAt(reports, key, idx);
          reports := reports[..idx] + reports[idx + 1..];
          return;
        }
      }
      WithoutNone(reports, key);
    }
  }

  lemma {:induction false} WithoutAt(s: seq<Key>, key: Key, idx: nat)
    requires idx < |s| && s[idx] == key && forall i | 0 <= i < idx :: s[i] != key
    ensures WithoutFirst(s, key) == s[..idx] + s[idx + 1..]
  {
    if idx > 0 {
      WithoutAt(s[1..], key, idx - 1);
      assert s[..idx] == [s[0]] + s[1..][..idx - 1] && s[1..][idx..] == s[idx + 1..];
    }
  }

  lemma {:induction false} WithoutNone(s: seq<Key>, key: Key)
    requires forall i | 0 <= i < |s| :: s[i] != key
    ensures WithoutFirst(s, key) == s
  {
    if s != [] {
      WithoutNone(s[1..], key);
    }
  }

  /** The links once `ce` has forgotten the report. */
  ghost function Stripped(links: map<Key, Link>, ce: Key, key: Key): map<Key, Link>
    requires ce in links
  {
    var rest := WithoutFirst(links[ce].reports, key);
    if rest == [] then links - {ce} else links[ce := links[ce].(reports := rest)]
  }

  /** The links when all but those of `remaining` have forgotten the report. */
  ghost function PartlyUnlinked(links: map<Key, Link>, remaining: set<Key>, key: Key): map<Key, Link> {
    map ce | ce in links && (ce in remaining || WithoutFirst(links[ce].reports, key) != []) ::
      if ce in remaining then links[ce] else links[ce].(reports := WithoutFirst(links[ce].reports, key))
  }

  lemma AllStanding(links: map<Key, Link>, key: Key)
    ensures PartlyUnlinked(links, links.Keys, key) == links
  {
    hide WithoutFirst;
  }

  lemma NoneStanding(links: map<Key, Link>, key: Key)
    ensures PartlyUnlinked(links, {}, key) == Unlinked(links, key)
  {
    hide WithoutFirst;
  }

  lemma UnlinkOne(links: map<Key, Link>, remaining: set<Key>, ce: Key, key: Key)
    requires ce in remaining && ce in links
    ensures ce in PartlyUnlinked(links, remaining, key)
    ensures PartlyUnlinked(links, remaining - {ce}, key) == Stripped(PartlyUnlinked(links, remaining, key), ce, key)
  {
    hide WithoutFirst;
  }

  class GemHandler {
    var reports: map<Key, seq<Key>>
    var eventLinks: map<Key, CollectionEventLink>
    var events: set<Key>
    var variables: set<Key>

    /** No two events share a link object. */
    ghost predicate Valid()
      reads this
    {
      forall a, b | a in eventLinks && b in eventLinks && a != b :: eventLinks[a] != eventLinks[b]
    }

    ghost function LinkView(ce: Key): Link
      requires ce in eventLinks
      reads this, eventLinks.Values
    {
      Link(eventLinks[ce].reports, eventLinks[ce].enabled)
    }

    ghost function View(): Tables
      reads this, eventLinks.Values
    {
      Tables(reports, map ce | ce in eventLinks :: LinkView(ce), events, variables)
    }

    constructor ()
      ensures Valid() && View() == Tables(map[], map[], {}, {})
    {
      reports, eventLinks, events, variables := map[], map[], {}, {};
    }

    /** One turn of deleting a report: the link forgets it, and goes when nothing is left. */
    method StripLink(ceKey: Key, reportKey: Key)
      requires Valid() && ceKey in eventLinks
      modifies `eventLinks, eventLinks.Values
      ensures Valid() && View() == old(View()).(links := Stripped(old(View()).links, ceKey, reportKey))
      ensures eventLinks.Values <= old(eventLinks.Values)
    {
      hide WithoutFirst;
      var link := eventLinks[ceKey];
      link.RemoveReport(reportKey);
      assert forall ce | ce in eventLinks && ce != ceKey :: LinkView(ce) == old(LinkView(ce));
      if |link.reports| == 0 {
        eventLinks := eventLinks - {ceKey};
      }
    }

    /** The first step of deleting a report: its definition goes. */
    method DropDefinition(reportKey: Key)
      requires Valid()
      modifies `reports
      ensures Valid() && View() == old(View()).(reports := old(View()).reports - {reportKey})
      ensures eventLinks == old(eventLinks)
    {
      reports := reports - {reportKey};
    }

    lemma LinkKeys()
      ensures View().links.Keys == eventLinks.Keys
    {
    }

    method RemoveReportUnlocked(reportKey: Key)
      requires Valid()
      modifies this, eventLinks.Values
      ensures Valid() && View() == RemoveReport(old(View()), reportKey)
      ensures eventLinks.Values <= old(eventLinks.Values)
    {
      hide Stripped, WithoutFirst, Valid, View, PartlyUnlinked;
      DropDefinition(reportKey);
      var remaining := eventLinks.Keys;
      ghost var before := View();
      LinkKeys();
      AllStanding(before.links, reportKey);
      while remaining != {}
        invariant Valid() && remaining <= before.links.Keys && eventLinks.Values <= old(eventLinks.Values)
        invariant View() == before.(links := PartlyUnlinked(before.links, remaining, reportKey))
        decreases |remaining|
      {
        var ceKey :| ceKey in remaining;
        UnlinkOne(before.links, remaining, ceKey, reportKey);
        LinkKeys();
        assert ceKey in View().links;
        StripLink(ceKey, reportKey);
        remaining := remaining - {ceKey};
      }
      NoneStanding(before.links, reportKey);
    }

    method DefineReport(rpt: Definition) returns (outcome: Outcome)
      requires Valid()
      modifies this, eventLinks.Values
      ensures Valid() && Result(View(), outcome) == ApplyDefinition(old(View()), rpt)
      ensures outcome == Done(ACCEPT) || outcome == Panicked
      ensures eventLinks.Values <= old(eventLinks.Values)
    {
      outcome := Done(ACCEPT);
      if rpt.vids == [] {
        RemoveReportUnlocked(rpt.id);
      } else if !IsBuildable(rpt.id) {
        outcome := Panicked;
      } else {
        reports := reports[rpt.id := rpt.vids];
      }
    }

    method HandleReportDefinitions(batch: seq<Definition>) returns (outcome: Outcome)
      requires Valid()
      modifies this, eventLinks.Values
      ensures Valid() && Result(View(), outcome) == DefineReports(old(View()), batch)
    {
      hide ApplyDefinition;
      if |batch| == 0 {
        eventLinks := map[];
        reports := map[];
        return Done(ACCEPT);
      }
      for i := 0 to |batch|
        invariant View() == old(View()) && Valid() && eventLinks == old(eventLinks)
        invariant forall j | 0 <= j < i :: batch[j].vids == [] || batch[j].id !in reports
      {
        if batch[i].id in reports && |batch[i].vids| > 0 {
          return Done(DRACK_REDEFINED);
        }
      }
      var known := AllVidsExist(batch);
      if !known {
        return Done(DRACK_UNKNOWN_VID);
      }
      assert !Redefines(old(View()), batch);
      outcome := Done(ACCEPT);
      assert batch[..0] == [];
      for i := 0 to |batch|
        invariant Valid() && eventLinks.Values <= old(eventLinks.Values)
        invariant Result(View(), Done(ACCEPT)) == ApplyDefinitions(old(View()), batch[..i])
      {
        assert batch[..i + 1][..i] == batch[..i];
        var one := DefineReport(batch[i]);
        if one == Panicked {
          PanicStays(old(View()), batch, i + 1);
          return Panicked;
        }
      }
      assert batch[..|batch|] == batch;
    }

    method AllVidsExist(batch: seq<Definition>) returns (known: bool)
      ensures known <==> !NamesUnknownVid(View(), batch)
    {
      for i := 0 to |batch|
        invariant forall k, j | 0 <= k < i && 0 <= j < |batch[k].vids| :: batch[k].vids[j] in variables
      {
        for j := 0 to |batch[i].vids|
          invariant forall l | 0 <= l < j :: batch[i].vids[l] in variables
        {
          if batch[i].vids[j] !in variables {
            return false;
          }
        }
      }
      return true;
    }

    method CheckReports(request: LinkRequest) returns (refusal: Option<nat>)
      ensures refusal == ReportRefusal(View(), request, |request.rptids|)
    {
      for j := 0 to |request.rptids|
        invariant ReportRefusal(View(), request, j).None?
      {
        var rpt := request.rptids[j];
        if rpt !in reports {
          refusal := Some(LRACK_UNKNOWN_REPORT);
          RefusedEarly(View(), request, j + 1);
          return;
        }
        if request.ceid in eventLinks && rpt in eventLinks[request.ceid].reports {
          refusal := Some(LRACK_ALREADY_LINKED);
          RefusedEarly(View(), request, j + 1);
          return;
        }
      }
      return None;
    }

    method LinkEvent(request: LinkRequest)
      requires Valid()
      modifies this, eventLinks.Values
      ensures Valid() && View() == ApplyLink(old(View()), request)
      ensures forall ce | ce in eventLinks :: eventLinks[ce] in old(eventLinks.Values) || fresh(eventLinks[ce])
    {
      var ce := request.ceid;
      if |request.rptids| == 0 {
        eventLinks := eventLinks - {ce};
      } else if ce in eventLinks {
        var existing := eventLinks[ce];
        existing.reports := existing.reports + request.rptids;
      } else {
        var link := new CollectionEventLink(request.rptids);
        eventLinks := eventLinks[ce := link];
      }
    }

    method HandleEventReportLinks(batch: seq<LinkRequest>) returns (outcome: Outcome)
      requires Valid()
      modifies this, eventLinks.Values
      ensures Valid() && Result(View(), outcome) == LinkEvents(old(View()), batch)
    {
      hide ApplyLink, ReportRefusal;
      assert batch[..0] == [] && batch[..|batch|] == batch;
      for i := 0 to |batch|
        invariant View() == old(View()) && Valid() && eventLinks == old(eventLinks)
        invariant LinkRefusal(View(), batch[..i]).None?
      {
        assert batch[..i + 1][..i] == batch[..i];
        if batch[i].ceid !in events {
          BatchRefusedEarly(View(), batch, i + 1);
          return Done(LRACK_UNKNOWN_EVENT);
        }
        var refusal := CheckReports(batch[i]);
        if refusal.Some? {
          BatchRefusedEarly(View(), batch, i + 1);
          return Done(refusal.value);
        }
      }
      for i := 0 to |batch|
        invariant Valid() && View() == ApplyLinks(old(View()), batch[..i])
        invariant forall ce | ce in eventLinks :: eventLinks[ce] in old(eventLinks.Values) || fresh(eventLinks[ce])
      {
        assert batch[..i + 1][..i] == batch[..i];
        LinkEvent(batch[i]);
      }
      outcome := Done(ACCEPT);
    }
  }

  lemma {:induction false} PanicStays(t: Tables, batch: seq<Definition>, n: nat)
    requires n <= |batch| && ApplyDefinitions(t, batch[..n]).outcome == Panicked
    ensures ApplyDefinitions(t, batch) == ApplyDefinitions(t, batch[..n])
  {
    hide ApplyDefinition;
    if n == |batch| {
      assert batch[..n] == batch;
    } else {
      assert batch[..|batch| - 1][..n] == batch[..n];
      PanicStays(t, batch[..|batch| - 1], n);
    }
  }

  lemma {:induction false} RefusedEarlyAt(t: Tables, request: LinkRequest, n: nat, m: nat)
    requires n <= m <= |request.rptids| && ReportRefusal(t, request, n).Some?
    ensures ReportRefusal(t, request, m) == ReportRefusal(t, request, n)
  {
    hide ReportsOf;
    if n < m {
      RefusedEarlyAt(t, request, n, m - 1);
    }
  }

  lemma RefusedEarly(t: Tables, request: LinkRequest, n: nat)
    requires n <= |request.rptids| && ReportRefusal(t, request, n).Some?
    ensures ReportRefusal(t, request, |request.rptids|) == ReportRefusal(t, request, n)
  {
    RefusedEarlyAt(t, request, n, |request.rptids|);
  }

  lemma {:induction false} BatchRefusedEarly(t: Tables, batch: seq<LinkRequest>, n: nat)
    requires n <= |batch| && LinkRefusal(t, batch[..n]).Some?
    ensures LinkRefusal(t, batch) == LinkRefusal(t, batch[..n])
  {
    hide RequestRefusal;
    if n == |batch| {
      assert batch[..n] == batch;
    } else {
      assert batch[..|batch| - 1][..n] == batch[..n];
      BatchRefusedEarly(t, batch[..|batch| - 1], n);
    }
  }
}
