/**
 * The UP/DOWN state machine network discovery runs for every discovered host
 * and service: how a reported status changes the `status`, `lastup` and
 * `lastdown` of the record, which rows are written and which events are
 * emitted (`discovery_update_host_status` and `discovery_update_service_status`).
 */
module DiscoveryStatus {

  // Object status and event values of the Zabbix discovery definitions.
  const DOBJECT_STATUS_UP := 0
  const DOBJECT_STATUS_DOWN := 1
  const DOBJECT_STATUS_DISCOVER := 2
  const DOBJECT_STATUS_LOST := 3

  /** The status part of a discovered host or service record. */
  datatype Mark = Mark(status: int, lastup: int, lastdown: int)

  datatype ObjectKind = DHostObject | DServiceObject

  /** A discovery event handed to the event callback: object kind, object id,
      clock (seconds; nanoseconds are always 0) and value. */
  datatype Event = Event(kind: ObjectKind, objectId: nat, clock: int, value: int)

  /** A discovered service as `discovery_update_service_status` sees it (`DB_DSERVICE`). */
  datatype ServiceRecord = ServiceRecord(dserviceid: nat, mark: Mark, value: string)

  /** A reported status changes the record: UP when it was DOWN or never up,
      anything else when it was UP or never down. */
  predicate StatusChanges(m: Mark, reported: int) {
    if reported == DOBJECT_STATUS_UP then m.status == DOBJECT_STATUS_DOWN || m.lastup == 0
    else m.status == DOBJECT_STATUS_UP || m.lastdown == 0
  }

  /** The record after a report: stamped with the report time when it changes.
      An unchanged record stays as it is; a report at a real clock value settles it. */
  function NextMark(m: Mark, reported: int, now: int): (r: Mark)
    ensures !StatusChanges(m, reported) ==> r == m
    ensures now > 0 ==> !StatusChanges(r, reported)
  {
    if !StatusChanges(m, reported) then m
    else if reported == DOBJECT_STATUS_UP then Mark(reported, now, 0)
    else Mark(reported, 0, now)
  }

  /** The event that announces a change: DISCOVER for UP, LOST otherwise. */
  function ChangeEventValue(reported: int): int {
    if reported == DOBJECT_STATUS_UP then DOBJECT_STATUS_DISCOVER else DOBJECT_STATUS_LOST
  }

  /** The events `discovery_update_host_status` hands to the callback, if there is one:
      all about this host at `now`, the reported status last, one announcement before
      it exactly when the record changes. */
  function HostStatusEvents(dhostid: nat, m: Mark, reported: int, now: int, withCallback: bool): (r: seq<Event>)
    ensures |r| == (if !withCallback then 0 else if StatusChanges(m, reported) then 2 else 1)
    ensures forall i :: 0 <= i < |r| ==> r[i].kind == DHostObject && r[i].objectId == dhostid && r[i].clock == now
    ensures withCallback ==> r[|r| - 1].value == reported
  {
    if !withCallback then []
    else
      (if StatusChanges(m, reported) then [Event(DHostObject, dhostid, now, ChangeEventValue(reported))] else [])
      + [Event(DHostObject, dhostid, now, reported)]
  }

  /** A service coming up raises its host when the host is DOWN. */
  predicate HostRaisedBy(hostMark: Mark, service: Mark, reported: int) {
    reported == DOBJECT_STATUS_UP && StatusChanges(service, reported) && hostMark.status == DOBJECT_STATUS_DOWN
  }

  /** The host record after a service report: it changes exactly when the report
      raises the host, and then the host is UP since `now`. */
  function HostMarkAfterService(hostMark: Mark, service: Mark, reported: int, now: int): (r: Mark)
    ensures r != hostMark <==> HostRaisedBy(hostMark, service, reported)
    ensures HostRaisedBy(hostMark, service, reported) ==> r == Mark(DOBJECT_STATUS_UP, now, 0)
  {
    if HostRaisedBy(hostMark, service, reported) then Mark(DOBJECT_STATUS_UP, now, 0) else hostMark
  }

  /** The value column of the service after a report: a service reported UP
      carries the reported value, any other report keeps the old value. */
  function ServiceValueAfter(ds: ServiceRecord, reported: int, value: string): string {
    if reported == DOBJECT_STATUS_UP then value else ds.value
  }

  /** The events `discovery_update_service_status` hands to the callback, if there is one:
      all at `now`, the service's reported status last, a service announcement when the
      service changes, and a host event only when the host is raised, as a DISCOVER. */
  function ServiceStatusEvents(dhostid: nat, hostMark: Mark, ds: ServiceRecord, reported: int, now: int,
                               withCallback: bool): (r: seq<Event>)
    ensures |r| == (if !withCallback then 0
                    else 1 + (if StatusChanges(ds.mark, reported) then 1 else 0)
                           + (if HostRaisedBy(hostMark, ds.mark, reported) then 1 else 0))
    ensures forall i :: 0 <= i < |r| ==>
      && r[i].clock == now
      && (r[i].kind == DHostObject ==> r[i].objectId == dhostid && r[i].value == DOBJECT_STATUS_DISCOVER)
      && (r[i].kind == DServiceObject ==> r[i].objectId == ds.dserviceid)
    ensures withCallback ==> r[|r| - 1] == Event(DServiceObject, ds.dserviceid, now, reported)
  {
    if !withCallback then []
    else
      (if StatusChanges(ds.mark, reported)
       then [Event(DServiceObject, ds.dserviceid, now, ChangeEventValue(reported))] else [])
      + (if HostRaisedBy(hostMark, ds.mark, reported)
         then [Event(DHostObject, dhostid, now, DOBJECT_STATUS_DISCOVER)] else [])
      + [Event(DServiceObject, ds.dserviceid, now, reported)]
  }

  // ---------------------------------------------------------------------------
  // Single reports

  /** A host reported UP while DOWN or never up becomes UP, up since `now`, and is announced DISCOVERed. */
  lemma HostComesUp(dhostid: nat, m: Mark, now: int)
    requires m.status == DOBJECT_STATUS_DOWN || m.lastup == 0
    ensures NextMark(m, DOBJECT_STATUS_UP, now) == Mark(DOBJECT_STATUS_UP, now, 0)
    ensures HostStatusEvents(dhostid, m, DOBJECT_STATUS_UP, now, true) ==
      [Event(DHostObject, dhostid, now, DOBJECT_STATUS_DISCOVER), Event(DHostObject, dhostid, now, DOBJECT_STATUS_UP)]
  {
  }

  /** A host reported DOWN while UP or never down becomes DOWN, down since `now`, and is announced LOST. */
  lemma HostGoesDown(dhostid: nat, m: Mark, now: int)
    requires m.status == DOBJECT_STATUS_UP || m.lastdown == 0
    ensures NextMark(m, DOBJECT_STATUS_DOWN, now) == Mark(DOBJECT_STATUS_DOWN, 0, now)
    ensures HostStatusEvents(dhostid, m, DOBJECT_STATUS_DOWN, now, true) ==
      [Event(DHostObject, dhostid, now, DOBJECT_STATUS_LOST), Event(DHostObject, dhostid, now, DOBJECT_STATUS_DOWN)]
  {
  }

  /** In every other case the record stays as it is and only the status event is emitted. */
  lemma HostOtherwiseUnchanged(dhostid: nat, m: Mark, reported: int, now: int)
    requires !StatusChanges(m, reported)
    ensures NextMark(m, reported, now) == m
    ensures HostStatusEvents(dhostid, m, reported, now, true) == [Event(DHostObject, dhostid, now, reported)]
  {
  }

  /** With a callback, both status functions end with one event carrying the reported status,
      preceded only by DISCOVER/LOST announcements; without one, nothing is emitted. */
  lemma StatusEventLast(dhostid: nat, hostMark: Mark, ds: ServiceRecord, reported: int, now: int, withCallback: bool)
    ensures var h := HostStatusEvents(dhostid, hostMark, reported, now, withCallback);
      var s := ServiceStatusEvents(dhostid, hostMark, ds, reported, now, withCallback);
      && (!withCallback ==> h == [] && s == [])
      && (withCallback ==>
            && 1 <= |h| <= 2 && h[|h| - 1] == Event(DHostObject, dhostid, now, reported)
            && 1 <= |s| <= 3 && s[|s| - 1] == Event(DServiceObject, ds.dserviceid, now, reported)
            && (forall i :: 0 <= i < |h| - 1 ==> h[i].value in {DOBJECT_STATUS_DISCOVER, DOBJECT_STATUS_LOST})
            && (forall i :: 0 <= i < |s| - 1 ==> s[i].value in {DOBJECT_STATUS_DISCOVER, DOBJECT_STATUS_LOST}))
  {
  }

  /** A service coming up is up since `now` with the reported value; a DOWN host comes up with it. */
  lemma ServiceComesUp(hostMark: Mark, ds: ServiceRecord, value: string, now: int)
    requires ds.mark.status == DOBJECT_STATUS_DOWN || ds.mark.lastup == 0
    ensures NextMark(ds.mark, DOBJECT_STATUS_UP, now) == Mark(DOBJECT_STATUS_UP, now, 0)
    ensures ServiceValueAfter(ds, DOBJECT_STATUS_UP, value) == value
    ensures hostMark.status == DOBJECT_STATUS_DOWN ==>
      HostMarkAfterService(hostMark, ds.mark, DOBJECT_STATUS_UP, now) == Mark(DOBJECT_STATUS_UP, now, 0)
    ensures hostMark.status != DOBJECT_STATUS_DOWN ==>
      HostMarkAfterService(hostMark, ds.mark, DOBJECT_STATUS_UP, now) == hostMark
  {
  }

  /** An already-UP service reported UP keeps its record and, through the value, only follows the report. */
  lemma ServiceStaysUp(hostMark: Mark, ds: ServiceRecord, value: string, now: int)
    requires ds.mark.status != DOBJECT_STATUS_DOWN && ds.mark.lastup != 0
    ensures NextMark(ds.mark, DOBJECT_STATUS_UP, now) == ds.mark
    ensures HostMarkAfterService(hostMark, ds.mark, DOBJECT_STATUS_UP, now) == hostMark
  {
  }

  /** A service going DOWN is down since `now`, keeps its value and leaves its host alone. */
  lemma ServiceGoesDown(hostMark: Mark, ds: ServiceRecord, reported: int, value: string, now: int)
    requires reported != DOBJECT_STATUS_UP
    requires ds.mark.status == DOBJECT_STATUS_UP || ds.mark.lastdown == 0
    ensures NextMark(ds.mark, reported, now) == Mark(reported, 0, now)
    ensures ServiceValueAfter(ds, reported, value) == ds.value
    ensures HostMarkAfterService(hostMark, ds.mark, reported, now) == hostMark
  {
  }

  /** Reporting the same status again (at a real clock value) changes nothing more. */
  lemma RepeatedReportIsStable(m: Mark, reported: int, now: int, later: int)
    requires now > 0
    ensures !StatusChanges(NextMark(m, reported, now), reported)
    ensures NextMark(NextMark(m, reported, now), reported, later) == NextMark(m, reported, now)
  {
  }

  // ---------------------------------------------------------------------------
  // Runs of reports

  /** A status report: the reported status and the clock at which it is processed. */
  datatype Report = Report(status: int, now: int)

  /** The DISCOVER/LOST announcements a run of reports produces for one object. */
  function ChangeValues(m: Mark, reports: seq<Report>): seq<int>
    decreases |reports|
  {
    if reports == [] then []
    else
      var r := reports[0];
      (if StatusChanges(m, r.status) then [ChangeEventValue(r.status)] else [])
      + ChangeValues(NextMark(m, r.status, r.now), reports[1..])
  }

  predicate Alternates(vs: seq<int>) {
    forall i :: 0 <= i < |vs| - 1 ==> vs[i] != vs[i + 1]
  }

  /** The record right after announcement `v`. */
  predicate SettledAfter(m: Mark, v: int) {
    (v == DOBJECT_STATUS_DISCOVER ==> m.status == DOBJECT_STATUS_UP && m.lastup > 0 && m.lastdown == 0)
    && (v == DOBJECT_STATUS_LOST ==> m.status != DOBJECT_STATUS_UP && m.lastdown > 0 && m.lastup == 0)
  }

  lemma {:induction false} AlternatesAfter(m: Mark, reports: seq<Report>, last: int)
    requires last == DOBJECT_STATUS_DISCOVER || last == DOBJECT_STATUS_LOST || last == -1
    requires last != -1 ==> SettledAfter(m, last)
    requires forall i :: 0 <= i < |reports| ==> reports[i].now > 0
    ensures Alternates(ChangeValues(m, reports))
    ensures |ChangeValues(m, reports)| > 0 ==> ChangeValues(m, reports)[0] != last
    decreases |reports|
  {
    if reports != [] {
      var r := reports[0];
      var m' := NextMark(m, r.status, r.now);
      var rest := reports[1..];
      if StatusChanges(m, r.status) {
        var v := ChangeEventValue(r.status);
        AlternatesAfter(m', rest, v);
        var tail := ChangeValues(m', rest);
        assert ChangeValues(m, reports) == [v] + tail;
        assert v != last;
        forall i | 0 <= i < |[v] + tail| - 1
          ensures ([v] + tail)[i] != ([v] + tail)[i + 1]
        {
          if i > 0 {
            assert ([v] + tail)[i] == tail[i - 1];
          }
        }
      } else {
        assert m' == m;
        AlternatesAfter(m', rest, last);
        assert ChangeValues(m, reports) == ChangeValues(m', rest);
      }
    }
  }

  /** Over any run of reports with real clock values, DISCOVER and LOST
      announcements for one object strictly alternate. */
  lemma ChangeEventsAlternate(m: Mark, reports: seq<Report>)
    requires forall i :: 0 <= i < |reports| ==> reports[i].now > 0
    ensures Alternates(ChangeValues(m, reports))
  {
    AlternatesAfter(m, reports, -1);
  }
}
