/**
 * Registration of discovered hosts and services and the processing of their
 * reported status (`zbx_discovery_update_host`, `zbx_discovery_update_service`
 * and the static helpers they call), over the `dhosts` and `dservices` tables.
 */
module Discovery {
  import opened Wrappers
  import opened DiscoveryStatus

  /** A row of `dhosts`. */
  datatype HostRow = HostRow(druleid: nat, mark: Mark)

  /** A row of `dservices`. */
  datatype ServiceRow = ServiceRow(dhostid: nat, dcheckid: nat, ip: string, dns: string, port: int,
                                   mark: Mark, value: string)

  /** Column defaults of the schema for the columns an insert leaves out. */
  datatype ColumnDefaults = ColumnDefaults(hostMark: Mark, serviceLastup: int, serviceLastdown: int,
                                           serviceValue: string)

  /** `update dhosts set status,lastup,lastdown ... where dhostid=...`: only the status
      columns of that one row change. */
  function WriteHostMark(rows: map<nat, HostRow>, dhostid: nat, m: Mark): (r: map<nat, HostRow>)
    ensures r.Keys == rows.Keys
    ensures forall id :: id in rows ==> r[id] == if id == dhostid then HostRow(rows[id].druleid, m) else rows[id]
  {
    if dhostid in rows then rows[dhostid := rows[dhostid].(mark := m)] else rows
  }

  /** `update dservices set status,lastup,lastdown,value ... where dserviceid=...`: only
      the status and value columns of that one row change. */
  function WriteServiceRow(rows: map<nat, ServiceRow>, dserviceid: nat, m: Mark, value: string)
    : (r: map<nat, ServiceRow>)
    ensures r.Keys == rows.Keys
    ensures forall sid :: sid in rows && sid != dserviceid ==> r[sid] == rows[sid]
    ensures dserviceid in rows ==>
      r[dserviceid].mark == m && r[dserviceid].value == value
      && r[dserviceid].(mark := rows[dserviceid].mark, value := rows[dserviceid].value) == rows[dserviceid]
  {
    if dserviceid in rows then rows[dserviceid := rows[dserviceid].(mark := m, value := value)] else rows
  }

  /** `update dservices set value ... where dserviceid=...`: only the value of that one row changes. */
  function WriteServiceValue(rows: map<nat, ServiceRow>, dserviceid: nat, value: string): (r: map<nat, ServiceRow>)
    ensures r.Keys == rows.Keys
    ensures forall sid :: sid in rows && sid != dserviceid ==> r[sid] == rows[sid]
    ensures dserviceid in rows ==>
      r[dserviceid].value == value && r[dserviceid].(value := rows[dserviceid].value) == rows[dserviceid]
  {
    if dserviceid in rows then rows[dserviceid := rows[dserviceid].(value := value)] else rows
  }

  /** The rows of `dservices` after a service report: no row is added or removed, and
      every row but the reported service's stays as it is. */
  function ServiceRowsAfter(rows: map<nat, ServiceRow>, ds: ServiceRecord, reported: int, value: string, now: int)
    : (r: map<nat, ServiceRow>)
    ensures r.Keys == rows.Keys
    ensures forall sid :: sid in rows && sid != ds.dserviceid ==> r[sid] == rows[sid]
  {
    if StatusChanges(ds.mark, reported) then
      WriteServiceRow(rows, ds.dserviceid, NextMark(ds.mark, reported, now), ServiceValueAfter(ds, reported, value))
    else if reported == DOBJECT_STATUS_UP && ds.value != value then
      WriteServiceValue(rows, ds.dserviceid, value)
    else rows
  }

  /** A service report writes at most the reported service's row: a change stamps
      it with the new mark (and, for UP, the reported value); an unchanged UP
      service gets the reported value, and a write happens only if the value differs. */
  lemma ServiceReportTouchesOneRow(rows: map<nat, ServiceRow>, ds: ServiceRecord, reported: int, value: string,
                                   now: int)
    requires ds.dserviceid in rows
    ensures var after := ServiceRowsAfter(rows, ds, reported, value, now);
      && after.Keys == rows.Keys
      && (forall sid :: sid in rows && sid != ds.dserviceid ==> after[sid] == rows[sid])
      && (StatusChanges(ds.mark, reported) ==>
            && after[ds.dserviceid].mark == NextMark(ds.mark, reported, now)
            && after[ds.dserviceid].value == (if reported == DOBJECT_STATUS_UP then value else ds.value))
      && (!StatusChanges(ds.mark, reported) ==> after[ds.dserviceid].mark == rows[ds.dserviceid].mark)
      && (!StatusChanges(ds.mark, reported) && reported == DOBJECT_STATUS_UP ==>
            after[ds.dserviceid].value == (if ds.value != value then value else rows[ds.dserviceid].value))
      && (!StatusChanges(ds.mark, reported) && (reported != DOBJECT_STATUS_UP || ds.value == value) ==> after == rows)
      && after[ds.dserviceid].(mark := rows[ds.dserviceid].mark, value := rows[ds.dserviceid].value)
         == rows[ds.dserviceid]
  {
  }

  /** The report on an obtained service: its row ends with the next mark and the
      value the report leaves, and every other row keeps what it had, given a row
      whose record is `ds` or whose status changes anyway (a new service). */
  lemma ObtainedServiceReport(before: map<nat, ServiceRow>, rows: map<nat, ServiceRow>, ds: ServiceRecord,
                              reported: int, value: string, now: int)
    requires ds.dserviceid in rows
    requires rows.Keys == before.Keys + {ds.dserviceid}
    requires OthersOnlyOwnersChanged(before, rows, ds.dserviceid)
    requires StatusChanges(ds.mark, reported) ||
             (rows[ds.dserviceid].mark == ds.mark && rows[ds.dserviceid].value == ds.value)
    ensures var after := ServiceRowsAfter(rows, ds, reported, value, now);
      && after.Keys == before.Keys + {ds.dserviceid}
      && OthersOnlyOwnersChanged(before, after, ds.dserviceid)
      && after[ds.dserviceid] == rows[ds.dserviceid].(mark := NextMark(ds.mark, reported, now),
                                                      value := ServiceValueAfter(ds, reported, value))
  {
    ServiceReportTouchesOneRow(rows, ds, reported, value, now);
  }

  /** `update dservices set dhostid=to where dhostid=from [and ip=...]`: only owners change. */
  function MoveServices(rows: map<nat, ServiceRow>, from: nat, to: nat, onlyIp: Option<string>)
    : (r: map<nat, ServiceRow>)
    ensures OnlyOwnersChanged(rows, r)
  {
    map sid | sid in rows ::
      if rows[sid].dhostid == from && (onlyIp.None? || rows[sid].ip == onlyIp.value)
      then rows[sid].(dhostid := to) else rows[sid]
  }

  /** The services of check `dcheckid` at this address and port. */
  function ServicesAtIn(rows: map<nat, ServiceRow>, dcheckid: nat, ip: string, port: int): set<nat> {
    set sid | sid in rows && rows[sid].dcheckid == dcheckid && rows[sid].ip == ip && rows[sid].port == port
  }

  /** Host `dhostid` owns a service at an address other than `ip`. */
  predicate HasOtherAddressIn(rows: map<nat, ServiceRow>, dhostid: nat, ip: string) {
    exists sid :: sid in rows && rows[sid].dhostid == dhostid && rows[sid].ip != ip
  }

  /**
   * What host registration leaves behind, given the host `found` it finds (and
   * whether by value) in `hosts` and `rows`: a host found by value, or one with no
   * service at another address, is taken as it is; a found host with services
   * elsewhere is separated into a new DOWN host that takes over the services at
   * `ip`; with no host found an UP report creates a new DOWN host; otherwise
   * nothing is registered. `id`, `m`, `hosts'` and `rows'` are the host id and
   * record and the two tables afterwards.
   */
  predicate HostRegistration(found: Option<nat>, byValue: bool, status: int, ip: string, newRow: HostRow,
                             hosts: map<nat, HostRow>, rows: map<nat, ServiceRow>, oldId: nat, oldMark: Mark,
                             id: nat, m: Mark, hosts': map<nat, HostRow>, rows': map<nat, ServiceRow>)
  {
    if found.Some? && (byValue || !HasOtherAddressIn(rows, found.value, ip)) then
      && found.value in hosts && id == found.value && m == hosts[found.value].mark
      && hosts' == hosts && rows' == rows
    else if found.Some? || status == DOBJECT_STATUS_UP then
      && id != 0 && id !in hosts && m == Mark(DOBJECT_STATUS_DOWN, 0, 0)
      && hosts' == hosts[id := newRow]
      && rows' == (if found.Some? then MoveServices(rows, found.value, id, Some(ip)) else rows)
    else
      id == oldId && m == oldMark && hosts' == hosts && rows' == rows
  }

  /** The host table once service `sid` of `rows` joins host `dhostid`: its former
      owner, when another host, is deleted and every other host stays. */
  function HostsAfterTakeOver(hosts: map<nat, HostRow>, rows: map<nat, ServiceRow>, sid: nat, dhostid: nat)
    : (r: map<nat, HostRow>)
    ensures r.Keys <= hosts.Keys && forall h :: h in r ==> r[h] == hosts[h]
    ensures dhostid in hosts ==> dhostid in r
    ensures sid in rows && rows[sid].dhostid != dhostid ==> rows[sid].dhostid !in r
    ensures forall h :: h in hosts && (sid !in rows || h != rows[sid].dhostid) ==> h in r
  {
    if sid in rows && rows[sid].dhostid != dhostid then hosts - {rows[sid].dhostid} else hosts
  }

  /** The service table once service `sid` is obtained for host `dhostid`: a found
      row brings every service of its former owner over to `dhostid` and takes the
      DNS name `dns`; otherwise `newRow` is added as `sid`. */
  function ServicesAfterRegistration(rows: map<nat, ServiceRow>, sid: nat, dhostid: nat, dns: string,
                                     newRow: ServiceRow): (r: map<nat, ServiceRow>)
    ensures sid in r && r.Keys == rows.Keys + {sid}
    ensures sid !in rows ==> r == rows[sid := newRow]
    ensures sid in rows ==>
      && r[sid] == rows[sid].(dhostid := dhostid, dns := dns)
      && forall s :: s in rows && s != sid ==>
           r[s] == if rows[s].dhostid == rows[sid].dhostid then rows[s].(dhostid := dhostid) else rows[s]
  {
    if sid in rows then
      var moved := MoveServices(rows, rows[sid].dhostid, dhostid, None);
      moved[sid := moved[sid].(dns := dns)]
    else rows[sid := newRow]
  }

  /** `after` differs from `before` at most in which host the services belong to. */
  predicate OnlyOwnersChanged(before: map<nat, ServiceRow>, after: map<nat, ServiceRow>) {
    && before.Keys == after.Keys
    && forall sid :: sid in before ==> after[sid].(dhostid := 0) == before[sid].(dhostid := 0)
  }

  /** Every row of `before` other than `except` is still in `after` and differs at
      most in its owner. */
  predicate OthersOnlyOwnersChanged(before: map<nat, ServiceRow>, after: map<nat, ServiceRow>, except: nat) {
    && before.Keys <= after.Keys
    && forall sid :: sid in before && sid != except ==> after[sid].(dhostid := 0) == before[sid].(dhostid := 0)
  }

  lemma OwnersDoNotAffectLookup(before: map<nat, ServiceRow>, after: map<nat, ServiceRow>,
                                dcheckid: nat, ip: string, port: int)
    requires OnlyOwnersChanged(before, after)
    ensures ServicesAtIn(after, dcheckid, ip, port) == ServicesAtIn(before, dcheckid, ip, port)
  {
    forall sid | sid in before
      ensures after[sid].dcheckid == before[sid].dcheckid && after[sid].ip == before[sid].ip
      ensures after[sid].port == before[sid].port
    {
      assert after[sid].(dhostid := 0).dcheckid == after[sid].dcheckid;
      assert before[sid].(dhostid := 0).dcheckid == before[sid].dcheckid;
    }
  }

  /** Every service belongs to a host that exists. */
  predicate Linked(hosts: map<nat, HostRow>, services: map<nat, ServiceRow>) {
    forall sid :: sid in services ==> services[sid].dhostid in hosts
  }

  /** Moving services only ever changes their owner, and only for the selected rows. */
  lemma MoveServicesChangesOwnersOnly(rows: map<nat, ServiceRow>, from: nat, to: nat, onlyIp: Option<string>)
    ensures OnlyOwnersChanged(rows, MoveServices(rows, from, to, onlyIp))
    ensures forall sid :: sid in rows ==>
      MoveServices(rows, from, to, onlyIp)[sid].dhostid ==
        (if rows[sid].dhostid == from && (onlyIp.None? || rows[sid].ip == onlyIp.value) then to else rows[sid].dhostid)
  {
  }

  /** Taking over a found service (moving its host's services to `to`, then storing
      its DNS name) changes no other column of any row, and gives the found row the
      new owner and name. */
  lemma FoundServiceTakenOver(rows: map<nat, ServiceRow>, sid: nat, to: nat, dns: string)
    requires sid in rows
    ensures
      var moved := MoveServices(rows, rows[sid].dhostid, to, None);
      var after := moved[sid := moved[sid].(dns := dns)];
      && after.Keys == rows.Keys
      && OthersOnlyOwnersChanged(rows, after, sid)
      && after[sid] == rows[sid].(dhostid := to, dns := dns)
  {
    var moved := MoveServices(rows, rows[sid].dhostid, to, None);
    assert OnlyOwnersChanged(rows, moved);
  }

  /** A service obtained by registration after a change of owners: `middle` is
      the table once the host is registered, and `after` either has the found row
      `sid` taken over by host `to` or a new row `sid` for that host. Either way
      only owners change outside `sid`, the row is at the reported check, address
      and port under host `to`, and a found row keeps its status and value. */
  lemma ServiceObtained(before: map<nat, ServiceRow>, middle: map<nat, ServiceRow>, after: map<nat, ServiceRow>,
                        sid: nat, to: nat, dcheckid: nat, ip: string, dns: string, port: int, m: Mark, value: string)
    requires OnlyOwnersChanged(before, middle)
    requires sid != 0
    requires sid in middle ==>
      && sid in ServicesAtIn(middle, dcheckid, ip, port)
      && var moved := MoveServices(middle, middle[sid].dhostid, to, None);
         after == moved[sid := moved[sid].(dns := dns)]
    requires sid !in middle ==> after == middle[sid := ServiceRow(to, dcheckid, ip, dns, port, m, value)]
    ensures sid in after && after.Keys == before.Keys + {sid}
    ensures OthersOnlyOwnersChanged(before, after, sid)
    ensures sid in before ==>
      && middle[sid].mark == before[sid].mark && middle[sid].value == before[sid].value
      && after[sid].mark == before[sid].mark && after[sid].value == before[sid].value
    ensures var row := after[sid];
      row.dhostid == to && row.dcheckid == dcheckid && row.ip == ip && row.port == port && row.dns == dns
  {
    if sid in middle {
      FoundServiceTakenOver(middle, sid, to, dns);
      assert middle[sid].(dhostid := 0) == before[sid].(dhostid := 0);
    }
  }

  /** Moving every service of `from` to another host leaves `from` without services, so
      deleting it afterwards leaves no service without a host. */
  lemma MoveAllEmptiesHost(hosts: map<nat, HostRow>, rows: map<nat, ServiceRow>, from: nat, to: nat)
    requires Linked(hosts, rows) && to in hosts && from != to
    ensures forall sid :: sid in rows ==> MoveServices(rows, from, to, None)[sid].dhostid != from
    ensures Linked(hosts - {from}, MoveServices(rows, from, to, None))
  {
    var moved := MoveServices(rows, from, to, None);
    forall sid | sid in moved
      ensures moved[sid].dhostid != from && moved[sid].dhostid in hosts - {from}
    {
      if rows[sid].dhostid == from {
        assert moved[sid].dhostid == to;
      } else {
        assert moved[sid] == rows[sid];
      }
    }
  }

  /** Moving services to an existing host keeps every service attached to a host. */
  lemma MoveKeepsLinked(hosts: map<nat, HostRow>, rows: map<nat, ServiceRow>, from: nat, to: nat,
                        onlyIp: Option<string>)
    requires Linked(hosts, rows) && to in hosts
    ensures Linked(hosts, MoveServices(rows, from, to, onlyIp))
  {
    var moved := MoveServices(rows, from, to, onlyIp);
    forall sid | sid in moved
      ensures moved[sid].dhostid in hosts
    {
      if rows[sid].dhostid == from && (onlyIp.None? || rows[sid].ip == onlyIp.value) {
        assert moved[sid].dhostid == to;
      } else {
        assert moved[sid] == rows[sid];
      }
    }
  }

  /** The least element of a non-empty set: the first row of an `order by` id. */
  ghost function Least(s: set<nat>): (r: nat)
    requires s != {}
    ensures IsLeast(r, s)
  {
    LeastExists(s);
    var r :| IsLeast(r, s);
    r
  }

  predicate IsLeast(r: nat, s: set<nat>) {
    r in s && forall x :: x in s ==> r <= x
  }

  lemma {:induction false} LeastExists(s: set<nat>)
    requires s != {}
    ensures exists r :: IsLeast(r, s)
    decreases |s|
  {
    var y :| y in s;
    var rest := s - {y};
    if rest == {} {
      assert s == {y};
      assert IsLeast(y, s);
    } else {
      LeastExists(rest);
      var r :| IsLeast(r, rest);
      var least := if y < r then y else r;
      forall x | x in s
        ensures least <= x
      {
        if x != y {
          assert x in rest;
        }
      }
      assert IsLeast(least, s);
    }
  }

  /** Fetching the first row of a result ordered by id: the least id, if any. */
  method FirstById(ids: set<nat>) returns (r: Option<nat>)
    ensures r.None? <==> ids == {}
    ensures r.Some? ==> IsLeast(r.value, ids)
  {
    r := None;
    var rest := ids;
    while rest != {}
      invariant rest <= ids
      invariant r.None? <==> rest == ids
      invariant r.Some? ==> r.value in ids && forall y :: y in ids && y !in rest ==> r.value <= y
      decreases |rest|
    {
      var x :| x in rest;
      if r.None? || x < r.value {
        r := Some(x);
      }
      rest := rest - {x};
    }
  }

  /** The in-memory discovered host (`zbx_db_dhost`) the caller owns; id 0 means not registered. */
  class DHost {
    var dhostid: nat
    var status: int
    var lastup: int
    var lastdown: int

    function Current(): Mark
      reads this
    {
      Mark(status, lastup, lastdown)
    }

    constructor (dhostid: nat, m: Mark)
      ensures this.dhostid == dhostid && Current() == m
    {
      this.dhostid := dhostid;
      status, lastup, lastdown := m.status, m.lastup, m.lastdown;
    }
  }

  /** The discovery tables, the events handed to the event callback, and the id allocator. */
  class DiscoveryDb {
    var dhosts: map<nat, HostRow>
    var dservices: map<nat, ServiceRow>
    var events: seq<Event>
    var nextId: nat
    const defaults: ColumnDefaults

    ghost predicate Valid()
      reads this
    {
      && 0 < nextId
      && (forall id :: id in dhosts ==> 0 < id < nextId)
      && (forall id :: id in dservices ==> 0 < id < nextId)
    }

    constructor (defaults: ColumnDefaults)
      ensures Valid()
      ensures dhosts == map[] && dservices == map[] && events == [] && this.defaults == defaults
    {
      dhosts, dservices, events, nextId := map[], map[], [], 1;
      this.defaults := defaults;
    }

    /** The hosts that own a service of check `dcheckid` with this value; the join
        only yields hosts that exist. */
    function HostsByValue(dcheckid: nat, value: string): (r: set<nat>)
      reads this
      ensures forall h :: h in r ==> h in dhosts
    {
      set sid | sid in dservices && dservices[sid].dcheckid == dcheckid && dservices[sid].value == value
                && dservices[sid].dhostid in dhosts :: dservices[sid].dhostid
    }

    /** The hosts of rule `druleid` that own a service at this address and port; the join
        only yields existing hosts of that rule. */
    function HostsByIpPort(druleid: nat, ip: string, port: int): (r: set<nat>)
      reads this
      ensures forall h :: h in r ==> h in dhosts && dhosts[h].druleid == druleid
    {
      set sid | sid in dservices && dservices[sid].ip == ip && dservices[sid].port == port
                && dservices[sid].dhostid in dhosts && dhosts[dservices[sid].dhostid].druleid == druleid
        :: dservices[sid].dhostid
    }

    function ServicesAt(dcheckid: nat, ip: string, port: int): set<nat>
      reads this
    {
      ServicesAtIn(dservices, dcheckid, ip, port)
    }

    /** Host `dhostid` has a service at an address other than `ip`. */
    predicate HasOtherAddress(dhostid: nat, ip: string)
      reads this
    {
      HasOtherAddressIn(dservices, dhostid, ip)
    }

    /** The host a registration finds: by value first when the check is the rule's
        unique check (remembering that it matched by value), else by address and port. */
    ghost function FoundHost(druleid: nat, dcheckid: nat, uniqueDcheckid: nat, ip: string, port: int,
                             value: string): (r: (Option<nat>, bool))
      reads this
      ensures r.1 <==> uniqueDcheckid == dcheckid && HostsByValue(dcheckid, value) != {}
      ensures r.1 ==> r.0.Some?
      ensures r.0.Some? ==> r.0.value in dhosts
      ensures r.0.Some? ==>
        IsLeast(r.0.value, if r.1 then HostsByValue(dcheckid, value) else HostsByIpPort(druleid, ip, port))
      ensures r.0.None? <==>
        HostsByIpPort(druleid, ip, port) == {} && (uniqueDcheckid == dcheckid ==> HostsByValue(dcheckid, value) == {})
    {
      if uniqueDcheckid == dcheckid && HostsByValue(dcheckid, value) != {}
      then (Some(Least(HostsByValue(dcheckid, value))), true)
      else if HostsByIpPort(druleid, ip, port) != {}
      then (Some(Least(HostsByIpPort(druleid, ip, port))), false)
      else (None, false)
    }

    /** `zbx_db_get_maxid`: an id no row of either table uses. */
    method GetMaxId() returns (id: nat)
      requires Valid()
      modifies this`nextId
      ensures Valid()
      ensures 0 < id < nextId && id !in dhosts && id !in dservices
    {
      id := nextId;
      nextId := nextId + 1;
    }

    /** `if (NULL != add_event_cb) add_event_cb(...)`: the event reaches the log only
        when there is a callback. */
    method Emit(kind: ObjectKind, objectId: nat, now: int, value: int, withCallback: bool)
      requires Valid()
      modifies this`events
      ensures Valid()
      ensures events == old(events) + (if withCallback then [Event(kind, objectId, now, value)] else [])
    {
      if withCallback {
        events := events + [Event(kind, objectId, now, value)];
      }
    }

    /** `discovery_update_dhost`: store the host record's status columns. */
    method StoreHostMark(dhost: DHost)
      requires Valid()
      modifies this`dhosts
      ensures Valid()
      ensures old(Linked(dhosts, dservices)) ==> Linked(dhosts, dservices)
      ensures dhosts == WriteHostMark(old(dhosts), dhost.dhostid, dhost.Current())
    {
      dhosts := WriteHostMark(dhosts, dhost.dhostid, dhost.Current());
    }

    /** `discovery_update_dservice`: store a service's status columns and value. */
    method StoreServiceRow(dserviceid: nat, m: Mark, value: string)
      requires Valid()
      modifies this`dservices
      ensures Valid()
      ensures old(Linked(dhosts, dservices)) ==> Linked(dhosts, dservices)
      ensures dservices == WriteServiceRow(old(dservices), dserviceid, m, value)
    {
      ghost var before := dservices;
      dservices := WriteServiceRow(dservices, dserviceid, m, value);
      if dserviceid in before {
        assert dservices[dserviceid].dhostid == before[dserviceid].dhostid;
      }
    }

    /** `discovery_update_dservice_value`: store a service's value. */
    method StoreServiceValue(dserviceid: nat, value: string)
      requires Valid()
      modifies this`dservices
      ensures Valid()
      ensures old(Linked(dhosts, dservices)) ==> Linked(dhosts, dservices)
      ensures dservices == WriteServiceValue(old(dservices), dserviceid, value)
    {
      ghost var before := dservices;
      dservices := WriteServiceValue(dservices, dserviceid, value);
      if dserviceid in before {
        assert dservices[dserviceid].dhostid == before[dserviceid].dhostid;
      }
    }

    /** `discovery_update_host_status` */
    method UpdateHostStatus(dhost: DHost, status: int, now: int, withCallback: bool)
      requires Valid()
      modifies this`dhosts, this`events, dhost
      ensures Valid()
      ensures dhost.dhostid == old(dhost.dhostid)
      ensures dhost.Current() == NextMark(old(dhost.Current()), status, now)
      ensures old(Linked(dhosts, dservices)) ==> Linked(dhosts, dservices)
      ensures dhosts == if StatusChanges(old(dhost.Current()), status)
                        then WriteHostMark(old(dhosts), dhost.dhostid, dhost.Current())
                        else old(dhosts)
      ensures events == old(events) + HostStatusEvents(dhost.dhostid, old(dhost.Current()), status, now, withCallback)
    {
      var changes := StatusChanges(dhost.Current(), status);
      if status == DOBJECT_STATUS_UP {
        if dhost.status == DOBJECT_STATUS_DOWN || dhost.lastup == 0 {
          dhost.status := status;
          dhost.lastdown := 0;
          dhost.lastup := now;
          StoreHostMark(dhost);
          Emit(DHostObject, dhost.dhostid, now, DOBJECT_STATUS_DISCOVER, withCallback);
        }
      } else {
        if dhost.status == DOBJECT_STATUS_UP || dhost.lastdown == 0 {
          dhost.status := status;
          dhost.lastdown := now;
          dhost.lastup := 0;
          StoreHostMark(dhost);
          Emit(DHostObject, dhost.dhostid, now, DOBJECT_STATUS_LOST, withCallback);
        }
      }
      Emit(DHostObject, dhost.dhostid, now, status, withCallback);
    }

    /** A DOWN host whose service came up is stamped UP since `now`, stored and
        announced as discovered. */
    method RaiseHost(dhost: DHost, now: int, withCallback: bool)
      requires Valid()
      modifies this`dhosts, this`events, dhost
      ensures Valid()
      ensures old(Linked(dhosts, dservices)) ==> Linked(dhosts, dservices)
      ensures dhost.dhostid == old(dhost.dhostid)
      ensures dhost.Current() == Mark(DOBJECT_STATUS_UP, now, 0)
      ensures dhosts == WriteHostMark(old(dhosts), dhost.dhostid, dhost.Current())
      ensures events == old(events) +
        (if withCallback then [Event(DHostObject, dhost.dhostid, now, DOBJECT_STATUS_DISCOVER)] else [])
    {
      dhost.status := DOBJECT_STATUS_UP;
      dhost.lastup := now;
      dhost.lastdown := 0;
      StoreHostMark(dhost);
      Emit(DHostObject, dhost.dhostid, now, DOBJECT_STATUS_DISCOVER, withCallback);
    }

    /** `discovery_update_service_status` */
    method UpdateServiceStatus(dhost: DHost, ds: ServiceRecord, status: int, value: string, now: int,
                               withCallback: bool)
      requires Valid()
      modifies this`dhosts, this`dservices, this`events, dhost
      ensures Valid()
      ensures dhost.dhostid == old(dhost.dhostid)
      ensures dhost.Current() == HostMarkAfterService(old(dhost.Current()), ds.mark, status, now)
      ensures old(Linked(dhosts, dservices)) ==> Linked(dhosts, dservices)
      ensures dhosts == if HostRaisedBy(old(dhost.Current()), ds.mark, status)
                        then WriteHostMark(old(dhosts), dhost.dhostid, dhost.Current())
                        else old(dhosts)
      ensures dservices == ServiceRowsAfter(old(dservices), ds, status, value, now)
      ensures events ==
        old(events) + ServiceStatusEvents(dhost.dhostid, old(dhost.Current()), ds, status, now, withCallback)
    {
      ghost var rows0, hosts0, hostMark := dservices, dhosts, dhost.Current();
      if status == DOBJECT_STATUS_UP {
        if ds.mark.status == DOBJECT_STATUS_DOWN || ds.mark.lastup == 0 {
          ServiceComesUp(hostMark, ds, value, now);
          StoreServiceRow(ds.dserviceid, Mark(status, now, 0), value);
          assert dservices == ServiceRowsAfter(rows0, ds, status, value, now);
          Emit(DServiceObject, ds.dserviceid, now, DOBJECT_STATUS_DISCOVER, withCallback);
          if dhost.status == DOBJECT_STATUS_DOWN {
            // the service came up while its host is down: the host comes up too
            RaiseHost(dhost, now, withCallback);
          }
        } else if ds.value != value {
          StoreServiceValue(ds.dserviceid, value);
          assert dservices == ServiceRowsAfter(rows0, ds, status, value, now);
        }
      } else {
        if ds.mark.status == DOBJECT_STATUS_UP || ds.mark.lastdown == 0 {
          // other services may still be up, so the host is left alone
          ServiceGoesDown(hostMark, ds, status, value, now);
          StoreServiceRow(ds.dserviceid, Mark(status, 0, now), ds.value);
          assert dservices == ServiceRowsAfter(rows0, ds, status, value, now);
          Emit(DServiceObject, ds.dserviceid, now, DOBJECT_STATUS_LOST, withCallback);
        }
      }
      Emit(DServiceObject, ds.dserviceid, now, status, withCallback);
    }

    /** `discovery_separate_host`: when the host also has services at another
        address, the services at `ip` move to a new host of their own. */
    method SeparateHost(druleid: nat, dhost: DHost, ip: string)
      requires Valid()
      modifies this`dhosts, this`dservices, this`nextId, dhost
      ensures Valid()
      ensures events == old(events)
      ensures OnlyOwnersChanged(old(dservices), dservices)
      ensures old(Linked(dhosts, dservices)) && old(dhost.dhostid) in old(dhosts) ==>
        Linked(dhosts, dservices) && dhost.dhostid in dhosts
      ensures !old(HasOtherAddress(dhost.dhostid, ip)) ==>
        dhosts == old(dhosts) && dservices == old(dservices)
        && dhost.dhostid == old(dhost.dhostid) && dhost.Current() == old(dhost.Current())
      ensures old(HasOtherAddress(dhost.dhostid, ip)) ==>
        && dhost.dhostid !in old(dhosts) && dhost.dhostid != 0
        && dhost.Current() == Mark(DOBJECT_STATUS_DOWN, 0, 0)
        && dhosts == old(dhosts)[dhost.dhostid := HostRow(druleid, defaults.hostMark)]
        && dservices == MoveServices(old(dservices), old(dhost.dhostid), dhost.dhostid, Some(ip))
    {
      if HasOtherAddress(dhost.dhostid, ip) {
        var dhostid := GetMaxId();
        ghost var linked := Linked(dhosts, dservices);
        dhosts := dhosts[dhostid := HostRow(druleid, defaults.hostMark)];
        if linked {
          MoveKeepsLinked(dhosts, dservices, dhost.dhostid, dhostid, Some(ip));
        }
        dservices := MoveServices(dservices, dhost.dhostid, dhostid, Some(ip));
        dhost.dhostid := dhostid;
        dhost.status := DOBJECT_STATUS_DOWN;
        dhost.lastup := 0;
        dhost.lastdown := 0;
      }
    }

    /** `discovery_register_host`: find the host this report belongs to, or
        create one if the service is UP. */
    method RegisterHost(druleid: nat, dcheckid: nat, uniqueDcheckid: nat, dhost: DHost, ip: string, port: int,
                        status: int, value: string)
      requires Valid()
      modifies this`dhosts, this`dservices, this`nextId, dhost
      ensures Valid()
      ensures events == old(events)
      ensures OnlyOwnersChanged(old(dservices), dservices)
      ensures old(Linked(dhosts, dservices)) ==> Linked(dhosts, dservices)
      ensures dhost.dhostid != old(dhost.dhostid) ==> dhost.dhostid in dhosts
      ensures old(FoundHost(druleid, dcheckid, uniqueDcheckid, ip, port, value)).0.None? ==>
        && dservices == old(dservices)
        && (status != DOBJECT_STATUS_UP ==>
              dhosts == old(dhosts) && dhost.dhostid == old(dhost.dhostid) && dhost.Current() == old(dhost.Current()))
        && (status == DOBJECT_STATUS_UP ==>
              && dhost.dhostid !in old(dhosts) && dhost.dhostid != 0
              && dhost.Current() == Mark(DOBJECT_STATUS_DOWN, 0, 0)
              && dhosts == old(dhosts)[dhost.dhostid := HostRow(druleid, defaults.hostMark)])
      ensures old(FoundHost(druleid, dcheckid, uniqueDcheckid, ip, port, value)) == (None, false) || dhost.dhostid != 0
      ensures var (found, byValue) := old(FoundHost(druleid, dcheckid, uniqueDcheckid, ip, port, value));
        found.Some? && (byValue || !old(HasOtherAddress(found.value, ip))) ==>
          && dhosts == old(dhosts) && dservices == old(dservices)
          && dhost.dhostid == found.value && dhost.Current() == old(dhosts)[found.value].mark
      ensures var (found, byValue) := old(FoundHost(druleid, dcheckid, uniqueDcheckid, ip, port, value));
        found.Some? && !byValue && old(HasOtherAddress(found.value, ip)) ==>
          && dhost.dhostid !in old(dhosts) && dhost.dhostid != 0
          && dhost.Current() == Mark(DOBJECT_STATUS_DOWN, 0, 0)
          && dhosts == old(dhosts)[dhost.dhostid := HostRow(druleid, defaults.hostMark)]
          && dservices == MoveServices(old(dservices), found.value, dhost.dhostid, Some(ip))
      ensures var (found, byValue) := old(FoundHost(druleid, dcheckid, uniqueDcheckid, ip, port, value));
        HostRegistration(found, byValue, status, ip, HostRow(druleid, defaults.hostMark), old(dhosts), old(dservices),
                         old(dhost.dhostid), old(dhost.Current()), dhost.dhostid, dhost.Current(), dhosts, dservices)
    {
      var row: Option<nat>;
      var matchValue := false;
      if uniqueDcheckid == dcheckid {
        row := FirstById(HostsByValue(dcheckid, value));
        if row.None? {
          row := FirstById(HostsByIpPort(druleid, ip, port));
        } else {
          matchValue := true;
        }
      } else {
        row := FirstById(HostsByIpPort(druleid, ip, port));
      }

      if row.None? {
        if status == DOBJECT_STATUS_UP {
          // a new host is added only when its service is up
          var dhostid := GetMaxId();
          dhost.dhostid := dhostid;
          dhost.status := DOBJECT_STATUS_DOWN;
          dhost.lastup := 0;
          dhost.lastdown := 0;
          dhosts := dhosts[dhostid := HostRow(druleid, defaults.hostMark)];
        }
      } else {
        var dhostid := row.value;
        assert dhostid in dhosts;
        var m := dhosts[dhostid].mark;
        dhost.dhostid := dhostid;
        dhost.status, dhost.lastup, dhost.lastdown := m.status, m.lastup, m.lastdown;
        if !matchValue {
          SeparateHost(druleid, dhost, ip);
        }
      }
    }
  
    /** `discovery_register_service`: find the service of this check at this
        address and port, or create one (DOWN, empty value) if it is UP; a found
        service pulls all services of its old host over and the old host is
        deleted; a changed DNS name is stored. */
    method RegisterService(dcheckid: nat, dhost: DHost, ip: string, dns: string, port: int, status: int)
      returns (ds: ServiceRecord)
      requires Valid()
      modifies this`dhosts, this`dservices, this`nextId
      ensures Valid()
      ensures events == old(events)
      ensures ds.dserviceid != 0 ==> ds.dserviceid in dservices
      ensures (ds.dserviceid == 0) == (old(ServicesAt(dcheckid, ip, port)) == {} && status != DOBJECT_STATUS_UP)
      ensures old(Linked(dhosts, dservices)) && dhost.dhostid in old(dhosts) ==>
        Linked(dhosts, dservices) && dhost.dhostid in dhosts
      ensures old(ServicesAt(dcheckid, ip, port)) == {} ==>
        && dhosts == old(dhosts)
        && (status != DOBJECT_STATUS_UP ==> ds.dserviceid == 0 && dservices == old(dservices))
        && (status == DOBJECT_STATUS_UP ==>
              && ds.dserviceid != 0 && ds.dserviceid !in old(dservices)
              && ds.mark == Mark(DOBJECT_STATUS_DOWN, 0, 0) && ds.value == ""
              && dservices == old(dservices)[ds.dserviceid :=
                   ServiceRow(dhost.dhostid, dcheckid, ip, dns, port,
                              Mark(DOBJECT_STATUS_DOWN, defaults.serviceLastup, defaults.serviceLastdown),
                              defaults.serviceValue)])
      ensures old(ServicesAt(dcheckid, ip, port)) != {} ==>
        && ds.dserviceid in old(ServicesAt(dcheckid, ip, port))
        && ds.mark == old(dservices)[ds.dserviceid].mark && ds.value == old(dservices)[ds.dserviceid].value
        && dhosts == HostsAfterTakeOver(old(dhosts), old(dservices), ds.dserviceid, dhost.dhostid)
        && var moved := MoveServices(old(dservices), old(dservices)[ds.dserviceid].dhostid, dhost.dhostid, None);
           dservices == moved[ds.dserviceid := moved[ds.dserviceid].(dns := dns)]
    {
      ds := ServiceRecord(0, Mark(0, 0, 0), "");
      var found := ServicesAt(dcheckid, ip, port);
      if found == {} {
        if status == DOBJECT_STATUS_UP {
          // a new service is added only when it is up
          var dserviceid := GetMaxId();
          ds := ServiceRecord(dserviceid, Mark(DOBJECT_STATUS_DOWN, 0, 0), "");
          dservices := dservices[dserviceid :=
            ServiceRow(dhost.dhostid, dcheckid, ip, dns, port,
                       Mark(DOBJECT_STATUS_DOWN, defaults.serviceLastup, defaults.serviceLastdown),
                       defaults.serviceValue)];
        }
      } else {
        var dserviceid :| dserviceid in found;
        var row := dservices[dserviceid];
        ds := ServiceRecord(dserviceid, row.mark, row.value);
        TakeOverService(dserviceid, dhost.dhostid, dns);
      }
    }

    /** The found service `dserviceid` joins host `dhostid`: when it belonged to
        another host, all that host's services move to `dhostid` and the other
        host is deleted; then the service's DNS name is stored if it changed. */
    method TakeOverService(dserviceid: nat, dhostid: nat, dns: string)
      requires Valid()
      requires dserviceid in dservices
      modifies this`dhosts, this`dservices
      ensures Valid()
      ensures old(Linked(dhosts, dservices)) && dhostid in old(dhosts) ==> Linked(dhosts, dservices) && dhostid in dhosts
      ensures dhosts == HostsAfterTakeOver(old(dhosts), old(dservices), dserviceid, dhostid)
      ensures var moved := MoveServices(old(dservices), old(dservices)[dserviceid].dhostid, dhostid, None);
        dservices == moved[dserviceid := moved[dserviceid].(dns := dns)]
    {
      var owner := dservices[dserviceid].dhostid;
      if owner != dhostid {
        if Linked(dhosts, dservices) && dhostid in dhosts {
          MoveAllEmptiesHost(dhosts, dservices, owner, dhostid);
        }
        dservices := MoveServices(dservices, owner, dhostid, None);
        dhosts := dhosts - {owner};
      }
      if dservices[dserviceid].dns != dns {
        dservices := dservices[dserviceid := dservices[dserviceid].(dns := dns)];
      }
    }

    /** `zbx_discovery_update_host`: process a host status unless the host is unregistered. */
    method UpdateHost(dhost: DHost, status: int, now: int, withCallback: bool)
      requires Valid()
      modifies this`dhosts, this`events, dhost
      ensures Valid()
      ensures dhost.dhostid == old(dhost.dhostid)
      ensures old(Linked(dhosts, dservices)) ==> Linked(dhosts, dservices)
      ensures old(dhost.dhostid) == 0 ==>
        dhost.Current() == old(dhost.Current()) && dhosts == old(dhosts) && events == old(events)
      ensures old(dhost.dhostid) != 0 ==>
        && dhost.Current() == NextMark(old(dhost.Current()), status, now)
        && dhosts == (if StatusChanges(old(dhost.Current()), status)
                      then WriteHostMark(old(dhosts), dhost.dhostid, dhost.Current()) else old(dhosts))
        && events == old(events) + HostStatusEvents(dhost.dhostid, old(dhost.Current()), status, now, withCallback)
    {
      if dhost.dhostid != 0 {
        UpdateHostStatus(dhost, status, now, withCallback);
      }
    }

    /**
     * The registration half of `zbx_discovery_update_service`: register the host
     * if it is not registered yet, then, if there is a host, the service. `ds` is
     * the service obtained, id 0 when none was; `registered`, `registeredHosts`
     * and `registeredRows` are the host record and the two tables once the host
     * is registered.
     */
    method RegisterHostAndService(druleid: nat, dcheckid: nat, uniqueDcheckid: nat, dhost: DHost, ip: string,
                                  dns: string, port: int, status: int, value: string)
      returns (ds: ServiceRecord, ghost registered: Mark, ghost registeredHosts: map<nat, HostRow>,
               ghost registeredRows: map<nat, ServiceRow>)
      requires Valid()
      modifies this`dhosts, this`dservices, this`nextId, dhost
      ensures Valid()
      ensures events == old(events)
      ensures old(Linked(dhosts, dservices)) && (old(dhost.dhostid) == 0 || old(dhost.dhostid) in old(dhosts)) ==>
        Linked(dhosts, dservices)
      ensures dhost.Current() == registered
      ensures old(dhost.dhostid) != 0 ==>
        && dhost.dhostid == old(dhost.dhostid) && registered == old(dhost.Current())
        && registeredHosts == old(dhosts) && registeredRows == old(dservices)
      ensures var (found, byValue) := old(FoundHost(druleid, dcheckid, uniqueDcheckid, ip, port, value));
        old(dhost.dhostid) == 0 ==>
          HostRegistration(found, byValue, status, ip, HostRow(druleid, defaults.hostMark), old(dhosts),
                           old(dservices), 0, old(dhost.Current()), dhost.dhostid, registered,
                           registeredHosts, registeredRows)
      ensures ds.dserviceid == 0 ==> dhosts == registeredHosts && dservices == registeredRows
      ensures ds.dserviceid != 0 ==>
        && dhosts == HostsAfterTakeOver(registeredHosts, registeredRows, ds.dserviceid, dhost.dhostid)
        && dservices == ServicesAfterRegistration(registeredRows, ds.dserviceid, dhost.dhostid, dns,
                          ServiceRow(dhost.dhostid, dcheckid, ip, dns, port,
                                                Mark(DOBJECT_STATUS_DOWN, defaults.serviceLastup, defaults.serviceLastdown),
                                                defaults.serviceValue))
      ensures dhost.dhostid == 0 ==> dhosts == old(dhosts) && dservices == old(dservices)
      ensures (ds.dserviceid == 0) ==
        (dhost.dhostid == 0 || (old(ServicesAt(dcheckid, ip, port)) == {} && status != DOBJECT_STATUS_UP))
      ensures ds.dserviceid == 0 ==> OnlyOwnersChanged(old(dservices), dservices)
      ensures ds.dserviceid != 0 && ds.dserviceid in old(dservices) ==>
        && ds.dserviceid in old(ServicesAt(dcheckid, ip, port))
        && ds.mark == old(dservices)[ds.dserviceid].mark && ds.value == old(dservices)[ds.dserviceid].value
        && ds.dserviceid in dservices
        && dservices[ds.dserviceid].mark == ds.mark && dservices[ds.dserviceid].value == ds.value
      ensures ds.dserviceid != 0 && ds.dserviceid !in old(dservices) ==>
        && old(ServicesAt(dcheckid, ip, port)) == {} && status == DOBJECT_STATUS_UP
        && ds.mark == Mark(DOBJECT_STATUS_DOWN, 0, 0) && ds.value == ""
      ensures ds.dserviceid != 0 ==>
        && ds.dserviceid in dservices
        && dservices.Keys == old(dservices.Keys) + {ds.dserviceid}
        && OthersOnlyOwnersChanged(old(dservices), dservices, ds.dserviceid)
        && var row := dservices[ds.dserviceid];
           row.dhostid == dhost.dhostid && row.dcheckid == dcheckid && row.ip == ip && row.port == port
           && row.dns == dns
    {
      ds := ServiceRecord(0, Mark(0, 0, 0), "");
      ghost var before, found := dservices, ServicesAt(dcheckid, ip, port);
      if dhost.dhostid == 0 {
        RegisterHost(druleid, dcheckid, uniqueDcheckid, dhost, ip, port, status, value);
      }
      registered, registeredHosts, registeredRows := dhost.Current(), dhosts, dservices;
      OwnersDoNotAffectLookup(before, dservices, dcheckid, ip, port);
      ghost var afterHost := dservices;
      assert OnlyOwnersChanged(before, afterHost) && ServicesAt(dcheckid, ip, port) == found;
      if dhost.dhostid != 0 {
        ds := RegisterService(dcheckid, dhost, ip, dns, port, status);
        if ds.dserviceid != 0 {
          ServiceObtained(before, afterHost, dservices, ds.dserviceid, dhost.dhostid, dcheckid, ip, dns, port,
                          Mark(DOBJECT_STATUS_DOWN, defaults.serviceLastup, defaults.serviceLastdown),
                          defaults.serviceValue);
        }
      }
    }

    /**
     * `zbx_discovery_update_service`: register the host and the service when
     * needed, then process the service status if a service was obtained. `ds` is
     * the service record obtained (id 0 when none was) and `registered` the host's
     * record once registered, before the service report is applied to it.
     */
    method UpdateService(druleid: nat, dcheckid: nat, uniqueDcheckid: nat, dhost: DHost, ip: string, dns: string,
                         port: int, status: int, value: string, now: int, withCallback: bool)
      returns (ds: ServiceRecord, ghost registered: Mark, ghost registeredHosts: map<nat, HostRow>,
               ghost registeredRows: map<nat, ServiceRow>)
      requires Valid()
      modifies this`dhosts, this`dservices, this`events, this`nextId, dhost
      ensures Valid()
      ensures old(Linked(dhosts, dservices)) && (old(dhost.dhostid) == 0 || old(dhost.dhostid) in old(dhosts)) ==>
        Linked(dhosts, dservices)
      // the host registration step
      ensures old(dhost.dhostid) != 0 ==>
        && dhost.dhostid == old(dhost.dhostid) && registered == old(dhost.Current())
        && registeredHosts == old(dhosts) && registeredRows == old(dservices)
      ensures var (found, byValue) := old(FoundHost(druleid, dcheckid, uniqueDcheckid, ip, port, value));
        old(dhost.dhostid) == 0 ==>
          HostRegistration(found, byValue, status, ip, HostRow(druleid, defaults.hostMark), old(dhosts),
                           old(dservices), 0, old(dhost.Current()), dhost.dhostid, registered,
                           registeredHosts, registeredRows)
      ensures ds.dserviceid == 0 ==>
        dhosts == registeredHosts && dservices == registeredRows && dhost.Current() == registered
      // the host table: the service's former owner is merged away, then the host raised if the service came up
      ensures ds.dserviceid != 0 ==>
        var hosts := HostsAfterTakeOver(registeredHosts, registeredRows, ds.dserviceid, dhost.dhostid);
        dhosts == if HostRaisedBy(registered, ds.mark, status)
                  then WriteHostMark(hosts, dhost.dhostid, dhost.Current()) else hosts
      // the service table: the service is taken over or added, then the report applied to it
      ensures ds.dserviceid != 0 ==>
        dservices == ServiceRowsAfter(ServicesAfterRegistration(registeredRows, ds.dserviceid, dhost.dhostid, dns,
                                        ServiceRow(dhost.dhostid, dcheckid, ip, dns, port,
                                                Mark(DOBJECT_STATUS_DOWN, defaults.serviceLastup, defaults.serviceLastdown),
                                                defaults.serviceValue)), ds, status, value, now)
      ensures dhost.dhostid == 0 ==> dhosts == old(dhosts) && dservices == old(dservices) && events == old(events)
      // a service is obtained unless no host could be, or the service is unknown and not UP
      ensures (ds.dserviceid == 0) ==
        (dhost.dhostid == 0 || (old(ServicesAt(dcheckid, ip, port)) == {} && status != DOBJECT_STATUS_UP))
      ensures ds.dserviceid == 0 ==> events == old(events) && OnlyOwnersChanged(old(dservices), dservices)
      ensures ds.dserviceid != 0 && ds.dserviceid in old(dservices) ==>
        && ds.dserviceid in old(ServicesAt(dcheckid, ip, port))
        && ds.mark == old(dservices)[ds.dserviceid].mark && ds.value == old(dservices)[ds.dserviceid].value
      ensures ds.dserviceid != 0 && ds.dserviceid !in old(dservices) ==>
        && old(ServicesAt(dcheckid, ip, port)) == {} && status == DOBJECT_STATUS_UP
        && ds.mark == Mark(DOBJECT_STATUS_DOWN, 0, 0) && ds.value == ""
      // an obtained service goes through the service status transition
      ensures ds.dserviceid != 0 ==>
        && dservices.Keys == old(dservices.Keys) + {ds.dserviceid}
        && OthersOnlyOwnersChanged(old(dservices), dservices, ds.dserviceid)
        && var row := dservices[ds.dserviceid];
           && row.dhostid == dhost.dhostid && row.dcheckid == dcheckid && row.ip == ip && row.port == port
           && row.dns == dns
           && row.mark == NextMark(ds.mark, status, now)
           && row.value == ServiceValueAfter(ds, status, value)
           && dhost.Current() == HostMarkAfterService(registered, ds.mark, status, now)
           && events == old(events) + ServiceStatusEvents(dhost.dhostid, registered, ds, status, now, withCallback)
    {
      ds, registered, registeredHosts, registeredRows :=
        RegisterHostAndService(druleid, dcheckid, uniqueDcheckid, dhost, ip, dns, port, status, value);
      // a DOWN service that is not registered yet is not added, so there is nothing to update
      if ds.dserviceid != 0 {
        ObtainedServiceReport(old(dservices), dservices, ds, status, value, now);
        UpdateServiceStatus(dhost, ds, status, value, now, withCallback);
      }
    }
  }
}
