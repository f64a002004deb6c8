/** The device registry: registration, status reports, lookups, search,
    settings and removal, each a transition of the store. */
module DeviceServices {
  import opened Wrappers
  import opened Text
  import opened Errors
  import opened DeviceSchemas
  import opened Store
  import opened Sorting

  /** In the device view, "online" means seen within the last five minutes. */
  const ViewOnlineWithinMs := 5 * 60 * 1000

  datatype DeviceView = DeviceView(
    id: string,
    name: string,
    chipId: string,
    timezone: string,
    lastSeenAt: Option<int>,
    lastStatusAt: Option<int>,
    scheduleVersion: int,
    isOnline: bool,
    lastStatus: Option<DeviceStatus>,
    createdAt: int)

  /** The device as the admin API shows it, with the derived online flag. */
  function FormatDevice(id: string, d: Device, now: int): (v: DeviceView)
    ensures v.isOnline <==> d.lastSeenAt.Some? && now - d.lastSeenAt.value < ViewOnlineWithinMs
    ensures v.id == id && v.name == d.name && v.chipId == d.chipId && v.timezone == d.timezone
    ensures v.scheduleVersion == d.scheduleVersion && v.createdAt == d.createdAt
    ensures v.lastSeenAt == d.lastSeenAt && v.lastStatusAt == d.lastStatusAt && v.lastStatus == d.lastStatus
  {
    var isOnline := match d.lastSeenAt
      case Some(t) => now - t < ViewOnlineWithinMs
      case None => false;
    DeviceView(id, d.name, d.chipId, d.timezone, d.lastSeenAt, d.lastStatusAt,
               d.scheduleVersion, isOnline, d.lastStatus, d.createdAt)
  }

  predicate ChipIdRegistered(s: Store, chipId: string) {
    exists k :: k in s.devices && s.devices[k].chipId == chipId
  }

  datatype DeviceSummary = DeviceSummary(id: string, name: string, chipId: string, timezone: string, scheduleVersion: int)

  datatype Registration = Registration(success: bool, device: DeviceSummary, token: string, config: DeviceConfig)

  /** Registers a device under the new row id `id`. A chip id already on file is
      refused and nothing is created. The new device has schedule version 0 and
      the requested timezone, or "UTC" when that is empty. `token` is the random
      API token and `tokenHash` its digest; both are opaque here. */
  function RegisterDevice(s: Store, data: RegisterRequest, now: int, id: string,
                          token: string, tokenHash: string): (r: Step<Registration>)
    requires FreshDeviceId(s, id)
    ensures ChipIdRegistered(s, data.chipId) ==> r == Step(s, Err(ChipIdTaken(data.chipId)))
    ensures !ChipIdRegistered(s, data.chipId) ==>
      && r.result.Ok?
      && r.store.schedules == s.schedules && r.store.edgeLists == s.edgeLists
      && r.store.devices.Keys == s.devices.Keys + {id}
      && (forall k :: k in s.devices ==> r.store.devices[k] == s.devices[k])
    ensures r.result.Ok? ==>
      var d := r.store.devices[id];
      && d.name == data.name && d.chipId == data.chipId && d.apiTokenHash == tokenHash
      && d.scheduleVersion == 0 && d.pendingRelayOn.None?
      && d.lastSeenAt.None? && d.lastStatusAt.None? && d.lastStatus.None? && d.createdAt == now
      && (data.timezone != "" ==> d.timezone == data.timezone)
      && (data.timezone == "" ==> d.timezone == DefaultTimezone)
    ensures r.result.Ok? ==>
      var reg := r.result.value;
      && reg.success && reg.token == token
      && reg.device == DeviceSummary(id, data.name, data.chipId, r.store.devices[id].timezone, 0)
      && reg.config == DeviceTimings
  {
    if ChipIdRegistered(s, data.chipId) then Step(s, Err(ChipIdTaken(data.chipId)))
    else
      var timezone := if data.timezone != "" then data.timezone else DefaultTimezone;
      var d := Device(data.name, data.chipId, tokenHash, timezone, 0, None, None, None, None, now);
      var summary := DeviceSummary(id, d.name, d.chipId, d.timezone, d.scheduleVersion);
      Step(s.(devices := s.devices[id := d]), Ok(Registration(true, summary, token, DeviceTimings)))
  }

  /** Records a status report: stamps last-seen and last-status with `now` and
      stores the report. Other fields are left alone. */
  function UpdateDeviceStatus(s: Store, deviceId: string, status: DeviceStatus, now: int): (r: Step<()>)
    ensures deviceId !in s.devices ==> r == Step(s, Err(RecordNotFound))
    ensures deviceId in s.devices ==>
      && r.result.Ok?
      && r.store == s.(devices := s.devices[deviceId := s.devices[deviceId].(
           lastSeenAt := Some(now), lastStatusAt := Some(now), lastStatus := Some(status))])
  {
    if deviceId !in s.devices then Step(s, Err(RecordNotFound))
    else
      var d := s.devices[deviceId];
      var d' := d.(lastSeenAt := Some(now), lastStatusAt := Some(now), lastStatus := Some(status));
      Step(s.(devices := s.devices[deviceId := d']), Ok(()))
  }

  function GetDeviceById(s: Store, deviceId: string, now: int): (r: Option<DeviceView>)
    ensures r.Some? <==> deviceId in s.devices
    ensures r.Some? ==> r.value == FormatDevice(deviceId, s.devices[deviceId], now)
  {
    if deviceId in s.devices then Some(FormatDevice(deviceId, s.devices[deviceId], now)) else None
  }

  /** The first device found with the chip id, or none. */
  method GetDeviceByChipId(s: Store, chipId: string, now: int) returns (r: Option<DeviceView>)
    ensures r.None? <==> !ChipIdRegistered(s, chipId)
    ensures r.Some? ==> r.value.id in s.devices && r.value.chipId == chipId
    ensures r.Some? ==> r.value == FormatDevice(r.value.id, s.devices[r.value.id], now)
  {
    var rest := s.devices.Keys;
    while rest != {}
      invariant rest <= s.devices.Keys
      invariant forall k :: k in s.devices && k !in rest ==> s.devices[k].chipId != chipId
      decreases rest
    {
      var k :| k in rest;
      if s.devices[k].chipId == chipId {
        return Some(FormatDevice(k, s.devices[k], now));
      }
      rest := rest - {k};
    }
    return None;
  }

  /** The search filter: no term (or an empty one) keeps every device; otherwise
      the name or the chip id must contain the term, ignoring case. */
  predicate MatchesSearch(d: Device, search: Option<string>) {
    match search
    case None => true
    case Some(term) =>
      term == [] || ContainsInsensitive(d.name, term) || ContainsInsensitive(d.chipId, term)
  }

  predicate NewerFirst(a: DeviceView, b: DeviceView) {
    a.createdAt >= b.createdAt
  }

  lemma NewerFirstIsPreorder()
    ensures TotalPreorder(NewerFirst)
  {
  }

  /** The views of the matching devices, each once, in no particular order. */
  method CollectMatching(s: Store, search: Option<string>, now: int) returns (picked: seq<DeviceView>)
    ensures Distinct(picked)
    ensures forall v :: v in picked ==>
      v.id in s.devices && MatchesSearch(s.devices[v.id], search) && v == FormatDevice(v.id, s.devices[v.id], now)
    ensures forall id :: id in s.devices && MatchesSearch(s.devices[id], search) ==>
      FormatDevice(id, s.devices[id], now) in picked
  {
    var rest := s.devices.Keys;
    picked := [];
    while rest != {}
      invariant rest <= s.devices.Keys
      invariant forall v :: v in picked ==>
        v.id in s.devices && v.id !in rest && MatchesSearch(s.devices[v.id], search)
        && v == FormatDevice(v.id, s.devices[v.id], now)
      invariant forall id :: id in s.devices && id !in rest && MatchesSearch(s.devices[id], search) ==>
        FormatDevice(id, s.devices[id], now) in picked
      invariant Distinct(picked)
      decreases rest
    {
      var id :| id in rest;
      if MatchesSearch(s.devices[id], search) {
        var v := FormatDevice(id, s.devices[id], now);
        picked := picked + [v];
      }
      rest := rest - {id};
    }
  }

  /** Every matching device exactly once, newest first. */
  method ListDevices(s: Store, query: ListQuery, now: int) returns (r: seq<DeviceView>)
    ensures forall i, j :: 0 <= i < j < |r| ==> r[i].createdAt >= r[j].createdAt
    ensures forall v :: v in r ==>
      v.id in s.devices && MatchesSearch(s.devices[v.id], query.search)
      && v == FormatDevice(v.id, s.devices[v.id], now)
    ensures forall id :: id in s.devices && MatchesSearch(s.devices[id], query.search) ==>
      FormatDevice(id, s.devices[id], now) in r
    ensures forall i, j :: 0 <= i < j < |r| ==> r[i].id != r[j].id
  {
    var picked := CollectMatching(s, query.search, now);
    NewerFirstIsPreorder();
    r := SortBy(picked, NewerFirst);
    PermutationKeepsDistinct(picked, r);
    assert forall v :: v in r <==> v in picked by {
      forall v
        ensures v in r <==> v in picked
      {
        assert v in r <==> v in multiset(r);
        assert v in picked <==> v in multiset(picked);
      }
    }
  }

  /** Applies the supplied settings; fields left out, and every other field, keep
      their values. */
  function UpdateDevice(s: Store, deviceId: string, data: UpdateRequest, now: int): (r: Step<DeviceView>)
    ensures deviceId !in s.devices ==> r == Step(s, Err(RecordNotFound))
    ensures deviceId in s.devices ==> r.result.Ok? && deviceId in r.store.devices
    ensures deviceId in s.devices ==>
      var d := s.devices[deviceId];
      var d' := r.store.devices[deviceId];
      && r.store == s.(devices := s.devices[deviceId := d'])
      && d'.name == data.name.GetOr(d.name)
      && d'.timezone == data.timezone.GetOr(d.timezone)
      && d' == d.(name := d'.name, timezone := d'.timezone)
      && r.result.value == FormatDevice(deviceId, d', now)
  {
    if deviceId !in s.devices then Step(s, Err(RecordNotFound))
    else
      var d := s.devices[deviceId];
      var named := if data.name.Some? then d.(name := data.name.value) else d;
      var d' := if data.timezone.Some? then named.(timezone := data.timezone.value) else named;
      Step(s.(devices := s.devices[deviceId := d']), Ok(FormatDevice(deviceId, d', now)))
  }

  /** Removes exactly the one device row. The database refuses while any schedule
      row or edge list still names the device (its default referential action for
      a required relation), and then nothing changes. */
  function DeleteDevice(s: Store, deviceId: string): (r: Step<()>)
    ensures deviceId !in s.devices ==> r == Step(s, Err(RecordNotFound))
    ensures deviceId in s.devices && Referenced(s, deviceId) ==> r == Step(s, Err(DeviceInUse))
    ensures r.result.Ok? <==> deviceId in s.devices && !Referenced(s, deviceId)
    ensures r.result.Ok? ==>
      && r.store.devices.Keys == s.devices.Keys - {deviceId}
      && (forall k :: k in r.store.devices ==> r.store.devices[k] == s.devices[k])
      && r.store.schedules == s.schedules && r.store.edgeLists == s.edgeLists
  {
    if deviceId !in s.devices then Step(s, Err(RecordNotFound))
    else if Referenced(s, deviceId) then Step(s, Err(DeviceInUse))
    else Step(s.(devices := s.devices - {deviceId}), Ok(()))
  }

  /** Registration keeps chip ids unique, the publication invariant and the
      foreign keys. */
  lemma RegisterKeepsInvariants(s: Store, data: RegisterRequest, now: int, id: string,
                                token: string, tokenHash: string)
    requires FreshDeviceId(s, id)
    requires Consistent(s) && ChipIdsUnique(s) && ReferencesValid(s)
    ensures var t := RegisterDevice(s, data, now, id, token, tokenHash).store;
      Consistent(t) && ChipIdsUnique(t) && ReferencesValid(t)
  {
    var t := RegisterDevice(s, data, now, id, token, tokenHash).store;
    if !ChipIdRegistered(s, data.chipId) {
      ConsistentUnderDeviceTableEdit(s, t);
      ReferencesUnderDeviceTableEdit(s, t);
      NewChipKeepsUnique(s, t, id);
    }
  }

  /** Adding one device whose chip id no other device has keeps chip ids unique. */
  lemma NewChipKeepsUnique(s: Store, t: Store, id: string)
    requires ChipIdsUnique(s) && id in t.devices && !ChipIdRegistered(s, t.devices[id].chipId)
    requires t.devices.Keys == s.devices.Keys + {id}
    requires forall k :: k in s.devices ==> t.devices[k] == s.devices[k]
    ensures ChipIdsUnique(t)
  {
    forall a, b | a in t.devices && b in t.devices && a != b
      ensures t.devices[a].chipId != t.devices[b].chipId
    {
      if a != id && b != id {
        assert t.devices[a] == s.devices[a] && t.devices[b] == s.devices[b];
      } else if a == id {
        assert t.devices[b] == s.devices[b];
      } else {
        assert t.devices[a] == s.devices[a];
      }
    }
  }

  lemma StatusKeepsConsistent(s: Store, deviceId: string, status: DeviceStatus, now: int)
    requires Consistent(s) && ChipIdsUnique(s) && ReferencesValid(s)
    ensures var t := UpdateDeviceStatus(s, deviceId, status, now).store;
      Consistent(t) && ChipIdsUnique(t) && ReferencesValid(t)
  {
    if deviceId in s.devices {
      var d := s.devices[deviceId];
      var d' := d.(lastSeenAt := Some(now), lastStatusAt := Some(now), lastStatus := Some(status));
      ConsistentUnderDeviceEdit(s, deviceId, d');
      ChipIdsUnderDeviceEdit(s, deviceId, d');
      ReferencesUnderDeviceTableEdit(s, s.(devices := s.devices[deviceId := d']));
    }
  }

  lemma UpdateKeepsInvariants(s: Store, deviceId: string, data: UpdateRequest, now: int)
    requires Consistent(s) && ChipIdsUnique(s) && ReferencesValid(s)
    ensures var t := UpdateDevice(s, deviceId, data, now).store;
      Consistent(t) && ChipIdsUnique(t) && ReferencesValid(t)
  {
    if deviceId in s.devices {
      var t := UpdateDevice(s, deviceId, data, now).store;
      ConsistentUnderDeviceEdit(s, deviceId, t.devices[deviceId]);
      ReferencesUnderDeviceTableEdit(s, t);
    }
  }

  /** A refused or successful removal keeps every invariant: in particular no
      schedule row or edge list is ever left naming a missing device. */
  lemma DeleteKeepsInvariants(s: Store, deviceId: string)
    requires Consistent(s) && ChipIdsUnique(s) && ReferencesValid(s)
    ensures var t := DeleteDevice(s, deviceId).store;
      Consistent(t) && ChipIdsUnique(t) && ReferencesValid(t)
  {
    if deviceId in s.devices && !Referenced(s, deviceId) {
      var t := s.(devices := s.devices - {deviceId});
      assert DeleteDevice(s, deviceId).store == t;
      ConsistentUnderDeviceTableEdit(s, t);
      ReferencesUnderDeviceTableEdit(s, t);
    }
  }

  /** Once a device has published a schedule it can never be removed: its current
      edge list refers to it, and no operation deletes edge lists. */
  lemma PublishedDeviceIsPermanent(s: Store, deviceId: string)
    requires Consistent(s)
    requires deviceId in s.devices && s.devices[deviceId].scheduleVersion > 0
    ensures DeleteDevice(s, deviceId) == Step(s, Err(DeviceInUse))
  {
    assert HasEdgeListFor(s, deviceId);
    var k :| k in s.edgeLists && s.edgeLists[k].deviceId == deviceId
             && s.edgeLists[k].scheduleVersion == s.devices[deviceId].scheduleVersion;
    assert Referenced(s, deviceId);
  }
}
