/** The database as an immutable value: device, schedule and edge-list rows,
    each table a map from row id to row. Timestamps are integer milliseconds. */
module Store {
  import opened Wrappers
  import opened Errors
  import opened ScheduleSchemas
  import opened DeviceSchemas

  datatype Device = Device(
    name: string,
    chipId: string,
    apiTokenHash: string,
    timezone: string,
    scheduleVersion: int,
    /** A queued one-shot relay command: on, off, or none. */
    pendingRelayOn: Option<bool>,
    lastSeenAt: Option<int>,
    lastStatusAt: Option<int>,
    lastStatus: Option<DeviceStatus>,
    createdAt: int)

  /** One immutable version of a device's rule set. */
  datatype Schedule = Schedule(deviceId: string, version: int, timezone: string, rules: seq<Rule>, createdAt: int)

  /** One absolute-time relay transition. */
  datatype EdgeEvent = EdgeEvent(tsUtc: int, on: bool, ruleName: Option<string>)

  /** The compiled transitions for one schedule version. */
  datatype EdgeList = EdgeList(
    deviceId: string,
    scheduleVersion: int,
    generatedAt: int,
    validUntil: int,
    edges: seq<EdgeEvent>)

  datatype Store = Store(
    devices: map<string, Device>,
    schedules: map<string, Schedule>,
    edgeLists: map<string, EdgeList>)

  const EmptyStore := Store(map[], map[], map[])

  /** How often a device polls and reports status, in seconds; sent at
      registration and on every poll. */
  const PollIntervalSeconds := 30
  const StatusIntervalSeconds := 300

  datatype DeviceConfig = DeviceConfig(pollInterval: int, statusInterval: int)

  const DeviceTimings := DeviceConfig(PollIntervalSeconds, StatusIntervalSeconds)

  /** The store after a service call, and what the call returned or threw. */
  datatype Step<T> = Step(store: Store, result: Result<T, Error>)

  /** An id the database has never handed out: no row has it or refers to it. */
  predicate FreshDeviceId(s: Store, id: string) {
    && id !in s.devices
    && (forall k :: k in s.schedules ==> s.schedules[k].deviceId != id)
    && (forall k :: k in s.edgeLists ==> s.edgeLists[k].deviceId != id)
  }

  /** The device's current version has its edge list. */
  ghost predicate HasEdgeListFor(s: Store, id: string)
    requires id in s.devices
  {
    exists k :: k in s.edgeLists && s.edgeLists[k].deviceId == id
                && s.edgeLists[k].scheduleVersion == s.devices[id].scheduleVersion
  }

  ghost predicate VersionsNonNegative(s: Store) {
    forall id :: id in s.devices ==> s.devices[id].scheduleVersion >= 0
  }

  /** Every device past version 0 has the edge list of its current version. */
  ghost predicate CurrentVersionsPublished(s: Store) {
    forall id :: id in s.devices && s.devices[id].scheduleVersion > 0 ==> HasEdgeListFor(s, id)
  }

  ghost predicate EdgeListsNotAhead(s: Store) {
    forall k :: k in s.edgeLists && s.edgeLists[k].deviceId in s.devices ==>
      s.edgeLists[k].scheduleVersion <= s.devices[s.edgeLists[k].deviceId].scheduleVersion
  }

  ghost predicate SchedulesNotAhead(s: Store) {
    forall k :: k in s.schedules && s.schedules[k].deviceId in s.devices ==>
      s.schedules[k].version <= s.devices[s.schedules[k].deviceId].scheduleVersion
  }

  /** The publication invariant: versions are never negative, every positive
      device version has its edge list, and no schedule row or edge list of a
      device is ahead of that device's version. */
  ghost predicate Consistent(s: Store) {
    VersionsNonNegative(s) && CurrentVersionsPublished(s) && EdgeListsNotAhead(s) && SchedulesNotAhead(s)
  }

  /** No two devices share a chip id. */
  ghost predicate ChipIdsUnique(s: Store) {
    forall a, b :: a in s.devices && b in s.devices && a != b ==> s.devices[a].chipId != s.devices[b].chipId
  }

  /** Some schedule row or edge list names the device `id`. */
  predicate Referenced(s: Store, id: string) {
    || (exists k :: k in s.schedules && s.schedules[k].deviceId == id)
    || (exists k :: k in s.edgeLists && s.edgeLists[k].deviceId == id)
  }

  /** The foreign keys: every schedule row and edge list names a device on file. */
  ghost predicate ReferencesValid(s: Store) {
    && (forall k :: k in s.schedules ==> s.schedules[k].deviceId in s.devices)
    && (forall k :: k in s.edgeLists ==> s.edgeLists[k].deviceId in s.devices)
  }

  /** The store starts empty, where every invariant holds. */
  lemma EmptyStoreConsistent()
    ensures Consistent(EmptyStore) && ChipIdsUnique(EmptyStore) && ReferencesValid(EmptyStore)
  {
  }

  /** Changing device fields other than the chip id keeps chip ids unique. */
  lemma ChipIdsUnderDeviceEdit(s: Store, id: string, d: Device)
    requires ChipIdsUnique(s) && id in s.devices
    requires d.chipId == s.devices[id].chipId
    ensures ChipIdsUnique(s.(devices := s.devices[id := d]))
  {
    var t := s.(devices := s.devices[id := d]);
    forall a, b | a in t.devices && b in t.devices && a != b
      ensures t.devices[a].chipId != t.devices[b].chipId
    {
      assert t.devices[a].chipId == s.devices[a].chipId;
      assert t.devices[b].chipId == s.devices[b].chipId;
    }
  }

  /** Under the foreign keys an id no device has is fresh: no row refers to it. */
  lemma FreshWhenReferencesValid(s: Store, id: string)
    requires ReferencesValid(s)
    ensures FreshDeviceId(s, id) <==> id !in s.devices
  {
  }

  /** Device-table edits that drop no device still referred to keep the foreign keys. */
  lemma ReferencesUnderDeviceTableEdit(s: Store, t: Store)
    requires ReferencesValid(s)
    requires t.edgeLists == s.edgeLists && t.schedules == s.schedules
    requires forall id :: id in s.devices && id !in t.devices ==> !Referenced(s, id)
    ensures ReferencesValid(t)
  {
    forall k | k in t.schedules
      ensures t.schedules[k].deviceId in t.devices
    {
      assert s.schedules[k].deviceId in s.devices;
    }
    forall k | k in t.edgeLists
      ensures t.edgeLists[k].deviceId in t.devices
    {
      assert s.edgeLists[k].deviceId in s.devices;
    }
  }

  /** Each device of `t` is either a device of `s` at the same version, or
      a newcomer at version 0 that no row refers to. */
  ghost predicate SameVersionsOrFresh(s: Store, t: Store) {
    forall x :: x in t.devices ==>
      (x in s.devices && t.devices[x].scheduleVersion == s.devices[x].scheduleVersion)
      || (FreshDeviceId(s, x) && t.devices[x].scheduleVersion == 0)
  }

  lemma PublishedUnderDeviceTableEdit(s: Store, t: Store)
    requires CurrentVersionsPublished(s)
    requires t.edgeLists == s.edgeLists
    requires SameVersionsOrFresh(s, t)
    ensures CurrentVersionsPublished(t)
  {
    forall x | x in t.devices && t.devices[x].scheduleVersion > 0
      ensures HasEdgeListFor(t, x)
    {
      assert x in s.devices && HasEdgeListFor(s, x);
      var k :| k in s.edgeLists && s.edgeLists[k].deviceId == x
               && s.edgeLists[k].scheduleVersion == s.devices[x].scheduleVersion;
      assert t.edgeLists[k].scheduleVersion == t.devices[x].scheduleVersion;
    }
  }

  lemma EdgeListsUnderDeviceTableEdit(s: Store, t: Store)
    requires EdgeListsNotAhead(s)
    requires t.edgeLists == s.edgeLists
    requires SameVersionsOrFresh(s, t)
    ensures EdgeListsNotAhead(t)
  {
    forall k | k in t.edgeLists && t.edgeLists[k].deviceId in t.devices
      ensures t.edgeLists[k].scheduleVersion <= t.devices[t.edgeLists[k].deviceId].scheduleVersion
    {
      var x := t.edgeLists[k].deviceId;
      assert s.edgeLists[k].deviceId == x;
    }
  }

  lemma SchedulesUnderDeviceTableEdit(s: Store, t: Store)
    requires SchedulesNotAhead(s)
    requires t.schedules == s.schedules
    requires SameVersionsOrFresh(s, t)
    ensures SchedulesNotAhead(t)
  {
    forall k | k in t.schedules && t.schedules[k].deviceId in t.devices
      ensures t.schedules[k].version <= t.devices[t.schedules[k].deviceId].scheduleVersion
    {
      var x := t.schedules[k].deviceId;
      assert s.schedules[k].deviceId == x;
    }
  }

  /** Device-table edits that keep every version (adding fresh devices at 0,
      removing devices, changing other fields) keep the publication invariant. */
  lemma ConsistentUnderDeviceTableEdit(s: Store, t: Store)
    requires Consistent(s)
    requires t.edgeLists == s.edgeLists && t.schedules == s.schedules
    requires SameVersionsOrFresh(s, t)
    ensures Consistent(t)
  {
    PublishedUnderDeviceTableEdit(s, t);
    EdgeListsUnderDeviceTableEdit(s, t);
    SchedulesUnderDeviceTableEdit(s, t);
  }

  /** Changing device fields other than the schedule version keeps the invariant. */
  lemma ConsistentUnderDeviceEdit(s: Store, id: string, d: Device)
    requires Consistent(s) && id in s.devices
    requires d.scheduleVersion == s.devices[id].scheduleVersion
    ensures Consistent(s.(devices := s.devices[id := d]))
  {
    ConsistentUnderDeviceTableEdit(s, s.(devices := s.devices[id := d]));
  }
}
