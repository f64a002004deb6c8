/** Request shapes of the device module and the checks each schema makes.
    Lengths count characters. */
module DeviceSchemas {
  import opened Wrappers

  const MaxChipIdLength := 32
  const MaxDeviceNameLength := 255
  const DefaultTimezone := "UTC"

  datatype RegisterRequest = RegisterRequest(chipId: string, name: string, timezone: string)

  /** Registration: chip id of 1..32 characters, name of 1..255, timezone
      optional and "UTC" when absent. */
  function ParseRegister(chipId: string, name: string, timezone: Option<string>): (r: Option<RegisterRequest>)
    ensures r.Some? <==> 1 <= |chipId| <= MaxChipIdLength && 1 <= |name| <= MaxDeviceNameLength
    ensures r.Some? ==> r.value.chipId == chipId && r.value.name == name
    ensures r.Some? && timezone.Some? ==> r.value.timezone == timezone.value
    ensures r.Some? && timezone.None? ==> r.value.timezone == DefaultTimezone
  {
    if 1 <= |chipId| <= MaxChipIdLength && 1 <= |name| <= MaxDeviceNameLength
    then Some(RegisterRequest(chipId, name, timezone.GetOr(DefaultTimezone)))
    else None
  }

  /** A status report as stored on the device row. */
  datatype DeviceStatus = DeviceStatus(
    relayState: bool,
    wifiSignal: Option<int>,
    uptime: Option<int>,
    freeHeap: Option<int>,
    temperature: Option<int>)

  /** A status report: relay state required; signal strength in [-100, 0],
      uptime and free heap non-negative when present; temperature unchecked. */
  function ParseStatus(relayState: Option<bool>, wifiSignal: Option<int>, uptime: Option<int>,
                       freeHeap: Option<int>, temperature: Option<int>): (r: Option<DeviceStatus>)
    ensures r.Some? <==>
      && relayState.Some?
      && (wifiSignal.None? || -100 <= wifiSignal.value <= 0)
      && (uptime.None? || uptime.value >= 0)
      && (freeHeap.None? || freeHeap.value >= 0)
    ensures r.Some? ==> r.value == DeviceStatus(relayState.value, wifiSignal, uptime, freeHeap, temperature)
  {
    if relayState.Some?
       && (wifiSignal.None? || -100 <= wifiSignal.value <= 0)
       && (uptime.None? || uptime.value >= 0)
       && (freeHeap.None? || freeHeap.value >= 0)
    then Some(DeviceStatus(relayState.value, wifiSignal, uptime, freeHeap, temperature))
    else None
  }

  datatype UpdateRequest = UpdateRequest(name: Option<string>, timezone: Option<string>)

  /** Device settings: a present name has 1..255 characters; a present timezone
      may be any string, the empty one included. */
  function ParseUpdate(name: Option<string>, timezone: Option<string>): (r: Option<UpdateRequest>)
    ensures r.Some? <==> name.None? || 1 <= |name.value| <= MaxDeviceNameLength
    ensures r.Some? ==> r.value == UpdateRequest(name, timezone)
  {
    if name.None? || 1 <= |name.value| <= MaxDeviceNameLength
    then Some(UpdateRequest(name, timezone))
    else None
  }

  predicate ValidRegisterRequest(r: RegisterRequest) {
    1 <= |r.chipId| <= MaxChipIdLength && 1 <= |r.name| <= MaxDeviceNameLength
  }

  /** A request survives parsing unchanged exactly when its fields are in bounds. */
  lemma RegisterRoundTrip(r: RegisterRequest)
    ensures ParseRegister(r.chipId, r.name, Some(r.timezone)) == Some(r) <==> ValidRegisterRequest(r)
  {
  }

  predicate ValidStatus(d: DeviceStatus) {
    && (d.wifiSignal.None? || -100 <= d.wifiSignal.value <= 0)
    && (d.uptime.None? || d.uptime.value >= 0)
    && (d.freeHeap.None? || d.freeHeap.value >= 0)
  }

  /** A status report survives parsing unchanged exactly when it is in bounds. */
  lemma StatusRoundTrip(d: DeviceStatus)
    ensures ParseStatus(Some(d.relayState), d.wifiSignal, d.uptime, d.freeHeap, d.temperature) == Some(d)
            <==> ValidStatus(d)
  {
  }

  /** Device list filter: any search string, or none. */
  datatype ListQuery = ListQuery(search: Option<string>)

  lemma DeviceSchemaExamples()
    ensures ParseRegister("abc", "Plug", None) == Some(RegisterRequest("abc", "Plug", "UTC"))
    ensures ParseRegister("", "Plug", None).None?
    ensures ParseStatus(None, None, None, None, None).None?
    ensures ParseStatus(Some(true), Some(-101), None, None, None).None?
    ensures ParseStatus(Some(false), Some(0), Some(0), Some(0), Some(-40)).Some?
    ensures ParseUpdate(None, Some("")).Some?
    ensures ParseUpdate(Some(""), None).None?
  {
  }
}
