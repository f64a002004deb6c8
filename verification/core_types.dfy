/** Shapes shared by the in-memory relay and legacy schedule services. */
module CoreTypes {

  /** Request body of the relay endpoint. */
  datatype SetRelayBody = SetRelayBody(on: bool)

  datatype RelayResponse = RelayResponse(ok: bool, relayOn: bool)

  /** One legacy schedule rule: a daily window on the listed weekdays. */
  datatype LegacyRule = LegacyRule(id: string, days: seq<int>, start: string, end: string)

  datatype ScheduleDto = ScheduleDto(rules: seq<LegacyRule>)
}
