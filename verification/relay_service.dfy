/** The in-memory relay: one boolean that the relay endpoint sets and reads. */
module RelayService {
  import opened CoreTypes

  datatype RelayState = RelayState(relayOn: bool)

  /** The relay starts off. */
  const InitialRelayState := RelayState(false)

  datatype SetOutcome = SetOutcome(state: RelayState, response: RelayResponse)

  datatype GetOutcome = GetOutcome(state: RelayState, relayOn: bool)

  /** Stores `data.on`, forgetting the previous state, and acknowledges it. */
  function SetRelay(st: RelayState, data: SetRelayBody): (r: SetOutcome)
    ensures r.state.relayOn == data.on
    ensures r.response.ok && r.response.relayOn == data.on
  {
    SetOutcome(RelayState(data.on), RelayResponse(true, data.on))
  }

  /** Reports the stored state and leaves it as it is. */
  function GetRelay(st: RelayState): (r: GetOutcome)
    ensures r.state == st && r.relayOn == st.relayOn
  {
    GetOutcome(st, st.relayOn)
  }

  /** A read right after a write sees the written value. */
  lemma GetAfterSet(st: RelayState, data: SetRelayBody)
    ensures GetRelay(SetRelay(st, data).state).relayOn == data.on
  {
  }

  /** Of two writes, the last one wins. */
  lemma LastSetWins(st: RelayState, first: SetRelayBody, second: SetRelayBody)
    ensures SetRelay(SetRelay(st, first).state, second).state == SetRelay(st, second).state
  {
  }

  lemma InitiallyOff()
    ensures !GetRelay(InitialRelayState).relayOn
  {
  }
}
