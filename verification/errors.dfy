/** The failures a service call can end in: the four the services throw with
    their own message, and the two the database raises. */
module Errors {

  datatype Error =
    | DeviceNotFound
    | ScheduleNotFound
    | ChipIdTaken(chipId: string)
    | DuplicateRuleWindows
      /** The database refusing to update or delete a row that does not exist. */
    | RecordNotFound
      /** The database refusing to delete a device that rows still refer to. */
    | DeviceInUse

  /** Thrown by the services themselves rather than raised by the database. */
  predicate Thrown(e: Error) {
    !e.RecordNotFound? && !e.DeviceInUse?
  }

  /** The message a thrown error carries. The database's own wording is not modelled. */
  function Message(e: Error): string
    requires Thrown(e)
  {
    match e
    case DeviceNotFound => "Device not found"
    case ScheduleNotFound => "Schedule not found"
    case ChipIdTaken(chipId) => "Device with chip ID " + chipId + " already registered"
    case DuplicateRuleWindows => "Duplicate rule windows detected"
  }

  /** Callers tell thrown errors apart by message alone, and they can: two thrown
      errors carry the same message exactly when they are the same error. */
  lemma MessagesIdentifyErrors(e1: Error, e2: Error)
    requires Thrown(e1) && Thrown(e2)
    ensures Message(e1) == Message(e2) <==> e1 == e2
  {
    if Message(e1) == Message(e2) && e1.ChipIdTaken? && e2.ChipIdTaken? {
      ChipMessageDeterminesChip(e1.chipId, e2.chipId);
    }
  }

  lemma ChipMessageDeterminesChip(a: string, b: string)
    requires "Device with chip ID " + a + " already registered" == "Device with chip ID " + b + " already registered"
    ensures a == b
  {
    var m1 := "Device with chip ID " + a + " already registered";
    var m2 := "Device with chip ID " + b + " already registered";
    assert |a| == |b|;
    forall i | 0 <= i < |a|
      ensures a[i] == b[i]
    {
      assert a[i] == m1[20 + i] && b[i] == m2[20 + i];
    }
  }
}
