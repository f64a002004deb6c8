/** The legacy schedule body: at most 32 rules, each with a non-empty id, a
    non-empty list of integer weekdays 0..6 and strict "HH:MM" start and end. */
module LegacyScheduleSchema {
  import opened CoreTypes
  import opened Clock

  const MaxLegacyRules := 32

  predicate IsWeekday(d: int) {
    0 <= d <= 6
  }

  /** Start and end are checked on their own; nothing relates one to the other. */
  predicate ValidLegacyRule(r: LegacyRule) {
    && |r.id| >= 1
    && |r.days| >= 1
    && (forall i :: 0 <= i < |r.days| ==> IsWeekday(r.days[i]))
    && IsStrictClockTime(r.start)
    && IsStrictClockTime(r.end)
  }

  predicate ValidScheduleBody(b: ScheduleDto) {
    |b.rules| <= MaxLegacyRules && forall i :: 0 <= i < |b.rules| ==> ValidLegacyRule(b.rules[i])
  }

  /** A legacy rule is accepted exactly when its id and day list are non-empty,
      every day is a weekday, and start and end are padded times of day. */
  lemma LegacyRuleMeaning(r: LegacyRule)
    ensures ValidLegacyRule(r) <==>
      && r.id != []
      && r.days != []
      && (forall d :: d in r.days ==> 0 <= d <= 6)
      && (exists h, m :: 0 <= h <= 23 && 0 <= m <= 59 && r.start == ClockText(h, m))
      && (exists h, m :: 0 <= h <= 23 && 0 <= m <= 59 && r.end == ClockText(h, m))
  {
    StrictClockTimeMeaning(r.start);
    StrictClockTimeMeaning(r.end);
    if forall i :: 0 <= i < |r.days| ==> IsWeekday(r.days[i]) {
      forall d | d in r.days
        ensures 0 <= d <= 6
      {
        var i :| 0 <= i < |r.days| && r.days[i] == d;
        assert IsWeekday(r.days[i]);
      }
    }
    if forall d :: d in r.days ==> 0 <= d <= 6 {
      forall i | 0 <= i < |r.days|
        ensures IsWeekday(r.days[i])
      {
        assert r.days[i] in r.days;
      }
    }
  }

  /** The empty body is accepted, a 33-rule body never is, and an overnight
      window whose end precedes its start is accepted. */
  lemma LegacyBodyExamples(r: LegacyRule)
    ensures ValidScheduleBody(ScheduleDto([]))
    ensures ValidLegacyRule(LegacyRule("r1", [1], "22:00", "06:00"))
    ensures !ValidLegacyRule(LegacyRule("", [1], "22:00", "06:00"))
    ensures !ValidLegacyRule(LegacyRule("r1", [], "22:00", "06:00"))
    ensures !ValidLegacyRule(LegacyRule("r1", [7], "22:00", "06:00"))
    ensures !ValidLegacyRule(LegacyRule("r1", [1], "7:00", "08:00"))
    ensures !ValidScheduleBody(ScheduleDto(seq(33, _ => r)))
  {
    assert IsStrictClockTime("22:00") && IsStrictClockTime("06:00");
    assert LegacyRule("r1", [7], "22:00", "06:00").days[0] == 7;
  }
}
