/** The legacy in-memory schedule store: one schedule, replaced wholesale by a
    save unless two rule windows share the same (day, start, end) key. */
module LegacyScheduleService {
  import opened Wrappers
  import opened Text
  import opened Clock
  import opened Errors
  import opened CoreTypes
  import opened LegacyScheduleSchema
  import opened Sorting

  /** The schedule the store holds before any save: rule r1, weeknights 22:00-06:00. */
  const InitialSchedule := ScheduleDto([LegacyRule("r1", [1, 2, 3, 4, 5], "22:00", "06:00")])

  /** One weekday occurrence of a rule's window. The rule id plays no part. */
  datatype Window = Window(day: int, start: string, end: string)

  /** The set key `${day}-${start}-${end}` the duplicate check builds. */
  function WindowKey(w: Window): string {
    IntToText(w.day) + "-" + w.start + "-" + w.end
  }

  function RuleWindows(r: LegacyRule): (ws: seq<Window>)
    ensures |ws| == |r.days|
    ensures forall k :: 0 <= k < |ws| ==> ws[k] == Window(r.days[k], r.start, r.end)
  {
    seq(|r.days|, k requires 0 <= k < |r.days| => Window(r.days[k], r.start, r.end))
  }

  /** Every window of every rule, rule by rule and day by day, in the order the
      duplicate check visits them. */
  function Windows(rules: seq<LegacyRule>): seq<Window> {
    if rules == [] then [] else Windows(rules[..|rules| - 1]) + RuleWindows(rules[|rules| - 1])
  }

  function Keys(ws: seq<Window>): (ks: seq<string>)
    ensures |ks| == |ws|
    ensures forall i :: 0 <= i < |ws| ==> ks[i] == WindowKey(ws[i])
  {
    seq(|ws|, i requires 0 <= i < |ws| => WindowKey(ws[i]))
  }

  function Elems<T>(s: seq<T>): set<T> {
    set x | x in s
  }

  /** The windows of the first `i` rules come first among all windows. */
  lemma {:induction false} WindowsPrefix(rules: seq<LegacyRule>, i: nat)
    requires i <= |rules|
    ensures Windows(rules[..i]) <= Windows(rules)
    decreases |rules|
  {
    if i < |rules| {
      var init := rules[..|rules| - 1];
      WindowsPrefix(init, i);
      assert init[..i] == rules[..i];
    } else {
      assert rules[..i] == rules;
    }
  }

  lemma KeysAppend(a: seq<Window>, b: seq<Window>)
    ensures Keys(a + b) == Keys(a) + Keys(b)
  {
  }

  lemma KeysPrefix(a: seq<Window>, b: seq<Window>)
    requires a <= b
    ensures Keys(a) <= Keys(b)
  {
  }

  lemma DistinctSnoc<T>(p: seq<T>, x: T)
    requires Distinct(p) && x !in Elems(p)
    ensures Distinct(p + [x])
  {
  }

  lemma RepeatInLonger<T>(p: seq<T>, x: T, whole: seq<T>)
    requires p + [x] <= whole && x in Elems(p)
    ensures !Distinct(whole)
  {
    var k :| 0 <= k < |p| && p[k] == x;
    assert whole[k] == (p + [x])[k] && whole[|p|] == (p + [x])[|p|];
  }

  lemma PrefixExtends<T>(a: seq<T>, b: seq<T>, whole: seq<T>, j: nat)
    requires a + b <= whole && j < |b|
    ensures (a + b[..j]) + [b[j]] <= whole
  {
    assert (a + b[..j]) + [b[j]] == (a + b)[..|a| + j + 1];
  }

  /** The keys of the first `i + 1` rules come first among all keys. */
  lemma ScannedKeysPrefix(rules: seq<LegacyRule>, i: nat)
    requires i < |rules|
    ensures Keys(Windows(rules[..i])) + Keys(RuleWindows(rules[i])) <= Keys(Windows(rules))
  {
    RuleScanned(rules, i);
    WindowsPrefix(rules, i + 1);
    KeysPrefix(Windows(rules[..i + 1]), Windows(rules));
  }

  /** A key met again while scanning rule `i` at day `j` is a repeat in the whole key list. */
  lemma RepeatInPrefix(rules: seq<LegacyRule>, i: nat, j: nat)
    requires i < |rules| && j < |rules[i].days|
    requires WindowKey(Window(rules[i].days[j], rules[i].start, rules[i].end))
             in Elems(Keys(Windows(rules[..i])) + Keys(RuleWindows(rules[i]))[..j])
    ensures !Distinct(Keys(Windows(rules)))
  {
    var before, mine := Keys(Windows(rules[..i])), Keys(RuleWindows(rules[i]));
    var whole := Keys(Windows(rules));
    ScannedKeysPrefix(rules, i);
    assert mine[j] == WindowKey(Window(rules[i].days[j], rules[i].start, rules[i].end));
    PrefixExtends(before, mine, whole, j);
    RepeatInLonger(before + mine[..j], mine[j], whole);
  }

  /** Finishing rule `i` extends the scanned key list by that rule's keys. */
  lemma RuleScanned(rules: seq<LegacyRule>, i: nat)
    requires i < |rules|
    ensures Keys(Windows(rules[..i + 1])) == Keys(Windows(rules[..i])) + Keys(RuleWindows(rules[i]))
  {
    assert rules[..i + 1][..i] == rules[..i];
    assert Windows(rules[..i + 1]) == Windows(rules[..i]) + RuleWindows(rules[i]);
    KeysAppend(Windows(rules[..i]), RuleWindows(rules[i]));
  }

  /** Recording a key not seen before keeps the scanned keys distinct. */
  lemma ScanStep(before: seq<string>, mine: seq<string>, j: nat)
    requires j < |mine|
    requires Distinct(before + mine[..j]) && mine[j] !in Elems(before + mine[..j])
    ensures Elems(before + mine[..j + 1]) == Elems(before + mine[..j]) + {mine[j]}
    ensures Distinct(before + mine[..j + 1])
  {
    assert before + mine[..j + 1] == (before + mine[..j]) + [mine[j]];
    DistinctSnoc(before + mine[..j], mine[j]);
  }

  /** The service's nested loop over rules and days with a set of seen keys. It
      reports a duplicate exactly when two visited windows produce the same key. */
  method FindDuplicateWindow(rules: seq<LegacyRule>) returns (dup: bool)
    ensures dup <==> !Distinct(Keys(Windows(rules)))
  {
    var seen: set<string> := {};
    var i := 0;
    while i < |rules|
      invariant 0 <= i <= |rules|
      invariant seen == Elems(Keys(Windows(rules[..i])))
      invariant Distinct(Keys(Windows(rules[..i])))
    {
      var r := rules[i];
      ghost var before := Keys(Windows(rules[..i]));
      ghost var mine := Keys(RuleWindows(r));
      var j := 0;
      while j < |r.days|
        invariant 0 <= j <= |r.days|
        invariant seen == Elems(before + mine[..j])
        invariant Distinct(before + mine[..j])
      {
        var key := WindowKey(Window(r.days[j], r.start, r.end));
        if key in seen {
          RepeatInPrefix(rules, i, j);
          return true;
        }
        assert key == mine[j];
        ScanStep(before, mine, j);
        seen := seen + {key};
        j := j + 1;
      }
      RuleScanned(rules, i);
      assert mine[..j] == mine;
      i := i + 1;
    }
    assert rules[..i] == rules;
    return false;
  }

  datatype SaveOutcome = SaveOutcome(state: ScheduleDto, result: Result<ScheduleDto, Error>)

  /** Rejects a body with a repeated window key and keeps the stored schedule;
      otherwise the body becomes the stored schedule and is returned. */
  method SaveSchedule(st: ScheduleDto, body: ScheduleDto) returns (r: SaveOutcome)
    ensures r.result.Err? <==> !Distinct(Keys(Windows(body.rules)))
    ensures r.result.Err? ==> r.state == st && r.result.error == DuplicateRuleWindows
    ensures r.result.Ok? ==> r.state == body && r.result.value == body
  {
    var dup := FindDuplicateWindow(body.rules);
    if dup {
      return SaveOutcome(st, Err(DuplicateRuleWindows));
    }
    return SaveOutcome(body, Ok(body));
  }

  datatype GetOutcome = GetOutcome(state: ScheduleDto, schedule: ScheduleDto)

  /** Returns the stored schedule and leaves the store alone. */
  function GetSchedule(st: ScheduleDto): (r: GetOutcome)
    ensures r.state == st && r.schedule == st
  {
    GetOutcome(st, st)
  }

  /** A window a schema-valid rule can produce. */
  predicate ValidWindow(w: Window) {
    IsWeekday(w.day) && IsStrictClockTime(w.start) && IsStrictClockTime(w.end)
  }

  /** On schema-valid windows the text key is faithful: two keys agree exactly
      when day, start and end all agree. */
  lemma WindowKeyInjective(w1: Window, w2: Window)
    requires ValidWindow(w1) && ValidWindow(w2)
    ensures WindowKey(w1) == WindowKey(w2) <==> w1 == w2
  {
    KeyParts(w1);
    KeyParts(w2);
  }

  /** Each field of a schema-valid window sits at a fixed place in its key. */
  lemma KeyParts(w: Window)
    requires ValidWindow(w)
    ensures |WindowKey(w)| == 13
    ensures DigitValue(WindowKey(w)[0]) == w.day
    ensures WindowKey(w)[2..7] == w.start && WindowKey(w)[8..13] == w.end
  {
    assert IntToText(w.day) == [DigitChar(w.day)];
  }

  lemma {:induction false} ValidBodyWindows(rules: seq<LegacyRule>)
    requires forall i :: 0 <= i < |rules| ==> ValidLegacyRule(rules[i])
    ensures forall k :: 0 <= k < |Windows(rules)| ==> ValidWindow(Windows(rules)[k])
  {
    if rules != [] {
      ValidBodyWindows(rules[..|rules| - 1]);
    }
  }

  /** For a schema-valid body, a save fails exactly when the same
      (day, start, end) triple occurs twice across all rules' day lists. */
  lemma DuplicateKeyIffRepeatedWindow(body: ScheduleDto)
    requires ValidScheduleBody(body)
    ensures Distinct(Keys(Windows(body.rules))) <==> Distinct(Windows(body.rules))
  {
    var ws := Windows(body.rules);
    ValidBodyWindows(body.rules);
    forall i, j | 0 <= i < j < |ws|
      ensures Keys(ws)[i] == Keys(ws)[j] <==> ws[i] == ws[j]
    {
      WindowKeyInjective(ws[i], ws[j]);
    }
  }

  /** The starting schedule passes the schema and the duplicate check. */
  lemma InitialScheduleAccepted()
    ensures ValidScheduleBody(InitialSchedule)
    ensures Distinct(Windows(InitialSchedule.rules))
  {
    InitialRuleValid();
    var r := InitialSchedule.rules[0];
    assert InitialSchedule.rules == [r];
    OneRuleWindows(r);
    DistinctDays(RuleWindows(r));
  }

  /** Windows on days 1, 2, 3, ... in turn are pairwise different. */
  lemma DistinctDays(ws: seq<Window>)
    requires forall k :: 0 <= k < |ws| ==> ws[k].day == k + 1
    ensures Distinct(ws)
  {
  }

  lemma InitialRuleValid()
    ensures ValidLegacyRule(InitialSchedule.rules[0])
    ensures forall k :: 0 <= k < |InitialSchedule.rules[0].days| ==> InitialSchedule.rules[0].days[k] == k + 1
  {
    assert IsStrictClockTime("22:00") && IsStrictClockTime("06:00");
  }

  /** A one-rule body has exactly that rule's windows. */
  lemma OneRuleWindows(r: LegacyRule)
    ensures Windows([r]) == RuleWindows(r)
  {
    assert [r][..0] == [];
  }

  /** A day listed twice in one rule is a duplicate. */
  lemma RepeatedDayIsDuplicate()
    ensures !Distinct(Windows([LegacyRule("a", [1, 1], "08:00", "09:00")]))
  {
    var a := LegacyRule("a", [1, 1], "08:00", "09:00");
    assert [a][..0] == [];
    var ws := Windows([a]);
    assert ws == Windows([a][..0]) + RuleWindows(a);
    assert Windows([a][..0]) == [];
    assert ws[0] == Window(1, "08:00", "09:00") == ws[1];
  }

  /** The rule id is not part of the key: one window under two ids is a duplicate. */
  lemma RuleIdIgnored()
    ensures !Distinct(Windows([LegacyRule("a", [1], "08:00", "09:00"),
                               LegacyRule("b", [1], "08:00", "09:00")]))
  {
    var b1 := LegacyRule("a", [1], "08:00", "09:00");
    var b2 := LegacyRule("b", [1], "08:00", "09:00");
    assert [b1, b2][..1] == [b1] && [b1][..0] == [];
    var ws := Windows([b1, b2]);
    assert ws == Windows([b1, b2][..1]) + RuleWindows(b2);
    assert Windows([b1]) == Windows([b1][..0]) + RuleWindows(b1);
    assert Windows([b1][..0]) == [];
    assert ws[0] == Window(1, "08:00", "09:00") == ws[1];
  }

  /** Overlapping but different windows on one day are accepted. */
  lemma OverlapAccepted()
    ensures Distinct(Windows([LegacyRule("a", [1], "08:00", "10:00"),
                              LegacyRule("b", [1], "09:00", "11:00")]))
  {
    var c1 := LegacyRule("a", [1], "08:00", "10:00");
    var c2 := LegacyRule("b", [1], "09:00", "11:00");
    assert [c1, c2][..1] == [c1] && [c1][..0] == [];
    var ws := Windows([c1, c2]);
    assert ws == Windows([c1, c2][..1]) + RuleWindows(c2);
    assert Windows([c1]) == Windows([c1][..0]) + RuleWindows(c1);
    assert Windows([c1][..0]) == [];
    assert |ws| == 2 && ws[0].start == "08:00" && ws[1].start == "09:00";
    assert ws[0].start[1] != ws[1].start[1];
  }

  /** Outside the schema the text key is lossy: a dash inside a time lets two
      different windows share a key. */
  lemma KeyCollidesOutsideSchema()
    ensures Window(1, "a-b", "c") != Window(1, "a", "b-c")
    ensures WindowKey(Window(1, "a-b", "c")) == WindowKey(Window(1, "a", "b-c"))
  {
    assert IntToText(1) == "1";
  }
}
