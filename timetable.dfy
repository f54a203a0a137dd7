/** The timetable of a search request and the list of
    (module, day, periods) conditions it is turned into. */
module Timetable {
  import opened Results
  import opened Enums
  import opened Entities

  /** The boolean column of one day: entry `i` asks for period `i` (period 0
      is the one given to courses without period information). An absent
      column is `None`. */
  datatype DayCell = DayCell(day: Day, periods: Option<seq<bool>>)

  /** The days of one module, in the order the request lists them; an absent
      module is `None`. */
  datatype ModuleCell = ModuleCell(term: Module, days: Option<seq<DayCell>>)

  /** One requested slot; `periods` lists the requested period numbers. */
  datatype Condition = Condition(term: Module, day: Day, periods: seq<int>)

  /** The indices of the `true` entries of `a` from `start` on, ascending. */
  function TruePeriodsFrom(a: seq<bool>, start: nat): (r: seq<int>)
    requires start <= |a|
    ensures forall k :: 0 <= k < |r| ==> start <= r[k] < |a| && a[r[k]]
    ensures forall p :: start <= p < |a| && a[p] ==> p in r
    ensures forall k, l :: 0 <= k < l < |r| ==> r[k] < r[l]
    decreases |a| - start
  {
    if start == |a| then []
    else
      var rest := TruePeriodsFrom(a, start + 1);
      if a[start] then [start] + rest else rest
  }

  function TruePeriods(a: seq<bool>): seq<int> {
    TruePeriodsFrom(a, 0)
  }

  /** A column is kept when it is present, non-empty and asks for at least
      one period. */
  predicate Selected(periods: Option<seq<bool>>) {
    periods.Some? && |periods.value| > 0 && true in periods.value
  }

  lemma SelectedHasPeriods(a: seq<bool>)
    requires true in a
    ensures |TruePeriods(a)| > 0
  {
    var i :| 0 <= i < |a| && a[i];
    assert i in TruePeriods(a);
  }

  function DayConditions(term: Module, days: seq<DayCell>): (r: seq<Condition>)
    ensures forall k :: 0 <= k < |r| ==> |r[k].periods| > 0
  {
    if |days| == 0 then []
    else
      var rest := DayConditions(term, days[1..]);
      if Selected(days[0].periods) then
        var a := days[0].periods.value;
        SelectedHasPeriods(a);
        [Condition(term, days[0].day, TruePeriods(a))] + rest
      else rest
  }

  /** The conditions of a timetable, module by module and day by day. */
  function ExtractConditions(tt: seq<ModuleCell>): (r: seq<Condition>)
    ensures forall k :: 0 <= k < |r| ==> |r[k].periods| > 0
  {
    if |tt| == 0 then [] else HeadConditions(tt[0]) + ExtractConditions(tt[1..])
  }

  /** Day `j` of module `i` is selected and yields condition `c`. */
  predicate Yields(tt: seq<ModuleCell>, i: int, j: int, c: Condition) {
    0 <= i < |tt| && tt[i].days.Some? && DayYields(tt[i].term, tt[i].days.value, j, c)
  }

  predicate DayYields(term: Module, days: seq<DayCell>, j: int, c: Condition) {
    0 <= j < |days| && Selected(days[j].periods) &&
    c == Condition(term, days[j].day, TruePeriods(days[j].periods.value))
  }

  lemma {:induction false} DayConditionsIff(term: Module, days: seq<DayCell>, c: Condition)
    ensures c in DayConditions(term, days) <==> exists j :: DayYields(term, days, j, c)
    decreases |days|
  {
    if |days| > 0 {
      DayConditionsIff(term, days[1..], c);
      var rest := DayConditions(term, days[1..]);
      if Selected(days[0].periods) {
        var head := Condition(term, days[0].day, TruePeriods(days[0].periods.value));
        assert DayConditions(term, days) == [head] + rest;
        assert DayYields(term, days, 0, head);
      } else {
        assert DayConditions(term, days) == rest;
      }
      if exists j :: DayYields(term, days[1..], j, c) {
        var j :| DayYields(term, days[1..], j, c);
        assert DayYields(term, days, j + 1, c);
      }
      if exists j :: DayYields(term, days, j, c) {
        var j :| DayYields(term, days, j, c);
        if j > 0 { assert DayYields(term, days[1..], j - 1, c); }
      }
    }
  }

  function HeadConditions(cell: ModuleCell): seq<Condition> {
    if cell.days.Some? then DayConditions(cell.term, cell.days.value) else []
  }

  lemma ExtractUnfold(tt: seq<ModuleCell>, c: Condition)
    requires |tt| > 0
    ensures c in ExtractConditions(tt) <==> c in HeadConditions(tt[0]) || c in ExtractConditions(tt[1..])
    ensures c in HeadConditions(tt[0]) <==> exists j :: Yields(tt, 0, j, c)
  {
    assert ExtractConditions(tt) == HeadConditions(tt[0]) + ExtractConditions(tt[1..]);
    if tt[0].days.Some? {
      DayConditionsIff(tt[0].term, tt[0].days.value, c);
      if c in HeadConditions(tt[0]) {
        var j :| DayYields(tt[0].term, tt[0].days.value, j, c);
        assert Yields(tt, 0, j, c);
      }
    }
  }

  /** A condition is produced exactly when some selected column yields it. */
  lemma {:induction false} ExtractConditionsIff(tt: seq<ModuleCell>, c: Condition)
    ensures c in ExtractConditions(tt) <==> exists i, j :: Yields(tt, i, j, c)
    decreases |tt|
  {
    if |tt| > 0 {
      ExtractConditionsIff(tt[1..], c);
      ExtractUnfold(tt, c);
      if exists i, j :: Yields(tt[1..], i, j, c) {
        var i, j :| Yields(tt[1..], i, j, c);
        assert Yields(tt, i + 1, j, c);
      }
      if exists i, j :: Yields(tt, i, j, c) {
        var i, j :| Yields(tt, i, j, c);
        if i > 0 {
          assert Yields(tt[1..], i - 1, j, c);
        }
      }
    }
  }

  /** The periods of a condition are exactly the requested ones. */
  lemma ConditionPeriods(a: seq<bool>, p: int)
    ensures p in TruePeriods(a) <==> 0 <= p < |a| && a[p]
  {
  }

  /** A schedule row lies in a condition: same module and day and, when the
      condition lists periods, one of them. */
  predicate InCondition(s: CourseSchedule, c: Condition) {
    s.term == c.term && s.day == c.day && (|c.periods| > 0 ==> s.period in c.periods)
  }

  predicate InAnyCondition(s: CourseSchedule, conds: seq<Condition>) {
    exists k :: 0 <= k < |conds| && InCondition(s, conds[k])
  }

  /** The timetable asks for the slot of `s` in module `i`, day `j`. */
  predicate AsksAt(tt: seq<ModuleCell>, i: int, j: int, s: CourseSchedule) {
    0 <= i < |tt| && tt[i].term == s.term && tt[i].days.Some? &&
    0 <= j < |tt[i].days.value| && tt[i].days.value[j].day == s.day &&
    Selected(tt[i].days.value[j].periods) &&
    0 <= s.period < |tt[i].days.value[j].periods.value| &&
    tt[i].days.value[j].periods.value[s.period]
  }

  predicate Asks(tt: seq<ModuleCell>, s: CourseSchedule) {
    exists i, j | 0 <= i < |tt| && tt[i].days.Some? && 0 <= j < |tt[i].days.value| :: AsksAt(tt, i, j, s)
  }

  /** A schedule row lies in one of the extracted conditions exactly when the
      timetable marks its module, day and period `true`. */
  lemma InConditionsIff(tt: seq<ModuleCell>, s: CourseSchedule)
    ensures InAnyCondition(s, ExtractConditions(tt)) <==> Asks(tt, s)
  {
    var conds := ExtractConditions(tt);
    if InAnyCondition(s, conds) {
      var k :| 0 <= k < |conds| && InCondition(s, conds[k]);
      ExtractConditionsIff(tt, conds[k]);
      var i, j :| Yields(tt, i, j, conds[k]);
      ConditionPeriods(tt[i].days.value[j].periods.value, s.period);
      assert AsksAt(tt, i, j, s);
    }
    if Asks(tt, s) {
      var i, j :| 0 <= i < |tt| && tt[i].days.Some? && 0 <= j < |tt[i].days.value| && AsksAt(tt, i, j, s);
      var a := tt[i].days.value[j].periods.value;
      var c := Condition(tt[i].term, tt[i].days.value[j].day, TruePeriods(a));
      assert DayYields(tt[i].term, tt[i].days.value, j, c);
      assert Yields(tt, i, j, c);
      ExtractConditionsIff(tt, c);
      ConditionPeriods(a, s.period);
      var k :| 0 <= k < |conds| && conds[k] == c;
      assert InCondition(s, conds[k]);
    }
  }
}
