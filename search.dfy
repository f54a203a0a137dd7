/** `searchCourseUseCase`: validation of the paging window, the id query the
    use case assembles for a timetable search (its filter clauses, its
    per-condition slot clauses and their parameter bindings) and the lookup
    of the matched courses, or the plain filtered lookup when no timetable
    is given. The database's evaluation of the query is modelled by its
    meaning on a store given as a sequence of courses. */
module SearchCourse {
  import opened Results
  import opened Collections
  import opened Text
  import opened Enums
  import opened Entities
  import opened SearchPatterns
  import opened Timetable
  import opened Ordering

  datatype SearchMode = Cover | Contain

  datatype SearchInput = SearchInput(
    year: int,
    timetable: Option<seq<ModuleCell>>,
    keywords: seq<string>,
    codes: seq<string>,
    mode: SearchMode,
    offset: int,
    limit: int)

  const OffsetMessage := "offsetは0以上である必要があります"
  const LimitMessage := "limitは1以上である必要があります"

  // ---------------------------------------------------------------------
  // The keyword and code filter

  /** The two filter clauses of the id query. */
  datatype FilterClause = NameClause | CodeClause

  function ClauseText(c: FilterClause): string {
    match c
    case NameClause => "courses.name ~* :names"
    case CodeClause => "courses.code ~* :codes"
  }

  /** The filter clauses that apply: one for keywords, one for codes. */
  function KeywordCodeClauses(keywords: seq<string>, codes: seq<string>): (r: seq<FilterClause>)
    ensures NameClause in r <==> |keywords| > 0
    ensures CodeClause in r <==> |codes| > 0
  {
    (if |keywords| > 0 then [NameClause] else []) + (if |codes| > 0 then [CodeClause] else [])
  }

  /** The filter text spliced into the id query, ending in `and `; empty
      exactly when there is nothing to filter on. */
  function KeywordCodeQuery(keywords: seq<string>, codes: seq<string>): (q: string)
    ensures q == "" <==> |keywords| == 0 && |codes| == 0
  {
    if |keywords| == 0 && |codes| == 0 then ""
    else "(" + Join(MapSeq(KeywordCodeClauses(keywords, codes), ClauseText), " and ") + ") and "
  }

  /** The meaning of the filter: the year, every keyword in the name and,
      when codes are given, the code matching their prefix pattern. */
  predicate PassesFilter(c: Course, year: int, keywords: seq<string>, codes: seq<string>) {
    c.year == year &&
    (|keywords| > 0 ==> NameMatches(c.name, SearchNameRegexp(keywords))) &&
    (|codes| > 0 ==> CodeMatches(c.code, SearchCodeRegexp(codes)))
  }

  /** The filter in plain terms: the year, every keyword occurring in the
      name and, when codes are given, the code starting with one of them,
      all ignoring case. */
  lemma PassesFilterIff(c: Course, year: int, keywords: seq<string>, codes: seq<string>)
    ensures PassesFilter(c, year, keywords, codes) <==>
              c.year == year &&
              (forall i :: 0 <= i < |keywords| ==> IncludesIgnoringCase(c.name, keywords[i])) &&
              (|codes| > 0 ==> exists i :: 0 <= i < |codes| && StartsWithIgnoringCase(c.code, codes[i]))
  {
    NameMatchesIff(c.name, keywords);
    if |codes| > 0 {
      CodeMatchesIff(c.code, codes);
    }
  }

  // ---------------------------------------------------------------------
  // The id query and its parameters

  datatype Placeholder =
    | Year
    | Names
    | Codes
    | ModuleAt(i: nat)
    | DayAt(i: nat)
    | PeriodAt(i: nat, j: nat)

  datatype Value =
    | Number(n: int)
    | Pattern(p: string)
    | ModuleValue(m: Module)
    | DayValue(d: Day)

  type Parameters = map<Placeholder, Value>

  predicate Bound(params: Parameters, k: Placeholder, v: Value) {
    k in params && params[k] == v
  }

  predicate BindsCondition(params: Parameters, i: nat, c: Condition) {
    Bound(params, ModuleAt(i), ModuleValue(c.term)) &&
    Bound(params, DayAt(i), DayValue(c.day)) &&
    forall j :: 0 <= j < |c.periods| ==> Bound(params, PeriodAt(i, j), Number(c.periods[j]))
  }

  predicate BindsFilter(params: Parameters, year: int, keywords: seq<string>, codes: seq<string>) {
    Bound(params, Year, Number(year)) &&
    Bound(params, Names, Pattern(SearchNameRegexp(keywords))) &&
    Bound(params, Codes, Pattern(SearchCodeRegexp(codes)))
  }

  /** Every placeholder of the query holds the value the request gives it. */
  predicate BindsRequest(params: Parameters, year: int, keywords: seq<string>, codes: seq<string>, conds: seq<Condition>) {
    BindsFilter(params, year, keywords, codes) &&
    forall i :: 0 <= i < |conds| ==> BindsCondition(params, i, conds[i])
  }

  /** `k` is a placeholder of the first `n` conditions or of the filter. */
  predicate Expected(k: Placeholder, conds: seq<Condition>, n: nat)
    requires n <= |conds|
  {
    match k
    case Year => true
    case Names => true
    case Codes => true
    case ModuleAt(i) => i < n
    case DayAt(i) => i < n
    case PeriodAt(i, j) => i < n && j < |conds[i].periods|
  }

  /** A placeholder of condition `i`. */
  predicate OfCondition(k: Placeholder, i: nat, c: Condition) {
    k == ModuleAt(i) || k == DayAt(i) || (k.PeriodAt? && k.i == i && k.j < |c.periods|)
  }

  /** The body of the loop over the conditions: `m_i`, `d_i` and `p_i_ii`
      for every period `ii` of condition `i`; other entries are kept. */
  method BindCondition(params0: Parameters, i: nat, c: Condition) returns (params: Parameters)
    ensures BindsCondition(params, i, c)
    ensures forall k :: k in params0 && !OfCondition(k, i, c) ==> k in params && params[k] == params0[k]
    ensures forall k :: k in params ==> k in params0 || OfCondition(k, i, c)
  {
    params := params0[ModuleAt(i) := ModuleValue(c.term)][DayAt(i) := DayValue(c.day)];
    var ii := 0;
    while ii < |c.periods|
      invariant 0 <= ii <= |c.periods|
      invariant Bound(params, ModuleAt(i), ModuleValue(c.term))
      invariant Bound(params, DayAt(i), DayValue(c.day))
      invariant forall j :: 0 <= j < ii ==> Bound(params, PeriodAt(i, j), Number(c.periods[j]))
      invariant forall k :: k in params0 && !OfCondition(k, i, c) ==> k in params && params[k] == params0[k]
      invariant forall k :: k in params ==> k in params0 || OfCondition(k, i, c)
    {
      params := params[PeriodAt(i, ii) := Number(c.periods[ii])];
      ii := ii + 1;
    }
  }

  /** The `parameters` object: the filter values, then the placeholders of
      every condition. */
  method BindParameters(year: int, keywords: seq<string>, codes: seq<string>, conds: seq<Condition>)
    returns (params: Parameters)
    ensures BindsRequest(params, year, keywords, codes, conds)
    ensures forall k :: k in params ==> Expected(k, conds, |conds|)
  {
    params := map[
      Names := Pattern(SearchNameRegexp(keywords)),
      Codes := Pattern(SearchCodeRegexp(codes)),
      Year := Number(year)];
    var i := 0;
    while i < |conds|
      invariant 0 <= i <= |conds|
      invariant BindsFilter(params, year, keywords, codes)
      invariant forall i' :: 0 <= i' < i ==> BindsCondition(params, i', conds[i'])
      invariant forall k :: k in params ==> Expected(k, conds, i)
    {
      var before := params;
      params := BindCondition(params, i, conds[i]);
      BindStep(before, params, year, keywords, codes, conds, i);
      i := i + 1;
    }
  }

  /** Binding condition `i` keeps what the earlier steps bound. */
  lemma BindStep(before: Parameters, params: Parameters, year: int, keywords: seq<string>,
                 codes: seq<string>, conds: seq<Condition>, i: nat)
    requires i < |conds|
    requires BindsFilter(before, year, keywords, codes)
    requires forall i' :: 0 <= i' < i ==> BindsCondition(before, i', conds[i'])
    requires forall k :: k in before ==> Expected(k, conds, i)
    requires BindsCondition(params, i, conds[i])
    requires forall k :: k in before && !OfCondition(k, i, conds[i]) ==> k in params && params[k] == before[k]
    requires forall k :: k in params ==> k in before || OfCondition(k, i, conds[i])
    ensures BindsFilter(params, year, keywords, codes)
    ensures forall i' :: 0 <= i' <= i ==> BindsCondition(params, i', conds[i'])
    ensures forall k :: k in params ==> Expected(k, conds, i + 1)
  {
    forall i' | 0 <= i' < i ensures BindsCondition(params, i', conds[i']) {
      assert BindsCondition(before, i', conds[i']);
      forall j | 0 <= j < |conds[i'].periods|
        ensures Bound(params, PeriodAt(i', j), Number(conds[i'].periods[j]))
      {
        assert Bound(before, PeriodAt(i', j), Number(conds[i'].periods[j]));
      }
    }
  }

  /** The id query up to its parameter values: its filter clauses, the
      number of period placeholders of each condition, and whether the
      `except` half for `Contain` is appended. */
  datatype IdQuery = IdQuery(filterClauses: seq<FilterClause>, periodCounts: seq<nat>, exceptOutside: bool)

  function PeriodCount(c: Condition): nat {
    |c.periods|
  }

  /** One filter clause on a course row under the parameters. */
  predicate ClauseHolds(c: Course, clause: FilterClause, params: Parameters) {
    match clause
    case NameClause => Names in params && params[Names].Pattern? && NameMatches(c.name, params[Names].p)
    case CodeClause => Codes in params && params[Codes].Pattern? && CodeMatches(c.code, params[Codes].p)
  }

  /** `courses.year = :year and <filter clauses>`. */
  predicate RowFilter(c: Course, q: IdQuery, params: Parameters) {
    Bound(params, Year, Number(c.year)) &&
    forall t :: 0 <= t < |q.filterClauses| ==> ClauseHolds(c, q.filterClauses[t], params)
  }

  predicate PeriodListed(params: Parameters, i: nat, n: nat, v: Value) {
    exists j :: 0 <= j < n && Bound(params, PeriodAt(i, j), v)
  }

  /** `s.module = :m_i and s.day = :d_i [and s.period in (:p_i_0, ...)]`. */
  predicate SlotInside(s: CourseSchedule, i: nat, n: nat, params: Parameters) {
    Bound(params, ModuleAt(i), ModuleValue(s.term)) &&
    Bound(params, DayAt(i), DayValue(s.day)) &&
    (n > 0 ==> PeriodListed(params, i, n, Number(s.period)))
  }

  predicate Differs(params: Parameters, k: Placeholder, v: Value) {
    k in params && params[k] != v
  }

  /** `s.module <> :m_i or s.day <> :d_i [or s.period not in (:p_i_0, ...)]`. */
  predicate SlotOutside(s: CourseSchedule, i: nat, n: nat, params: Parameters) {
    Differs(params, ModuleAt(i), ModuleValue(s.term)) ||
    Differs(params, DayAt(i), DayValue(s.day)) ||
    (n > 0 && forall j :: 0 <= j < n ==> Differs(params, PeriodAt(i, j), Number(s.period)))
  }

  /** A joined (course, schedule) row selected by the first half. */
  predicate CoverRow(c: Course, s: CourseSchedule, q: IdQuery, params: Parameters) {
    RowFilter(c, q, params) &&
    exists i :: 0 <= i < |q.periodCounts| && SlotInside(s, i, q.periodCounts[i], params)
  }

  /** A joined row selected by the `except` half. */
  predicate OutsideRow(c: Course, s: CourseSchedule, q: IdQuery, params: Parameters) {
    RowFilter(c, q, params) &&
    forall i :: 0 <= i < |q.periodCounts| ==> SlotOutside(s, i, q.periodCounts[i], params)
  }

  /** The ids the query returns: the courses joined with their schedules,
      minus, for `Contain`, those of the `except` half. */
  function RunIdQuery(store: seq<Course>, q: IdQuery, params: Parameters): set<string> {
    if q.exceptOutside then CoveredIds(store, q, params) - OutsideIds(store, q, params)
    else CoveredIds(store, q, params)
  }

  function CoveredIds(store: seq<Course>, q: IdQuery, params: Parameters): set<string> {
    set c, k | c in store && 0 <= k < |c.schedules| && CoverRow(c, c.schedules[k], q, params) :: c.id
  }

  function OutsideIds(store: seq<Course>, q: IdQuery, params: Parameters): set<string> {
    set c, k | c in store && 0 <= k < |c.schedules| && OutsideRow(c, c.schedules[k], q, params) :: c.id
  }

  // ---------------------------------------------------------------------
  // What the search means

  /** Some schedule row of `c` is asked for. */
  predicate TouchesTimetable(c: Course, tt: seq<ModuleCell>) {
    exists k :: 0 <= k < |c.schedules| && Asks(tt, c.schedules[k])
  }

  /** Some schedule row of `c` is not asked for. */
  predicate LeavesTimetable(c: Course, tt: seq<ModuleCell>) {
    exists k :: 0 <= k < |c.schedules| && !Asks(tt, c.schedules[k])
  }

  /** The ids a timetable search selects: courses passing the filter with a
      schedule row in the timetable; for `Contain`, minus the ids of
      courses passing the filter with a row outside it. */
  function MatchedIds(store: seq<Course>, input: SearchInput, tt: seq<ModuleCell>): set<string> {
    if input.mode == Contain then CoveringIds(store, input, tt) - LeavingIds(store, input, tt)
    else CoveringIds(store, input, tt)
  }

  function CoveringIds(store: seq<Course>, input: SearchInput, tt: seq<ModuleCell>): set<string> {
    set c | c in store && PassesFilter(c, input.year, input.keywords, input.codes) && TouchesTimetable(c, tt) :: c.id
  }

  function LeavingIds(store: seq<Course>, input: SearchInput, tt: seq<ModuleCell>): set<string> {
    set c | c in store && PassesFilter(c, input.year, input.keywords, input.codes) && LeavesTimetable(c, tt) :: c.id
  }

  /** `findByIds` ordered by year and code with the paging window. */
  function FindByIds(store: seq<Course>, ids: set<string>, offset: nat, limit: nat): seq<Course> {
    Page(SortCourses(Filter(store, (c: Course) => c.id in ids)), offset, limit)
  }

  function FindFiltered(store: seq<Course>, input: SearchInput, offset: nat, limit: nat): seq<Course> {
    Page(SortCourses(Filter(store, (c: Course) => PassesFilter(c, input.year, input.keywords, input.codes))), offset, limit)
  }

  /** The outcome of a search. An empty condition list leaves `( )` in the
      query text, which the database rejects. */
  function Search(store: seq<Course>, input: SearchInput): (r: Result<seq<Course>>)
    ensures r.Err? && r.error.InvalidArgument? <==> input.offset < 0 || input.limit < 1
    ensures r.Err? && r.error == StorageFailure <==>
              input.offset >= 0 && input.limit >= 1 && input.timetable.Some? &&
              ExtractConditions(input.timetable.value) == []
    ensures r.Ok? ==> |r.value| <= input.limit && Sorted(r.value)
  {
    if input.offset < 0 then Err(InvalidArgument(OffsetMessage))
    else if input.limit < 1 then Err(InvalidArgument(LimitMessage))
    else if input.timetable.Some? then
      var tt := input.timetable.value;
      if ExtractConditions(tt) == [] then Err(StorageFailure)
      else
        var all := SortCourses(Filter(store, (c: Course) => c.id in MatchedIds(store, input, tt)));
        PageOfSorted(all, input.offset, input.limit);
        Ok(FindByIds(store, MatchedIds(store, input, tt), input.offset, input.limit))
    else
      var all := SortCourses(Filter(store, (c: Course) => PassesFilter(c, input.year, input.keywords, input.codes)));
      PageOfSorted(all, input.offset, input.limit);
      Ok(FindFiltered(store, input, input.offset, input.limit))
  }

  // ---------------------------------------------------------------------
  // The id query computes the matched ids

  lemma RowFilterIff(c: Course, year: int, keywords: seq<string>, codes: seq<string>, q: IdQuery, params: Parameters)
    requires BindsFilter(params, year, keywords, codes)
    requires q.filterClauses == KeywordCodeClauses(keywords, codes)
    ensures RowFilter(c, q, params) <==> PassesFilter(c, year, keywords, codes)
  {
    var cl := q.filterClauses;
    if |keywords| > 0 {
      assert cl[0] == NameClause;
    }
    if |codes| > 0 {
      assert cl[|cl| - 1] == CodeClause;
    }
  }

  lemma SlotIff(s: CourseSchedule, i: nat, c: Condition, params: Parameters)
    requires BindsCondition(params, i, c)
    ensures SlotInside(s, i, |c.periods|, params) <==> InCondition(s, c)
    ensures SlotOutside(s, i, |c.periods|, params) <==> !InCondition(s, c)
  {
    if s.period in c.periods {
      var j :| 0 <= j < |c.periods| && c.periods[j] == s.period;
      assert Bound(params, PeriodAt(i, j), Number(c.periods[j]));
    }
    if PeriodListed(params, i, |c.periods|, Number(s.period)) {
      var j :| 0 <= j < |c.periods| && Bound(params, PeriodAt(i, j), Number(s.period));
      assert Bound(params, PeriodAt(i, j), Number(c.periods[j]));
    }
  }

  /** The query on one joined row, read back as the search's meaning. */
  lemma RowIff(c: Course, s: CourseSchedule, year: int, keywords: seq<string>, codes: seq<string>,
               conds: seq<Condition>, q: IdQuery, params: Parameters)
    requires BindsRequest(params, year, keywords, codes, conds)
    requires q.filterClauses == KeywordCodeClauses(keywords, codes)
    requires q.periodCounts == MapSeq(conds, PeriodCount)
    ensures CoverRow(c, s, q, params) <==> PassesFilter(c, year, keywords, codes) && InAnyCondition(s, conds)
    ensures OutsideRow(c, s, q, params) <==> PassesFilter(c, year, keywords, codes) && !InAnyCondition(s, conds)
  {
    RowFilterIff(c, year, keywords, codes, q, params);
    forall i | 0 <= i < |conds|
      ensures SlotInside(s, i, q.periodCounts[i], params) <==> InCondition(s, conds[i])
      ensures SlotOutside(s, i, q.periodCounts[i], params) <==> !InCondition(s, conds[i])
    {
      SlotIff(s, i, conds[i], params);
    }
  }

  /** The rows of the query, read as the search's meaning on a timetable. */
  ghost predicate RowsMean(q: IdQuery, params: Parameters, input: SearchInput, tt: seq<ModuleCell>) {
    forall c, s ::
      (CoverRow(c, s, q, params) <==> PassesFilter(c, input.year, input.keywords, input.codes) && Asks(tt, s)) &&
      (OutsideRow(c, s, q, params) <==> PassesFilter(c, input.year, input.keywords, input.codes) && !Asks(tt, s))
  }

  lemma RowsMeanOfBinding(input: SearchInput, tt: seq<ModuleCell>, q: IdQuery, params: Parameters)
    requires BindsRequest(params, input.year, input.keywords, input.codes, ExtractConditions(tt))
    requires q.filterClauses == KeywordCodeClauses(input.keywords, input.codes)
    requires q.periodCounts == MapSeq(ExtractConditions(tt), PeriodCount)
    ensures RowsMean(q, params, input, tt)
  {
    forall c, s | true
      ensures CoverRow(c, s, q, params) <==> PassesFilter(c, input.year, input.keywords, input.codes) && Asks(tt, s)
      ensures OutsideRow(c, s, q, params) <==> PassesFilter(c, input.year, input.keywords, input.codes) && !Asks(tt, s)
    {
      RowIff(c, s, input.year, input.keywords, input.codes, ExtractConditions(tt), q, params);
      InConditionsIff(tt, s);
    }
  }

  lemma CoveredIdsMean(store: seq<Course>, input: SearchInput, tt: seq<ModuleCell>, q: IdQuery, params: Parameters)
    requires RowsMean(q, params, input, tt)
    ensures CoveredIds(store, q, params) == CoveringIds(store, input, tt)
  {
    forall id | id in CoveredIds(store, q, params) ensures id in CoveringIds(store, input, tt) {
      var c, k :| c in store && 0 <= k < |c.schedules| && CoverRow(c, c.schedules[k], q, params) && c.id == id;
      assert TouchesTimetable(c, tt);
    }
    forall id | id in CoveringIds(store, input, tt) ensures id in CoveredIds(store, q, params) {
      var c :| c in store && PassesFilter(c, input.year, input.keywords, input.codes) && TouchesTimetable(c, tt) && c.id == id;
      var k :| 0 <= k < |c.schedules| && Asks(tt, c.schedules[k]);
      assert CoverRow(c, c.schedules[k], q, params);
    }
  }

  lemma OutsideIdsMean(store: seq<Course>, input: SearchInput, tt: seq<ModuleCell>, q: IdQuery, params: Parameters)
    requires RowsMean(q, params, input, tt)
    ensures OutsideIds(store, q, params) == LeavingIds(store, input, tt)
  {
    forall id | id in OutsideIds(store, q, params) ensures id in LeavingIds(store, input, tt) {
      var c, k :| c in store && 0 <= k < |c.schedules| && OutsideRow(c, c.schedules[k], q, params) && c.id == id;
      assert LeavesTimetable(c, tt);
    }
    forall id | id in LeavingIds(store, input, tt) ensures id in OutsideIds(store, q, params) {
      var c :| c in store && PassesFilter(c, input.year, input.keywords, input.codes) && LeavesTimetable(c, tt) && c.id == id;
      var k :| 0 <= k < |c.schedules| && !Asks(tt, c.schedules[k]);
      assert OutsideRow(c, c.schedules[k], q, params);
    }
  }

  /** Run with the parameters `BindParameters` produces, the id query
      returns exactly the ids the search means to select. */
  lemma RunIdQueryMeaning(store: seq<Course>, input: SearchInput, tt: seq<ModuleCell>, q: IdQuery, params: Parameters)
    requires BindsRequest(params, input.year, input.keywords, input.codes, ExtractConditions(tt))
    requires q == IdQuery(KeywordCodeClauses(input.keywords, input.codes),
                          MapSeq(ExtractConditions(tt), PeriodCount), input.mode == Contain)
    ensures RunIdQuery(store, q, params) == MatchedIds(store, input, tt)
  {
    RowsMeanOfBinding(input, tt, q, params);
    CoveredIdsMean(store, input, tt, q, params);
    OutsideIdsMean(store, input, tt, q, params);
  }

  // ---------------------------------------------------------------------
  // The use case

  /** The `where` object of the lookup without a timetable. */
  datatype FindConditions = FindConditions(year: int, name: Option<string>, code: Option<string>)

  predicate WhereHolds(c: Course, w: FindConditions) {
    c.year == w.year &&
    (w.name.Some? ==> NameMatches(c.name, w.name.value)) &&
    (w.code.Some? ==> CodeMatches(c.code, w.code.value))
  }

  method SearchCourseUseCase(store: seq<Course>, input: SearchInput) returns (r: Result<seq<Course>>)
    ensures r == Search(store, input)
  {
    if input.offset < 0 {
      return Err(InvalidArgument(OffsetMessage));
    }
    if input.limit < 1 {
      return Err(InvalidArgument(LimitMessage));
    }
    if input.timetable.Some? {
      var tt := input.timetable.value;
      var conds := ExtractConditions(tt);
      var q := IdQuery(KeywordCodeClauses(input.keywords, input.codes), MapSeq(conds, PeriodCount), false);
      if input.mode == Contain {
        q := q.(exceptOutside := true);
      }
      if conds == [] {
        return Err(StorageFailure);
      }
      var params := BindParameters(input.year, input.keywords, input.codes, conds);
      var ids := RunIdQuery(store, q, params);
      RunIdQueryMeaning(store, input, tt, q, params);
      r := Ok(FindByIds(store, ids, input.offset, input.limit));
    } else {
      var where := FindConditions(input.year, None, None);
      if |input.keywords| > 0 {
        where := where.(name := Some(SearchNameRegexp(input.keywords)));
      }
      if |input.codes| > 0 {
        where := where.(code := Some(SearchCodeRegexp(input.codes)));
      }
      FilterCongruent(store, (c: Course) => WhereHolds(c, where),
                      (c: Course) => PassesFilter(c, input.year, input.keywords, input.codes));
      r := Ok(Page(SortCourses(Filter(store, (c: Course) => WhereHolds(c, where))), input.offset, input.limit));
    }
  }

  // ---------------------------------------------------------------------
  // Properties of the search

  /** Every schedule row of `c` is asked for. */
  predicate WithinTimetable(c: Course, tt: seq<ModuleCell>) {
    forall k :: 0 <= k < |c.schedules| ==> Asks(tt, c.schedules[k])
  }

  /** Which courses a search is after: those passing the filter and, with a
      timetable, having a schedule row in it (`Cover`) or, for `Contain`,
      also having every schedule row in it. */
  predicate Selects(c: Course, input: SearchInput) {
    PassesFilter(c, input.year, input.keywords, input.codes) &&
    (input.timetable.Some? ==>
       TouchesTimetable(c, input.timetable.value) &&
       (input.mode == Contain ==> WithinTimetable(c, input.timetable.value)))
  }

  lemma InPage(s: seq<Course>, offset: nat, limit: nat, x: Course)
    requires x in Page(s, offset, limit)
    ensures x in s
  {
    var r := Page(s, offset, limit);
    var i :| 0 <= i < |r| && r[i] == x;
    assert s[offset + i] == x;
  }

  lemma InSorted(s: seq<Course>, x: Course)
    ensures x in SortCourses(s) <==> x in s
  {
    assert x in SortCourses(s) <==> x in multiset(SortCourses(s));
  }

  lemma SameIdSameCourse(store: seq<Course>, x: Course, c: Course)
    requires WellFormedStore(store) && x in store && c in store && x.id == c.id
    ensures x == c
  {
    var i :| 0 <= i < |store| && store[i] == x;
    var j :| 0 <= j < |store| && store[j] == c;
    assert IdOf(store[i]) == IdOf(store[j]);
  }

  /** Every returned course is stored and is one the search is after; with
      a timetable it has at least one schedule row. */
  lemma SearchSound(store: seq<Course>, input: SearchInput, x: Course)
    requires WellFormedStore(store)
    requires Search(store, input).Ok? && x in Search(store, input).value
    ensures x in store && Selects(x, input)
    ensures input.timetable.Some? ==> |x.schedules| > 0
  {
    if input.timetable.Some? {
      var tt := input.timetable.value;
      var ids := MatchedIds(store, input, tt);
      var kept := Filter(store, (c: Course) => c.id in ids);
      InPage(SortCourses(kept), input.offset, input.limit, x);
      InSorted(kept, x);
      assert x in store && x.id in ids;
      var c :| c in store && PassesFilter(c, input.year, input.keywords, input.codes) &&
               TouchesTimetable(c, tt) && c.id == x.id;
      SameIdSameCourse(store, x, c);
    } else {
      var kept := Filter(store, (c: Course) => PassesFilter(c, input.year, input.keywords, input.codes));
      InPage(SortCourses(kept), input.offset, input.limit, x);
      InSorted(kept, x);
    }
  }

  lemma InFirstPage(kept: seq<Course>, limit: nat, x: Course)
    requires x in kept && |kept| <= limit
    ensures x in Page(SortCourses(kept), 0, limit)
  {
    InSorted(kept, x);
    assert |multiset(SortCourses(kept))| == |multiset(kept)|;
  }

  /** With unique ids, a course the timetable search is after has its id
      matched. */
  lemma SelectedIdMatched(store: seq<Course>, input: SearchInput, x: Course)
    requires WellFormedStore(store) && x in store && Selects(x, input) && input.timetable.Some?
    ensures x.id in MatchedIds(store, input, input.timetable.value)
  {
    var tt := input.timetable.value;
    assert x.id in CoveringIds(store, input, tt);
    if input.mode == Contain && x.id in LeavingIds(store, input, tt) {
      var c :| c in store && PassesFilter(c, input.year, input.keywords, input.codes) &&
               LeavesTimetable(c, tt) && c.id == x.id;
      SameIdSameCourse(store, x, c);
      assert false;
    }
  }

  /** From the first page with room for the whole store, every stored course
      the search is after is returned. */
  lemma SearchComplete(store: seq<Course>, input: SearchInput, x: Course)
    requires WellFormedStore(store) && x in store && Selects(x, input)
    requires input.offset == 0 && input.limit >= |store|
    requires Search(store, input).Ok?
    ensures x in Search(store, input).value
  {
    if input.timetable.Some? {
      var ids := MatchedIds(store, input, input.timetable.value);
      SelectedIdMatched(store, input, x);
      InFirstPage(Filter(store, (c: Course) => c.id in ids), input.limit, x);
    } else {
      InFirstPage(Filter(store, (c: Course) => PassesFilter(c, input.year, input.keywords, input.codes)), input.limit, x);
    }
  }

  /** With unique ids, a stored course has its id matched exactly when the
      timetable search is after it. */
  lemma MatchedIffSelects(store: seq<Course>, input: SearchInput, x: Course)
    requires WellFormedStore(store) && x in store && input.timetable.Some?
    ensures x.id in MatchedIds(store, input, input.timetable.value) <==> Selects(x, input)
  {
    var tt := input.timetable.value;
    if x.id in MatchedIds(store, input, tt) {
      var c :| c in store && PassesFilter(c, input.year, input.keywords, input.codes) &&
               TouchesTimetable(c, tt) && c.id == x.id;
      SameIdSameCourse(store, x, c);
      assert LeavesTimetable(x, tt) ==> x.id in LeavingIds(store, input, tt);
    }
    if Selects(x, input) {
      SelectedIdMatched(store, input, x);
    }
  }

  /** The page a successful search returns, for any window: the courses the
      search is after, in store order, sorted by year and code, then cut to
      `limit` courses from `offset`. */
  lemma SearchWindow(store: seq<Course>, input: SearchInput)
    requires WellFormedStore(store)
    requires input.offset >= 0 && input.limit >= 1
    requires input.timetable.Some? ==> ExtractConditions(input.timetable.value) != []
    ensures Search(store, input) ==
              Ok(Page(SortCourses(Filter(store, (c: Course) => Selects(c, input))), input.offset, input.limit))
  {
    if input.timetable.Some? {
      var ids := MatchedIds(store, input, input.timetable.value);
      forall x | x in store ensures (x.id in ids) == Selects(x, input) {
        MatchedIffSelects(store, input, x);
      }
      FilterCongruent(store, (c: Course) => c.id in ids, (c: Course) => Selects(c, input));
    } else {
      FilterCongruent(store, (c: Course) => PassesFilter(c, input.year, input.keywords, input.codes),
                      (c: Course) => Selects(c, input));
    }
  }
}
