/** Conversion of the catalog parser's records into stored Course
    aggregates: the enumeration mappings, the delivery methods read off
    the remarks, and the field-by-field construction of a Course. */
module Converter {
  import opened Results
  import opened Text
  import opened Collections
  import opened Enums
  import opened Entities

  /** The parser's term enumeration, in its declaration order, plus any
      other value a caller may cast to it. */
  datatype ParserModule =
    | SpringA | SpringB | SpringC | FallA | FallB | FallC
    | SummerVacation | SpringVacation | Annual | Unknown
    | Unrecognised(raw: string)

  /** The parser's day enumeration, in its declaration order, plus any other
      value a caller may cast to it. */
  datatype ParserDay =
    | Sun | Mon | Tue | Wed | Thu | Fri | Sat
    | Intensive | Appointment | AnyTime | Unknown
    | Unrecognised(raw: string)

  datatype ParsedSchedule = ParsedSchedule(term: ParserModule, day: ParserDay, period: int, room: string)

  /** A course record as the catalog parser delivers it; `lastUpdate` is
      the timestamp in milliseconds. */
  datatype ParsedCourse = ParsedCourse(
    code: string,
    name: string,
    instructor: string,
    credits: real,
    overview: string,
    remarks: string,
    lastUpdate: int,
    recommendedGrade: seq<int>,
    schedules: seq<ParsedSchedule>,
    error: bool)

  // ---------------------------------------------------------------------
  // Enumeration names (the identifiers the TypeScript enums declare)

  function ModuleName(m: Enums.Module): string {
    match m
    case SpringA => "SpringA"
    case SpringB => "SpringB"
    case SpringC => "SpringC"
    case FallA => "FallA"
    case FallB => "FallB"
    case FallC => "FallC"
    case SummerVacation => "SummerVacation"
    case SpringVacation => "SpringVacation"
    case Annual => "Annual"
    case Unknown => "Unknown"
  }

  function ParserModuleName(m: ParserModule): string {
    match m
    case SpringA => "SpringA"
    case SpringB => "SpringB"
    case SpringC => "SpringC"
    case FallA => "FallA"
    case FallB => "FallB"
    case FallC => "FallC"
    case SummerVacation => "SummerVacation"
    case SpringVacation => "SpringVacation"
    case Annual => "Annual"
    case Unknown => "Unknown"
    case Unrecognised(raw) => raw
  }

  function DayName(d: Enums.Day): string {
    match d
    case Sun => "Sun"
    case Mon => "Mon"
    case Tue => "Tue"
    case Wed => "Wed"
    case Thu => "Thu"
    case Fri => "Fri"
    case Sat => "Sat"
    case Intensive => "Intensive"
    case Appointment => "Appointment"
    case AnyTime => "AnyTime"
    case Unknown => "Unknown"
  }

  function ParserDayName(d: ParserDay): string {
    match d
    case Sun => "Sun"
    case Mon => "Mon"
    case Tue => "Tue"
    case Wed => "Wed"
    case Thu => "Thu"
    case Fri => "Fri"
    case Sat => "Sat"
    case Intensive => "Intensive"
    case Appointment => "Appointment"
    case AnyTime => "AnyTime"
    case Unknown => "Unknown"
    case Unrecognised(raw) => raw
  }

  // ---------------------------------------------------------------------
  // createDBModule / createDBDay

  /** The stored term of the same name; a value outside the parser's
      enumeration becomes `Unknown`. */
  function CreateDBModule(m: ParserModule): (r: Enums.Module)
    ensures !m.Unrecognised? ==> ModuleName(r) == ParserModuleName(m)
    ensures m.Unrecognised? ==> r == Enums.Module.Unknown
  {
    match m
    case SpringA => Enums.Module.SpringA
    case SpringB => Enums.Module.SpringB
    case SpringC => Enums.Module.SpringC
    case FallA => Enums.Module.FallA
    case FallB => Enums.Module.FallB
    case FallC => Enums.Module.FallC
    case SummerVacation => Enums.Module.SummerVacation
    case SpringVacation => Enums.Module.SpringVacation
    case Annual => Enums.Module.Annual
    case Unknown => Enums.Module.Unknown
    case Unrecognised(_) => Enums.Module.Unknown
  }

  /** The stored day of the same name; a value outside the parser's
      enumeration becomes `Unknown`. */
  function CreateDBDay(d: ParserDay): (r: Enums.Day)
    ensures !d.Unrecognised? ==> DayName(r) == ParserDayName(d)
    ensures d.Unrecognised? ==> r == Enums.Day.Unknown
  {
    match d
    case Sun => Enums.Day.Sun
    case Mon => Enums.Day.Mon
    case Tue => Enums.Day.Tue
    case Wed => Enums.Day.Wed
    case Thu => Enums.Day.Thu
    case Fri => Enums.Day.Fri
    case Sat => Enums.Day.Sat
    case Intensive => Enums.Day.Intensive
    case Appointment => Enums.Day.Appointment
    case AnyTime => Enums.Day.AnyTime
    case Unknown => Enums.Day.Unknown
    case Unrecognised(_) => Enums.Day.Unknown
  }

  /** Distinct parser terms go to distinct stored terms. */
  lemma CreateDBModuleInjective(a: ParserModule, b: ParserModule)
    requires !a.Unrecognised? && !b.Unrecognised? && a != b
    ensures CreateDBModule(a) != CreateDBModule(b)
  {
  }

  // ---------------------------------------------------------------------
  // The lookup as `createDBModule` and `createDBDay` write it: by position
  // in the enumeration

  /** `Object.values(PModule).indexOf(m)`: the declaration index of `m`,
      and -1 for a value outside the enumeration. */
  function ParserModuleIndex(m: ParserModule): int {
    match m
    case SpringA => 0
    case SpringB => 1
    case SpringC => 2
    case FallA => 3
    case FallB => 4
    case FallC => 5
    case SummerVacation => 6
    case SpringVacation => 7
    case Annual => 8
    case Unknown => 9
    case Unrecognised(_) => -1
  }

  /** `Module[Module[i]]`: the stored term declared at index `i`;
      `None` stands for JavaScript's `undefined` outside 0..9. */
  function ModuleAtIndex(i: int): Option<Enums.Module> {
    if i == 0 then Some(Enums.Module.SpringA)
    else if i == 1 then Some(Enums.Module.SpringB)
    else if i == 2 then Some(Enums.Module.SpringC)
    else if i == 3 then Some(Enums.Module.FallA)
    else if i == 4 then Some(Enums.Module.FallB)
    else if i == 5 then Some(Enums.Module.FallC)
    else if i == 6 then Some(Enums.Module.SummerVacation)
    else if i == 7 then Some(Enums.Module.SpringVacation)
    else if i == 8 then Some(Enums.Module.Annual)
    else if i == 9 then Some(Enums.Module.Unknown)
    else None
  }

  /** `createDBModule` as written: an index lookup. */
  function CreateDBModuleAsWritten(m: ParserModule): Option<Enums.Module> {
    ModuleAtIndex(ParserModuleIndex(m))
  }

  /** On the ten declared values the index lookup is the by-name mapping. */
  lemma CreateDBModuleAsWrittenOnDeclared(m: ParserModule)
    requires !m.Unrecognised?
    ensures CreateDBModuleAsWritten(m) == Some(CreateDBModule(m))
  {
  }

  /** On any other value the index lookup yields `undefined`, not `Unknown`. */
  lemma CreateDBModuleAsWrittenUndefined()
    ensures CreateDBModuleAsWritten(ParserModule.Unrecognised("unexpected data")) == None
    ensures CreateDBModule(ParserModule.Unrecognised("unexpected data")) == Enums.Module.Unknown
  {
  }

  /** `Object.values(PDay).indexOf(d)`. */
  function ParserDayIndex(d: ParserDay): int {
    match d
    case Sun => 0
    case Mon => 1
    case Tue => 2
    case Wed => 3
    case Thu => 4
    case Fri => 5
    case Sat => 6
    case Intensive => 7
    case Appointment => 8
    case AnyTime => 9
    case Unknown => 10
    case Unrecognised(_) => -1
  }

  /** `Day[Day[i]]`; `None` stands for `undefined` outside 0..10. */
  function DayAtIndex(i: int): Option<Enums.Day> {
    if i == 0 then Some(Enums.Day.Sun)
    else if i == 1 then Some(Enums.Day.Mon)
    else if i == 2 then Some(Enums.Day.Tue)
    else if i == 3 then Some(Enums.Day.Wed)
    else if i == 4 then Some(Enums.Day.Thu)
    else if i == 5 then Some(Enums.Day.Fri)
    else if i == 6 then Some(Enums.Day.Sat)
    else if i == 7 then Some(Enums.Day.Intensive)
    else if i == 8 then Some(Enums.Day.Appointment)
    else if i == 9 then Some(Enums.Day.AnyTime)
    else if i == 10 then Some(Enums.Day.Unknown)
    else None
  }

  /** `createDBDay` as written: an index lookup. */
  function CreateDBDayAsWritten(d: ParserDay): Option<Enums.Day> {
    DayAtIndex(ParserDayIndex(d))
  }

  lemma CreateDBDayAsWrittenOnDeclared(d: ParserDay)
    requires !d.Unrecognised?
    ensures CreateDBDayAsWritten(d) == Some(CreateDBDay(d))
  {
  }

  lemma CreateDBDayAsWrittenUndefined()
    ensures CreateDBDayAsWritten(ParserDay.Unrecognised("unexpected data")) == None
    ensures CreateDBDay(ParserDay.Unrecognised("unexpected data")) == Enums.Day.Unknown
  {
  }

  // ---------------------------------------------------------------------
  // parseCourseMethod

  const FaceToFaceMarker: string := "対面"
  const OnDemandMarker: string := "オンデマンド"
  const InteractiveMarker: string := "双方向"

  /** The remark text that announces a delivery method; `Others` has none. */
  function Marker(m: CourseMethod): Option<string> {
    match m
    case FaceToFace => Some(FaceToFaceMarker)
    case OnlineAsynchronous => Some(OnDemandMarker)
    case OnlineSynchronous => Some(InteractiveMarker)
    case Others => None
  }

  predicate Announces(remarks: string, m: CourseMethod) {
    Marker(m).Some? && Includes(remarks, Marker(m).value)
  }

  /** The methods the remarks announce, in the order `parseCourseMethod` tests them. */
  function MethodsIn(remarks: string): seq<CourseMethod> {
    Filter([FaceToFace, OnlineAsynchronous, OnlineSynchronous], m => Announces(remarks, m))
  }

  /** `parseCourseMethod`: appends each announced method to `res`. */
  method ParseCourseMethod(remarks: string) returns (res: seq<CourseMethod>)
    ensures res == MethodsIn(remarks)
  {
    MethodsInShape(remarks);
    ghost var first := if Includes(remarks, FaceToFaceMarker) then [FaceToFace] else [];
    ghost var second := if Includes(remarks, OnDemandMarker) then [OnlineAsynchronous] else [];
    res := [];
    if Includes(remarks, FaceToFaceMarker) {
      res := res + [FaceToFace];
    }
    assert res == first;
    if Includes(remarks, OnDemandMarker) {
      res := res + [OnlineAsynchronous];
    }
    assert res == first + second;
    if Includes(remarks, InteractiveMarker) {
      res := res + [OnlineSynchronous];
    }
  }

  /** Each method appears iff its marker occurs in the remarks, and
      `Others` never does. */
  lemma MethodsInMembership(remarks: string)
    ensures FaceToFace in MethodsIn(remarks) <==> Includes(remarks, FaceToFaceMarker)
    ensures OnlineAsynchronous in MethodsIn(remarks) <==> Includes(remarks, OnDemandMarker)
    ensures OnlineSynchronous in MethodsIn(remarks) <==> Includes(remarks, InteractiveMarker)
    ensures Others !in MethodsIn(remarks)
  {
    MethodsInShape(remarks);
  }

  /** The methods come in the order FaceToFace, OnlineAsynchronous,
      OnlineSynchronous, so none repeats and there are at most three. */
  lemma MethodsInOrdered(remarks: string)
    ensures forall i, j :: 0 <= i < j < |MethodsIn(remarks)| ==>
              MethodRank(MethodsIn(remarks)[i]) < MethodRank(MethodsIn(remarks)[j])
    ensures NoDuplicates(MethodsIn(remarks))
    ensures |MethodsIn(remarks)| <= 3
  {
    MethodsInShape(remarks);
    var r := MethodsIn(remarks);
    var a, b, c := Includes(remarks, FaceToFaceMarker), Includes(remarks, OnDemandMarker),
                   Includes(remarks, InteractiveMarker);
    if a && b && c {
      assert r == [FaceToFace, OnlineAsynchronous, OnlineSynchronous];
    } else if a && b {
      assert r == [FaceToFace, OnlineAsynchronous];
    } else if a && c {
      assert r == [FaceToFace, OnlineSynchronous];
    } else if b && c {
      assert r == [OnlineAsynchronous, OnlineSynchronous];
    } else {
      assert |r| <= 1;
    }
  }

  lemma MethodsInShape(remarks: string)
    ensures MethodsIn(remarks) ==
      (if Includes(remarks, FaceToFaceMarker) then [FaceToFace] else [])
      + (if Includes(remarks, OnDemandMarker) then [OnlineAsynchronous] else [])
      + (if Includes(remarks, InteractiveMarker) then [OnlineSynchronous] else [])
  {
    var p := m => Announces(remarks, m);
    var all := [FaceToFace, OnlineAsynchronous, OnlineSynchronous];
    assert all[1..] == [OnlineAsynchronous, OnlineSynchronous];
    assert all[1..][1..] == [OnlineSynchronous];
    assert all[1..][1..][1..] == [];
    var f3 := Filter([OnlineSynchronous], p);
    assert f3 == (if p(OnlineSynchronous) then [OnlineSynchronous] else []) + Filter([], p);
    var f2 := Filter([OnlineAsynchronous, OnlineSynchronous], p);
    assert f2 == (if p(OnlineAsynchronous) then [OnlineAsynchronous] else []) + f3;
    assert MethodsIn(remarks) == (if p(FaceToFace) then [FaceToFace] else []) + f2;
  }

  /** The position at which `parseCourseMethod` tests each method. */
  function MethodRank(m: CourseMethod): nat {
    match m
    case FaceToFace => 0
    case OnlineAsynchronous => 1
    case OnlineSynchronous => 2
    case Others => 3
  }

  // ---------------------------------------------------------------------
  // createDBCourse

  function CreateDBSchedule(s: ParsedSchedule): (r: CourseSchedule)
    ensures r.period == s.period && r.room == s.room
    ensures r.term == CreateDBModule(s.term) && r.day == CreateDBDay(s.day)
  {
    CourseSchedule(CreateDBModule(s.term), CreateDBDay(s.day), s.period, s.room)
  }

  /** The aggregate built from a parser record for `year`, under `id`. */
  function CreateDBCourse(c: ParsedCourse, year: int, id: string): (r: Course)
    ensures r.id == id && KeyOf(r) == CourseKey(year, c.code)
    ensures r.name == c.name && r.instructor == c.instructor && r.credit == c.credits
    ensures r.overview == c.overview && r.remarks == c.remarks
    ensures r.lastUpdate == c.lastUpdate && r.hasParseError == c.error
    ensures r.recommendedGrades == c.recommendedGrade
    ensures r.methods == MethodsIn(c.remarks)
    ensures |r.schedules| == |c.schedules|
    ensures forall i :: 0 <= i < |c.schedules| ==> r.schedules[i] == CreateDBSchedule(c.schedules[i])
  {
    Course(
      id := id,
      year := year,
      code := c.code,
      name := c.name,
      instructor := c.instructor,
      credit := c.credits,
      overview := c.overview,
      remarks := c.remarks,
      lastUpdate := c.lastUpdate,
      hasParseError := c.error,
      recommendedGrades := MapSeq(c.recommendedGrade, (g: int) => g),
      methods := MethodsIn(c.remarks),
      schedules := MapSeq(c.schedules, CreateDBSchedule))
  }

  function CountTerm(s: seq<CourseSchedule>, m: Enums.Module): nat
    decreases |s|
  {
    if |s| == 0 then 0 else (if s[0].term == m then 1 else 0) + CountTerm(s[1..], m)
  }

  function CountParsedTerm(s: seq<ParsedSchedule>, m: ParserModule): nat
    decreases |s|
  {
    if |s| == 0 then 0 else (if s[0].term == m then 1 else 0) + CountParsedTerm(s[1..], m)
  }

  /** No Annual expansion: a record with k Annual entries gives exactly k
      stored Annual entries, and no stored entry is added for them. */
  lemma {:induction false} AnnualStaysSingle(c: ParsedCourse, year: int, id: string)
    ensures CountTerm(CreateDBCourse(c, year, id).schedules, Enums.Module.Annual)
            == CountParsedTerm(c.schedules, ParserModule.Annual)
  {
    CountAnnual(c.schedules);
  }

  lemma {:induction false} CountAnnual(s: seq<ParsedSchedule>)
    ensures CountTerm(MapSeq(s, CreateDBSchedule), Enums.Module.Annual)
            == CountParsedTerm(s, ParserModule.Annual)
    decreases |s|
  {
    if |s| > 0 {
      CountAnnual(s[1..]);
      assert MapSeq(s, CreateDBSchedule)[1..] == MapSeq(s[1..], CreateDBSchedule);
      assert (CreateDBSchedule(s[0]).term == Enums.Module.Annual) == (s[0].term == ParserModule.Annual);
    }
  }
}
