/** The `getCourses` handler of the course service and the conversion of a
    stored aggregate to the response message. The handler refuses a request
    repeating an id, reports the ids the lookup did not return, and
    otherwise converts every returned course in order. The lookup
    (`getCoursesUseCase`) is a parameter; `FindIds` is the lookup against
    a store. */
module CourseService {
  import opened Collections
  import opened Text
  import opened Enums
  import opened Entities

  /** The `CourseSchedule` message. */
  datatype GrpcSchedule = GrpcSchedule(term: Module, day: Day, period: int, room: string)

  /** The `Course` message. `lastUpdate` holds the timestamp that
      `toISOString` renders. */
  datatype GrpcCourse = GrpcCourse(
    id: string,
    code: string,
    year: int,
    name: string,
    instructor: string,
    credit: real,
    overview: string,
    remarks: string,
    lastUpdate: int,
    recommendedGrades: seq<int>,
    methods: seq<CourseMethod>,
    schedules: seq<GrpcSchedule>,
    hasParseError: bool)

  /** What the handler passes to its callback: a response, or a status
      error with its details and, for `NOT_FOUND`, the `ids` metadata. */
  datatype Reply =
    | CoursesReply(courses: seq<GrpcCourse>)
    | InvalidArgumentStatus(details: string)
    | NotFoundStatus(details: string, ids: string)

  const DuplicateDetails := "指定された引数に重複したidが含まれています。"
  const NotFoundDetails := "指定されたIDの講義が見つかりませんでした。詳細はmetadataを参照してください。"

  // ---------------------------------------------------------------------
  // createGrpcCourse

  function CreateGrpcSchedule(s: CourseSchedule): GrpcSchedule {
    GrpcSchedule(s.term, s.day, s.period, s.room)
  }

  /** `createGrpcCourse`: copies the scalar fields, the grades and the
      methods, and converts the schedules one by one, in order. */
  function CreateGrpcCourse(c: Course): (d: GrpcCourse)
    ensures |d.schedules| == |c.schedules|
    ensures forall i :: 0 <= i < |c.schedules| ==> d.schedules[i] == CreateGrpcSchedule(c.schedules[i])
  {
    GrpcCourse(
      id := c.id,
      code := c.code,
      year := c.year,
      name := c.name,
      instructor := c.instructor,
      credit := c.credit,
      overview := c.overview,
      remarks := c.remarks,
      lastUpdate := c.lastUpdate,
      recommendedGrades := MapSeq(c.recommendedGrades, (g: int) => g),
      methods := MapSeq(c.methods, (m: CourseMethod) => m),
      schedules := MapSeq(c.schedules, CreateGrpcSchedule),
      hasParseError := c.hasParseError)
  }

  /** Reading a message back into an aggregate. */
  function CourseOfGrpc(d: GrpcCourse): Course {
    Course(d.id, d.year, d.code, d.name, d.instructor, d.credit, d.overview, d.remarks, d.lastUpdate,
           d.hasParseError, d.recommendedGrades, d.methods,
           MapSeq(d.schedules, (s: GrpcSchedule) => CourseSchedule(s.term, s.day, s.period, s.room)))
  }

  /** The conversion loses nothing: the message reads back as the aggregate
      it was made from, so two different aggregates give two different
      messages. */
  lemma {:induction false} GrpcRoundTrip(c: Course)
    ensures CourseOfGrpc(CreateGrpcCourse(c)) == c
  {
    var back := CourseOfGrpc(CreateGrpcCourse(c));
    assert back.schedules == c.schedules;
    assert back.recommendedGrades == c.recommendedGrades;
    assert back.methods == c.methods;
  }

  lemma CreateGrpcCourseInjective(a: Course, b: Course)
    requires CreateGrpcCourse(a) == CreateGrpcCourse(b)
    ensures a == b
  {
    GrpcRoundTrip(a);
    GrpcRoundTrip(b);
  }

  // ---------------------------------------------------------------------
  // getCourses

  /** Some returned course has the id `id`. */
  predicate HasId(courses: seq<Course>, id: string) {
    exists i :: 0 <= i < |courses| && courses[i].id == id
  }

  /** The requested ids no returned course has, in request order. */
  function MissingIds(ids: seq<string>, courses: seq<Course>): (r: seq<string>)
    ensures forall i :: i in r <==> i in ids && !HasId(courses, i)
    ensures |r| <= |ids|
  {
    Filter(ids, (i: string) => !HasId(courses, i))
  }

  /** The handler, with `lookup` standing for `getCoursesUseCase`. */
  function GetCourses(ids: seq<string>, lookup: seq<string> -> seq<Course>): (r: Reply)
    ensures r.InvalidArgumentStatus? <==> !NoDuplicates(ids)
    ensures r.NotFoundStatus? <==> NoDuplicates(ids) && |lookup(ids)| != |ids|
    ensures r.NotFoundStatus? ==> r.ids == Join(MissingIds(ids, lookup(ids)), ",")
    ensures r.CoursesReply? ==> |r.courses| == |ids|
  {
    DistinctIffSizesAgree(ids);
    if |ids| != |Elements(ids)| then InvalidArgumentStatus(DuplicateDetails)
    else
      var courses := lookup(ids);
      if |courses| != |ids| then NotFoundStatus(NotFoundDetails, Join(MissingIds(ids, courses), ","))
      else CoursesReply(MapSeq(courses, CreateGrpcCourse))
  }

  /** A request repeating an id is answered without consulting the lookup. */
  lemma DuplicateSkipsLookup(ids: seq<string>, lookup1: seq<string> -> seq<Course>, lookup2: seq<string> -> seq<Course>)
    requires !NoDuplicates(ids)
    ensures GetCourses(ids, lookup1) == GetCourses(ids, lookup2) == InvalidArgumentStatus(DuplicateDetails)
  {
    DistinctIffSizesAgree(ids);
  }

  /** On success the reply holds the returned courses, converted, in the
      order the lookup returned them. */
  lemma RepliesInLookupOrder(ids: seq<string>, lookup: seq<string> -> seq<Course>)
    ensures var r := GetCourses(ids, lookup);
      r.CoursesReply? ==> forall i :: 0 <= i < |r.courses| ==> CourseOfGrpc(r.courses[i]) == lookup(ids)[i]
  {
    var r := GetCourses(ids, lookup);
    if r.CoursesReply? {
      forall i | 0 <= i < |r.courses| ensures CourseOfGrpc(r.courses[i]) == lookup(ids)[i] {
        GrpcRoundTrip(lookup(ids)[i]);
      }
    }
  }

  /** `findByIds(ids)` against a store: the stored courses with a requested id. */
  function FindIds(store: seq<Course>, ids: seq<string>): (r: seq<Course>)
    ensures forall c :: c in r <==> c in store && c.id in ids
  {
    Filter(store, (c: Course) => c.id in ids)
  }

  /** Against a store with unique ids, a request without repeated ids is
      answered `NOT_FOUND` exactly when some requested id is not stored;
      the metadata then names at least one id, and splitting it at `,`
      gives back the missing ids in request order when no id contains a
      comma. */
  lemma {:induction false} NotFoundIffSomeMissing(store: seq<Course>, ids: seq<string>)
    requires WellFormedStore(store)
    requires NoDuplicates(ids)
    ensures var r := GetCourses(ids, (q: seq<string>) => FindIds(store, q));
      r.NotFoundStatus? <==> exists i :: i in ids && forall c :: c in store ==> c.id != i
    ensures var r := GetCourses(ids, (q: seq<string>) => FindIds(store, q));
      var missing := MissingIds(ids, FindIds(store, ids));
      r.NotFoundStatus? && (forall i :: 0 <= i < |ids| ==> ',' !in ids[i]) ==>
        |missing| > 0 && Split(r.ids, ',') == missing
  {
    var found := FindIds(store, ids);
    LookupLength(store, IdOf, (c: Course) => c.id in ids, ids);
    var r := GetCourses(ids, (q: seq<string>) => FindIds(store, q));
    var missing := MissingIds(ids, found);
    if r.NotFoundStatus? {
      var i :| i in ids && forall c :: c in store ==> c.id != i;
      assert !HasId(found, i) by {
        forall k | 0 <= k < |found| ensures found[k].id != i {
          assert found[k] in found;
        }
      }
      assert i in missing;
      if forall i :: 0 <= i < |ids| ==> ',' !in ids[i] {
        forall k | 0 <= k < |missing| ensures ',' !in missing[k] {
          assert missing[k] in missing;
        }
        SplitJoin(missing, ',');
      }
    }
  }

  /** The reported ids are exactly the requested ids the lookup did not
      return. */
  lemma MissingIdsExact(ids: seq<string>, lookup: seq<string> -> seq<Course>)
    ensures var r := GetCourses(ids, lookup);
      r.NotFoundStatus? ==>
        r.ids == Join(MissingIds(ids, lookup(ids)), ",") &&
        forall i :: i in MissingIds(ids, lookup(ids)) <==>
          i in ids && forall c :: c in lookup(ids) ==> c.id != i
  {
    var courses := lookup(ids);
    forall i ensures !HasId(courses, i) <==> forall c :: c in courses ==> c.id != i {
      if HasId(courses, i) {
        var k :| 0 <= k < |courses| && courses[k].id == i;
        assert courses[k] in courses;
      }
    }
  }
}
