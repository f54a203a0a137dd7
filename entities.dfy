/** The persisted Course aggregate: a course row with its schedules,
    delivery methods and recommended grades, which are always written
    together with it. */
module Entities {
  import opened Enums
  import opened Collections

  /** One row of `course_schedules`; its `module` column is the field
      `term` here (`module` is a keyword of Dafny). Period 0 is the slot of a course
      without a specific period. */
  datatype CourseSchedule = CourseSchedule(term: Module, day: Day, period: int, room: string)

  /** One `courses` row together with its three child collections.
      `lastUpdate` is the timestamp in milliseconds (`Date.getTime()`). */
  datatype Course = Course(
    id: string,
    year: int,
    code: string,
    name: string,
    instructor: string,
    credit: real,
    overview: string,
    remarks: string,
    lastUpdate: int,
    hasParseError: bool,
    recommendedGrades: seq<int>,
    methods: seq<CourseMethod>,
    schedules: seq<CourseSchedule>)

  /** The natural key: `(year, code)` has a unique index. */
  datatype CourseKey = CourseKey(year: int, code: string)

  function KeyOf(c: Course): CourseKey {
    CourseKey(c.year, c.code)
  }

  function IdOf(c: Course): string {
    c.id
  }

  /** The table's constraints on a store given as a sequence of rows:
      the primary key `id` and the `(year, code)` index are both unique. */
  predicate WellFormedStore(store: seq<Course>) {
    DistinctKeys(store, KeyOf) && DistinctKeys(store, IdOf)
  }
}
