# course-service core, modelled in Dafny

This project models the data engine of the twin-te course service. The
service stores a university's per-year course catalogue and answers
lookups and searches over it. The model covers five parts of its
TypeScript source:

- **The search use case** (`searchCourseUseCase`):
  - validation of the paging window;
  - the regular expressions built for keywords and for code prefixes;
  - the conversion of a requested timetable into `(module, day, periods)`
    conditions;
  - the id query with its `Cover` and `Contain` semantics, and the binding
    of its parameters;
  - the ordered, paged lookup of the matched courses.

  The database's evaluation of the query is modelled by its meaning: a
  predicate per SQL clause over a store given as a sequence of courses.
  A lemma proves that this meaning equals the plain statement of what is
  searched for.
- **The catalogue synchronisation** (`updateCourseDatabaseUseCase`):
  - a class over the table, keyed by `(year, code)`;
  - a loop that inserts, skips or rebuilds each parsed record;
  - the report of inserted and updated courses;
  - the transaction, modelled as working on a copy and committing it only
    when every save succeeded.
- **The ingestion converter**: `createDBModule`, `createDBDay`,
  `parseCourseMethod` and `createDBCourse`.
- **The lookup by `(year, code)` pairs** (`getCoursesByCodeUseCase`): the
  duplicate check, the not-found list and the flag that suppresses it.
- **The `getCourses` handler of the gRPC service**: the duplicate-id check,
  the missing-id metadata, and the `createGrpcCourse` field mapping.

The modules follow the source:

| Module | Contents |
|---|---|
| `Results` | `Option`, `Result` and the error kinds |
| `Collections`, `Text` | Generic sequence and string helpers |
| `Enums`, `Entities` | The stored enumerations and aggregates |
| `Converter` | `src/grpc/converter.ts` |
| `SearchPatterns` | The regular expressions |
| `Timetable` | The timetable conditions |
| `Ordering` | Sorting by `(year, code)` and paging |
| `SearchCourse` | The search use case |
| `UpdateCourseDatabase` | The synchronisation |
| `GetCoursesByCode` | The lookup by pairs |
| `CourseService` | The handler |

Behaviour that follows the code where a reader might expect otherwise:

- Annual courses are stored as a single `Annual` schedule entry. They are
  not expanded into the six terms.
- The synchronisation has no force-update flag.
- A timetable search never returns a course without schedules, in either
  mode, because both halves of the id query inner-join the schedule table.
- The inserted and updated lists are not disjoint when one batch repeats a
  code. The first record is inserted and the later, newer one is then
  reported as updated.
- Keyword and code matching ignore case.
- A timetable with no selected cell leaves an empty `( )` in the query text,
  which the database rejects. It is modelled as a storage failure.

## Model

| member | source | states |
|---|---|---|
| Collections.FilterAppend | src/usecase/getCoursesByCode.ts:36 | Filtering a concatenation filters each part and keeps them in order, so the kept elements stay in their original relative order. |
| Collections.DistinctIffSizesAgree | src/usecase/getCoursesByCode.ts:19-22 | A list's length equals the size of its set of elements iff the list has no repeated element. This is the duplicate test both lookups use. |
| Text.IncludesIff | src/grpc/converter.ts:40-43 | `includes(s, t)` holds iff `t` occurs in `s` at some position. |
| Text.SplitJoin | __tests__/courseService.test.ts:135 | Splitting a `,`-joined non-empty list of comma-free strings at `,` gives the list back. |
| Converter.CreateDBModule | src/grpc/converter.ts:20-24 | Each parser term maps to the stored term of the same name. A value outside the enumeration maps to `Unknown`. |
| Converter.CreateDBModuleInjective | src/grpc/converter.ts:20-24 | Distinct parser terms map to distinct stored terms. |
| Converter.CreateDBDay | src/grpc/converter.ts:30-32 | Each parser day maps to the stored day of the same name. A value outside the enumeration maps to `Unknown`. |
| Converter.CreateDBModuleAsWrittenOnDeclared | src/grpc/converter.ts:20-24 | On the ten declared terms, the index lookup as written agrees with `CreateDBModule`. |
| Converter.CreateDBModuleAsWrittenUndefined | src/grpc/converter.ts:20-24 | On an undeclared value, the index lookup as written yields `undefined`, whereas the intended mapping yields `Unknown`. |
| Converter.CreateDBDayAsWrittenOnDeclared | src/grpc/converter.ts:30-32 | On the eleven declared days, the index lookup as written agrees with `CreateDBDay`. |
| Converter.CreateDBDayAsWrittenUndefined | src/grpc/converter.ts:30-32 | On an undeclared value, the index lookup as written yields `undefined`, whereas the intended mapping yields `Unknown`. |
| Converter.ParseCourseMethod | src/grpc/converter.ts:38-45 | The method's pushes build exactly `MethodsIn(remarks)`. |
| Converter.MethodsInMembership | src/grpc/converter.ts:40-43 | `FaceToFace` is present iff the remarks contain 対面, `OnlineAsynchronous` iff they contain オンデマンド, and `OnlineSynchronous` iff they contain 双方向. `Others` is never present. |
| Converter.MethodsInOrdered | src/grpc/converter.ts:39-44 | The methods come in the order FaceToFace, OnlineAsynchronous, OnlineSynchronous, with no repeats and at most three of them. |
| Converter.MethodsInShape | src/grpc/converter.ts:38-45 | The result is the three optional one-element pieces, concatenated in test order. |
| Converter.CreateDBSchedule | src/grpc/converter.ts:74-81 | The term and day are converted, and the period and room are copied. |
| Converter.CreateDBCourse | src/grpc/converter.ts:53-84 | The id and year come from the arguments. Code, name, instructor, credit, overview, remarks, timestamp, parse-error flag and grades are copied from the record. The methods are those the remarks announce. Schedules keep their length and order, each converted. |
| Converter.AnnualStaysSingle | src/grpc/converter.ts:74-81 | The stored course has exactly as many `Annual` entries as the record. There is no expansion. |
| Converter.CountAnnual | src/grpc/converter.ts:74-81 | Converting schedules element-wise preserves the count of `Annual` entries. |
| SearchPatterns.EscapeRegex | src/usecase/searchCourse.ts:7-8 | The result is a literal pattern: each special character has a backslash before it, every other character stands alone, and a backslash only ever comes before a special character. Unescaping it gives back the input. |
| SearchPatterns.LiteralPatternUnique | src/usecase/searchCourse.ts:7-8 | Two literal patterns that stand for the same text are equal. Since a special character must be escaped and no other may be, the escaping is fully determined. |
| SearchPatterns.EscapeRegexUnique | src/usecase/searchCourse.ts:7-8 | Every literal pattern that stands for `s` is `escapeRegex(s)`. |
| SearchPatterns.ReadEscaped | src/usecase/searchCourse.ts:7-8 | Reading an escaped string as literal text stops exactly at the next unescaped delimiter and yields the original string. |
| SearchPatterns.DecodeOneLookahead | src/usecase/searchCourse.ts:19 | Decoding `(?=.*k)` followed by further lookaheads yields `k` before the rest. |
| SearchPatterns.DecodeLookaheadsInverse | src/usecase/searchCourse.ts:15-20 | Decoding the lookahead chain of a keyword list gives back that list. |
| SearchPatterns.DecodeNamePatternInverse | src/usecase/searchCourse.ts:15-20 | Decoding `searchNameRegexp(keywords)` gives back `keywords`. |
| SearchPatterns.NameMatchesIff | src/usecase/searchCourse.ts:15-20 | A name matches the keyword pattern iff it contains every keyword, in any order, ignoring case. |
| SearchPatterns.DecodeOneAlternative | src/usecase/searchCourse.ts:26 | Decoding an escaped code, a bar and further alternatives yields that code before the rest. |
| SearchPatterns.DecodeLastAlternative | src/usecase/searchCourse.ts:26 | Decoding an escaped code followed by `)` yields that single code. |
| SearchPatterns.DecodeAlternativesInverse | src/usecase/searchCourse.ts:25-26 | Decoding the escaped codes joined by bars and closed by `)` gives back the non-empty code list. |
| SearchPatterns.CodePatternShape | src/usecase/searchCourse.ts:25-26 | The code pattern starts with `^(` and continues with the escaped codes joined by bars and closed by `)`. |
| SearchPatterns.DecodeCodePatternInverse | src/usecase/searchCourse.ts:25-26 | Decoding `searchCodeRegexp(codes)` gives back `codes`. An empty list gives the single empty prefix. |
| SearchPatterns.CodeMatchesIff | src/usecase/searchCourse.ts:25-26 | For a non-empty code list, a code matches the pattern iff it starts with at least one of the codes, ignoring case. |
| SearchCourse.KeywordCodeClauses | src/usecase/searchCourse.ts:36-41 | The name clause is present iff keywords are given, and the code clause iff codes are given. |
| SearchCourse.KeywordCodeQuery | src/usecase/searchCourse.ts:31-46 | The filter text is empty iff both lists are empty. |
| SearchCourse.PassesFilterIff | src/usecase/searchCourse.ts:217-226 | A course passes the filter iff it has the requested year, contains every keyword in its name, and, when codes are given, has a code starting with one of them. |
| SearchCourse.BindCondition | src/usecase/searchCourse.ts:190-194 | Condition `i`'s module, day and periods are bound to `m_i`, `d_i` and `p_i_ii`, and every other entry is kept. |
| SearchCourse.BindParameters | src/usecase/searchCourse.ts:184-195 | `names`, `codes`, `year` and every condition's placeholders hold the request's values, and no other key is bound. |
| SearchCourse.BindStep | src/usecase/searchCourse.ts:189-195 | One iteration of the binding loop keeps the loop's invariant. |
| SearchCourse.RowFilterIff | src/usecase/searchCourse.ts:128-129 | Under the bound parameters, the row filter `year = :year and <clauses>` holds iff the course passes the filter. |
| SearchCourse.SlotIff | src/usecase/searchCourse.ts:133-146 | Under the bound parameters, the inside clause of a condition holds iff the schedule lies in it, and the `except` clause is exactly its negation. |
| SearchCourse.RowIff | src/usecase/searchCourse.ts:123-182 | A joined row is selected by the first half iff the course passes the filter and the schedule lies in some condition. It is selected by the `except` half iff the course passes the filter and the schedule lies in none. |
| SearchCourse.RowsMeanOfBinding | src/usecase/searchCourse.ts:123-195 | With the parameters bound as the loop binds them, every row predicate has its plain meaning. |
| SearchCourse.CoveredIdsMean | src/usecase/searchCourse.ts:123-150 | The first half returns the ids of the courses that pass the filter and have a schedule the timetable asks for. |
| SearchCourse.OutsideIdsMean | src/usecase/searchCourse.ts:153-182 | The `except` half returns the ids of the courses that pass the filter and have a schedule the timetable does not ask for. |
| SearchCourse.RunIdQueryMeaning | src/usecase/searchCourse.ts:123-205 | The id query returns the matched ids: Cover for `Cover`, and Cover minus the courses with a schedule outside for `Contain`. |
| SearchCourse.Search | src/usecase/searchCourse.ts:88-237 | `InvalidArgument` iff `offset < 0` or `limit < 1`. A storage failure iff a timetable selects no cell. Otherwise the result is sorted by `(year, code)` and holds at most `limit` courses. |
| SearchCourse.SearchCourseUseCase | src/usecase/searchCourse.ts:77-239 | The use case, with its checks, its condition list, its parameter loop, the id query and the where-object, computes `Search`. |
| SearchCourse.SearchSound | src/usecase/searchCourse.ts:123-237 | Every returned course is stored, passes the filter, has a schedule in the timetable (all of its schedules, for `Contain`), and therefore has at least one schedule. |
| SearchCourse.SelectedIdMatched | src/usecase/searchCourse.ts:123-182 | With unique ids, every course a timetable search is after has its id returned by the id query. |
| SearchCourse.SearchComplete | src/usecase/searchCourse.ts:207-237 | From the first page with room for the whole store, every stored course the search is after is returned. |
| SearchCourse.MatchedIffSelects | src/usecase/searchCourse.ts:123-182 | With unique ids, a stored course's id is among the matched ids exactly when the timetable search is after the course. |
| SearchCourse.SearchWindow | src/usecase/searchCourse.ts:123-237 | For every valid window (offset at least 0, limit at least 1) and every timetable that yields conditions, the search succeeds and returns exactly the page from `offset` of at most `limit` courses, taken from the courses the search is after, sorted by year and code. |
| SearchCourse.InPage | src/usecase/searchCourse.ts:213-214 | A course on a page is in the paged sequence. |
| SearchCourse.InSorted | src/usecase/searchCourse.ts:209-212 | Sorting neither adds nor drops a course. |
| SearchCourse.InFirstPage | src/usecase/searchCourse.ts:207-215 | When everything fits in the first page, every kept course is on it. |
| Timetable.TruePeriodsFrom | src/usecase/searchCourse.ts:108-112 | The result is exactly the indices of the `true` entries from `start` on, strictly increasing. |
| Timetable.ConditionPeriods | src/usecase/searchCourse.ts:108-112 | A period is listed iff the column marks it `true`. |
| Timetable.SelectedHasPeriods | src/usecase/searchCourse.ts:104 | A column containing `true` yields a non-empty period list. |
| Timetable.DayConditions | src/usecase/searchCourse.ts:97-118 | Every condition of a module has a non-empty period list. |
| Timetable.ExtractConditions | src/usecase/searchCourse.ts:95-120 | Every extracted condition has a non-empty period list. |
| Timetable.DayConditionsIff | src/usecase/searchCourse.ts:98-118 | A condition comes from a module iff some day of it is kept and yields that condition. |
| Timetable.ExtractUnfold | src/usecase/searchCourse.ts:95-120 | The conditions are the first module's conditions followed by the rest's. |
| Timetable.ExtractConditionsIff | src/usecase/searchCourse.ts:95-120 | A condition is extracted iff some present module has a kept day yielding it. Absent modules and absent, empty or all-false columns yield nothing. |
| Timetable.InConditionsIff | src/usecase/searchCourse.ts:95-146 | A schedule lies in some extracted condition iff the timetable marks its module, day and period `true`. |
| Ordering.CodeLeqTotal | src/usecase/searchCourse.ts:211 | The code order is total. |
| Ordering.CodeLeqTransitive | src/usecase/searchCourse.ts:211 | The code order is transitive. |
| Ordering.CodeLeqAntisymmetric | src/usecase/searchCourse.ts:211 | The code order is antisymmetric. |
| Ordering.CourseLeqTotal | src/usecase/searchCourse.ts:209-212 | The `(year, code)` order is total. |
| Ordering.CourseLeqTransitive | src/usecase/searchCourse.ts:209-212 | The `(year, code)` order is transitive. |
| Ordering.CourseLeqAntisymmetric | src/usecase/searchCourse.ts:209-212 | Two courses ordered both ways have the same `(year, code)`. |
| Ordering.Insert | src/usecase/searchCourse.ts:209-212 | Inserting into a sorted list keeps it sorted and adds exactly that course. |
| Ordering.SortCourses | src/usecase/searchCourse.ts:209-212 | The result is sorted by `(year, code)` and is a permutation of the input. |
| Ordering.Page | src/usecase/searchCourse.ts:213-214 | The first `offset` courses are skipped and the next ones taken, at most `limit` of them, in order. The page is empty when `offset` passes the end. |
| Ordering.PageOfSorted | src/usecase/searchCourse.ts:209-214 | A page of a sorted list is sorted. |
| UpdateCourseDatabase.StepTarget | src/usecase/updateCourseDatabase.ts:37-44 | Nothing is saved iff the key is stored with a `lastUpdate` at least the record's. Otherwise the record's aggregate is saved under the stored id, or under the fresh id when the key is new. |
| UpdateCourseDatabase.StepStore | src/usecase/updateCourseDatabase.ts:37-46 | One iteration changes only the record's key. That key is then stored with at least the record's `lastUpdate`, and a stored course keeps its id. |
| UpdateCourseDatabase.StepKeepsIds | src/usecase/updateCourseDatabase.ts:43-44 | No stored course changes id or becomes older in one iteration. |
| UpdateCourseDatabase.StepReports | src/usecase/updateCourseDatabase.ts:41-59 | A new key is reported as inserted with the fresh id, code and name. A newer record is reported as updated with the stored id. A record no newer than the stored one changes nothing. |
| UpdateCourseDatabase.InsertStep | src/usecase/updateCourseDatabase.ts:41-53 | For a new key, the aggregate is built under the fresh id, saved and reported as inserted. |
| UpdateCourseDatabase.UpdateStep | src/usecase/updateCourseDatabase.ts:44-59 | For a newer record, the aggregate is rebuilt under the stored id, saved and reported as updated. |
| UpdateCourseDatabase.SyncRunKeys | src/usecase/updateCourseDatabase.ts:35-61 | After a run, the stored keys are the old keys plus the records' keys, and each course still sits under its own key. |
| UpdateCourseDatabase.SyncRunReports | src/usecase/updateCourseDatabase.ts:35-61 | Each record contributes at most one report, and the reports only grow. |
| UpdateCourseDatabase.SyncRunKeepsIds | src/usecase/updateCourseDatabase.ts:35-61 | A run never changes a stored course's id and never makes it older. |
| UpdateCourseDatabase.SyncRunFrame | src/usecase/updateCourseDatabase.ts:35-61 | A successful run leaves every stored row whose key no record names exactly as it was. Courses of other years and other codes are untouched. |
| UpdateCourseDatabase.SyncRunCovers | src/usecase/updateCourseDatabase.ts:35-61 | After a successful run, every record is stored with a `lastUpdate` at least its own. |
| UpdateCourseDatabase.CoveredIsNoOp | src/usecase/updateCourseDatabase.ts:43 | A run over records the store already covers changes nothing and reports nothing. |
| UpdateCourseDatabase.SyncIdempotent | src/usecase/updateCourseDatabase.ts:43 | Re-running the same input on the result of a successful run saves and reports nothing. |
| UpdateCourseDatabase.SyncRunAppend | src/usecase/updateCourseDatabase.ts:35-61 | A run over two batches is the run over the first followed by the run over the second. |
| UpdateCourseDatabase.BumpOneRecord | src/usecase/updateCourseDatabase.ts:43-59 | On a covered store, making one record newer gives exactly one update, under the stored id, and no insert. |
| UpdateCourseDatabase.CoveredPrefixSkipped | src/usecase/updateCourseDatabase.ts:43 | Covered records at the head of a batch are skipped. |
| UpdateCourseDatabase.UpdateThenCovered | src/usecase/updateCourseDatabase.ts:44-59 | A newer record followed by covered records gives one update. |
| UpdateCourseDatabase.FreshReports | src/usecase/updateCourseDatabase.ts:48-53 | The insert reports of a batch of new records are their fresh ids, codes and names, in order. |
| UpdateCourseDatabase.FreshRecordsInserted | src/usecase/updateCourseDatabase.ts:37-53 | When every record has a new and distinct key and saves succeed, all of them are reported as inserted, in order, and none as updated. |
| UpdateCourseDatabase.FirstRunInsertsAll | __tests__/usecase/updateCourseDatabase.test.ts:20-26 | On an empty store, a batch with distinct codes is all inserted and nothing is updated. |
| UpdateCourseDatabase.RepeatedCodeReportedTwice | src/usecase/updateCourseDatabase.ts:37-59 | A batch repeating a code with a newer timestamp reports that code once as inserted and once as updated, under the same id. |
| UpdateCourseDatabase.CourseRepository.constructor | src/database/model/course.ts:15 | The table starts with each course under its own unique `(year, code)` key. |
| UpdateCourseDatabase.CourseRepository.UpdateCourseDatabaseUseCase | src/usecase/updateCourseDatabase.ts:24-64 | The loop computes the run over the records in input order. On success the table becomes the run's result, every row whose key no record names is unchanged, and the reports are returned. On a refused save the table is left as it was and the call fails. |
| GetCoursesByCode.FindByPairs | src/usecase/getCoursesByCode.ts:27-30 | The lookup returns exactly the stored courses whose pair was requested. |
| GetCoursesByCode.MissingPairs | src/usecase/getCoursesByCode.ts:36 | A pair is missing iff it was requested and no returned row has it. |
| GetCoursesByCode.GetCoursesByCode | src/usecase/getCoursesByCode.ts:15-40 | `InvalidArgument` iff two pairs share the key `${year}${code}`. `NotFound` iff there is no such clash, suppression is off and fewer rows were found than requested. `NotFound` lists the missing pairs as `year:code`. Otherwise the found rows are returned. |
| GetCoursesByCode.ReturnsRequested | src/usecase/getCoursesByCode.ts:27-30 | Every returned course is stored and has a requested pair. |
| GetCoursesByCode.SuppressedNeverNotFound | src/usecase/getCoursesByCode.ts:15-39 | With suppression on, the call succeeds iff no key repeats. |
| GetCoursesByCode.DistinctKeysDistinctPairs | src/usecase/getCoursesByCode.ts:19-22 | Distinct keys imply distinct pairs. |
| GetCoursesByCode.NotFoundIffSomeMissing | src/usecase/getCoursesByCode.ts:27-39 | Against a store with a unique pair index and without repeated keys, the call fails iff suppression is off and some pair is not stored. When every pair is stored, the result has one course per pair. |
| GetCoursesByCode.NotFoundListsMissing | src/usecase/getCoursesByCode.ts:31-38 | The reported labels are exactly those of the requested pairs no returned row has. |
| GetCoursesByCode.LabelsOfMissing | src/usecase/getCoursesByCode.ts:36-37 | Labelling the missing pairs one by one labels each of them, and nothing else. |
| GetCoursesByCode.DupKeyShiftDigit | src/usecase/getCoursesByCode.ts:21 | Moving a digit from the end of the year to the front of the code leaves the key unchanged. |
| GetCoursesByCode.CollidingPairsRefused | src/usecase/getCoursesByCode.ts:19-25 | The distinct pairs `(20201, "A")` and `(2020, "1A")` are refused as duplicates. |
| CourseService.CreateGrpcCourse | src/courseService.ts:128-153 | Schedules are converted element-wise, in order. That every other field is carried over is stated by `CourseService.GrpcRoundTrip`. |
| CourseService.GrpcRoundTrip | src/courseService.ts:128-153 | The message reads back as the aggregate it was built from: every field is carried over. |
| CourseService.CreateGrpcCourseInjective | src/courseService.ts:128-153 | Distinct aggregates give distinct messages. |
| CourseService.MissingIds | src/courseService.ts:93 | An id is missing iff it was requested and no returned course has it. |
| CourseService.GetCourses | src/courseService.ts:74-107 | `INVALID_ARGUMENT` iff an id repeats. `NOT_FOUND` iff there is no repeat and the lookup returned a different count; its `ids` is the missing ids joined by `,`. Otherwise there is one message per requested id. |
| CourseService.DuplicateSkipsLookup | src/courseService.ts:82-88 | A request repeating an id gets the same `INVALID_ARGUMENT` reply whatever the lookup would return. |
| CourseService.RepliesInLookupOrder | src/courseService.ts:102 | On success, message `i` is the conversion of the lookup's course `i`. |
| CourseService.FindIds | src/courseService.ts:90 | The lookup against a store returns exactly the stored courses with a requested id. |
| CourseService.NotFoundIffSomeMissing | src/courseService.ts:91-100 | Against a store with unique ids and without repeated ids, the reply is `NOT_FOUND` iff some requested id is not stored. The metadata then names at least one id, and splitting it at `,` gives the missing ids in request order. |
| CourseService.MissingIdsExact | src/courseService.ts:91-100 | The metadata lists exactly the requested ids that no returned course has. |

## Left out

- The gRPC transport, the server lifecycle, `applyLogger`, and the
  `callback` plumbing are left out. The handler's reply is a value.
- Messages and aggregates built by setters on fresh objects are modelled as
  building a value.
- CourseService.CreateGrpcCourse: keeps `lastUpdate` as the timestamp in
  milliseconds; the `Date.toISOString` rendering is left out.
- The ORM and the database internals are left out. The store is a sequence
  of courses (a map keyed by `(year, code)` for the synchronisation). `find`
  and `findByIds` return rows in store order. Cascades and relations are not
  modelled.
- GetCoursesByCode.FindByPairs: a request with no pairs finds no rows, so
  `getCoursesByCode` with an empty list succeeds with an empty list. The
  lookup is given `where: []` then, and the ORM's reading of an empty list
  of alternatives is not part of this model.
- Text is ordered by code point. The database's collation is not modelled.
- PostgreSQL's regular-expression engine is left out. A pattern's meaning is
  given by decoding it back into its literal terms. Case folding is ASCII
  only.
- `escapeQueryWithParameters` and the SQL text itself are left out. The id
  query is modelled clause by clause.
- The uuid generator is a parameter: `newIds[i]` is the uuid record `i`
  would get.
- The database's acceptance of a save is a parameter, `accepts`. A refused
  save aborts the run.
- Concurrent runs of the synchronisation are left out.
- Timetable keys outside the enumerations are not modelled. The request's
  timetable is typed by the stored `Module` and `Day`.
- `getCoursesUseCase`, `listAllCoursesUseCase` and the `listAllCourses`
  handler are one-line ORM wrappers. `getCourses` takes the lookup as a
  parameter, and `CourseService.FindIds` is that lookup against a store.
- `fetchCoursesFromKdb` and the catalogue parser are left out; they are a
  network download and an external library. Parsed records are inputs.
- The admin script, the entry point and the logger are left out.
- `src/grpc/course.service.ts` only delegates to the use cases and to an
  error converter that is not part of this model.
- UpdateCourseDatabase.FirstRunInsertsAll: stated for saves that always
  succeed (`AcceptEverySave`). A refused save aborts the run as
  `CourseRepository.UpdateCourseDatabaseUseCase` states.
- SearchCourse.SearchComplete: stated for the first page with room for the
  whole store. `SearchCourse.SearchWindow` gives the exact contents for
  every other window.

## Findings

| source | as written | input that shows it | evidently intended | confidence | as-written member | corrected member |
|---|---|---|---|---|---|---|
| src/grpc/converter.ts:20-24 | `createDBModule` looks the term up by its index in the parser's enumeration. A value outside it gives index -1 and the result `undefined`. | `'unexpected data'` cast to the parser's term type (__tests__/utils/converter.test.ts:36-37) | `Module.Unknown` | medium: relies on the parser enumeration's declaration order; not executed | Converter.CreateDBModuleAsWrittenUndefined | Converter.CreateDBModule |
| src/grpc/converter.ts:30-32 | `createDBDay` does the same lookup and gives `undefined` for an undeclared day. | `'unexpected data'` cast to the parser's day type (__tests__/utils/converter.test.ts:55-56) | `Day.Unknown` | medium: relies on the parser enumeration's declaration order; not executed | Converter.CreateDBDayAsWrittenUndefined | Converter.CreateDBDay |
