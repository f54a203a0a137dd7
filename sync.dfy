/** `updateCourseDatabaseUseCase`: reconciling the parsed records of one
    year with the stored courses inside one transaction. The store is the
    map from the unique `(year, code)` key to the stored aggregate; the
    uuids generated for new courses and the database's acceptance of each
    save are parameters. */
module UpdateCourseDatabase {
  import opened Results
  import opened Entities
  import opened Converter

  /** One entry of `insertedCourses` or `updatedCourses`. */
  datatype ReportCourseData = ReportCourseData(id: string, code: string, name: string)

  datatype UpdateResult = UpdateResult(insertedCourses: seq<ReportCourseData>, updatedCourses: seq<ReportCourseData>)

  /** The transaction's working state: the store as seen inside the
      transaction and the reports so far. */
  datatype SyncState = SyncState(rows: map<CourseKey, Course>, inserted: seq<ReportCourseData>, updated: seq<ReportCourseData>)

  function ReportOf(t: Course): ReportCourseData {
    ReportCourseData(t.id, t.code, t.name)
  }

  /** Every stored aggregate sits under its own key. */
  predicate WellKeyed(rows: map<CourseKey, Course>) {
    forall k :: k in rows ==> KeyOf(rows[k]) == k
  }

  /** The aggregate an iteration saves: a new one under the fresh id when
      the key is not stored, none when the stored one is at least as recent,
      otherwise one rebuilt from the record under the stored id. */
  function StepTarget(rows: map<CourseKey, Course>, year: int, c: ParsedCourse, newId: string): (t: Option<Course>)
    ensures var key := CourseKey(year, c.code);
      t.None? <==> key in rows && rows[key].lastUpdate >= c.lastUpdate
    ensures var key := CourseKey(year, c.code);
      t.Some? ==>
        KeyOf(t.value) == key && t.value.lastUpdate == c.lastUpdate && t.value.name == c.name &&
        t.value.id == (if key in rows then rows[key].id else newId)
  {
    var key := CourseKey(year, c.code);
    if key !in rows then Some(CreateDBCourse(c, year, newId))
    else if rows[key].lastUpdate >= c.lastUpdate then None
    else Some(CreateDBCourse(c, year, rows[key].id))
  }

  /** One iteration: save the target, if any, and report it as inserted when
      the key was new and as updated otherwise. A save the database refuses
      aborts the transaction. */
  function SyncStep(s: SyncState, year: int, c: ParsedCourse, newId: string, accepts: Course -> bool): (r: Result<SyncState>)
    ensures r.Err? ==> r.error == StorageFailure
  {
    var key := CourseKey(year, c.code);
    var target := StepTarget(s.rows, year, c, newId);
    if target.None? then Ok(s)
    else if !accepts(target.value) then Err(StorageFailure)
    else if key !in s.rows then
      Ok(SyncState(s.rows[key := target.value], s.inserted + [ReportOf(target.value)], s.updated))
    else
      Ok(SyncState(s.rows[key := target.value], s.inserted, s.updated + [ReportOf(target.value)]))
  }

  /** What one step does to the store: only the record's key changes, it is
      then present with at least the record's `lastUpdate`, and a stored
      aggregate keeps its id and never gets older. */
  lemma StepStore(s: SyncState, year: int, c: ParsedCourse, newId: string, accepts: Course -> bool)
    ensures var key := CourseKey(year, c.code);
      var r := SyncStep(s, year, c, newId, accepts);
      r.Ok? ==>
        r.value.rows.Keys == s.rows.Keys + {key} &&
        (forall k :: k in s.rows && k != key ==> r.value.rows[k] == s.rows[k]) &&
        r.value.rows[key].lastUpdate >= c.lastUpdate &&
        (key in s.rows ==> r.value.rows[key].id == s.rows[key].id &&
                           r.value.rows[key].lastUpdate >= s.rows[key].lastUpdate)
    ensures var r := SyncStep(s, year, c, newId, accepts);
      WellKeyed(s.rows) && r.Ok? ==> WellKeyed(r.value.rows)
  {
    var key := CourseKey(year, c.code);
    var target := StepTarget(s.rows, year, c, newId);
    var r := SyncStep(s, year, c, newId, accepts);
    if r.Ok? && target.Some? {
      assert r.value.rows == s.rows[key := target.value];
      SaveUnder(s.rows, key, target.value);
    }
  }

  /** Saving `t` under `key` adds that key and changes no other. */
  lemma SaveUnder(rows: map<CourseKey, Course>, key: CourseKey, t: Course)
    ensures rows[key := t].Keys == rows.Keys + {key}
    ensures forall k :: k in rows && k != key ==> rows[key := t][k] == rows[k]
    ensures WellKeyed(rows) && KeyOf(t) == key ==> WellKeyed(rows[key := t])
  {
  }

  lemma StepKeepsIds(s: SyncState, year: int, c: ParsedCourse, newId: string, accepts: Course -> bool)
    ensures var r := SyncStep(s, year, c, newId, accepts);
      r.Ok? ==> forall k :: k in s.rows ==> k in r.value.rows && r.value.rows[k].id == s.rows[k].id &&
                                            r.value.rows[k].lastUpdate >= s.rows[k].lastUpdate
  {
    StepStore(s, year, c, newId, accepts);
  }

  /** What one step reports: a new key is reported as inserted under the
      fresh id, a newer record as updated under the stored id, a record no
      newer than the stored one not at all. */
  lemma StepReports(s: SyncState, year: int, c: ParsedCourse, newId: string, accepts: Course -> bool)
    ensures var key := CourseKey(year, c.code);
      var r := SyncStep(s, year, c, newId, accepts);
      r.Ok? ==>
        (key !in s.rows ==> r.value.inserted == s.inserted + [ReportCourseData(newId, c.code, c.name)] &&
                            r.value.updated == s.updated) &&
        (key in s.rows && s.rows[key].lastUpdate >= c.lastUpdate ==> r.value == s) &&
        (key in s.rows && s.rows[key].lastUpdate < c.lastUpdate ==>
           r.value.inserted == s.inserted &&
           r.value.updated == s.updated + [ReportCourseData(s.rows[key].id, c.code, c.name)])
  {
  }

  /** The step for a record whose key is not stored. */
  lemma InsertStep(s: SyncState, year: int, c: ParsedCourse, newId: string, accepts: Course -> bool)
    requires CourseKey(year, c.code) !in s.rows
    requires accepts(CreateDBCourse(c, year, newId))
    ensures SyncStep(s, year, c, newId, accepts) ==
              Ok(SyncState(s.rows[CourseKey(year, c.code) := CreateDBCourse(c, year, newId)],
                           s.inserted + [ReportCourseData(newId, c.code, c.name)], s.updated))
  {
  }

  /** The step for a record newer than the stored aggregate. */
  lemma UpdateStep(s: SyncState, year: int, c: ParsedCourse, newId: string, accepts: Course -> bool)
    requires CourseKey(year, c.code) in s.rows && s.rows[CourseKey(year, c.code)].lastUpdate < c.lastUpdate
    requires accepts(CreateDBCourse(c, year, s.rows[CourseKey(year, c.code)].id))
    ensures var id := s.rows[CourseKey(year, c.code)].id;
      SyncStep(s, year, c, newId, accepts) ==
        Ok(SyncState(s.rows[CourseKey(year, c.code) := CreateDBCourse(c, year, id)],
                     s.inserted, s.updated + [ReportCourseData(id, c.code, c.name)]))
  {
  }

  function KeysOf(year: int, courses: seq<ParsedCourse>): set<CourseKey> {
    set i | 0 <= i < |courses| :: CourseKey(year, courses[i].code)
  }

  /** The records processed in input order; the first refused save aborts
      the whole run. */
  function SyncRun(s: SyncState, year: int, courses: seq<ParsedCourse>, newIds: seq<string>, accepts: Course -> bool): (r: Result<SyncState>)
    requires |newIds| == |courses|
    ensures r.Err? ==> r.error == StorageFailure
    decreases |courses|
  {
    if |courses| == 0 then Ok(s)
    else
      var step := SyncStep(s, year, courses[0], newIds[0], accepts);
      if step.Err? then step
      else SyncRun(step.value, year, courses[1..], newIds[1..], accepts)
  }

  /** A run whose first step succeeds continues from that step's state. */
  lemma SyncRunCons(s: SyncState, year: int, courses: seq<ParsedCourse>, newIds: seq<string>, accepts: Course -> bool, s1: SyncState)
    requires |newIds| == |courses| && |courses| > 0
    requires SyncStep(s, year, courses[0], newIds[0], accepts) == Ok(s1)
    ensures SyncRun(s, year, courses, newIds, accepts) == SyncRun(s1, year, courses[1..], newIds[1..], accepts)
  {
  }

  lemma KeysOfCons(year: int, courses: seq<ParsedCourse>)
    requires |courses| > 0
    ensures KeysOf(year, courses) == {CourseKey(year, courses[0].code)} + KeysOf(year, courses[1..])
  {
    forall k | k in KeysOf(year, courses) ensures k in {CourseKey(year, courses[0].code)} + KeysOf(year, courses[1..]) {
      var i :| 0 <= i < |courses| && k == CourseKey(year, courses[i].code);
      if i > 0 { assert courses[1..][i - 1] == courses[i]; }
    }
    forall k | k in KeysOf(year, courses[1..]) ensures k in KeysOf(year, courses) {
      var i :| 0 <= i < |courses[1..]| && k == CourseKey(year, courses[1..][i].code);
      assert courses[i + 1] == courses[1..][i];
    }
  }

  /** A successful run stores exactly the old keys and the records' keys,
      and keeps every stored aggregate under its own key. */
  lemma {:induction false} SyncRunKeys(s: SyncState, year: int, courses: seq<ParsedCourse>, newIds: seq<string>, accepts: Course -> bool)
    requires |newIds| == |courses|
    ensures var r := SyncRun(s, year, courses, newIds, accepts);
      r.Ok? ==> r.value.rows.Keys == s.rows.Keys + KeysOf(year, courses) &&
                (WellKeyed(s.rows) ==> WellKeyed(r.value.rows))
    decreases |courses|
  {
    if |courses| > 0 {
      var step := SyncStep(s, year, courses[0], newIds[0], accepts);
      if step.Ok? {
        StepStore(s, year, courses[0], newIds[0], accepts);
        assert SyncRun(s, year, courses, newIds, accepts) == SyncRun(step.value, year, courses[1..], newIds[1..], accepts);
        SyncRunKeys(step.value, year, courses[1..], newIds[1..], accepts);
        KeysOfCons(year, courses);
      }
    }
  }

  /** A successful run appends to both report lists and reports each record
      at most once. */
  lemma {:induction false} SyncRunReports(s: SyncState, year: int, courses: seq<ParsedCourse>, newIds: seq<string>, accepts: Course -> bool)
    requires |newIds| == |courses|
    ensures var r := SyncRun(s, year, courses, newIds, accepts);
      r.Ok? ==>
        |r.value.inserted| + |r.value.updated| <= |s.inserted| + |s.updated| + |courses| &&
        s.inserted <= r.value.inserted && s.updated <= r.value.updated
    decreases |courses|
  {
    if |courses| > 0 {
      var step := SyncStep(s, year, courses[0], newIds[0], accepts);
      if step.Ok? {
        StepReports(s, year, courses[0], newIds[0], accepts);
        SyncRunReports(step.value, year, courses[1..], newIds[1..], accepts);
      }
    }
  }

  /** A successful run keeps every stored id and never makes a stored
      aggregate older. */
  lemma {:induction false} SyncRunKeepsIds(s: SyncState, year: int, courses: seq<ParsedCourse>, newIds: seq<string>, accepts: Course -> bool)
    requires |newIds| == |courses|
    ensures var r := SyncRun(s, year, courses, newIds, accepts);
      r.Ok? ==> forall k :: k in s.rows ==> k in r.value.rows && r.value.rows[k].id == s.rows[k].id &&
                                            r.value.rows[k].lastUpdate >= s.rows[k].lastUpdate
    decreases |courses|
  {
    if |courses| > 0 {
      var step := SyncStep(s, year, courses[0], newIds[0], accepts);
      if step.Ok? {
        StepKeepsIds(s, year, courses[0], newIds[0], accepts);
        assert SyncRun(s, year, courses, newIds, accepts) == SyncRun(step.value, year, courses[1..], newIds[1..], accepts);
        SyncRunKeepsIds(step.value, year, courses[1..], newIds[1..], accepts);
      }
    }
  }

  /** A successful run leaves every row whose key no record names exactly
      as it was: courses of other years and other codes are untouched. */
  lemma {:induction false} SyncRunFrame(s: SyncState, year: int, courses: seq<ParsedCourse>, newIds: seq<string>, accepts: Course -> bool)
    requires |newIds| == |courses|
    ensures var r := SyncRun(s, year, courses, newIds, accepts);
      r.Ok? ==> forall k :: k in s.rows && k !in KeysOf(year, courses) ==> k in r.value.rows && r.value.rows[k] == s.rows[k]
    decreases |courses|
  {
    if |courses| > 0 {
      var step := SyncStep(s, year, courses[0], newIds[0], accepts);
      if step.Ok? {
        StepStore(s, year, courses[0], newIds[0], accepts);
        assert SyncRun(s, year, courses, newIds, accepts) == SyncRun(step.value, year, courses[1..], newIds[1..], accepts);
        SyncRunFrame(step.value, year, courses[1..], newIds[1..], accepts);
        KeysOfCons(year, courses);
      }
    }
  }

  // ---------------------------------------------------------------------
  // Re-running, bumping one record, a first run

  /** The store already holds every record at least as recent as given. */
  predicate Covered(rows: map<CourseKey, Course>, year: int, courses: seq<ParsedCourse>) {
    forall i :: 0 <= i < |courses| ==>
      CourseKey(year, courses[i].code) in rows &&
      rows[CourseKey(year, courses[i].code)].lastUpdate >= courses[i].lastUpdate
  }

  /** After a successful run the store covers every record of it. */
  lemma {:induction false} SyncRunCovers(s: SyncState, year: int, courses: seq<ParsedCourse>, newIds: seq<string>, accepts: Course -> bool)
    requires |newIds| == |courses|
    ensures var r := SyncRun(s, year, courses, newIds, accepts);
      r.Ok? ==> Covered(r.value.rows, year, courses)
    decreases |courses|
  {
    if |courses| > 0 {
      var step := SyncStep(s, year, courses[0], newIds[0], accepts);
      if step.Ok? {
        StepStore(s, year, courses[0], newIds[0], accepts);
        var r := SyncRun(step.value, year, courses[1..], newIds[1..], accepts);
        assert SyncRun(s, year, courses, newIds, accepts) == r;
        SyncRunCovers(step.value, year, courses[1..], newIds[1..], accepts);
        SyncRunKeepsIds(step.value, year, courses[1..], newIds[1..], accepts);
        if r.Ok? {
          forall i | 0 <= i < |courses|
            ensures CourseKey(year, courses[i].code) in r.value.rows &&
                    r.value.rows[CourseKey(year, courses[i].code)].lastUpdate >= courses[i].lastUpdate
          {
            if i > 0 { assert courses[1..][i - 1] == courses[i]; }
          }
        }
      }
    }
  }

  /** Records the store already covers change nothing and report nothing,
      whatever ids are offered and whatever saves would be refused. */
  lemma {:induction false} CoveredIsNoOp(s: SyncState, year: int, courses: seq<ParsedCourse>, newIds: seq<string>, accepts: Course -> bool)
    requires |newIds| == |courses|
    requires Covered(s.rows, year, courses)
    ensures SyncRun(s, year, courses, newIds, accepts) == Ok(s)
    decreases |courses|
  {
    if |courses| > 0 {
      assert SyncStep(s, year, courses[0], newIds[0], accepts) == Ok(s);
      assert Covered(s.rows, year, courses[1..]) by {
        forall i | 0 <= i < |courses[1..]|
          ensures CourseKey(year, courses[1..][i].code) in s.rows &&
                  s.rows[CourseKey(year, courses[1..][i].code)].lastUpdate >= courses[1..][i].lastUpdate
        {
          assert courses[1..][i] == courses[i + 1];
        }
      }
      CoveredIsNoOp(s, year, courses[1..], newIds[1..], accepts);
    }
  }

  /** Re-running with the same records reports nothing and leaves the store
      as the first run left it. */
  lemma SyncIdempotent(s: SyncState, year: int, courses: seq<ParsedCourse>, newIds: seq<string>, accepts: Course -> bool,
                       moreIds: seq<string>, accepts2: Course -> bool)
    requires |newIds| == |courses| && |moreIds| == |courses|
    requires SyncRun(s, year, courses, newIds, accepts).Ok?
    ensures var again := SyncState(SyncRun(s, year, courses, newIds, accepts).value.rows, [], []);
      SyncRun(again, year, courses, moreIds, accepts2) == Ok(again)
  {
    SyncRunCovers(s, year, courses, newIds, accepts);
    var again := SyncState(SyncRun(s, year, courses, newIds, accepts).value.rows, [], []);
    CoveredIsNoOp(again, year, courses, moreIds, accepts2);
  }

  /** Running `a` then `b` is running `a + b`. */
  lemma {:induction false} SyncRunAppend(s: SyncState, year: int, a: seq<ParsedCourse>, ia: seq<string>,
                                         b: seq<ParsedCourse>, ib: seq<string>, accepts: Course -> bool)
    requires |ia| == |a| && |ib| == |b|
    ensures var first := SyncRun(s, year, a, ia, accepts);
      SyncRun(s, year, a + b, ia + ib, accepts) ==
        if first.Err? then first else SyncRun(first.value, year, b, ib, accepts)
    decreases |a|
  {
    if |a| == 0 {
      assert a + b == b && ia + ib == ib;
    } else {
      assert (a + b)[1..] == a[1..] + b && (ia + ib)[1..] == ia[1..] + ib;
      assert (a + b)[0] == a[0] && (ia + ib)[0] == ia[0];
      var step := SyncStep(s, year, a[0], ia[0], accepts);
      if step.Ok? {
        SyncRunAppend(step.value, year, a[1..], ia[1..], b, ib, accepts);
      }
    }
  }

  lemma CoveredSlice(rows: map<CourseKey, Course>, year: int, courses: seq<ParsedCourse>, lo: int, hi: int)
    requires Covered(rows, year, courses) && 0 <= lo <= hi <= |courses|
    ensures Covered(rows, year, courses[lo..hi])
  {
    forall i | 0 <= i < hi - lo
      ensures CourseKey(year, courses[lo..hi][i].code) in rows &&
              rows[CourseKey(year, courses[lo..hi][i].code)].lastUpdate >= courses[lo..hi][i].lastUpdate
    {
      assert courses[lo..hi][i] == courses[lo + i];
    }
  }

  /** Replacing a stored aggregate by one at least as recent keeps coverage. */
  lemma CoveredNewer(rows: map<CourseKey, Course>, key: CourseKey, t: Course, year: int, courses: seq<ParsedCourse>)
    requires Covered(rows, year, courses)
    requires key in rows && t.lastUpdate >= rows[key].lastUpdate
    ensures Covered(rows[key := t], year, courses)
  {
  }

  /** Starting from a store that covers the records, making one record newer
      yields exactly one update, of the stored aggregate under its id, and
      no insert. */
  lemma BumpOneRecord(s: SyncState, year: int, courses: seq<ParsedCourse>, newIds: seq<string>, accepts: Course -> bool,
                      b: int, x: ParsedCourse)
    requires |newIds| == |courses| && 0 <= b < |courses|
    requires Covered(s.rows, year, courses)
    requires x.code == courses[b].code
    requires CourseKey(year, x.code) in s.rows && s.rows[CourseKey(year, x.code)].lastUpdate < x.lastUpdate
    requires accepts(CreateDBCourse(x, year, s.rows[CourseKey(year, x.code)].id))
    ensures var key := CourseKey(year, x.code);
      var id := s.rows[key].id;
      SyncRun(s, year, courses[b := x], newIds, accepts) ==
        Ok(SyncState(s.rows[key := CreateDBCourse(x, year, id)], s.inserted, s.updated + [ReportCourseData(id, x.code, x.name)]))
  {
    var pre, post := courses[..b], courses[b + 1..];
    var ipre, ipost := newIds[..b], newIds[b + 1..];
    SplitAround(courses, newIds, b, x);
    CoveredSlice(s.rows, year, courses, 0, b);
    CoveredSlice(s.rows, year, courses, b + 1, |courses|);
    CoveredPrefixSkipped(s, year, pre, ipre, [x] + post, [newIds[b]] + ipost, accepts);
    UpdateThenCovered(s, year, x, newIds[b], post, ipost, accepts);
  }

  lemma SplitAround<T, U>(courses: seq<T>, newIds: seq<U>, b: int, x: T)
    requires |newIds| == |courses| && 0 <= b < |courses|
    ensures courses[b := x] == courses[..b] + ([x] + courses[b + 1..])
    ensures newIds == newIds[..b] + ([newIds[b]] + newIds[b + 1..])
  {
  }

  /** Covered records in front of a run change nothing. */
  lemma CoveredPrefixSkipped(s: SyncState, year: int, pre: seq<ParsedCourse>, ipre: seq<string>,
                             rest: seq<ParsedCourse>, irest: seq<string>, accepts: Course -> bool)
    requires |ipre| == |pre| && |irest| == |rest|
    requires Covered(s.rows, year, pre)
    ensures SyncRun(s, year, pre + rest, ipre + irest, accepts) == SyncRun(s, year, rest, irest, accepts)
  {
    SyncRunAppend(s, year, pre, ipre, rest, irest, accepts);
    CoveredIsNoOp(s, year, pre, ipre, accepts);
  }

  /** A newer record followed by covered ones: one update, nothing else. */
  lemma UpdateThenCovered(s: SyncState, year: int, x: ParsedCourse, newId: string,
                          post: seq<ParsedCourse>, ipost: seq<string>, accepts: Course -> bool)
    requires |ipost| == |post|
    requires Covered(s.rows, year, post)
    requires CourseKey(year, x.code) in s.rows && s.rows[CourseKey(year, x.code)].lastUpdate < x.lastUpdate
    requires accepts(CreateDBCourse(x, year, s.rows[CourseKey(year, x.code)].id))
    ensures var key := CourseKey(year, x.code);
      var id := s.rows[key].id;
      SyncRun(s, year, [x] + post, [newId] + ipost, accepts) ==
        Ok(SyncState(s.rows[key := CreateDBCourse(x, year, id)], s.inserted, s.updated + [ReportCourseData(id, x.code, x.name)]))
  {
    var key := CourseKey(year, x.code);
    var id := s.rows[key].id;
    var s1 := SyncState(s.rows[key := CreateDBCourse(x, year, id)], s.inserted, s.updated + [ReportCourseData(id, x.code, x.name)]);
    UpdateStep(s, year, x, newId, accepts);
    SyncRunCons(s, year, [x] + post, [newId] + ipost, accepts, s1);
    CoveredNewer(s.rows, key, CreateDBCourse(x, year, id), year, post);
    assert ([x] + post)[1..] == post && ([newId] + ipost)[1..] == ipost;
    CoveredIsNoOp(s1, year, post, ipost, accepts);
  }

  /** The reports of records inserted under the given ids, in order. */
  function FreshReports(courses: seq<ParsedCourse>, newIds: seq<string>): (r: seq<ReportCourseData>)
    requires |newIds| == |courses|
    ensures |r| == |courses|
    ensures forall i :: 0 <= i < |courses| ==> r[i] == ReportCourseData(newIds[i], courses[i].code, courses[i].name)
  {
    if |courses| == 0 then []
    else [ReportCourseData(newIds[0], courses[0].code, courses[0].name)] + FreshReports(courses[1..], newIds[1..])
  }

  /** None of the records' keys is stored, and no two records share a code. */
  predicate FreshBatch(stored: set<CourseKey>, year: int, courses: seq<ParsedCourse>) {
    (forall i :: 0 <= i < |courses| ==> CourseKey(year, courses[i].code) !in stored) &&
    (forall i, j :: 0 <= i < j < |courses| ==> courses[i].code != courses[j].code)
  }

  lemma FreshBatchTail(stored: set<CourseKey>, year: int, courses: seq<ParsedCourse>)
    requires |courses| > 0
    requires FreshBatch(stored, year, courses)
    ensures FreshBatch(stored + {CourseKey(year, courses[0].code)}, year, courses[1..])
  {
    var tail := courses[1..];
    forall i | 0 <= i < |tail| ensures tail[i] == courses[i + 1] {
    }
    assert forall i, j :: 0 <= i < j < |tail| ==> tail[i].code != tail[j].code;
  }

  /** A database that accepts every save. */
  function AcceptEverySave(t: Course): bool {
    true
  }

  /** When every save succeeds, records with distinct codes none of which
      is stored are all inserted, in order, under the offered ids, and none
      is reported as updated. */
  lemma {:induction false} FreshRecordsInserted(s: SyncState, year: int, courses: seq<ParsedCourse>, newIds: seq<string>)
    requires |newIds| == |courses|
    requires FreshBatch(s.rows.Keys, year, courses)
    ensures var r := SyncRun(s, year, courses, newIds, AcceptEverySave);
      r.Ok? && r.value.inserted == s.inserted + FreshReports(courses, newIds) && r.value.updated == s.updated
    decreases |courses|
  {
    if |courses| == 0 {
      assert s.inserted + FreshReports(courses, newIds) == s.inserted;
    } else {
      var s1 := FreshInsert(s, year, courses[0], newIds[0]);
      FreshBatchTail(s.rows.Keys, year, courses);
      assert s1.rows.Keys == s.rows.Keys + {CourseKey(year, courses[0].code)};
      FreshRecordsInserted(s1, year, courses[1..], newIds[1..]);
      FreshUnfold(s, year, courses, newIds);
      FreshReportsCons(courses, newIds, s.inserted);
    }
  }

  /** The state after inserting `c` under `newId`. */
  function FreshInsert(s: SyncState, year: int, c: ParsedCourse, newId: string): SyncState {
    SyncState(s.rows[CourseKey(year, c.code) := CreateDBCourse(c, year, newId)],
              s.inserted + [ReportCourseData(newId, c.code, c.name)], s.updated)
  }

  /** A run over records whose first key is not stored continues from the
      state after inserting that record. */
  lemma FreshUnfold(s: SyncState, year: int, courses: seq<ParsedCourse>, newIds: seq<string>)
    requires |newIds| == |courses| && |courses| > 0
    requires CourseKey(year, courses[0].code) !in s.rows
    ensures SyncRun(s, year, courses, newIds, AcceptEverySave) ==
            SyncRun(FreshInsert(s, year, courses[0], newIds[0]), year, courses[1..], newIds[1..], AcceptEverySave)
  {
    InsertStep(s, year, courses[0], newIds[0], AcceptEverySave);
    SyncRunCons(s, year, courses, newIds, AcceptEverySave, FreshInsert(s, year, courses[0], newIds[0]));
  }

  lemma FreshReportsCons(courses: seq<ParsedCourse>, newIds: seq<string>, prefix: seq<ReportCourseData>)
    requires |newIds| == |courses| && |courses| > 0
    ensures prefix + FreshReports(courses, newIds) ==
            (prefix + [ReportCourseData(newIds[0], courses[0].code, courses[0].name)]) + FreshReports(courses[1..], newIds[1..])
  {
  }

  /** On an empty store, when every save succeeds, every record with a
      distinct code is inserted and none updated. */
  lemma FirstRunInsertsAll(year: int, courses: seq<ParsedCourse>, newIds: seq<string>)
    requires |newIds| == |courses|
    requires forall i, j :: 0 <= i < j < |courses| ==> courses[i].code != courses[j].code
    ensures var r := SyncRun(SyncState(map[], [], []), year, courses, newIds, AcceptEverySave);
      r.Ok? && r.value.inserted == FreshReports(courses, newIds) && r.value.updated == []
  {
    var empty: map<CourseKey, Course> := map[];
    assert empty.Keys == {};
    FreshRecordsInserted(SyncState(empty, [], []), year, courses, newIds);
  }

  /** A code given twice in one run, the second time newer, is reported
      both as inserted and as updated, under the same id. */
  lemma RepeatedCodeReportedTwice(year: int, c1: ParsedCourse, c2: ParsedCourse, id1: string, id2: string, accepts: Course -> bool)
    requires c1.code == c2.code && c1.lastUpdate < c2.lastUpdate
    requires accepts(CreateDBCourse(c1, year, id1)) && accepts(CreateDBCourse(c2, year, id1))
    ensures SyncRun(SyncState(map[], [], []), year, [c1, c2], [id1, id2], accepts) ==
              Ok(SyncState(map[CourseKey(year, c1.code) := CreateDBCourse(c2, year, id1)],
                           [ReportCourseData(id1, c1.code, c1.name)],
                           [ReportCourseData(id1, c2.code, c2.name)]))
  {
    var key := CourseKey(year, c1.code);
    var r1, r2 := ReportCourseData(id1, c1.code, c1.name), ReportCourseData(id1, c2.code, c2.name);
    var s1 := SyncState(map[key := CreateDBCourse(c1, year, id1)], [r1], []);
    var s2 := SyncState(map[key := CreateDBCourse(c2, year, id1)], [r1], [r2]);
    InsertIntoEmpty(year, c1, id1, accepts);
    UpdateSingle(key, CreateDBCourse(c1, year, id1), [r1], year, c2, id2, accepts);
    RunTwo(SyncState(map[], [], []), year, c1, c2, id1, id2, accepts, s1, s2);
  }

  /** The first record of a run on an empty store is inserted. */
  lemma InsertIntoEmpty(year: int, c: ParsedCourse, newId: string, accepts: Course -> bool)
    requires accepts(CreateDBCourse(c, year, newId))
    ensures SyncStep(SyncState(map[], [], []), year, c, newId, accepts) ==
            Ok(SyncState(map[CourseKey(year, c.code) := CreateDBCourse(c, year, newId)],
                         [ReportCourseData(newId, c.code, c.name)], []))
  {
    var empty: map<CourseKey, Course> := map[];
    InsertStep(SyncState(empty, [], []), year, c, newId, accepts);
    assert [] + [ReportCourseData(newId, c.code, c.name)] == [ReportCourseData(newId, c.code, c.name)];
  }

  /** A newer record for the only stored key updates it under its id. */
  lemma UpdateSingle(key: CourseKey, t: Course, inserted: seq<ReportCourseData>,
                     year: int, c: ParsedCourse, newId: string, accepts: Course -> bool)
    requires key == CourseKey(year, c.code) && t.lastUpdate < c.lastUpdate
    requires accepts(CreateDBCourse(c, year, t.id))
    ensures SyncStep(SyncState(map[key := t], inserted, []), year, c, newId, accepts) ==
            Ok(SyncState(map[key := CreateDBCourse(c, year, t.id)], inserted, [ReportCourseData(t.id, c.code, c.name)]))
  {
    var s := SyncState(map[key := t], inserted, []);
    UpdateStep(s, year, c, newId, accepts);
    assert s.rows[key := CreateDBCourse(c, year, t.id)] == map[key := CreateDBCourse(c, year, t.id)];
    assert [] + [ReportCourseData(t.id, c.code, c.name)] == [ReportCourseData(t.id, c.code, c.name)];
  }

  /** A run over two records whose steps both succeed ends in the second
      step's state. */
  lemma RunTwo(s: SyncState, year: int, a: ParsedCourse, b: ParsedCourse, ia: string, ib: string, accepts: Course -> bool,
               s1: SyncState, s2: SyncState)
    requires SyncStep(s, year, a, ia, accepts) == Ok(s1)
    requires SyncStep(s1, year, b, ib, accepts) == Ok(s2)
    ensures SyncRun(s, year, [a, b], [ia, ib], accepts) == Ok(s2)
  {
    SyncRunCons(s, year, [a, b], [ia, ib], accepts, s1);
    assert [a, b][1..] == [b] && [ia, ib][1..] == [ib];
    SyncRunCons(s1, year, [b], [ib], accepts, s2);
  }

  // ---------------------------------------------------------------------
  // The use case on the repository

  /** The `courses` table, keyed by its unique `(year, code)` index. */
  class CourseRepository {
    var rows: map<CourseKey, Course>

    ghost predicate Valid()
      reads this
    {
      WellKeyed(rows)
    }

    constructor (initial: map<CourseKey, Course>)
      requires WellKeyed(initial)
      ensures Valid() && rows == initial
    {
      rows := initial;
    }

    /** The reconciliation loop inside one transaction: it works on a copy
        of the table and commits the copy only when every save succeeded;
        `newIds[i]` is the uuid generated should record `i` be new. */
    method UpdateCourseDatabaseUseCase(year: int, courses: seq<ParsedCourse>, newIds: seq<string>, accepts: Course -> bool)
      returns (r: Result<UpdateResult>)
      requires Valid() && |newIds| == |courses|
      modifies this
      ensures Valid()
      ensures var run := SyncRun(SyncState(old(rows), [], []), year, courses, newIds, accepts);
        if run.Ok? then r == Ok(UpdateResult(run.value.inserted, run.value.updated)) && rows == run.value.rows
        else r == Err(StorageFailure) && rows == old(rows)
      ensures r.Ok? ==> forall k :: k in old(rows) && k !in KeysOf(year, courses) ==> k in rows && rows[k] == old(rows)[k]
    {
      ghost var start := SyncState(rows, [], []);
      var work := rows;
      var inserted: seq<ReportCourseData> := [];
      var updated: seq<ReportCourseData> := [];
      var i := 0;
      while i < |courses|
        invariant 0 <= i <= |courses|
        invariant rows == start.rows
        invariant SyncRun(start, year, courses, newIds, accepts) ==
                  SyncRun(SyncState(work, inserted, updated), year, courses[i..], newIds[i..], accepts)
      {
        var c := courses[i];
        var key := CourseKey(year, c.code);
        var isNew := key !in work;
        assert courses[i..][0] == c && courses[i..][1..] == courses[i + 1..];
        assert newIds[i..][0] == newIds[i] && newIds[i..][1..] == newIds[i + 1..];
        var target: Course;
        if isNew {
          target := CreateDBCourse(c, year, newIds[i]);
        } else if work[key].lastUpdate >= c.lastUpdate {
          i := i + 1;
          continue;
        } else {
          target := CreateDBCourse(c, year, work[key].id);
        }
        if !accepts(target) {
          return Err(StorageFailure);
        }
        work := work[key := target];
        if isNew {
          inserted := inserted + [ReportOf(target)];
        } else {
          updated := updated + [ReportOf(target)];
        }
        i := i + 1;
      }
      SyncRunKeys(start, year, courses, newIds, accepts);
      SyncRunFrame(start, year, courses, newIds, accepts);
      rows := work;
      r := Ok(UpdateResult(inserted, updated));
    }
  }
}
