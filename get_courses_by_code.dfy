/** `getCoursesByCodeUseCase`: looking up courses by `(year, code)` pairs.
    A request repeating a pair is refused before the store is read; a
    lookup that finds fewer courses than were asked for is refused with the
    list of pairs it missed, unless the caller suppresses that error. */
module GetCoursesByCode {
  import opened Results
  import opened Collections
  import opened Text
  import opened Entities

  const DuplicateMessage := "指定された引数に重複したidが含まれています。"

  /** The key the duplicate check compares: the year's decimal digits
      immediately followed by the code, with no separator. */
  function DupKey(k: CourseKey): string {
    IntToString(k.year) + k.code
  }

  /** `props.length !== new Set(props.map(...)).size`. */
  predicate RepeatsKey(props: seq<CourseKey>) {
    |props| != |Elements(MapSeq(props, DupKey))|
  }

  /** The rows `find({ where: props })` returns: every stored course whose
      pair was requested, in the order of the store. */
  function FindByPairs(store: seq<Course>, props: seq<CourseKey>): (r: seq<Course>)
    ensures forall i :: 0 <= i < |r| ==> r[i] in store && KeyOf(r[i]) in props
    ensures forall c :: c in store && KeyOf(c) in props ==> c in r
  {
    Filter(store, (c: Course) => KeyOf(c) in props)
  }

  /** Some returned row has the pair `k`. */
  predicate FoundPair(res: seq<Course>, k: CourseKey) {
    exists i :: 0 <= i < |res| && res[i].year == k.year && res[i].code == k.code
  }

  /** The requested pairs no returned row has, in request order. */
  function MissingPairs(props: seq<CourseKey>, res: seq<Course>): (r: seq<CourseKey>)
    ensures forall k :: k in r <==> k in props && !FoundPair(res, k)
    ensures |r| <= |props|
  {
    Filter(props, (k: CourseKey) => !FoundPair(res, k))
  }

  /** How a missing pair is reported: `year:code`. */
  function PairLabel(k: CourseKey): string {
    IntToString(k.year) + ":" + k.code
  }

  /** The use case: `InvalidArgument` on a repeated key, `NotFound` listing
      the missing pairs when some are missing and the error is not
      suppressed, the found rows otherwise. */
  function GetCoursesByCode(store: seq<Course>, props: seq<CourseKey>, suppressNotFoundError: bool): (r: Result<seq<Course>>)
    ensures r.Err? && r.error.InvalidArgument? <==> !NoDuplicates(MapSeq(props, DupKey))
    ensures r.Err? ==> r.error.InvalidArgument? || r.error.NotFound?
    ensures r.Err? && r.error.NotFound? <==>
              NoDuplicates(MapSeq(props, DupKey)) && !suppressNotFoundError && |FindByPairs(store, props)| != |props|
    ensures r.Err? && r.error.NotFound? ==>
              r.error.missing == MapSeq(MissingPairs(props, FindByPairs(store, props)), PairLabel)
    ensures r.Ok? ==> r.value == FindByPairs(store, props)
  {
    DistinctIffSizesAgree(MapSeq(props, DupKey));
    if RepeatsKey(props) then Err(InvalidArgument(DuplicateMessage))
    else
      var res := FindByPairs(store, props);
      if |res| != |props| && !suppressNotFoundError then
        Err(NotFound(MapSeq(MissingPairs(props, res), PairLabel)))
      else Ok(res)
  }

  /** Every returned course is stored and has a requested pair. */
  lemma ReturnsRequested(store: seq<Course>, props: seq<CourseKey>, suppressNotFoundError: bool)
    ensures var r := GetCoursesByCode(store, props, suppressNotFoundError);
      r.Ok? ==> forall c :: c in r.value ==> c in store && KeyOf(c) in props
  {
    var r := GetCoursesByCode(store, props, suppressNotFoundError);
    if r.Ok? {
      forall c | c in r.value ensures c in store && KeyOf(c) in props {
        var i :| 0 <= i < |r.value| && r.value[i] == c;
      }
    }
  }

  /** Suppressing the error never yields `NotFound`: the call succeeds
      unless a key is repeated. */
  lemma SuppressedNeverNotFound(store: seq<Course>, props: seq<CourseKey>)
    ensures var r := GetCoursesByCode(store, props, true);
      r.Ok? <==> NoDuplicates(MapSeq(props, DupKey))
  {
  }

  /** Distinct keys mean distinct pairs. */
  lemma {:induction false} DistinctKeysDistinctPairs(props: seq<CourseKey>)
    requires NoDuplicates(MapSeq(props, DupKey))
    ensures NoDuplicates(props)
  {
    forall i, j | 0 <= i < j < |props| ensures props[i] != props[j] {
      assert MapSeq(props, DupKey)[i] != MapSeq(props, DupKey)[j];
    }
  }

  /** Against a store whose `(year, code)` index is unique, a request with
      no repeated key fails with `NotFound` exactly when some requested pair
      is not stored and the error is not suppressed; otherwise every pair
      yields exactly one course. */
  lemma NotFoundIffSomeMissing(store: seq<Course>, props: seq<CourseKey>, suppressNotFoundError: bool)
    requires WellFormedStore(store)
    requires NoDuplicates(MapSeq(props, DupKey))
    ensures var r := GetCoursesByCode(store, props, suppressNotFoundError);
      (r.Err? <==> !suppressNotFoundError && exists k :: k in props && forall c :: c in store ==> KeyOf(c) != k) &&
      (r.Ok? && (forall k :: k in props ==> exists c :: c in store && KeyOf(c) == k) ==> |r.value| == |props|)
  {
    DistinctKeysDistinctPairs(props);
    LookupLength(store, KeyOf, (c: Course) => KeyOf(c) in props, props);
  }

  /** `text` is the label of a requested pair no returned row has. */
  predicate LabelsMissingPair(props: seq<CourseKey>, found: seq<Course>, text: string) {
    exists k :: k in props && !FoundPair(found, k) && text == PairLabel(k)
  }

  /** The reported pairs are exactly the requested pairs no returned row
      has, in request order. */
  lemma NotFoundListsMissing(store: seq<Course>, props: seq<CourseKey>, suppressNotFoundError: bool)
    ensures var r := GetCoursesByCode(store, props, suppressNotFoundError);
      r.Err? && r.error.NotFound? ==>
        var found := FindByPairs(store, props);
        |r.error.missing| <= |props| &&
        (forall k :: k in props && !FoundPair(found, k) ==> PairLabel(k) in r.error.missing) &&
        (forall i :: 0 <= i < |r.error.missing| ==> LabelsMissingPair(props, found, r.error.missing[i]))
  {
    var r := GetCoursesByCode(store, props, suppressNotFoundError);
    if r.Err? && r.error.NotFound? {
      var found := FindByPairs(store, props);
      var miss := MissingPairs(props, found);
      var labels := MapSeq(miss, PairLabel);
      assert r.error.missing == labels;
      LabelsOfMissing(props, found, miss, labels);
    }
  }

  /** Labelling the missing pairs one by one labels exactly them. */
  lemma LabelsOfMissing(props: seq<CourseKey>, found: seq<Course>, miss: seq<CourseKey>, labels: seq<string>)
    requires forall k :: k in miss <==> k in props && !FoundPair(found, k)
    requires |labels| == |miss|
    requires forall i :: 0 <= i < |miss| ==> labels[i] == PairLabel(miss[i])
    ensures forall k :: k in props && !FoundPair(found, k) ==> PairLabel(k) in labels
    ensures forall i :: 0 <= i < |labels| ==> LabelsMissingPair(props, found, labels[i])
  {
    forall k | k in props && !FoundPair(found, k) ensures PairLabel(k) in labels {
      var i :| 0 <= i < |miss| && miss[i] == k;
      assert labels[i] == PairLabel(k);
    }
    forall i | 0 <= i < |labels| ensures LabelsMissingPair(props, found, labels[i]) {
      var k := miss[i];
      assert k in miss;
      assert k in props && !FoundPair(found, k);
      assert labels[i] == PairLabel(k);
    }
  }

  /** Appending a digit to the year and removing it from the front of the
      code leaves the duplicate key unchanged. */
  lemma {:induction false} DupKeyShiftDigit(y: nat, d: nat, code: string)
    requires 1 <= y && d < 10
    ensures DupKey(CourseKey(10 * y + d, code)) == DupKey(CourseKey(y, [Digit(d)] + code))
  {
    var n := 10 * y + d;
    assert n / 10 == y && n % 10 == d;
    assert NatToString(n) == NatToString(y) + [Digit(d)];
  }

  /** Two different pairs whose keys coincide are refused as duplicates:
      `(20201, "A")` and `(2020, "1A")` both give `20201A`. */
  lemma CollidingPairsRefused(store: seq<Course>, suppressNotFoundError: bool)
    ensures CourseKey(20201, "A") != CourseKey(2020, "1A")
    ensures GetCoursesByCode(store, [CourseKey(20201, "A"), CourseKey(2020, "1A")], suppressNotFoundError) ==
            Err(InvalidArgument(DuplicateMessage))
  {
    DupKeyShiftDigit(2020, 1, "A");
    var props := [CourseKey(20201, "A"), CourseKey(2020, "1A")];
    assert MapSeq(props, DupKey)[0] == MapSeq(props, DupKey)[1];
  }
}
