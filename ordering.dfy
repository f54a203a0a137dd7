/** The order the storage layer returns search results in,
    `ORDER BY year ASC, code ASC`, and the `skip`/`take` window applied
    after it. */
module Ordering {
  import opened Entities

  /** Lexicographic order on character codes. */
  predicate CodeLeq(a: string, b: string)
    decreases |a|
  {
    if |a| == 0 then true
    else if |b| == 0 then false
    else if a[0] != b[0] then a[0] < b[0]
    else CodeLeq(a[1..], b[1..])
  }

  lemma {:induction false} CodeLeqTotal(a: string, b: string)
    ensures CodeLeq(a, b) || CodeLeq(b, a)
    decreases |a|
  {
    if |a| > 0 && |b| > 0 && a[0] == b[0] {
      CodeLeqTotal(a[1..], b[1..]);
    }
  }

  lemma {:induction false} CodeLeqTransitive(a: string, b: string, c: string)
    requires CodeLeq(a, b) && CodeLeq(b, c)
    ensures CodeLeq(a, c)
    decreases |a|
  {
    if |a| > 0 && |b| > 0 && |c| > 0 && a[0] == b[0] && b[0] == c[0] {
      CodeLeqTransitive(a[1..], b[1..], c[1..]);
    }
  }

  lemma {:induction false} CodeLeqAntisymmetric(a: string, b: string)
    requires CodeLeq(a, b) && CodeLeq(b, a)
    ensures a == b
    decreases |a|
  {
    if |a| > 0 && |b| > 0 {
      CodeLeqAntisymmetric(a[1..], b[1..]);
      assert a == [a[0]] + a[1..] && b == [b[0]] + b[1..];
    }
  }

  /** `(year, code)` ascending. */
  predicate CourseLeq(a: Course, b: Course) {
    a.year < b.year || (a.year == b.year && CodeLeq(a.code, b.code))
  }

  lemma CourseLeqTotal(a: Course, b: Course)
    ensures CourseLeq(a, b) || CourseLeq(b, a)
  {
    CodeLeqTotal(a.code, b.code);
  }

  lemma CourseLeqTransitive(a: Course, b: Course, c: Course)
    requires CourseLeq(a, b) && CourseLeq(b, c)
    ensures CourseLeq(a, c)
  {
    if a.year == b.year == c.year {
      CodeLeqTransitive(a.code, b.code, c.code);
    }
  }

  /** Two courses that are each at most the other share their natural key. */
  lemma CourseLeqAntisymmetric(a: Course, b: Course)
    requires CourseLeq(a, b) && CourseLeq(b, a)
    ensures KeyOf(a) == KeyOf(b)
  {
    CodeLeqAntisymmetric(a.code, b.code);
  }

  predicate Sorted(s: seq<Course>) {
    forall i, j :: 0 <= i < j < |s| ==> CourseLeq(s[i], s[j])
  }

  /** A course at most every element of a sorted sequence may head it. */
  lemma SortedCons(x: Course, s: seq<Course>)
    requires Sorted(s)
    requires forall y :: y in multiset(s) ==> CourseLeq(x, y)
    ensures Sorted([x] + s)
  {
    var r := [x] + s;
    forall i, j | 0 <= i < j < |r| ensures CourseLeq(r[i], r[j]) {
      assert r[j] == s[j - 1] && s[j - 1] in multiset(s);
      if i > 0 { assert r[i] == s[i - 1]; }
    }
  }

  lemma LeqAllOfSorted(x: Course, s: seq<Course>)
    requires Sorted(s) && |s| > 0 && CourseLeq(x, s[0])
    ensures forall y :: y in multiset(s) ==> CourseLeq(x, y)
  {
    forall y | y in multiset(s) ensures CourseLeq(x, y) {
      var j :| 0 <= j < |s| && s[j] == y;
      if j > 0 { CourseLeqTransitive(x, s[0], s[j]); }
    }
  }

  function Insert(x: Course, s: seq<Course>): (r: seq<Course>)
    requires Sorted(s)
    ensures Sorted(r)
    ensures multiset(r) == multiset(s) + multiset{x}
    decreases |s|
  {
    if |s| == 0 then [x]
    else if CourseLeq(x, s[0]) then
      LeqAllOfSorted(x, s);
      SortedCons(x, s);
      [x] + s
    else
      var rest := Insert(x, s[1..]);
      InsertBelow(x, s, rest);
      [s[0]] + rest
  }

  /** The step of `Insert` that keeps the head of `s` in front. */
  lemma InsertBelow(x: Course, s: seq<Course>, rest: seq<Course>)
    requires Sorted(s) && |s| > 0 && !CourseLeq(x, s[0])
    requires Sorted(rest) && multiset(rest) == multiset(s[1..]) + multiset{x}
    ensures Sorted([s[0]] + rest)
    ensures multiset([s[0]] + rest) == multiset(s) + multiset{x}
  {
    CourseLeqTotal(x, s[0]);
    assert s == [s[0]] + s[1..];
    forall y | y in multiset(rest) ensures CourseLeq(s[0], y) {
      if y != x {
        assert y in multiset(s[1..]);
        var j :| 0 <= j < |s[1..]| && s[1..][j] == y;
        assert s[j + 1] == y;
      }
    }
    SortedCons(s[0], rest);
  }

  /** The result order of `ORDER BY year ASC, code ASC`. */
  function SortCourses(s: seq<Course>): (r: seq<Course>)
    ensures Sorted(r)
    ensures multiset(r) == multiset(s)
    decreases |s|
  {
    if |s| == 0 then []
    else
      assert s == [s[0]] + s[1..];
      Insert(s[0], SortCourses(s[1..]))
  }

  /** `skip: offset, take: limit`. */
  function Page(s: seq<Course>, offset: nat, limit: nat): (r: seq<Course>)
    ensures |r| <= limit
    ensures offset >= |s| ==> r == []
    ensures offset < |s| ==> |r| == if |s| - offset < limit then |s| - offset else limit
    ensures forall i :: 0 <= i < |r| ==> r[i] == s[offset + i]
  {
    if offset >= |s| then []
    else if |s| - offset < limit then s[offset..]
    else s[offset..offset + limit]
  }

  lemma PageOfSorted(s: seq<Course>, offset: nat, limit: nat)
    requires Sorted(s)
    ensures Sorted(Page(s, offset, limit))
  {
    var r := Page(s, offset, limit);
    forall i, j | 0 <= i < j < |r| ensures CourseLeq(r[i], r[j]) {
      assert r[i] == s[offset + i] && r[j] == s[offset + j];
    }
  }
}
