/** String helpers standing for the JavaScript and PostgreSQL string
    operations the service relies on. Strings are sequences of characters. */
module Text {

  /** Case folding as PostgreSQL's case-insensitive operators apply it,
      reduced to the ASCII letters: 'A'..'Z' fold to 'a'..'z'. */
  function Fold(c: char): (r: char)
    ensures 'A' <= c <= 'Z' ==> 'a' <= r <= 'z' && r as int == c as int + 32
    ensures !('A' <= c <= 'Z') ==> r == c
  {
    if 'A' <= c <= 'Z' then (c as int + 32) as char else c
  }

  function FoldStr(s: string): (r: string)
    ensures |r| == |s|
    ensures forall i :: 0 <= i < |s| ==> r[i] == Fold(s[i])
  {
    seq(|s|, i requires 0 <= i < |s| => Fold(s[i]))
  }

  /** `s.startsWith(p)`. */
  predicate IsPrefix(p: string, s: string) {
    |p| <= |s| && s[..|p|] == p
  }

  /** `s.includes(t)`: some occurrence of `t` starts at a position of `s`. */
  predicate Includes(s: string, t: string)
    decreases |s|
  {
    IsPrefix(t, s) || (|s| > 0 && Includes(s[1..], t))
  }

  /** `t` occurs in `s` starting at index `i`. */
  predicate OccursAt(s: string, t: string, i: int) {
    0 <= i && i + |t| <= |s| && s[i..i + |t|] == t
  }

  /** `Includes` finds `t` exactly when `t` occurs at some index. */
  lemma {:induction false} IncludesIff(s: string, t: string)
    ensures Includes(s, t) <==> exists i :: OccursAt(s, t, i)
    decreases |s|
  {
    if IsPrefix(t, s) {
      assert OccursAt(s, t, 0);
    } else if |s| == 0 {
      assert forall i :: !OccursAt(s, t, i);
    } else {
      IncludesIff(s[1..], t);
      if exists i :: OccursAt(s, t, i) {
        var i :| OccursAt(s, t, i);
        assert i != 0;
        assert OccursAt(s[1..], t, i - 1);
      }
      if exists i :: OccursAt(s[1..], t, i) {
        var i :| OccursAt(s[1..], t, i);
        assert OccursAt(s, t, i + 1);
      }
    }
  }

  function Digit(d: nat): (c: char)
    requires d < 10
    ensures '0' <= c <= '9'
  {
    "0123456789"[d]
  }

  /** Decimal rendering of a natural number, as JavaScript prints it. */
  function NatToString(n: nat): (r: string)
    ensures |r| > 0
    ensures forall i :: 0 <= i < |r| ==> '0' <= r[i] <= '9'
  {
    if n < 10 then [Digit(n)] else NatToString(n / 10) + [Digit(n % 10)]
  }

  /** Decimal rendering of an integer (template-literal interpolation). */
  function IntToString(n: int): (r: string)
    ensures |r| > 0
    ensures forall i :: 0 <= i < |r| ==> r[i] == '-' || '0' <= r[i] <= '9'
  {
    if n < 0 then "-" + NatToString(-n) else NatToString(n)
  }

  /** `xs.join(sep)`. */
  function Join(xs: seq<string>, sep: string): string
    decreases |xs|
  {
    if |xs| == 0 then ""
    else if |xs| == 1 then xs[0]
    else xs[0] + sep + Join(xs[1..], sep)
  }

  /** `s.split(sep)` for a one-character separator. */
  function Split(s: string, sep: char): (r: seq<string>)
    ensures |r| > 0
    decreases |s|
  {
    if |s| == 0 then [""]
    else if s[0] == sep then [""] + Split(s[1..], sep)
    else
      var rest := Split(s[1..], sep);
      [[s[0]] + rest[0]] + rest[1..]
  }

  lemma {:induction false} SplitNoSeparator(x: string, sep: char)
    requires sep !in x
    ensures Split(x, sep) == [x]
    decreases |x|
  {
    if |x| > 0 {
      SplitNoSeparator(x[1..], sep);
      assert [x[0]] + x[1..] == x;
    }
  }

  lemma {:induction false} SplitAtSeparator(x: string, sep: char, rest: string)
    requires sep !in x
    ensures Split(x + [sep] + rest, sep) == [x] + Split(rest, sep)
    decreases |x|
  {
    var s := x + [sep] + rest;
    if |x| == 0 {
      assert s[0] == sep && s[1..] == rest;
    } else {
      assert s[0] == x[0] && s[1..] == x[1..] + [sep] + rest;
      SplitAtSeparator(x[1..], sep, rest);
      assert [x[0]] + x[1..] == x;
    }
  }

  /** Splitting a joined list gives the list back when no element contains
      the separator (a caller reading `ids.split(',')` recovers the ids). */
  lemma {:induction false} SplitJoin(xs: seq<string>, sep: char)
    requires |xs| > 0
    requires forall i :: 0 <= i < |xs| ==> sep !in xs[i]
    ensures Split(Join(xs, [sep]), sep) == xs
    decreases |xs|
  {
    if |xs| == 1 {
      SplitNoSeparator(xs[0], sep);
    } else {
      SplitJoin(xs[1..], sep);
      SplitAtSeparator(xs[0], sep, Join(xs[1..], [sep]));
      assert xs[0] + [sep] + Join(xs[1..], [sep]) == Join(xs, [sep]);
      assert [xs[0]] + xs[1..] == xs;
    }
  }
}
