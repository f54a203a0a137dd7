/** The regular expressions the search builds for PostgreSQL's
    case-insensitive match operator `~*`: a keyword pattern of positive
    lookaheads and a code pattern of prefix alternatives. Their meaning is
    given by decoding the generated text back into the literal search terms
    it stands for. */
module SearchPatterns {
  import opened Results
  import opened Text
  import opened Collections

  /** The characters `escapeRegex` protects: - / \ ^ $ * + ? . ( ) | [ ] { } */
  predicate IsSpecial(c: char) {
    || c == '-' || c == '/' || c == '\\' || c == '^' || c == '$' || c == '*'
    || c == '+' || c == '?' || c == '.' || c == '(' || c == ')' || c == '|'
    || c == '[' || c == ']' || c == '{' || c == '}'
  }

  /** A pattern made only of literal tokens: a character that is not
      special, or a backslash followed by a special character. */
  predicate IsLiteralPattern(p: string)
    decreases |p|
  {
    if |p| == 0 then true
    else if p[0] == '\\' then |p| >= 2 && IsSpecial(p[1]) && IsLiteralPattern(p[2..])
    else !IsSpecial(p[0]) && IsLiteralPattern(p[1..])
  }

  /** The text a literal pattern stands for: each escape `\c` is `c`. */
  function Unescape(p: string): string
    decreases |p|
  {
    if |p| == 0 then ""
    else if p[0] == '\\' && |p| >= 2 then [p[1]] + Unescape(p[2..])
    else [p[0]] + Unescape(p[1..])
  }

  /** `escapeRegex`: a backslash before each special character, every other
      character unchanged. The result is a literal pattern for `s`. */
  function EscapeRegex(s: string): (r: string)
    ensures IsLiteralPattern(r)
    ensures Unescape(r) == s
    decreases |s|
  {
    if |s| == 0 then ""
    else
      var rest := EscapeRegex(s[1..]);
      var r := (if IsSpecial(s[0]) then ['\\', s[0]] else [s[0]]) + rest;
      assert r[1..] == rest || r[2..] == rest;
      assert s == [s[0]] + s[1..];
      r
  }

  /** A text has at most one literal pattern: a special character must be
      escaped and any other character must not be. */
  lemma {:induction false} LiteralPatternUnique(p: string, q: string)
    requires IsLiteralPattern(p) && IsLiteralPattern(q)
    requires Unescape(p) == Unescape(q)
    ensures p == q
    decreases |p|
  {
    if |p| == 0 || |q| == 0 {
      UnescapeEmpty(p);
      UnescapeEmpty(q);
    } else if p[0] == '\\' && q[0] == '\\' {
      assert p[1] == Unescape(p)[0] == Unescape(q)[0] == q[1];
      assert Unescape(p[2..]) == Unescape(p)[1..] == Unescape(q)[1..] == Unescape(q[2..]);
      assert IsLiteralPattern(p[2..]) && IsLiteralPattern(q[2..]);
      LiteralPatternUnique(p[2..], q[2..]);
      assert p == p[..2] + p[2..] && q == q[..2] + q[2..];
    } else if p[0] != '\\' && q[0] != '\\' {
      assert p[0] == Unescape(p)[0] == Unescape(q)[0] == q[0];
      assert Unescape(p[1..]) == Unescape(p)[1..] == Unescape(q)[1..] == Unescape(q[1..]);
      assert IsLiteralPattern(p[1..]) && IsLiteralPattern(q[1..]);
      LiteralPatternUnique(p[1..], q[1..]);
      assert p == [p[0]] + p[1..] && q == [q[0]] + q[1..];
    } else {
      // One side escapes its first character and the other does not: the
      // escaped one is special, the plain one is not, yet both unescape to
      // the same first character.
      UnescapeHead(p);
      UnescapeHead(q);
      assert false;
    }
  }

  /** The first character a pattern stands for. */
  lemma UnescapeHead(p: string)
    ensures |p| > 0 && p[0] == '\\' && |p| >= 2 ==> |Unescape(p)| > 0 && Unescape(p)[0] == p[1]
    ensures |p| > 0 && p[0] != '\\' ==> |Unescape(p)| > 0 && Unescape(p)[0] == p[0]
  {
  }

  lemma UnescapeEmpty(p: string)
    ensures |Unescape(p)| == 0 <==> |p| == 0
  {
  }

  /** `escapeRegex(s)` is the one literal pattern standing for `s`. */
  lemma EscapeRegexUnique(s: string, p: string)
    requires IsLiteralPattern(p) && Unescape(p) == s
    ensures p == EscapeRegex(s)
  {
    LiteralPatternUnique(p, EscapeRegex(s));
  }

  /** Reads literal tokens up to the first unescaped character of `stops`;
      returns the text read and the remaining pattern from that character. */
  function ReadLiteral(p: string, stops: set<char>): (r: (string, string))
    ensures |r.1| <= |p|
    decreases |p|
  {
    if |p| == 0 then ("", "")
    else if p[0] in stops then ("", p)
    else if p[0] == '\\' && |p| >= 2 then
      var r := ReadLiteral(p[2..], stops);
      ([p[1]] + r.0, r.1)
    else
      var r := ReadLiteral(p[1..], stops);
      ([p[0]] + r.0, r.1)
  }

  lemma ReadEscapeToken(c: char, t: string, p: string, stops: set<char>)
    requires '\\' !in stops
    requires p == ['\\', c] + t
    ensures ReadLiteral(p, stops) == ([c] + ReadLiteral(t, stops).0, ReadLiteral(t, stops).1)
  {
    ConsParts(['\\', c], t);
  }

  lemma ReadPlainToken(c: char, t: string, p: string, stops: set<char>)
    requires c !in stops && c != '\\'
    requires p == [c] + t
    ensures ReadLiteral(p, stops) == ([c] + ReadLiteral(t, stops).0, ReadLiteral(t, stops).1)
  {
    ConsParts([c], t);
  }

  /** The parts of a concatenation. */
  lemma ConsParts(a: string, b: string)
    ensures |a + b| == |a| + |b|
    ensures (a + b)[..|a|] == a && (a + b)[|a|..] == b
    ensures forall i :: 0 <= i < |a| ==> (a + b)[i] == a[i]
  {
  }

  lemma ConcatAssoc(a: string, b: string, c: string)
    ensures (a + b) + c == a + (b + c)
  {
  }

  /** An escaped term is read back whole, up to the delimiter after it. */
  lemma {:induction false} ReadEscaped(s: string, q: string, stops: set<char>)
    requires forall c :: c in stops ==> IsSpecial(c)
    requires '\\' !in stops
    requires |q| == 0 || q[0] in stops
    ensures ReadLiteral(EscapeRegex(s) + q, stops) == (s, q)
    decreases |s|
  {
    if |s| == 0 {
      assert EscapeRegex(s) + q == q;
    } else {
      ReadEscaped(s[1..], q, stops);
      ReadEscapedCons(s, q, stops);
    }
  }

  /** One more escaped character in front is read as that character. */
  lemma ReadEscapedCons(s: string, q: string, stops: set<char>)
    requires |s| > 0
    requires forall c :: c in stops ==> IsSpecial(c)
    requires '\\' !in stops
    requires ReadLiteral(EscapeRegex(s[1..]) + q, stops) == (s[1..], q)
    ensures ReadLiteral(EscapeRegex(s) + q, stops) == (s, q)
  {
    EscapeCons(s);
    assert [s[0]] + s[1..] == s;
    ReadToken(s[0], EscapeRegex(s[1..]), EscapeRegex(s), s[1..], q, stops);
  }

  /** Reading the escaped form `e` of `c` followed by `e1`, where `e1 + q`
      reads as `s1`, gives `c` followed by `s1`. */
  lemma ReadToken(c: char, e1: string, e: string, s1: string, q: string, stops: set<char>)
    requires forall x :: x in stops ==> IsSpecial(x)
    requires '\\' !in stops
    requires e == (if IsSpecial(c) then ['\\', c] else [c]) + e1
    requires ReadLiteral(e1 + q, stops) == (s1, q)
    ensures ReadLiteral(e + q, stops) == ([c] + s1, q)
  {
    if IsSpecial(c) {
      ReadSpecial(c, e1, e, s1, q, stops);
    } else {
      NotStop(c, stops);
      ReadOrdinary(c, e1, e, s1, q, stops);
    }
  }

  lemma ReadSpecial(c: char, e1: string, e: string, s1: string, q: string, stops: set<char>)
    requires '\\' !in stops
    requires e == ['\\', c] + e1
    requires ReadLiteral(e1 + q, stops) == (s1, q)
    ensures ReadLiteral(e + q, stops) == ([c] + s1, q)
  {
    ConcatAssoc(['\\', c], e1, q);
    ReadEscapeToken(c, e1 + q, e + q, stops);
  }

  lemma ReadOrdinary(c: char, e1: string, e: string, s1: string, q: string, stops: set<char>)
    requires c !in stops && c != '\\'
    requires e == [c] + e1
    requires ReadLiteral(e1 + q, stops) == (s1, q)
    ensures ReadLiteral(e + q, stops) == ([c] + s1, q)
  {
    ConcatAssoc([c], e1, q);
    ReadPlainToken(c, e1 + q, e + q, stops);
  }

  lemma NotStop(c: char, stops: set<char>)
    requires forall x :: x in stops ==> IsSpecial(x)
    requires !IsSpecial(c)
    ensures c !in stops && c != '\\'
  {
  }

  lemma EscapeCons(s: string)
    requires |s| > 0
    ensures EscapeRegex(s) == (if IsSpecial(s[0]) then ['\\', s[0]] else [s[0]]) + EscapeRegex(s[1..])
  {
  }

  // ---------------------------------------------------------------------
  // searchNameRegexp

  const LookaheadOpen: string := "(?=.*"

  function Lookaheads(keywords: seq<string>): string
    decreases |keywords|
  {
    if |keywords| == 0 then ""
    else LookaheadOpen + EscapeRegex(keywords[0]) + ")" + Lookaheads(keywords[1..])
  }

  /** `searchNameRegexp`: `^` and one `(?=.*k)` per escaped keyword, in order. */
  function SearchNameRegexp(keywords: seq<string>): string {
    "^" + Lookaheads(keywords)
  }

  function DecodeLookaheads(p: string): Option<seq<string>>
    decreases |p|
  {
    if |p| == 0 then Some([])
    else if IsPrefix(LookaheadOpen, p) then
      var read := ReadLiteral(p[|LookaheadOpen|..], {')'});
      if |read.1| > 0 && read.1[0] == ')' then
        var more := DecodeLookaheads(read.1[1..]);
        if more.Some? then Some([read.0] + more.value) else None
      else None
    else None
  }

  /** The keywords a pattern `^(?=.*k1)(?=.*k2)...` requires, or `None` for
      a pattern outside that shape. */
  function DecodeNamePattern(p: string): Option<seq<string>> {
    if |p| > 0 && p[0] == '^' then DecodeLookaheads(p[1..]) else None
  }

  lemma DecodeOneLookahead(k: string, t: string)
    ensures DecodeLookaheads(t).Some? ==>
              DecodeLookaheads(LookaheadOpen + EscapeRegex(k) + ")" + t) == Some([k] + DecodeLookaheads(t).value)
  {
    var body := EscapeRegex(k) + (")" + t);
    ReadEscaped(k, ")" + t, {')'});
    assert LookaheadOpen + EscapeRegex(k) + ")" + t == LookaheadOpen + body;
    LookaheadStep(LookaheadOpen + body, body, k, t);
  }

  /** A lookahead whose body reads as `k` up to its closing parenthesis. */
  lemma LookaheadStep(p: string, body: string, k: string, t: string)
    requires p == LookaheadOpen + body
    requires ReadLiteral(body, {')'}) == (k, ")" + t)
    ensures DecodeLookaheads(t).Some? ==> DecodeLookaheads(p) == Some([k] + DecodeLookaheads(t).value)
  {
    assert p[..|LookaheadOpen|] == LookaheadOpen;
    assert p[|LookaheadOpen|..] == body;
    assert (")" + t)[1..] == t;
  }

  lemma {:induction false} DecodeLookaheadsInverse(keywords: seq<string>)
    ensures DecodeLookaheads(Lookaheads(keywords)) == Some(keywords)
    decreases |keywords|
  {
    if |keywords| > 0 {
      var t := Lookaheads(keywords[1..]);
      DecodeLookaheadsInverse(keywords[1..]);
      DecodeOneLookahead(keywords[0], t);
      LookaheadsStep(keywords, t, DecodeLookaheads(LookaheadOpen + EscapeRegex(keywords[0]) + ")" + t));
    }
  }

  lemma LookaheadsStep(keywords: seq<string>, t: string, d: Option<seq<string>>)
    requires |keywords| > 0 && t == Lookaheads(keywords[1..])
    requires d == Some([keywords[0]] + keywords[1..])
    requires DecodeLookaheads(LookaheadOpen + EscapeRegex(keywords[0]) + ")" + t) == d
    ensures DecodeLookaheads(Lookaheads(keywords)) == Some(keywords)
  {
    assert [keywords[0]] + keywords[1..] == keywords;
  }

  /** Decoding the generated keyword pattern gives the keywords back. */
  lemma DecodeNamePatternInverse(keywords: seq<string>)
    ensures DecodeNamePattern(SearchNameRegexp(keywords)) == Some(keywords)
  {
    DecodeLookaheadsInverse(keywords);
    assert SearchNameRegexp(keywords)[1..] == Lookaheads(keywords);
  }

  /** `k` occurs in `s` once both are case folded. */
  predicate IncludesIgnoringCase(s: string, k: string) {
    Includes(FoldStr(s), FoldStr(k))
  }

  /** `s` starts with `p` once both are case folded. */
  predicate StartsWithIgnoringCase(s: string, p: string) {
    IsPrefix(FoldStr(p), FoldStr(s))
  }

  /** `name ~* pattern` for a lookahead pattern: every required keyword
      occurs somewhere in the name. */
  predicate NameMatches(name: string, pattern: string) {
    match DecodeNamePattern(pattern)
    case Some(keywords) => forall i :: 0 <= i < |keywords| ==> IncludesIgnoringCase(name, keywords[i])
    case None => false
  }

  /** A name matches the keyword pattern iff it contains every keyword, in
      any order. */
  lemma NameMatchesIff(name: string, keywords: seq<string>)
    ensures NameMatches(name, SearchNameRegexp(keywords)) <==>
              forall i :: 0 <= i < |keywords| ==> IncludesIgnoringCase(name, keywords[i])
  {
    DecodeNamePatternInverse(keywords);
  }

  // ---------------------------------------------------------------------
  // searchCodeRegexp

  /** `searchCodeRegexp`: `^(` escaped codes joined by `|` `)`. */
  function SearchCodeRegexp(codes: seq<string>): string {
    "^(" + Join(MapSeq(codes, EscapeRegex), "|") + ")"
  }

  function DecodeAlternatives(p: string): Option<seq<string>>
    decreases |p|
  {
    var read := ReadLiteral(p, {'|', ')'});
    if read.1 == ")" then Some([read.0])
    else if |read.1| > 0 && read.1[0] == '|' then
      var more := DecodeAlternatives(read.1[1..]);
      if more.Some? then Some([read.0] + more.value) else None
    else None
  }

  /** The prefixes a pattern `^(c1|c2|...)` offers, or `None` for a pattern
      outside that shape. */
  function DecodeCodePattern(p: string): Option<seq<string>> {
    if IsPrefix("^(", p) then DecodeAlternatives(p[2..]) else None
  }

  lemma DecodeOneAlternative(c: string, t: string)
    ensures DecodeAlternatives(t).Some? ==>
              DecodeAlternatives(EscapeRegex(c) + "|" + t) == Some([c] + DecodeAlternatives(t).value)
  {
    var p := EscapeRegex(c) + ("|" + t);
    ReadEscaped(c, "|" + t, {'|', ')'});
    assert EscapeRegex(c) + "|" + t == p;
    AlternativeStep(p, c, t);
  }

  /** An alternative that reads as `c` up to a `|`. */
  lemma AlternativeStep(p: string, c: string, t: string)
    requires ReadLiteral(p, {'|', ')'}) == (c, "|" + t)
    ensures DecodeAlternatives(t).Some? ==> DecodeAlternatives(p) == Some([c] + DecodeAlternatives(t).value)
  {
    assert ("|" + t)[1..] == t;
    assert ("|" + t)[0] == '|' && (")")[0] == ')';
  }

  lemma DecodeLastAlternative(c: string)
    ensures DecodeAlternatives(EscapeRegex(c) + ")") == Some([c])
  {
    ReadEscaped(c, ")", {'|', ')'});
  }

  lemma {:induction false} DecodeAlternativesInverse(codes: seq<string>)
    requires |codes| > 0
    ensures DecodeAlternatives(Join(MapSeq(codes, EscapeRegex), "|") + ")") == Some(codes)
    decreases |codes|
  {
    if |codes| == 1 {
      EscapedJoinSingle(codes);
      DecodeLastAlternative(codes[0]);
    } else {
      var t := Join(MapSeq(codes[1..], EscapeRegex), "|") + ")";
      DecodeAlternativesInverse(codes[1..]);
      DecodeOneAlternative(codes[0], t);
      AlternativesStep(codes, t, DecodeAlternatives(EscapeRegex(codes[0]) + "|" + t));
    }
  }

  lemma EscapedJoinSingle(codes: seq<string>)
    requires |codes| == 1
    ensures codes == [codes[0]]
    ensures Join(MapSeq(codes, EscapeRegex), "|") + ")" == EscapeRegex(codes[0]) + ")"
  {
    assert MapSeq(codes, EscapeRegex)[0] == EscapeRegex(codes[0]);
  }

  lemma AlternativesStep(codes: seq<string>, t: string, d: Option<seq<string>>)
    requires |codes| > 1 && t == Join(MapSeq(codes[1..], EscapeRegex), "|") + ")"
    requires d == Some([codes[0]] + codes[1..])
    requires DecodeAlternatives(EscapeRegex(codes[0]) + "|" + t) == d
    ensures DecodeAlternatives(Join(MapSeq(codes, EscapeRegex), "|") + ")") == Some(codes)
  {
    EscapedJoinCons(codes);
    assert [codes[0]] + codes[1..] == codes;
  }

  lemma EscapedJoinCons(codes: seq<string>)
    requires |codes| > 1
    ensures Join(MapSeq(codes, EscapeRegex), "|") + ")" ==
            EscapeRegex(codes[0]) + "|" + (Join(MapSeq(codes[1..], EscapeRegex), "|") + ")")
  {
    var escaped := MapSeq(codes, EscapeRegex);
    assert MapSeq(codes[1..], EscapeRegex) == escaped[1..];
    assert Join(escaped, "|") == escaped[0] + "|" + Join(escaped[1..], "|");
  }

  /** Decoding the generated code pattern gives the codes back; with no
      codes the pattern `^()` offers the single empty prefix. */
  lemma DecodeCodePatternInverse(codes: seq<string>)
    ensures |codes| > 0 ==> DecodeCodePattern(SearchCodeRegexp(codes)) == Some(codes)
    ensures |codes| == 0 ==> DecodeCodePattern(SearchCodeRegexp(codes)) == Some([""])
  {
    CodePatternShape(codes);
    if |codes| > 0 {
      DecodeAlternativesInverse(codes);
    } else {
      assert Join(MapSeq(codes, EscapeRegex), "|") + ")" == ")";
      DecodeLastAlternative("");
    }
  }

  lemma CodePatternShape(codes: seq<string>)
    ensures IsPrefix("^(", SearchCodeRegexp(codes))
    ensures SearchCodeRegexp(codes)[2..] == Join(MapSeq(codes, EscapeRegex), "|") + ")"
  {
    var body := Join(MapSeq(codes, EscapeRegex), "|");
    ConcatAssoc("^(", body, ")");
    ConsParts("^(", body + ")");
  }

  /** `code ~* pattern` for an alternatives pattern: the code starts with
      one of the offered prefixes. */
  predicate CodeMatches(code: string, pattern: string) {
    match DecodeCodePattern(pattern)
    case Some(prefixes) => exists i :: 0 <= i < |prefixes| && StartsWithIgnoringCase(code, prefixes[i])
    case None => false
  }

  /** A code matches the code pattern iff it starts with at least one of the
      given codes. */
  lemma CodeMatchesIff(code: string, codes: seq<string>)
    requires |codes| > 0
    ensures CodeMatches(code, SearchCodeRegexp(codes)) <==>
              exists i :: 0 <= i < |codes| && StartsWithIgnoringCase(code, codes[i])
  {
    DecodeCodePatternInverse(codes);
  }
}
