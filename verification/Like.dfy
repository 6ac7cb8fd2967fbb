/** Partial text matching: the pattern the filter writes, SQLite's LIKE on it, the regular expression the per-record
    test builds from it, and what all three mean for the term the user typed. */
module Like {

  /** ASCII-only case folding. */
  function Fold(c: char): char {
    if 'A' <= c <= 'Z' then c - 'A' + 'a' else c
  }

  function Lower(s: string): (r: string)
    ensures |r| == |s|
  {
    seq(|s|, i requires 0 <= i < |s| => Fold(s[i]))
  }

  function Replace(s: string, c: char, sub: string): string {
    if s == "" then "" else (if s[0] == c then sub else [s[0]]) + Replace(s[1..], c, sub)
  }

  /** The term with the pattern characters escaped; '*' anchors and stands for any run, otherwise anywhere. */
  function LikePattern(term: string): string {
    var escaped := Replace(Replace(Replace(term, '\\', "\\\\"), '%', "\\%"), '_', "\\_");
    if '*' in term then Replace(escaped, '*', "%") else "%" + escaped + "%"
  }

  /** SQLite: value LIKE pattern ESCAPE '\'. */
  predicate SqlLike(p: string, v: string)
    decreases |p| + |v|
  {
    if p == "" then v == ""
    else if p[0] == '%' then SqlLike(p[1..], v) || (v != "" && SqlLike(p, v[1..]))
    else if p[0] == '_' then v != "" && SqlLike(p[1..], v[1..])
    else if p[0] == '\\' then |p| > 1 && v != "" && Fold(p[1]) == Fold(v[0]) && SqlLike(p[2..], v[1..])
    else v != "" && Fold(p[0]) == Fold(v[0]) && SqlLike(p[1..], v[1..])
  }

  /** The pieces of the regular expression: .*, . and an escaped character. */
  datatype Tok = AnyRun | AnyOne | One(c: char)

  predicate FullMatch(r: seq<Tok>, v: string)
    decreases |r| + |v|
  {
    if r == [] then v == ""
    else match r[0]
      case AnyRun => FullMatch(r[1..], v) || (v != "" && FullMatch(r, v[1..]))
      case AnyOne => v != "" && FullMatch(r[1..], v[1..])
      case One(c) => v != "" && Fold(c) == Fold(v[0]) && FullMatch(r[1..], v[1..])
  }

  function Tokens(p: string): seq<Tok> {
    if p == "" then []
    else if p[0] == '\\' && |p| > 1 then [One(p[1])] + Tokens(p[2..])
    else [if p[0] == '%' then AnyRun else if p[0] == '_' then AnyOne else One(p[0])] + Tokens(p[1..])
  }

  method LikeRegex(pattern: string) returns (out: seq<Tok>)
    ensures out == Tokens(pattern)
  {
    hide Tokens;
    out := [];
    var i := 0;
    assert pattern[0..] == pattern;
    while i < |pattern|
      invariant 0 <= i <= |pattern|
      invariant out + Tokens(pattern[i..]) == Tokens(pattern)
    {
      var ch := pattern[i];
      NextToken(pattern, i);
      if ch == '\\' && i + 1 < |pattern| {
        out := out + [One(pattern[i + 1])];
        i := i + 2;
        continue;
      }
      var tok := if ch == '%' then AnyRun else if ch == '_' then AnyOne else One(ch);
      out := out + [tok];
      i := i + 1;
    }
    assert pattern[i..] == "";
    NoTokens();
  }

  lemma NoTokens()
    ensures Tokens("") == []
  {
  }

  lemma NextToken(p: string, i: nat)
    requires i < |p|
    ensures Tokens(p[i..]) ==
            if p[i] == '\\' && i + 1 < |p| then [One(p[i + 1])] + Tokens(p[i + 2..])
            else [if p[i] == '%' then AnyRun else if p[i] == '_' then AnyOne else One(p[i])] + Tokens(p[i + 1..])
  {
    assert p[i..][1..] == p[i + 1..];
    if i + 1 < |p| { assert p[i..][2..] == p[i + 2..]; }
  }

  /** No escape character is left without the character it escapes. */
  predicate Closed(p: string) {
    p == "" || (if p[0] == '\\' then |p| > 1 && Closed(p[2..]) else Closed(p[1..]))
  }

  /** On a closed pattern LIKE and the regular expression agree on every value. */
  lemma {:induction false} LikeIsRegex(p: string, v: string)
    requires Closed(p)
    ensures SqlLike(p, v) <==> FullMatch(Tokens(p), v)
    decreases |p| + |v|
  {
    if p != "" {
      var t := Tokens(p);
      if p[0] == '\\' {
        assert t[1..] == Tokens(p[2..]);
        if v != "" { LikeIsRegex(p[2..], v[1..]); }
      } else {
        assert t[1..] == Tokens(p[1..]);
        if p[0] == '%' { LikeIsRegex(p[1..], v); }
        if v != "" {
          LikeIsRegex(p[1..], v[1..]);
          if p[0] == '%' { LikeIsRegex(p, v[1..]); }
        }
      }
    }
  }

  /** A pattern with a lone escape at its end matches nothing. */
  lemma {:induction false} OpenMatchesNothing(p: string, v: string)
    requires !Closed(p)
    ensures !SqlLike(p, v)
    decreases |p| + |v|
  {
    if p[0] == '\\' {
      if |p| > 1 && v != "" { OpenMatchesNothing(p[2..], v[1..]); }
    } else {
      if p[0] == '%' { OpenMatchesNothing(p[1..], v); }
      if v != "" {
        OpenMatchesNothing(p[1..], v[1..]);
        if p[0] == '%' { OpenMatchesNothing(p, v[1..]); }
      }
    }
  }

  /** Every regular expression matches something. */
  lemma {:induction false} SomeMatch(r: seq<Tok>) returns (v: string)
    ensures FullMatch(r, v)
  {
    if r == [] {
      v := "";
    } else {
      var rest := SomeMatch(r[1..]);
      v := if r[0].AnyRun? then rest else [if r[0].One? then r[0].c else 'x'] + rest;
      if !r[0].AnyRun? { assert v[1..] == rest; }
    }
  }

  ghost predicate AgreesOnAll(p: string) {
    forall v :: SqlLike(p, v) <==> FullMatch(Tokens(p), v)
  }

  /** LIKE and the regular expression agree on every value if and only if the pattern does not end in a lone escape. */
  lemma LikeIsRegexExactly(p: string)
    ensures AgreesOnAll(p) <==> Closed(p)
  {
    if Closed(p) {
      forall v
        ensures SqlLike(p, v) <==> FullMatch(Tokens(p), v)
      {
        LikeIsRegex(p, v);
      }
    } else {
      var v := SomeMatch(Tokens(p));
      OpenMatchesNothing(p, v);
    }
  }

  // ---- What a term means -----------------------------------------------------------------------------------------

  /** Every character stands for itself, '*' for any run. */
  ghost function Glob(term: string): (r: seq<Tok>)
    ensures |r| == |term|
  {
    seq(|term|, i requires 0 <= i < |term| => if term[i] == '*' then AnyRun else One(term[i]))
  }

  ghost predicate SameText(a: string, b: string) {
    |a| == |b| && forall i :: 0 <= i < |a| ==> Fold(a[i]) == Fold(b[i])
  }

  ghost predicate OccursAt(v: string, term: string, i: int) {
    0 <= i <= |v| - |term| && SameText(v[i..i + |term|], term)
  }

  ghost predicate Contains(v: string, term: string) {
    exists i :: OccursAt(v, term, i)
  }

  /** Without '*' the value contains the term; with '*' it is the term with each '*' any run of characters. */
  ghost predicate Means(term: string, v: string) {
    if '*' in term then FullMatch(Glob(term), v) else Contains(v, term)
  }

  function Escape(c: char, star: string): string {
    if c == '\\' then "\\\\" else if c == '%' then "\\%" else if c == '_' then "\\_" else if c == '*' then star else [c]
  }

  function EscapeAll(s: string, star: string): string {
    if s == "" then "" else Escape(s[0], star) + EscapeAll(s[1..], star)
  }

  lemma {:induction false} ReplaceAppend(a: string, b: string, c: char, sub: string)
    ensures Replace(a + b, c, sub) == Replace(a, c, sub) + Replace(b, c, sub)
  {
    if a == "" {
      assert a + b == b;
    } else {
      assert (a + b)[1..] == a[1..] + b;
      ReplaceAppend(a[1..], b, c, sub);
    }
  }

  lemma Replace1(x: char, c: char, sub: string)
    ensures Replace([x], c, sub) == if x == c then sub else [x]
  {
    assert [x][1..] == "";
  }

  lemma Replace2(x: char, y: char, c: char, sub: string)
    ensures Replace([x, y], c, sub) == (if x == c then sub else [x]) + (if y == c then sub else [y])
  {
    assert [x, y] == [x] + [y];
    ReplaceAppend([x], [y], c, sub);
    Replace1(x, c, sub);
    Replace1(y, c, sub);
  }

  ghost function Escaped3(s: string): string {
    Replace(Replace(Replace(s, '\\', "\\\\"), '%', "\\%"), '_', "\\_")
  }

  lemma EscapeChar(c: char)
    ensures Escaped3([c]) == Escape(c, "*") && Replace(Escape(c, "*"), '*', "%") == Escape(c, "%")
  {
    Replace1(c, '\\', "\\\\");
    Replace1(c, '%', "\\%");
    Replace1(c, '_', "\\_");
    Replace1(c, '*', "%");
    Replace2('\\', '\\', '%', "\\%");
    Replace2('\\', '\\', '_', "\\_");
    Replace2('\\', '%', '_', "\\_");
    Replace2('\\', '\\', '*', "%");
    Replace2('\\', '%', '*', "%");
    Replace2('\\', '_', '*', "%");
  }

  lemma Escaped3Append(a: string, b: string)
    ensures Escaped3(a + b) == Escaped3(a) + Escaped3(b)
  {
    ReplaceAppend(a, b, '\\', "\\\\");
    var a1, b1 := Replace(a, '\\', "\\\\"), Replace(b, '\\', "\\\\");
    ReplaceAppend(a1, b1, '%', "\\%");
    ReplaceAppend(Replace(a1, '%', "\\%"), Replace(b1, '%', "\\%"), '_', "\\_");
  }

  /** The three replacements, and the fourth, work character by character. */
  lemma {:induction false} EscapesEach(s: string)
    ensures Escaped3(s) == EscapeAll(s, "*") && Replace(EscapeAll(s, "*"), '*', "%") == EscapeAll(s, "%")
  {
    if s != "" {
      assert s == [s[0]] + s[1..];
      Escaped3Append([s[0]], s[1..]);
      EscapeChar(s[0]);
      EscapesEach(s[1..]);
      ReplaceAppend(Escape(s[0], "*"), EscapeAll(s[1..], "*"), '*', "%");
    }
  }

  lemma TokensOfChar(c: char, star: string, rest: string)
    requires star == "%" || (star == "*" && c != '*')
    requires Closed(rest)
    ensures Closed(Escape(c, star) + rest)
    ensures Tokens(Escape(c, star) + rest) == [if c == '*' then AnyRun else One(c)] + Tokens(rest)
  {
    var e := Escape(c, star);
    assert (e + rest)[|e|..] == rest;
  }

  /** The escaped text is closed and its tokens are the term's own characters. */
  lemma {:induction false} TokensOfEscaped(s: string, star: string, tail: string)
    requires star == "%" || (star == "*" && '*' !in s)
    requires Closed(tail)
    ensures Closed(EscapeAll(s, star) + tail)
    ensures Tokens(EscapeAll(s, star) + tail) == Glob(s) + Tokens(tail)
  {
    hide Tokens, Closed, Escape;
    if s == "" {
      assert EscapeAll(s, star) + tail == tail;
    } else {
      var e, rest := Escape(s[0], star), EscapeAll(s[1..], star) + tail;
      TokensOfEscaped(s[1..], star, tail);
      assert EscapeAll(s, star) + tail == e + rest;
      assert Glob(s) == [if s[0] == '*' then AnyRun else One(s[0])] + Glob(s[1..]);
      TokensOfChar(s[0], star, rest);
    }
  }

  lemma PatternTokens(term: string)
    ensures Closed(LikePattern(term))
    ensures Tokens(LikePattern(term)) == if '*' in term then Glob(term) else [AnyRun] + Glob(term) + [AnyRun]
  {
    EscapesEach(term);
    if '*' in term {
      TokensOfEscaped(term, "%", "");
      assert EscapeAll(term, "%") + "" == EscapeAll(term, "%");
    } else {
      assert "%"[1..] == "";
      TokensOfEscaped(term, "*", "%");
      var p := "%" + EscapeAll(term, "*") + "%";
      assert p[1..] == EscapeAll(term, "*") + "%";
      assert Tokens("%") == [AnyRun];
    }
  }

  lemma {:induction false} LiteralThenRun(term: string, v: string)
    requires '*' !in term
    ensures FullMatch(Glob(term) + [AnyRun], v) <==> |term| <= |v| && SameText(v[..|term|], term)
  {
    var r := Glob(term) + [AnyRun];
    if term == "" {
      assert r == [AnyRun];
      RunMatches(v);
    } else {
      assert r[1..] == Glob(term[1..]) + [AnyRun];
      if v != "" {
        LiteralThenRun(term[1..], v[1..]);
        if |term| <= |v| {
          assert v[1..][..|term| - 1] == v[..|term|][1..];
          assert SameText(v[..|term|], term) <==>
                   Fold(v[0]) == Fold(term[0]) && SameText(v[..|term|][1..], term[1..]) by {
            if Fold(v[0]) == Fold(term[0]) && SameText(v[..|term|][1..], term[1..]) {
              forall i | 0 < i < |term|
                ensures Fold(v[i]) == Fold(term[i])
              {
                assert Fold(v[..|term|][1..][i - 1]) == Fold(term[1..][i - 1]);
              }
            }
          }
        }
      }
    }
  }

  lemma {:induction false} RunMatches(v: string)
    ensures FullMatch([AnyRun], v)
  {
    if v == "" {
      assert FullMatch([AnyRun][1..], v);
    } else {
      RunMatches(v[1..]);
    }
  }

  lemma Shifted(v: string, i: nat, n: nat)
    requires 0 < i <= i + n <= |v|
    ensures v[1..][i - 1..i - 1 + n] == v[i..i + n]
  {
    var a, b := v[1..][i - 1..i - 1 + n], v[i..i + n];
    assert forall k :: 0 <= k < n ==> a[k] == b[k];
  }

  lemma {:induction false} Anywhere(term: string, v: string)
    requires '*' !in term
    ensures FullMatch([AnyRun] + (Glob(term) + [AnyRun]), v) <==> Contains(v, term)
    decreases |v|
  {
    var r := [AnyRun] + (Glob(term) + [AnyRun]);
    assert r[1..] == Glob(term) + [AnyRun];
    LiteralThenRun(term, v);
    assert OccursAt(v, term, 0) <==> |term| <= |v| && SameText(v[..|term|], term);
    if v != "" {
      Anywhere(term, v[1..]);
      if i :| OccursAt(v[1..], term, i) {
        Shifted(v, i + 1, |term|);
        assert OccursAt(v, term, i + 1);
      }
      if i :| OccursAt(v, term, i) {
        if i > 0 {
          Shifted(v, i, |term|);
          assert OccursAt(v[1..], term, i - 1);
        }
      }
    }
  }

  /** For every term and value: SQL's LIKE on the pattern, the regular expression, and the meaning agree. */
  lemma PatternMeans(term: string, v: string)
    ensures SqlLike(LikePattern(term), v) <==> Means(term, v)
    ensures FullMatch(Tokens(LikePattern(term)), v) <==> Means(term, v)
  {
    PatternTokens(term);
    LikeIsRegex(LikePattern(term), v);
    if '*' !in term {
      assert [AnyRun] + Glob(term) + [AnyRun] == [AnyRun] + (Glob(term) + [AnyRun]);
      Anywhere(term, v);
    }
  }
}
