/**
 * SQL LIKE as the two engines evaluate it for this program, and `_escape_like`, which turns a
 * search string into a pattern that must match only itself.
 */
module Like {

  const ESCAPE := '\\'

  /** ASCII case folding, the folding of SQLite's LIKE. */
  function FoldChar(c: char): char {
    if 'A' <= c <= 'Z' then (c as int + 32) as char else c
  }

  /** Two characters fold alike exactly when they are one character or one ASCII letter in both cases. */
  lemma FoldCharIsExact(c: char, d: char)
    ensures FoldChar(c) == FoldChar(d) <==>
            c == d || ('a' <= d <= 'z' && d as int == c as int + 32) || ('a' <= c <= 'z' && c as int == d as int + 32)
  {
  }

  function Fold(s: string): (r: string)
    ensures |r| == |s|
    ensures forall i :: 0 <= i < |s| ==> r[i] == FoldChar(s[i])
  {
    if s == "" then "" else [FoldChar(s[0])] + Fold(s[1..])
  }

  /** `s LIKE pattern ESCAPE '\'`; a pattern that ends in the escape character matches nothing. */
  predicate Matches(pattern: string, s: string)
    decreases |pattern| + |s|
  {
    if pattern == "" then s == ""
    else if pattern[0] == '%' then
      Matches(pattern[1..], s) || (s != "" && Matches(pattern, s[1..]))
    else if pattern[0] == '_' then
      s != "" && Matches(pattern[1..], s[1..])
    else if pattern[0] == ESCAPE then
      |pattern| >= 2 && s != "" && FoldChar(pattern[1]) == FoldChar(s[0]) && Matches(pattern[2..], s[1..])
    else
      s != "" && FoldChar(pattern[0]) == FoldChar(s[0]) && Matches(pattern[1..], s[1..])
  }

  /** `s.replace(c, r)` for a single character c. */
  function Replace(s: string, c: char, r: string): string {
    if s == "" then "" else (if s[0] == c then r else [s[0]]) + Replace(s[1..], c, r)
  }

  /** The three replacements of `_escape_like`, backslash first. */
  function EscapeLike(value: string): string {
    Replace(Replace(Replace(value, '\\', "\\\\"), '%', "\\%"), '_', "\\_")
  }

  /** What the replacements amount to: one pass that puts a backslash before `\`, `%` and `_`. */
  function EscapeEach(value: string): string {
    if value == "" then ""
    else (if value[0] == '\\' || value[0] == '%' || value[0] == '_' then [ESCAPE, value[0]] else [value[0]])
         + EscapeEach(value[1..])
  }

  lemma {:induction false} ReplaceConcat(a: string, b: string, c: char, r: string)
    ensures Replace(a + b, c, r) == Replace(a, c, r) + Replace(b, c, r)
  {
    if a == "" {
      assert a + b == b;
    } else {
      assert (a + b)[1..] == a[1..] + b;
      ReplaceConcat(a[1..], b, c, r);
    }
  }

  lemma {:induction false} ReplaceAbsent(s: string, c: char, r: string)
    requires c !in s
    ensures Replace(s, c, r) == s
  {
    if s != "" { ReplaceAbsent(s[1..], c, r); }
  }

  lemma EscapeLikeCons(c: char, rest: string)
    ensures EscapeLike([c] + rest) == EscapeEach([c]) + EscapeLike(rest)
  {
    var first := Replace([c], '\\', "\\\\");
    ReplaceConcat([c], rest, '\\', "\\\\");
    ReplaceConcat(first, Replace(rest, '\\', "\\\\"), '%', "\\%");
    var second := Replace(first, '%', "\\%");
    ReplaceConcat(second, Replace(Replace(rest, '\\', "\\\\"), '%', "\\%"), '_', "\\_");
    assert first == if c == '\\' then "\\\\" else [c];
    assert second == if c == '%' then "\\%" else first by {
      if c == '\\' { ReplaceAbsent(first, '%', "\\%"); }
    }
    assert Replace(second, '_', "\\_") == EscapeEach([c]) by {
      if c == '\\' || c == '%' { ReplaceAbsent(second, '_', "\\_"); }
    }
  }

  lemma {:induction false} EscapeLikeIsOnePass(value: string)
    ensures EscapeLike(value) == EscapeEach(value)
  {
    if value != "" {
      assert value == [value[0]] + value[1..];
      EscapeLikeCons(value[0], value[1..]);
      EscapeLikeIsOnePass(value[1..]);
    }
  }

  lemma {:induction false} EscapeEachConcat(a: string, b: string)
    ensures EscapeEach(a + b) == EscapeEach(a) + EscapeEach(b)
  {
    if a == "" {
      assert a + b == b;
    } else {
      assert (a + b)[1..] == a[1..] + b;
      EscapeEachConcat(a[1..], b);
    }
  }

  /** q stands at position i of s, up to ASCII case. */
  predicate OccursAt(q: string, s: string, i: int) {
    0 <= i <= |s| - |q| && Fold(s[i..i + |q|]) == Fold(q)
  }

  ghost predicate Occurs(q: string, s: string) {
    exists i :: OccursAt(q, s, i)
  }

  lemma {:induction false} MatchEscaped(q: string, rest: string, s: string)
    ensures Matches(EscapeEach(q) + rest, s) <==> OccursAt(q, s, 0) && Matches(rest, s[|q|..])
    decreases |q|
  {
    var p := EscapeEach(q) + rest;
    if q == "" {
      assert p == rest && s[0..] == s && s[0..0] == "";
    } else if s == "" {
      assert |p| >= 1;
    } else {
      var special := q[0] == '\\' || q[0] == '%' || q[0] == '_';
      var tail := EscapeEach(q[1..]) + rest;
      assert p == (if special then [ESCAPE, q[0]] else [q[0]]) + tail;
      assert p[if special then 2 else 1..] == tail;
      MatchEscaped(q[1..], rest, s[1..]);
      if |s| >= |q| {
        assert s[1..][|q| - 1..] == s[|q|..];
        assert s[0..|q|] == [s[0]] + s[1..][0..|q| - 1];
      }
    }
  }

  lemma {:induction false} MatchPercent(rest: string, s: string)
    ensures Matches("%" + rest, s) <==> exists i :: 0 <= i <= |s| && Matches(rest, s[i..])
    decreases |s|
  {
    assert ("%" + rest)[1..] == rest;
    if Matches(rest, s) {
      assert s[0..] == s;
    } else if s != "" {
      MatchPercent(rest, s[1..]);
      if Matches("%" + rest, s[1..]) {
        var i :| 0 <= i <= |s[1..]| && Matches(rest, s[1..][i..]);
        assert s[1..][i..] == s[i + 1..];
      }
      if i :| 0 <= i <= |s| && Matches(rest, s[i..]) {
        assert i != 0 by { if i == 0 { assert s[0..] == s; } }
        assert s[i..] == s[1..][i - 1..];
      }
    } else {
      assert forall i :: 0 <= i <= |s| ==> s[i..] == s;
    }
  }

  lemma MatchTrailingPercent(s: string)
    ensures Matches("%", s)
  {
    MatchPercent("", s);
    assert "%" + "" == "%";
    assert s[|s|..] == "";
  }

  /** Escaping is exact: `%`, `_` and `\` of the search string stand for themselves. */
  lemma EscapedSearchIsContainment(q: string, s: string)
    ensures Matches("%" + EscapeLike(q) + "%", s) <==> Occurs(q, s)
  {
    EscapeLikeIsOnePass(q);
    var body := EscapeEach(q) + "%";
    assert "%" + EscapeLike(q) + "%" == "%" + body;
    MatchPercent(body, s);
    forall i | 0 <= i <= |s|
      ensures Matches(body, s[i..]) <==> OccursAt(q, s, i)
    {
      MatchEscaped(q, "%", s[i..]);
      if |s| - i >= |q| {
        MatchTrailingPercent(s[i..][|q|..]);
        assert s[i..][0..|q|] == s[i..i + |q|];
      }
    }
    if Occurs(q, s) {
      var i :| OccursAt(q, s, i);
      assert Matches(body, s[i..]);
    }
  }

  /** The tag pattern `%"` + escaped tag + `"%` searches for the tag between quotes. */
  lemma QuotedTagPattern(tag: string)
    ensures "%\"" + EscapeLike(tag) + "\"%" == "%" + EscapeLike("\"" + tag + "\"") + "%"
  {
    EscapeLikeIsOnePass(tag);
    EscapeLikeIsOnePass("\"" + tag + "\"");
    EscapeEachConcat("\"" + tag, "\"");
    EscapeEachConcat("\"", tag);
    assert EscapeEach("\"") == "\"";
  }
}
