/**
 SQLite's `LIKE ... ESCAPE '\'` and the two functions that escape its operands
 (`escapeLikePrefix` in internal/access/sqlite_store.go, `escapeLikeOperand` in
 internal/filetransfer/store.go).
 */
module Like {

  /** LIKE folds ASCII letters only. */
  function Fold(c: char): char {
    if 'A' <= c <= 'Z' then (c as int + 32) as char else c
  }

  predicate SameFold(a: string, b: string) {
    |a| == |b| && forall i :: 0 <= i < |a| ==> Fold(a[i]) == Fold(b[i])
  }

  /** SQLite's pattern matcher with escape character backslash. */
  predicate Matches(pat: string, s: string)
    decreases |pat| + |s|
  {
    if pat == [] then s == []
    else if pat[0] == '%' then Matches(pat[1..], s) || (s != [] && Matches(pat, s[1..]))
    else if s == [] then false
    else if pat[0] == '\\' then |pat| >= 2 && Fold(pat[1]) == Fold(s[0]) && Matches(pat[2..], s[1..])
    else (pat[0] == '_' || Fold(pat[0]) == Fold(s[0])) && Matches(pat[1..], s[1..])
  }

  function EscapeChar(c: char): string {
    if c == '\\' || c == '%' || c == '_' then ['\\', c] else [c]
  }

  function Escape(s: string): string {
    if s == [] then [] else EscapeChar(s[0]) + Escape(s[1..])
  }

  /** The loop of `escapeLikeOperand`. */
  method EscapeLikeOperand(s: string) returns (b: string)
    ensures b == Escape(s)
  {
    b := "";
    var i := 0;
    while i < |s|
      invariant 0 <= i <= |s| && b == Escape(s[..i])
    {
      EscapeSnoc(s[..i], s[i]);
      assert s[..i + 1] == s[..i] + [s[i]];
      if s[i] == '\\' || s[i] == '%' || s[i] == '_' {
        b := b + ['\\', s[i]];
      } else {
        b := b + [s[i]];
      }
      i := i + 1;
    }
    assert s[..i] == s;
  }

  lemma {:induction false} EscapeSnoc(s: string, c: char)
    ensures Escape(s + [c]) == Escape(s) + EscapeChar(c)
  {
    if s == [] {
      assert s + [c] == [c] && [c][1..] == [];
    } else {
      EscapeSnoc(s[1..], c);
      assert (s + [c])[0] == s[0] && (s + [c])[1..] == s[1..] + [c];
    }
  }

  /** An escaped operand matches its own text, up to ASCII case, and nothing else. */
  lemma {:induction false} EscapedIsLiteral(x: string, pat: string, s: string)
    ensures Matches(Escape(x) + pat, s) <==>
              |x| <= |s| && SameFold(x, s[..|x|]) && Matches(pat, s[|x|..])
    decreases |x|
  {
    if x == [] {
      assert Escape(x) + pat == pat && s[0..] == s && s[..0] == [];
    } else {
      var rest := Escape(x[1..]) + pat;
      assert Escape(x) + pat == EscapeChar(x[0]) + rest;
      EscapedChar(x[0], rest, s);
      if s != [] {
        EscapedIsLiteral(x[1..], pat, s[1..]);
        if |x| <= |s| {
          assert s[1..][|x| - 1..] == s[|x|..];
          FoldStep(x, s[..|x|]);
          assert s[..|x|][1..] == s[1..][..|x| - 1];
        }
      }
    }
  }

  lemma EscapedChar(c: char, rest: string, s: string)
    ensures Matches(EscapeChar(c) + rest, s) <==> s != [] && Fold(c) == Fold(s[0]) && Matches(rest, s[1..])
  {
    var full := EscapeChar(c) + rest;
    if |EscapeChar(c)| == 2 {
      assert full[0] == '\\' && full[1] == c && full[2..] == rest;
    } else {
      assert full[0] == c && full[1..] == rest;
    }
  }

  lemma FoldStep(a: string, b: string)
    requires a != [] && |a| == |b|
    ensures SameFold(a, b) <==> Fold(a[0]) == Fold(b[0]) && SameFold(a[1..], b[1..])
  {
    if Fold(a[0]) == Fold(b[0]) && SameFold(a[1..], b[1..]) {
      forall i | 0 <= i < |a| ensures Fold(a[i]) == Fold(b[i]) {
        if i > 0 { assert a[i] == a[1..][i - 1] && b[i] == b[1..][i - 1]; }
      }
    }
  }

  lemma {:induction false} PercentMatchesAll(s: string)
    ensures Matches("%", s)
  {
    assert "%"[1..] == "";
    if s != [] { PercentMatchesAll(s[1..]); }
  }

  /** `escape(x) || '/%'` matches exactly the strings that start with `x/`, up to ASCII case. */
  lemma PrefixPatternExact(x: string, s: string)
    ensures Matches(Escape(x) + "/%", s) <==> |x| < |s| && SameFold(x, s[..|x|]) && s[|x|] == '/'
  {
    EscapedIsLiteral(x, "/%", s);
    if |x| <= |s| { SlashPercent(s[|x|..]); }
  }

  lemma SlashPercent(t: string)
    ensures Matches("/%", t) <==> t != [] && t[0] == '/'
  {
    var p := "/%";
    assert p[1..] == "%";
    if t != [] { PercentMatchesAll(t[1..]); }
  }

  predicate FoundAt(s: string, q: string, i: nat) {
    i + |q| <= |s| && SameFold(q, s[i..i + |q|])
  }

  ghost predicate ContainsFold(s: string, q: string) {
    exists i: nat :: FoundAt(s, q, i)
  }

  predicate TailMatches(tail: string, s: string, i: nat) {
    i <= |s| && Matches(tail, s[i..])
  }

  /** A leading `%` skips any number of characters. */
  lemma {:induction false} PercentSkips(tail: string, s: string)
    ensures Matches(['%'] + tail, s) <==> exists i: nat :: TailMatches(tail, s, i)
    decreases |s|
  {
    var pat := ['%'] + tail;
    assert pat[1..] == tail;
    assert s[0..] == s;
    assert TailMatches(tail, s, 0) <==> Matches(tail, s);
    if s != [] {
      PercentSkips(tail, s[1..]);
      forall i: nat ensures TailMatches(tail, s[1..], i) <==> TailMatches(tail, s, i + 1) {
        if i + 1 <= |s| { assert s[1..][i..] == s[i + 1..]; }
      }
      if exists i: nat :: TailMatches(tail, s, i) {
        var i: nat :| TailMatches(tail, s, i);
        if i > 0 { assert TailMatches(tail, s[1..], i - 1); }
      }
    }
  }

  /** `'%' || escape(q) || '%'` matches exactly the strings that contain `q`, up to ASCII case. */
  lemma ContainsPatternExact(q: string, s: string)
    ensures Matches("%" + Escape(q) + "%", s) <==> ContainsFold(s, q)
  {
    var tail := Escape(q) + "%";
    assert "%" + Escape(q) + "%" == ['%'] + tail;
    PercentSkips(tail, s);
    forall i: nat ensures TailMatches(tail, s, i) <==> FoundAt(s, q, i) {
      HitAt(q, s, i);
    }
  }

  lemma HitAt(q: string, s: string, i: nat)
    ensures TailMatches(Escape(q) + "%", s, i) <==> FoundAt(s, q, i)
  {
    if i <= |s| {
      EscapedIsLiteral(q, "%", s[i..]);
      if i + |q| <= |s| {
        assert s[i..][..|q|] == s[i..i + |q|];
        PercentMatchesAll(s[i..][|q|..]);
      }
    }
  }
}
