/**
 Identifiers for new groups and targets: `slugID` and `normalizeTargetPath`
 (internal/httpapi/router.go) and the search for a free suffix in the create handlers
 (internal/httpapi/groups_handler.go, internal/httpapi/targets_handler.go).
 */
module FreshId {
  import opened GroupPath

  // ----- Slugs -----

  predicate Upper(c: char) { 'A' <= c <= 'Z' }
  predicate LowerOrDigit(c: char) { 'a' <= c <= 'z' || '0' <= c <= '9' }
  predicate Separator(c: char) { c == ' ' || c == '-' || c == '_' }

  function ToLower(c: char): (r: char)
    requires Upper(c)
    ensures LowerOrDigit(r)
  {
    (c as int + 32) as char
  }

  function Flush(word: string): seq<string> { if word == "" then [] else [word] }

  /** The words of a name: letters and digits in lower case, cut at separators; other characters vanish. */
  function Words(s: string, word: string): seq<string> {
    if s == [] then Flush(word)
    else if Upper(s[0]) then Words(s[1..], word + [ToLower(s[0])])
    else if LowerOrDigit(s[0]) then Words(s[1..], word + [s[0]])
    else if Separator(s[0]) then Flush(word) + Words(s[1..], "")
    else Words(s[1..], word)
  }

  function Dashed(words: seq<string>): string {
    if words == [] then "" else words[0] + "-" + Dashed(words[1..])
  }

  function Hyphenate(words: seq<string>): string {
    if words == [] then "" else if |words| == 1 then words[0] else words[0] + "-" + Hyphenate(words[1..])
  }

  /** What a slug is: the words of the name joined by hyphens, or a default. */
  function Slug(s: string): string {
    var words := Words(s, "");
    if words == [] then "target" else Hyphenate(words)
  }

  predicate IsWord(w: string) { w != "" && forall i :: 0 <= i < |w| ==> LowerOrDigit(w[i]) }

  predicate AreWords(words: seq<string>) { forall i :: 0 <= i < |words| ==> IsWord(words[i]) }

  lemma {:induction false} WordsAreWords(s: string, word: string)
    requires word == "" || IsWord(word)
    ensures AreWords(Words(s, word))
    decreases |s|
  {
    if s != [] {
      if Upper(s[0]) {
        WordsAreWords(s[1..], word + [ToLower(s[0])]);
      } else if LowerOrDigit(s[0]) {
        WordsAreWords(s[1..], word + [s[0]]);
      } else if Separator(s[0]) {
        WordsAreWords(s[1..], "");
      } else {
        WordsAreWords(s[1..], word);
      }
    }
  }

  lemma {:induction false} DashedSnoc(words: seq<string>, w: string)
    ensures Dashed(words + [w]) == Dashed(words) + w + "-"
  {
    if words == [] {
      assert words + [w] == [w] && [w][1..] == [];
    } else {
      DashedSnoc(words[1..], w);
      assert (words + [w])[1..] == words[1..] + [w] && (words + [w])[0] == words[0];
    }
  }

  lemma {:induction false} DashedIsHyphenated(words: seq<string>)
    requires words != []
    ensures Dashed(words) == Hyphenate(words) + "-"
  {
    if |words| > 1 {
      DashedIsHyphenated(words[1..]);
    } else {
      assert words[1..] == [];
    }
  }

  /** After `i` characters: the words finished, the word begun, and the buffer that spells them. */
  ghost predicate SlugState(s: string, i: nat, done: seq<string>, word: string, b: string) {
    && i <= |s| && Words(s, "") == done + Words(s[i..], word)
    && AreWords(done) && (word == "" || IsWord(word))
    && b == Dashed(done) + word
  }

  /** What the loop body makes of the buffer. */
  function NextBuffer(b: string, c: char): string {
    if Upper(c) then b + [ToLower(c)]
    else if LowerOrDigit(c) then b + [c]
    else if Separator(c) && |b| > 0 && b[|b| - 1] != '-' then b + "-"
    else b
  }

  lemma SlugStep(s: string, i: nat, done: seq<string>, word: string, b: string) returns (done': seq<string>, word': string)
    requires i < |s| && SlugState(s, i, done, word, b)
    ensures SlugState(s, i + 1, done', word', NextBuffer(b, s[i]))
  {
    var c := s[i];
    WordsStep(s, i, done, word);
    BufferEnd(done, word);
    done', word' := done, word;
    if Upper(c) {
      word' := word + [ToLower(c)];
    } else if LowerOrDigit(c) {
      word' := word + [c];
    } else if Separator(c) && word != "" {
      DashedSnoc(done, word);
      done', word' := done + [word], "";
    }
  }

  method SlugID(s: string) returns (r: string)
    ensures r == Slug(s)
  {
    var b := "";
    ghost var done: seq<string>, word := [], "";
    for i := 0 to |s|
      invariant SlugState(s, i, done, word, b)
    {
      var c := s[i];
      done, word := SlugStep(s, i, done, word, b);
      if Upper(c) {
        b := b + [ToLower(c)];
      } else if LowerOrDigit(c) {
        b := b + [c];
      } else if Separator(c) {
        if |b| > 0 && b[|b| - 1] != '-' {
          b := b + "-";
        }
      }
    }
    SlugEnd(s, done, word, b);
    if |b| == 0 { return "target"; }
    if b[|b| - 1] == '-' {
      b := b[..|b| - 1];
    }
    r := b;
  }

  lemma SlugEnd(s: string, done: seq<string>, word: string, b: string)
    requires SlugState(s, |s|, done, word, b)
    ensures Slug(s) == if b == "" then "target" else if b[|b| - 1] == '-' then b[..|b| - 1] else b
  {
    assert Words(s, "") == done + Flush(word);
    BufferEnd(done, word);
    if b != "" { LastWord(done, word); }
  }

  lemma WordsStep(s: string, i: nat, done: seq<string>, word: string)
    requires i < |s|
    ensures var c := s[i];
            done + Words(s[i..], word) ==
            if Upper(c) then done + Words(s[i + 1..], word + [ToLower(c)])
            else if LowerOrDigit(c) then done + Words(s[i + 1..], word + [c])
            else if Separator(c) then (if word == "" then done else done + [word]) + Words(s[i + 1..], "")
            else done + Words(s[i + 1..], word)
  {
    assert s[i..][1..] == s[i + 1..];
  }

  /** At the end of the name, the buffer is the slug, but for a last hyphen. */
  lemma LastWord(done: seq<string>, word: string)
    requires done + Flush(word) != []
    ensures Dashed(done) + word == Hyphenate(done + Flush(word)) + if word == "" then "-" else ""
  {
    if word == "" {
      assert done + Flush(word) == done;
      DashedIsHyphenated(done);
    } else {
      DashedSnoc(done, word);
      DashedIsHyphenated(done + [word]);
      CancelLast(Dashed(done) + word, Hyphenate(done + [word]));
    }
  }

  lemma CancelLast(a: string, b: string)
    requires a + "-" == b + "-"
    ensures a == b
  {
    assert (a + "-")[..|a|] == a && (b + "-")[..|b|] == b;
  }

  /** The buffer is empty exactly at the start and ends in a hyphen exactly between words. */
  lemma BufferEnd(done: seq<string>, word: string)
    requires AreWords(done) && (word == "" || IsWord(word))
    ensures var b := Dashed(done) + word;
            && (b == "" <==> done == [] && word == "")
            && (b != "" ==> (b[|b| - 1] == '-' <==> word == ""))
  {
    if done != [] {
      DashedIsHyphenated(done);
    }
    if word != "" {
      assert LowerOrDigit(word[|word| - 1]);
    }
  }

  /** The alphabet [a-z0-9-], without hyphens at the ends or next to each other. */
  predicate Canonical(id: string) {
    && id != ""
    && (forall i :: 0 <= i < |id| ==> LowerOrDigit(id[i]) || id[i] == '-')
    && id[0] != '-' && id[|id| - 1] != '-'
    && (forall i :: 0 <= i < |id| - 1 ==> !(id[i] == '-' && id[i + 1] == '-'))
  }

  lemma {:induction false} HyphenatedIsCanonical(words: seq<string>)
    requires AreWords(words) && words != []
    ensures Canonical(Hyphenate(words))
  {
    if |words| > 1 {
      var w, t := words[0], Hyphenate(words[1..]);
      HyphenatedIsCanonical(words[1..]);
      assert Hyphenate(words) == w + "-" + t;
      assert LowerOrDigit(w[|w| - 1]);
    }
  }

  /** Reading a canonical rest after an unfinished word gives both back. */
  lemma {:induction false} CanonicalIsFixed(s: string, word: string)
    requires Canonical(word + s) && '-' !in word
    ensures Words(s, word) != [] && Hyphenate(Words(s, word)) == word + s
    decreases |s|
  {
    if s != [] {
      var c, rest := s[0], s[1..];
      CanonicalChar(word, s);
      if c == '-' {
        CanonicalIsFixed(rest, "");
        HyphenateCons(word, Words(rest, ""));
        assert word + "-" + rest == word + s;
      } else {
        assert (word + [c]) + rest == word + s;
        CanonicalIsFixed(rest, word + [c]);
      }
    }
  }

  lemma HyphenateCons(w: string, words: seq<string>)
    requires words != []
    ensures Hyphenate([w] + words) == w + "-" + Hyphenate(words)
  {
    assert ([w] + words)[1..] == words;
  }

  lemma CanonicalChar(word: string, s: string)
    requires Canonical(word + s) && s != ""
    ensures LowerOrDigit(s[0]) || s[0] == '-'
    ensures s[0] == '-' ==> word != "" && Canonical("" + s[1..])
  {
    var all := word + s;
    assert all[|word|] == s[0];
    if s[0] == '-' {
      assert all[|all| - 1] == s[|s| - 1];
      assert all == word + "-" + s[1..];
      CanonicalSuffix(word, s[1..]);
    }
  }

  lemma CanonicalSuffix(word: string, rest: string)
    requires Canonical(word + "-" + rest) && rest != ""
    ensures Canonical("" + rest)
  {
    var all := word + "-" + rest;
    var n := |word| + 1;
    assert forall i :: 0 <= i < |rest| ==> rest[i] == all[n + i];
    assert all[n - 1] == '-';
  }

  /** `slugID` gives a canonical identifier for every name. */
  lemma SlugIsCanonical(s: string)
    ensures Canonical(Slug(s)) && IdSegment(Slug(s))
  {
    var words := Words(s, "");
    WordsAreWords(s, "");
    if words != [] { HyphenatedIsCanonical(words); }
  }

  /** The canonical identifiers are exactly those that `slugID` leaves alone; so it is idempotent. */
  lemma SlugFixesIff(id: string)
    ensures Slug(id) == id <==> Canonical(id)
    ensures Slug(Slug(id)) == Slug(id)
  {
    SlugIsCanonical(id);
    CanonicalIsFixed(Slug(id), "");
    assert "" + Slug(id) == Slug(id);
    if Canonical(id) {
      assert "" + id == id;
      CanonicalIsFixed(id, "");
    }
  }

  // ----- What a slug keeps of a name -----

  /** What one character leaves: a letter or digit, capitals A to Z as a to z, or nothing. */
  function Letter(c: char): string {
    if 'A' <= c <= 'Z' then ['a' + (c - 'A')]
    else if 'a' <= c <= 'z' || '0' <= c <= '9' then [c]
    else []
  }

  /** The letters and digits of a name. */
  function Letters(s: string): string {
    if s == [] then [] else Letter(s[0]) + Letters(s[1..])
  }

  function Concatenate(words: seq<string>): string {
    if words == [] then "" else words[0] + Concatenate(words[1..])
  }

  predicate EndsWord(c: char) { c == ' ' || c == '-' || c == '_' }

  /** How a word goes on. */
  lemma WordGoesOn(s: string, word: string)
    requires s != [] && !EndsWord(s[0])
    ensures Words(s, word) == Words(s[1..], word + Letter(s[0]))
    ensures word + Letters(s) == (word + Letter(s[0])) + Letters(s[1..])
  {
    WordTakes(s, word, Letter(s[0]));
    Associative(word, Letter(s[0]), Letters(s[1..]));
  }

  lemma Associative(a: string, b: string, c: string)
    ensures a + (b + c) == (a + b) + c
  {
  }

  lemma WordTakes(s: string, word: string, letter: string)
    requires s != [] && !EndsWord(s[0]) && letter == Letter(s[0])
    ensures Words(s, word) == Words(s[1..], word + letter)
  {
    LetterIs(s[0]);
    if letter == [] { assert word + letter == word; }
  }

  lemma LetterIs(c: char)
    ensures Letter(c) == if Upper(c) then [ToLower(c)] else if LowerOrDigit(c) then [c] else []
  {
    if Upper(c) { assert ToLower(c) == 'a' + (c - 'A'); }
  }

  lemma WordIsFlushed(s: string, word: string)
    requires s != [] && EndsWord(s[0])
    ensures Words(s, word) == Flush(word) + Words(s[1..], "") && Letters(s) == Letters(s[1..])
  {
  }

  lemma ConcatenateFlush(word: string, words: seq<string>)
    ensures Concatenate(Flush(word) + words) == word + Concatenate(words)
  {
    if word != "" {
      assert ([word] + words)[0] == word && ([word] + words)[1..] == words;
    } else {
      assert Flush(word) + words == words;
    }
  }

  /** The words hold exactly the letters of the name, in order. */
  lemma {:induction false} WordsHoldLetters(s: string, word: string)
    ensures Concatenate(Words(s, word)) == word + Letters(s)
    decreases |s|
  {
    if s == [] {
      ConcatenateFlush(word, []);
      assert Flush(word) + [] == Flush(word);
    } else if EndsWord(s[0]) {
      WordIsFlushed(s, word);
      WordsHoldLetters(s[1..], "");
      ConcatenateFlush(word, Words(s[1..], ""));
    } else {
      WordGoesOn(s, word);
      WordsHoldLetters(s[1..], word + Letter(s[0]));
    }
  }

  /** Where words end: exactly at spaces, hyphens and underscores. */
  lemma {:induction false} WordsEndAt(a: string, c: char, b: string, word: string)
    requires EndsWord(c)
    ensures Words(a + [c] + b, word) == Words(a, word) + Words(b, "")
    decreases |a|
  {
    var s := a + [c] + b;
    if a == [] {
      assert s[0] == c && s[1..] == b;
    } else {
      assert s[0] == a[0] && s[1..] == a[1..] + [c] + b;
      if EndsWord(a[0]) {
        WordIsFlushed(s, word);
        WordIsFlushed(a, word);
        WordsEndAt(a[1..], c, b, "");
        assert Flush(word) + (Words(a[1..], "") + Words(b, "")) == (Flush(word) + Words(a[1..], "")) + Words(b, "");
      } else {
        WordGoesOn(s, word);
        WordGoesOn(a, word);
        WordsEndAt(a[1..], c, b, word + Letter(a[0]));
      }
    }
  }

  lemma {:induction false} WordWithoutEnd(s: string, word: string)
    requires forall i :: 0 <= i < |s| ==> !EndsWord(s[i])
    ensures Words(s, word) == Flush(word + Letters(s))
    decreases |s|
  {
    if s != [] {
      WordGoesOn(s, word);
      WordWithoutEnd(s[1..], word + Letter(s[0]));
    } else {
      assert word + "" == word;
    }
  }

  lemma {:induction false} LettersConcat(a: string, b: string)
    ensures Letters(a + b) == Letters(a) + Letters(b)
    decreases |a|
  {
    if a == [] {
      assert a + b == b;
    } else {
      assert (a + b)[0] == a[0] && (a + b)[1..] == a[1..] + b;
      LettersConcat(a[1..], b);
    }
  }

  lemma {:induction false} LettersOfWord(w: string)
    requires forall i :: 0 <= i < |w| ==> LowerOrDigit(w[i])
    ensures Letters(w) == w
  {
    if w != [] {
      LettersOfWord(w[1..]);
      assert w == [w[0]] + w[1..];
    }
  }

  lemma {:induction false} LettersOfHyphenated(words: seq<string>)
    requires AreWords(words)
    ensures Letters(Hyphenate(words)) == Concatenate(words)
  {
    if words != [] {
      var w := words[0];
      assert IsWord(w);
      LettersOfWord(w);
      if |words| > 1 {
        var rest := Hyphenate(words[1..]);
        LettersOfHyphenated(words[1..]);
        LettersConcat(w + "-", rest);
        LettersConcat(w, "-");
        assert Letters("-") == "" && w + "" == w;
        assert Hyphenate(words) == (w + "-") + rest;
      } else {
        assert Concatenate(words[1..]) == "" && w + "" == w;
      }
    }
  }

  /** A slug has exactly the letters and digits of the name; a name without any gives the default. */
  lemma SlugKeepsLetters(s: string)
    ensures if Letters(s) == "" then Slug(s) == "target" else Letters(Slug(s)) == Letters(s)
  {
    var words := Words(s, "");
    WordsHoldLetters(s, "");
    WordsAreWords(s, "");
    assert "" + Letters(s) == Letters(s);
    if words != [] {
      assert IsWord(words[0]);
      LettersOfHyphenated(words);
    }
  }

  // ----- Paths -----

  /** `unicode.IsSpace`, as far as `strings.TrimSpace` uses it. */
  predicate IsSpace(c: char) {
    || c == ' ' || '\t' <= c <= '\r' || c == '\U{85}' || c == '\U{A0}' || c == '\U{1680}' || '\U{2000}' <= c <= '\U{200A}'
    || c == '\U{2028}' || c == '\U{2029}' || c == '\U{202F}' || c == '\U{205F}' || c == '\U{3000}'
  }

  function TrimSpace(s: string): (r: string)
    ensures r != "" ==> !IsSpace(r[0]) && !IsSpace(r[|r| - 1])
    decreases |s|
  {
    if s != [] && IsSpace(s[0]) then TrimSpace(s[1..])
    else if s != [] && IsSpace(s[|s| - 1]) then TrimSpace(s[..|s| - 1])
    else s
  }

  lemma {:induction false} TrimSpaceWithin(s: string, c: char)
    requires c !in s
    ensures c !in TrimSpace(s)
    decreases |s|
  {
    if s != [] && IsSpace(s[0]) {
      TrimSpaceWithin(s[1..], c);
    } else if s != [] && IsSpace(s[|s| - 1]) {
      TrimSpaceWithin(s[..|s| - 1], c);
    }
  }

  predicate Plain(part: string) {
    && part != "" && part != "." && part != ".." && '/' !in part
    && !IsSpace(part[0]) && !IsSpace(part[|part| - 1])
  }

  predicate ArePlain(parts: seq<string>) { forall i :: 0 <= i < |parts| ==> Plain(parts[i]) }

  /** What one part contributes to a path. */
  function KeptPart(part: string): seq<string> {
    var t := TrimSpace(part);
    if t == "" || t == "." || t == ".." then [] else [t]
  }

  function KeptParts(parts: seq<string>): seq<string> {
    if parts == [] then [] else KeptPart(parts[0]) + KeptParts(parts[1..])
  }

  function NormalParts(p: string): seq<string> { KeptParts(Split(TrimSlashes(TrimSpace(p)))) }

  lemma {:induction false} KeptConcat(a: seq<string>, b: seq<string>)
    ensures KeptParts(a + b) == KeptParts(a) + KeptParts(b)
    decreases |a|
  {
    if a == [] {
      assert a + b == b;
    } else {
      KeptConcat(a[1..], b);
      assert (a + b)[0] == a[0] && (a + b)[1..] == a[1..] + b;
      KeptAssociative(KeptPart(a[0]), KeptParts(a[1..]), KeptParts(b));
    }
  }

  lemma KeptAssociative(a: seq<string>, b: seq<string>, c: seq<string>)
    ensures a + (b + c) == (a + b) + c
  {
  }

  lemma KeptOne(w: string)
    ensures KeptParts([w]) == KeptPart(w)
  {
    assert KeptParts([w][1..]) == [];
  }

  lemma KeptNext(parts: seq<string>, i: nat)
    requires i < |parts|
    ensures KeptParts(parts[..i + 1]) == KeptParts(parts[..i]) + KeptPart(parts[i])
  {
    assert parts[..i + 1] == parts[..i] + [parts[i]];
    KeptConcat(parts[..i], [parts[i]]);
    KeptOne(parts[i]);
  }

  method NormalizeTargetPath(path: string) returns (r: string)
    ensures r == Join(NormalParts(path))
  {
    var p := TrimSpace(path);
    p := TrimSlashesLoop(p);
    KeptOne("");
    if p == "" { return ""; }
    var parts := Split(p);
    var out := [];
    for i := 0 to |parts|
      invariant out == KeptParts(parts[..i])
    {
      KeptNext(parts, i);
      var part := TrimSpace(parts[i]);
      if part == "" || part == "." || part == ".." { continue; }
      out := out + [part];
    }
    assert parts[..|parts|] == parts;
    r := Join(out);
  }

  lemma {:induction false} KeptArePlain(parts: seq<string>)
    requires Clean(parts)
    ensures ArePlain(KeptParts(parts))
  {
    if parts != [] {
      KeptArePlain(parts[1..]);
      TrimSpaceWithin(parts[0], '/');
    }
  }

  lemma {:induction false} PlainAreKept(parts: seq<string>)
    requires ArePlain(parts)
    ensures KeptParts(parts) == parts
  {
    if parts != [] {
      PlainAreKept(parts[1..]);
      assert TrimSpace(parts[0]) == parts[0];
    }
  }

  lemma {:induction false} PlainEdges(parts: seq<string>)
    requires ArePlain(parts) && parts != []
    ensures var s := Join(parts); s != "" && s[0] == parts[0][0] && !IsSpace(s[|s| - 1]) && s[|s| - 1] != '/'
  {
    assert Plain(parts[0]);
    if |parts| > 1 { PlainEdges(parts[1..]); }
  }

  /** A normalised path is its plain segments, and normalising it again changes nothing. */
  lemma NormalizeIdempotent(p: string)
    ensures ArePlain(NormalParts(p))
    ensures NormalParts(Join(NormalParts(p))) == NormalParts(p)
    ensures NormalParts(p) != [] ==> Split(Join(NormalParts(p))) == NormalParts(p)
  {
    var trimmed := TrimSlashes(TrimSpace(p));
    SplitClean(trimmed);
    KeptArePlain(Split(trimmed));
    var parts := NormalParts(p);
    if parts != [] {
      PlainEdges(parts);
      SplitJoin(parts);
      PlainAreKept(parts);
    }
  }

  predicate AllSpace(s: string) { forall i :: 0 <= i < |s| ==> IsSpace(s[i]) }

  lemma WiderFront(c: char, a: string, x: string, b: string)
    ensures [c] + (a + x + b) == ([c] + a) + x + b
    ensures IsSpace(c) && AllSpace(a) ==> AllSpace([c] + a)
  {
  }

  lemma WiderBack(a: string, x: string, b: string, c: char)
    ensures (a + x + b) + [c] == a + x + (b + [c])
    ensures AllSpace(b) && IsSpace(c) ==> AllSpace(b + [c])
  {
  }

  /** Trimming removes space at the ends and nothing else. */
  lemma {:induction false} TrimSpaceIs(s: string) returns (before: string, after: string)
    ensures s == before + TrimSpace(s) + after && AllSpace(before) && AllSpace(after)
    decreases |s|
  {
    var core := TrimSpace(s);
    if s != [] && IsSpace(s[0]) {
      before, after := TrimSpaceIs(s[1..]);
      assert s == [s[0]] + s[1..];
      WiderFront(s[0], before, core, after);
      before := [s[0]] + before;
    } else if s != [] && IsSpace(s[|s| - 1]) {
      before, after := TrimSpaceIs(s[..|s| - 1]);
      assert s == s[..|s| - 1] + [s[|s| - 1]];
      WiderBack(before, core, after, s[|s| - 1]);
      after := after + [s[|s| - 1]];
    } else {
      before, after := "", "";
      assert "" + s + "" == s;
    }
  }

  lemma {:induction false} TrimSpaceSnoc(s: string, c: char)
    requires IsSpace(c)
    ensures TrimSpace(s + [c]) == TrimSpace(s)
    decreases |s|
  {
    var t := s + [c];
    if s == [] {
      assert t == [c] && t[1..] == [];
    } else if IsSpace(s[0]) {
      TrimSpaceSnoc(s[1..], c);
      assert t[0] == s[0] && t[1..] == s[1..] + [c];
    } else {
      assert t[0] == s[0] && t[..|t| - 1] == s;
    }
  }

  /** Space and slashes at the ends of the whole path make no difference. */
  lemma KeptIgnoresEnds(p: string, c: char)
    requires IsSpace(c) || c == '/'
    ensures KeptParts(Split([c] + p)) == KeptParts(Split(p)) == KeptParts(Split(p + [c]))
  {
    var parts := Split(p);
    var n := |parts| - 1;
    assert ([c] + p)[1..] == p;
    assert parts == [parts[0]] + parts[1..] && parts == parts[..n] + [parts[n]];
    KeptConcat([parts[0]], parts[1..]);
    KeptConcat(parts[..n], [parts[n]]);
    KeptOne(parts[0]);
    KeptOne(parts[n]);
    if c == '/' {
      KeptConcat([""], parts);
      KeptOne("");
      SplitConcat(p, "");
      assert p + "/" + "" == p + [c];
      KeptConcat(parts, [""]);
    } else {
      var first, last := [c] + parts[0], parts[n] + [c];
      KeptConcat([first], parts[1..]);
      KeptOne(first);
      assert first[1..] == parts[0];
      SplitAppend(p, [c]);
      KeptConcat(parts[..n], [last]);
      KeptOne(last);
      TrimSpaceSnoc(parts[n], c);
    }
  }

  predicate Trimmable(c: char) { IsSpace(c) || c == '/' }

  lemma KeptWithoutFirst(p: string, c: char, q: string)
    requires p == [c] + q && Trimmable(c)
    ensures KeptParts(Split(q)) == KeptParts(Split(p))
  {
    KeptIgnoresEnds(q, c);
  }

  lemma KeptWithoutLast(p: string, q: string, c: char)
    requires p == q + [c] && Trimmable(c)
    ensures KeptParts(Split(q)) == KeptParts(Split(p))
  {
    KeptIgnoresEnds(q, c);
  }

  lemma {:induction false} KeptOfTrimmedSpace(p: string)
    ensures KeptParts(Split(TrimSpace(p))) == KeptParts(Split(p))
    decreases |p|
  {
    if p != [] && IsSpace(p[0]) {
      KeptWithoutFirst(p, p[0], p[1..]);
      KeptOfTrimmedSpace(p[1..]);
    } else if p != [] && IsSpace(p[|p| - 1]) {
      KeptWithoutLast(p, p[..|p| - 1], p[|p| - 1]);
      KeptOfTrimmedSpace(p[..|p| - 1]);
    }
  }

  lemma {:induction false} KeptOfTrimmedSlashes(p: string)
    ensures KeptParts(Split(TrimSlashes(p))) == KeptParts(Split(p))
    decreases |p|
  {
    if p != [] && p[0] == '/' {
      KeptWithoutFirst(p, p[0], p[1..]);
      KeptOfTrimmedSlashes(p[1..]);
    } else if p != [] && p[|p| - 1] == '/' {
      KeptWithoutLast(p, p[..|p| - 1], p[|p| - 1]);
      KeptOfTrimmedSlashes(p[..|p| - 1]);
    }
  }

  /** Normalising goes part by part: it keeps every part, trimmed, but the empty ones and the dots. */
  lemma NormalByParts(a: string, b: string)
    ensures NormalParts(a + "/" + b) == NormalParts(a) + NormalParts(b)
    ensures '/' !in a ==>
              NormalParts(a) == if TrimSpace(a) == "" || TrimSpace(a) == "." || TrimSpace(a) == ".." then [] else [TrimSpace(a)]
  {
    NormalIsKept(a);
    NormalIsKept(b);
    NormalIsKept(a + "/" + b);
    SplitConcat(a, b);
    KeptConcat(Split(a), Split(b));
    if '/' !in a {
      SplitWord(a);
      KeptOne(a);
    }
  }

  lemma NormalIsKept(p: string)
    ensures NormalParts(p) == KeptParts(Split(p))
  {
    KeptOfTrimmedSpace(p);
    KeptOfTrimmedSlashes(TrimSpace(p));
  }

  // ----- The suffix search -----

  /** `strconv.Itoa` on naturals. */
  function Itoa(n: nat): (r: string)
    ensures |r| > 0 && forall i :: 0 <= i < |r| ==> '0' <= r[i] <= '9'
  {
    var d := [(n % 10 + '0' as int) as char];
    if n < 10 then d else Itoa(n / 10) + d
  }

  lemma {:induction false} ItoaInjective(m: nat, n: nat)
    requires Itoa(m) == Itoa(n)
    ensures m == n
  {
    var s := Itoa(m);
    assert s[|s| - 1] as int - '0' as int == m % 10 == n % 10;
    if m >= 10 && n >= 10 {
      assert Itoa(m)[..|s| - 1] == Itoa(m / 10) && Itoa(n)[..|s| - 1] == Itoa(n / 10);
      ItoaInjective(m / 10, n / 10);
    }
  }

  /** The identifier tried in round `i`. */
  function Candidate(base: string, i: nat): string {
    if i > 0 then base + "-" + Itoa(i) else base
  }

  lemma CandidateInjective(base: string, i: nat, j: nat)
    requires Candidate(base, i) == Candidate(base, j)
    ensures i == j
  {
    if i > 0 && j > 0 {
      var n := |base| + 1;
      assert Candidate(base, i)[n..] == Itoa(i) && Candidate(base, j)[n..] == Itoa(j);
      ItoaInjective(i, j);
    }
  }

  function Utf8Length(s: string): nat {
    if s == [] then 0
    else (if s[0] < '\U{80}' then 1 else if s[0] < '\U{800}' then 2 else if s[0] < '\U{10000}' then 3 else 4) + Utf8Length(s[1..])
  }

  predicate IsControl(c: char) { c < ' ' || '\U{7F}' <= c <= '\U{9F}' }

  /** `validateName` accepts. */
  predicate ValidName(name: string) {
    name != "" && Utf8Length(name) <= 512 && forall c :: c in name && c != '\t' ==> !IsControl(c)
  }

  lemma {:induction false} Utf8LengthOfAscii(s: string)
    requires forall i :: 0 <= i < |s| ==> s[i] < '\U{80}'
    ensures Utf8Length(s) == |s|
  {
    if s != [] { Utf8LengthOfAscii(s[1..]); }
  }

  /** Which ASCII names are accepted: up to 512 characters, none a control character but the tab. */
  lemma ValidAsciiNameIff(name: string)
    requires forall i :: 0 <= i < |name| ==> name[i] < '\U{80}'
    ensures ValidName(name) <==>
              0 < |name| <= 512 && forall i :: 0 <= i < |name| ==> name[i] == '\t' || ' ' <= name[i] <= '~'
  {
    Utf8LengthOfAscii(name);
    assert forall i :: 0 <= i < |name| ==> name[i] in name;
  }

  /** `validateTargetID` accepts. */
  predicate ValidTargetId(id: string) { IdSegment(id) && |id| <= 512 }

  /** Reading digits back. */
  function Atoi(s: string): int {
    if s == [] then 0 else Atoi(s[..|s| - 1]) * 10 + (s[|s| - 1] as int - '0' as int)
  }

  /** The suffix is the decimal form of the round, without leading zeros. */
  lemma {:induction false} ItoaReadsBack(n: nat)
    ensures Atoi(Itoa(n)) == n && (n > 0 ==> Itoa(n)[0] != '0')
  {
    var d := [(n % 10 + '0' as int) as char];
    if n >= 10 {
      ItoaReadsBack(n / 10);
      assert (Itoa(n / 10) + d)[..|Itoa(n / 10)|] == Itoa(n / 10);
    } else {
      assert d[..0] == [];
    }
  }

  /** The candidates: the base itself, then the base with the number of the round. */
  lemma CandidateReads(base: string, i: nat)
    ensures Candidate(base, 0) == base
    ensures i > 0 ==> exists d :: Candidate(base, i) == base + "-" + d && Atoi(d) == i && d != "" && d[0] != '0'
  {
    ItoaReadsBack(i);
  }

  datatype Outcome = Created(id: string) | Rejected

  /**
   Round `i` does not end the search: the id is valid, and its insertion is reported as a collision,
   which the stores do for an existing id and for any error (`errs`) alike.
   */
  predicate GoesOn(base: string, ids: set<string>, valid: string -> bool, errs: nat -> bool, i: nat) {
    valid(Candidate(base, i)) && (Candidate(base, i) in ids || errs(i))
  }

  /** Round `k` is the first that ends the search. */
  ghost predicate StopsAt(base: string, ids: set<string>, valid: string -> bool, errs: nat -> bool, k: nat) {
    (forall j: nat :: j < k ==> GoesOn(base, ids, valid, errs, j)) && !GoesOn(base, ids, valid, errs, k)
  }

  /** What a search that stops at `k` returns and leaves in the table; it can stop nowhere else. */
  ghost predicate Ends(base: string, ids: set<string>, valid: string -> bool, errs: nat -> bool, k: nat, r: Outcome, after: set<string>) {
    && StopsAt(base, ids, valid, errs, k)
    && (forall m: nat :: StopsAt(base, ids, valid, errs, m) ==> m == k)
    && r == (if valid(Candidate(base, k)) then Created(Candidate(base, k)) else Rejected)
    && after == if r.Created? then ids + {r.id} else ids
  }

  lemma {:induction false} FirstStop(base: string, ids: set<string>, valid: string -> bool, errs: nat -> bool, i: nat) returns (k: nat)
    requires !GoesOn(base, ids, valid, errs, i)
    ensures k <= i && StopsAt(base, ids, valid, errs, k)
    decreases i
  {
    if j: nat :| j < i && !GoesOn(base, ids, valid, errs, j) {
      k := FirstStop(base, ids, valid, errs, j);
    } else {
      k := i;
    }
  }

  // ----- Does the search end? -----

  /** The suffix is a 64-bit int. */
  const MAX_SUFFIX: nat := 0x7fff_ffff_ffff_ffff

  function Pow10(n: nat): nat { if n == 0 then 1 else 10 * Pow10(n - 1) }

  lemma {:induction false} ItoaLength(n: nat, d: nat)
    requires d > 0 && n < Pow10(d) && (d > 1 ==> Pow10(d - 1) <= n)
    ensures |Itoa(n)| == d
  {
    if d > 1 {
      Pow10Positive(d - 2);
      ItoaLength(n / 10, d - 1);
    }
  }

  lemma {:induction false} Pow10Positive(n: nat)
    ensures Pow10(n) >= 1
  {
    if n > 0 { Pow10Positive(n - 1); }
  }

  lemma {:induction false} ItoaMonotone(m: nat, n: nat)
    requires m <= n
    ensures |Itoa(m)| <= |Itoa(n)|
    decreases n
  {
    if n >= 10 && m >= 10 { ItoaMonotone(m / 10, n / 10); }
  }

  lemma {:induction false} Pow10Add(m: nat, n: nat)
    ensures Pow10(m + n) == Pow10(m) * Pow10(n)
  {
    if m > 0 { Pow10Add(m - 1, n); }
  }

  /** The longest suffix has 19 digits. */
  lemma LongestSuffix()
    ensures |Itoa(MAX_SUFFIX)| == 19
  {
    Pow10Add(3, 3);
    Pow10Add(6, 6);
    Pow10Add(12, 6);
    assert Pow10(3) == 1000;
    assert Pow10(18) == 1_000_000_000_000_000_000;
    assert Pow10(19) == 10 * Pow10(18);
    ItoaLength(MAX_SUFFIX, 19);
  }

  /** The validator looks at the shape of the base and at the length, as both validators do. */
  ghost predicate ByShapeAndLength(base: string, valid: string -> bool, wellFormed: bool) {
    if wellFormed then forall i: nat :: valid(Candidate(base, i)) <==> |Candidate(base, i)| <= 512
    else !valid(Candidate(base, 0))
  }

  /** Some round within the range of the suffix ends the search. */
  ghost predicate SearchEnds(base: string, ids: set<string>, valid: string -> bool, errs: nat -> bool) {
    exists k: nat :: k <= MAX_SUFFIX && StopsAt(base, ids, valid, errs, k)
  }

  /** The candidate of round `i` is free and its insertion meets no error. */
  predicate Insertable(base: string, ids: set<string>, errs: nat -> bool, i: nat) {
    i <= MAX_SUFFIX && Candidate(base, i) !in ids && !errs(i)
  }

  /**
   The search ends exactly if the base is malformed, or so long that a suffix takes it over the
   limit, or some candidate is free and inserted without an error.
   */
  lemma SearchEndsIff(base: string, ids: set<string>, valid: string -> bool, errs: nat -> bool, wellFormed: bool)
    requires ByShapeAndLength(base, valid, wellFormed)
    ensures SearchEnds(base, ids, valid, errs) <==>
            !wellFormed || |base| > 492 || exists i: nat :: Insertable(base, ids, errs, i)
  {
    LongestSuffix();
    if SearchEnds(base, ids, valid, errs) && wellFormed && |base| <= 492 {
      var k: nat :| k <= MAX_SUFFIX && StopsAt(base, ids, valid, errs, k);
      ItoaMonotone(k, MAX_SUFFIX);
      assert valid(Candidate(base, k));
      assert Insertable(base, ids, errs, k);
    }
    if !wellFormed {
      var k := FirstStop(base, ids, valid, errs, 0);
    } else if |base| > 492 {
      assert !valid(Candidate(base, MAX_SUFFIX));
      var k := FirstStop(base, ids, valid, errs, MAX_SUFFIX);
    } else if i: nat :| Insertable(base, ids, errs, i) {
      var k := FirstStop(base, ids, valid, errs, i);
    }
  }

  /** The handler for targets. */
  lemma TargetSearchEndsIff(base: string, ids: set<string>, errs: nat -> bool)
    ensures SearchEnds(base, ids, ValidTargetId, errs) <==>
            !IdSegment(base) || |base| > 492 || exists i: nat :: Insertable(base, ids, errs, i)
  {
    SearchEndsIff(base, ids, ValidTargetId, errs, IdSegment(base));
  }

  /** A group id apart from its length. */
  predicate PathShaped(base: string) { forall i :: 0 <= i < |Split(base)| ==> IdSegment(Split(base)[i]) }

  lemma PathOfCandidate(base: string, i: nat)
    requires PathShaped(base)
    ensures ValidGroupId(Candidate(base, i)) <==> |Candidate(base, i)| <= 512
  {
    var p := Split(base);
    assert IdSegment(p[0]);
    if i > 0 {
      var tail := "-" + Itoa(i);
      assert '/' !in tail;
      SplitAppend(base, tail);
      assert base + "-" + Itoa(i) == base + tail;
      assert IdSegment(p[|p| - 1]);
      assert IdSegment(p[|p| - 1] + tail);
    }
  }

  /** The handler for groups. */
  lemma GroupSearchEndsIff(base: string, ids: set<string>, errs: nat -> bool)
    ensures SearchEnds(base, ids, ValidGroupId, errs) <==>
            !PathShaped(base) || |base| > 492 || exists i: nat :: Insertable(base, ids, errs, i)
  {
    if PathShaped(base) {
      forall i: nat ensures ValidGroupId(Candidate(base, i)) <==> |Candidate(base, i)| <= 512 { PathOfCandidate(base, i); }
    }
    SearchEndsIff(base, ids, ValidGroupId, errs, PathShaped(base));
  }

  /** When every insertion fails, as under a cancelled request context, no round of either search ends it. */
  lemma FailingStoreNeverEnds(name: string, ids: set<string>, errs: nat -> bool)
    requires (forall i: nat :: errs(i)) && |Slug(name)| <= 492
    ensures !SearchEnds(Slug(name), ids, ValidTargetId, errs) && !SearchEnds(Slug(name), ids, ValidGroupId, errs)
  {
    SlugIsCanonical(name);
    assert '/' !in Slug(name);
    SplitWord(Slug(name));
    TargetSearchEndsIff(Slug(name), ids, errs);
    GroupSearchEndsIff(Slug(name), ids, errs);
  }

  /** Rounds that go on use up an existing id or an error each. */
  lemma {:induction false} Pigeonhole(base: string, ids: set<string>, errors: set<nat>, k: nat)
    requires forall j: nat :: j < k ==> Candidate(base, j) in ids || j in errors
    ensures k <= |ids| + |errors|
    decreases k
  {
    if k > 0 {
      var c := Candidate(base, k - 1);
      if c in ids {
        forall j: nat | j < k - 1 ensures Candidate(base, j) in ids - {c} || j in errors {
          if Candidate(base, j) == c { CandidateInjective(base, j, k - 1); }
        }
        Pigeonhole(base, ids - {c}, errors, k - 1);
      } else {
        Pigeonhole(base, ids, errors - {k - 1}, k - 1);
      }
    }
  }

  lemma RoundsBound(base: string, ids: set<string>, valid: string -> bool, errs: nat -> bool, errors: set<nat>, k: nat)
    requires forall i: nat :: errs(i) ==> i in errors
    requires forall j: nat :: j < k ==> GoesOn(base, ids, valid, errs, j)
    ensures k <= |ids| + |errors|
  {
    forall j: nat | j < k ensures Candidate(base, j) in ids || j in errors {
      assert GoesOn(base, ids, valid, errs, j);
    }
    Pigeonhole(base, ids, errors, k);
  }

  lemma StopIsUnique(base: string, ids: set<string>, valid: string -> bool, errs: nat -> bool, k: nat)
    requires StopsAt(base, ids, valid, errs, k)
    ensures forall m: nat :: StopsAt(base, ids, valid, errs, m) ==> m == k
  {
  }

  /** The search has ended, with the validator of groups. */
  ghost predicate GroupEnds(base: string, ids: set<string>, errs: nat -> bool, r: Outcome, after: set<string>) {
    exists k: nat :: Ends(base, ids, ValidGroupId, errs, k, r, after)
  }

  lemma EndsForGroups(base: string, ids: set<string>, errs: nat -> bool, k: nat, r: Outcome, after: set<string>)
    requires Ends(base, ids, ValidGroupId, errs, k, r, after)
    ensures GroupEnds(base, ids, errs, r, after)
  {
  }

  /** The rows of access_groups or targets, by primary key. */
  class Registry {
    var ids: set<string>

    constructor (ids: set<string>)
      ensures this.ids == ids
    {
      this.ids := ids;
    }

    /**
     The create loop of both handlers, for the validator of the store.  With finitely many insertion
     errors it ends, after at most one more round than there are ids and errors, at the least
     suffix that is invalid, or free and stored without an error.
     */
    method CreateFresh(base: string, valid: string -> bool, errs: nat -> bool, ghost errors: set<nat>)
      returns (r: Outcome, ghost k: nat)
      requires forall i: nat :: errs(i) ==> i in errors
      modifies this
      ensures Ends(base, old(ids), valid, errs, k, r, ids) && k <= |old(ids)| + |errors|
    {
      var id := base;
      var i: nat := 0;
      while true
        invariant ids == old(ids) && (i == 0 ==> id == base)
        invariant forall j: nat :: j < i ==> GoesOn(base, ids, valid, errs, j)
        decreases |ids| + |errors| - i
      {
        RoundsBound(base, ids, valid, errs, errors, i);
        if i > 0 {
          id := base + "-" + Itoa(i);
        }
        assert id == Candidate(base, i);
        if !valid(id) {
          StopIsUnique(base, ids, valid, errs, i);
          return Rejected, i;
        }
        if id !in ids && !errs(i) {
          StopIsUnique(base, ids, valid, errs, i);
          ids := ids + {id};
          return Created(id), i;
        }
        RoundsBound(base, ids, valid, errs, errors, i + 1);
        i := i + 1;
      }
    }

    /** `handleCreateGroup` up to the insertion; a bad name makes the first `Create` fail whatever the id. */
    method HandleCreateGroup(reqName: string, reqPath: string, errs: nat -> bool, ghost errors: set<nat>) returns (r: Outcome)
      requires forall i: nat :: errs(i) ==> i in errors
      modifies this
      ensures !ValidName(TrimSpace(reqName)) ==> r == Rejected && ids == old(ids)
      ensures ValidName(TrimSpace(reqName)) ==>
                GroupEnds(Join(NormalParts(reqPath) + [Slug(TrimSpace(reqName))]), old(ids), errs, r, ids)
    {
      var name := TrimSpace(reqName);
      var base := GroupBase(name, reqPath);
      if name == "" || !ValidName(name) { return Rejected; }
      ghost var k;
      r, k := CreateFresh(base, ValidGroupId, errs, errors);
      EndsForGroups(base, old(ids), errs, k, r, ids);
    }
  }

  /** The id to try first: the slug of the name below the normalised path. */
  method GroupBase(name: string, reqPath: string) returns (base: string)
    ensures base == Join(NormalParts(reqPath) + [Slug(name)])
  {
    var path := NormalizeTargetPath(reqPath);
    base := SlugID(name);
    BaseIsPath(reqPath, base);
    if path != "" { base := path + "/" + base; }
  }

  lemma BaseIsPath(p: string, slug: string)
    ensures var parts := NormalParts(p);
            Join(parts + [slug]) == if Join(parts) == "" then slug else Join(parts) + "/" + slug
  {
    var parts := NormalParts(p);
    NormalizeIdempotent(p);
    if parts == [] {
      assert parts + [slug] == [slug];
    } else {
      PlainEdges(parts);
      JoinConcat(parts, [slug]);
    }
  }

  /** With a slug as the base, only the length limit can reject a target id. */
  lemma SlugCandidatesValid(name: string, i: nat)
    ensures var id := Candidate(Slug(name), i); ValidTargetId(id) <==> |id| <= 512
  {
    SlugIsCanonical(name);
  }

  /** Likewise for a group id below a valid parent path. */
  lemma GroupCandidatesValid(path: string, name: string, i: nat)
    requires ValidGroupId(path)
    ensures var id := Candidate(path + "/" + Slug(name), i); ValidGroupId(id) <==> |id| <= 512
  {
    var leaf := Candidate(Slug(name), i);
    SlugIsCanonical(name);
    assert IdSegment(leaf);
    ChildValid(path, leaf);
    assert Candidate(path + "/" + Slug(name), i) == path + "/" + leaf;
  }

  lemma ChildValid(path: string, leaf: string)
    requires ValidGroupId(path) && IdSegment(leaf)
    ensures var id := path + "/" + leaf; ValidGroupId(id) <==> |id| <= 512
  {
    assert '/' !in leaf;
    SplitWord(leaf);
    SplitConcat(path, leaf);
  }
}
