/**
 The PTY line tracker (internal/httpapi/command_line_tracker.go): an incremental lexer for
 terminal output that buffers incomplete escape sequences across chunks and drives a
 one-line editor.

 The first half is the lexer: what a complete escape sequence is, how a byte stream splits
 into lexemes, and why chunking cannot be observed.  The second half is the editor with its
 64-bit arithmetic.  The class at the end is the code itself, proved against both.
 */
module CommandLine {

  type Byte = b: int | 0 <= b < 256

  const ESC: Byte := 0x1b
  const BEL: Byte := 0x07
  const OSC: Byte := 0x5d       // ']'
  const CSI: Byte := 0x5b       // '['
  const BACKSLASH: Byte := 0x5c

  predicate IsFinal(b: Byte) { 0x40 <= b <= 0x7e }

  // ----- Lexing -----

  function OscEnd(s: seq<Byte>, j: nat): nat
    requires j <= |s|
    decreases |s| - j
  {
    if j == |s| then 0
    else if s[j] == BEL then j + 1
    else if s[j] == ESC && j + 1 < |s| && s[j + 1] == BACKSLASH then j + 2
    else OscEnd(s, j + 1)
  }

  function CsiEnd(s: seq<Byte>, j: nat): nat
    requires j <= |s|
    decreases |s| - j
  {
    if j == |s| then 0 else if IsFinal(s[j]) then j + 1 else CsiEnd(s, j + 1)
  }

  /** Length of the escape sequence at the front of `s`, or 0 while it is incomplete. */
  function EscapeLength(s: seq<Byte>): nat
    requires |s| > 0 && s[0] == ESC
  {
    if |s| == 1 then 0
    else if s[1] == OSC then OscEnd(s, 2)
    else if s[1] == CSI then CsiEnd(s, 2)
    else if IsFinal(s[1]) then 2 else 0
  }

  // The grammar of complete sequences, stated without reference to any scan.

  predicate TerminatorAt(e: seq<Byte>, j: nat)
    requires j < |e|
  {
    e[j] == BEL || (e[j] == ESC && j + 1 < |e| && e[j + 1] == BACKSLASH)
  }

  predicate OscShape(e: seq<Byte>, payloadEnd: nat) {
    && 2 <= payloadEnd < |e| && e[0] == ESC && e[1] == OSC
    && (forall j :: 2 <= j < payloadEnd ==> !TerminatorAt(e, j))
    && (if e[payloadEnd] == BEL then |e| == payloadEnd + 1
        else |e| == payloadEnd + 2 && e[payloadEnd] == ESC && e[payloadEnd + 1] == BACKSLASH)
  }

  /** Operating system command: payload up to BEL or ESC backslash. */
  ghost predicate IsOsc(e: seq<Byte>) { exists k: nat :: OscShape(e, k) }

  /** Control sequence: parameter bytes up to the first final byte. */
  predicate IsCsi(e: seq<Byte>) {
    && |e| >= 3 && e[0] == ESC && e[1] == CSI && IsFinal(e[|e| - 1])
    && forall j :: 2 <= j < |e| - 1 ==> !IsFinal(e[j])
  }

  /** Two-byte escape. */
  predicate IsShort(e: seq<Byte>) {
    |e| == 2 && e[0] == ESC && IsFinal(e[1]) && e[1] != OSC && e[1] != CSI
  }

  ghost predicate Complete(e: seq<Byte>) { IsOsc(e) || IsCsi(e) || IsShort(e) }

  lemma {:induction false} OscEndSpec(s: seq<Byte>, j: nat, k: nat)
    requires 2 <= j <= |s| && s[0] == ESC && s[1] == OSC && k <= |s|
    requires forall i :: 2 <= i < j ==> !TerminatorAt(s, i)
    ensures OscEnd(s, j) <= |s|
    ensures IsOsc(s[..k]) <==> k != 0 && OscEnd(s, j) == k
    decreases |s| - j
  {
    if j == |s| || !TerminatorAt(s, j) {
      if j == |s| {
        NoOscPrefix(s, k);
      } else {
        OscEndSpec(s, j + 1, k);
      }
    } else {
      OscPrefixAt(s, j, k);
    }
  }

  lemma NoOscPrefix(s: seq<Byte>, k: nat)
    requires k <= |s| && forall i :: 2 <= i < |s| ==> !TerminatorAt(s, i)
    ensures !IsOsc(s[..k])
  {
    if IsOsc(s[..k]) {
      var p: nat :| OscShape(s[..k], p);
      assert TerminatorAt(s, p);
    }
  }

  /** The first terminator decides which prefix is the complete sequence. */
  lemma OscPrefixAt(s: seq<Byte>, j: nat, k: nat)
    requires 2 <= j < |s| && s[0] == ESC && s[1] == OSC && k <= |s|
    requires TerminatorAt(s, j) && forall i :: 2 <= i < j ==> !TerminatorAt(s, i)
    ensures IsOsc(s[..k]) <==> k == if s[j] == BEL then j + 1 else j + 2
  {
    var e := s[..k];
    if k == if s[j] == BEL then j + 1 else j + 2 {
      forall i | 2 <= i < j ensures !TerminatorAt(e, i) { assert !TerminatorAt(s, i); }
      assert OscShape(e, j);
    }
    if IsOsc(e) {
      var p: nat :| OscShape(e, p);
      assert TerminatorAt(s, p);
      if p > j {
        assert !TerminatorAt(e, j);
      }
    }
  }

  lemma {:induction false} CsiEndSpec(s: seq<Byte>, j: nat, k: nat)
    requires 2 <= j <= |s| && s[0] == ESC && s[1] == CSI && k <= |s|
    requires forall i :: 2 <= i < j ==> !IsFinal(s[i])
    ensures CsiEnd(s, j) <= |s|
    ensures IsCsi(s[..k]) <==> k != 0 && CsiEnd(s, j) == k
    decreases |s| - j
  {
    if j < |s| && !IsFinal(s[j]) {
      CsiEndSpec(s, j + 1, k);
    } else if IsCsi(s[..k]) {
      assert s[..k][k - 1] == s[k - 1];
    }
  }

  /**
   The scan recognises the grammar: the prefix of length k is a complete sequence exactly
   when k is the length the scan reports.  In particular at most one prefix is complete.
   */
  lemma EscapeLengthSpec(s: seq<Byte>, k: nat)
    requires |s| > 0 && s[0] == ESC && k <= |s|
    ensures EscapeLength(s) <= |s| && EscapeLength(s) != 1
    ensures Complete(s[..k]) <==> k != 0 && EscapeLength(s) == k
  {
    if |s| == 1 {
      assert !Complete(s[..k]);
    } else {
      if s[1] == OSC { OscEndSpec(s, 2, k); OscNotShortest(s, 2); }
      if s[1] == CSI { CsiEndSpec(s, 2, k); CsiNotShortest(s, 2); }
      assert k >= 2 ==> s[..k][1] == s[1];
      assert k >= 1 ==> s[..k][0] == s[0];
    }
  }

  lemma {:induction false} OscNotShortest(s: seq<Byte>, j: nat)
    requires 2 <= j <= |s|
    ensures OscEnd(s, j) == 0 || OscEnd(s, j) > 2
    decreases |s| - j
  {
    if j < |s| && s[j] != BEL && !(s[j] == ESC && j + 1 < |s| && s[j + 1] == BACKSLASH) {
      OscNotShortest(s, j + 1);
    }
  }

  lemma {:induction false} CsiNotShortest(s: seq<Byte>, j: nat)
    requires 2 <= j <= |s|
    ensures CsiEnd(s, j) == 0 || CsiEnd(s, j) > 2
    decreases |s| - j
  {
    if j < |s| && !IsFinal(s[j]) { CsiNotShortest(s, j + 1); }
  }

  /** A complete sequence is recognised with the same length on every extension. */
  lemma EscapeLengthStable(s: seq<Byte>, t: seq<Byte>)
    requires |s| > 0 && s[0] == ESC && EscapeLength(s) != 0
    ensures EscapeLength(s + t) == EscapeLength(s) <= |s|
  {
    var n := EscapeLength(s);
    EscapeLengthSpec(s, 0);
    EscapeLengthSpec(s, n);
    assert (s + t)[..n] == s[..n];
    EscapeLengthSpec(s + t, n);
  }

  datatype Lexeme = Plain(b: Byte) | Escape(bytes: seq<Byte>)

  datatype Scanned = Scanned(toks: seq<Lexeme>, rest: seq<Byte>)

  function Prepend(x: Lexeme, s: Scanned): Scanned { Scanned([x] + s.toks, s.rest) }

  function Append(toks: seq<Lexeme>, s: Scanned): Scanned { Scanned(toks + s.toks, s.rest) }

  lemma PrependAppend(x: Lexeme, a: Scanned, b: Scanned)
    ensures Prepend(x, Append(a.toks, b)) == Append(Prepend(x, a).toks, b)
  {
    assert [x] + (a.toks + b.toks) == ([x] + a.toks) + b.toks;
  }

  /** How one `feed` splits its data: lexemes, then the incomplete escape that is buffered. */
  function Scan(data: seq<Byte>): Scanned
    decreases |data|
  {
    if data == [] then Scanned([], [])
    else if data[0] != ESC then
      Prepend(Plain(data[0]), Scan(data[1..]))
    else
      EscapeLengthSpec(data, 0);
      var n := EscapeLength(data);
      if n == 0 then Scanned([], data)
      else Prepend(Escape(data[..n]), Scan(data[n..]))
  }

  function LexemeBytes(x: Lexeme): seq<Byte> {
    match x case Plain(b) => [b] case Escape(e) => e
  }

  function Bytes(toks: seq<Lexeme>): seq<Byte> {
    if toks == [] then [] else LexemeBytes(toks[0]) + Bytes(toks[1..])
  }

  ghost predicate WellFormed(x: Lexeme) {
    match x case Plain(b) => b != ESC case Escape(e) => Complete(e)
  }

  /** No prefix of a buffered remainder is complete; it is empty or starts with ESC. */
  ghost predicate Unfinished(rest: seq<Byte>) {
    rest != [] ==> rest[0] == ESC && forall k: nat :: k <= |rest| ==> !Complete(rest[..k])
  }

  ghost predicate Splits(s: Scanned, data: seq<Byte>) {
    && Bytes(s.toks) + s.rest == data
    && (forall i :: 0 <= i < |s.toks| ==> WellFormed(s.toks[i]))
    && Unfinished(s.rest)
  }

  /** Lossless lexing: lexemes and remainder partition the input, and all are well formed. */
  lemma {:induction false} ScanSplits(data: seq<Byte>)
    ensures Splits(Scan(data), data)
    decreases |data|
  {
    if data == [] {
    } else if data[0] != ESC {
      ScanSplits(data[1..]);
      PrependSplits(Plain(data[0]), Scan(data[1..]), data[1..]);
      assert data == [data[0]] + data[1..];
    } else {
      var n := EscapeLength(data);
      EscapeLengthSpec(data, 0);
      EscapeLengthSpec(data, n);
      if n == 0 {
        forall k: nat | k <= |data| ensures !Complete(data[..k]) { EscapeLengthSpec(data, k); }
        assert Bytes([]) + data == data;
      } else {
        ScanSplits(data[n..]);
        PrependSplits(Escape(data[..n]), Scan(data[n..]), data[n..]);
        assert data == data[..n] + data[n..];
      }
    }
  }

  lemma PrependSplits(x: Lexeme, s: Scanned, data: seq<Byte>)
    requires WellFormed(x) && Splits(s, data)
    ensures Splits(Scanned([x] + s.toks, s.rest), LexemeBytes(x) + data)
  {
    assert ([x] + s.toks)[1..] == s.toks;
    assert LexemeBytes(x) + (Bytes(s.toks) + s.rest) == (LexemeBytes(x) + Bytes(s.toks)) + s.rest;
  }

  /** A well-formed lexeme at the front is what the scan reads first. */
  lemma ScanPrepend(x: Lexeme, d: seq<Byte>)
    requires WellFormed(x)
    ensures Scan(LexemeBytes(x) + d) == Prepend(x, Scan(d))
  {
    var e := LexemeBytes(x);
    var n := |e|;
    assert n > 0 && (e + d)[0] == e[0];
    assert (e + d)[..n] == e && (e + d)[n..] == d;
    if x.Escape? {
      EscapeLengthSpec(e + d, n);
    }
  }

  /** The split is unambiguous: no other sequence of well-formed lexemes reads the same bytes. */
  lemma {:induction false} SplitUnique(s: Scanned, data: seq<Byte>)
    requires Splits(s, data)
    ensures s == Scan(data)
    decreases |s.toks|
  {
    if s.toks == [] {
      assert data == s.rest;
      if data != [] {
        EscapeLengthSpec(data, 0);
        EscapeLengthSpec(data, EscapeLength(data));
      }
    } else {
      var x, tail := s.toks[0], Scanned(s.toks[1..], s.rest);
      var d := Bytes(tail.toks) + tail.rest;
      assert data == LexemeBytes(x) + d;
      SplitUnique(tail, d);
      ScanPrepend(x, d);
      assert s == Prepend(x, tail);
    }
  }

  /** Scanning a concatenation resumes from the buffered remainder. */
  lemma {:induction false} ScanConcat(p: seq<Byte>, q: seq<Byte>)
    ensures Scan(p + q) == Append(Scan(p).toks, Scan(Scan(p).rest + q))
    decreases |p|
  {
    if p == [] {
      assert p + q == q;
    } else if p[0] != ESC {
      ScanConcat(p[1..], q);
      assert (p + q)[1..] == p[1..] + q;
      PrependAppend(Plain(p[0]), Scan(p[1..]), Scan(Scan(p[1..]).rest + q));
    } else if EscapeLength(p) != 0 {
      var n := EscapeLength(p);
      EscapeLengthStable(p, q);
      ScanConcat(p[n..], q);
      assert (p + q)[n..] == p[n..] + q && (p + q)[..n] == p[..n];
      PrependAppend(Escape(p[..n]), Scan(p[n..]), Scan(Scan(p[n..]).rest + q));
    } else {
      assert [] + Scan(p + q).toks == Scan(p + q).toks;
    }
  }

  // ----- The line editor -----

  const MAX_INT := 0x7fff_ffff_ffff_ffff
  const TWO_63 := 0x8000_0000_0000_0000
  const TWO_64 := 0x1_0000_0000_0000_0000

  /** The Go runtime refuses any slice longer than this (`maxAlloc` on 64-bit Linux). */
  const MAX_ALLOC := 0x1_0000_0000_0000

  /** Two's-complement wrap-around of Go's 64-bit `int`. */
  function Wrap(x: int): (r: int)
    ensures -TWO_63 <= r <= MAX_INT
    ensures MAX_INT < x <= MAX_INT + TWO_64 ==> r == x - TWO_64
    decreases if x < 0 then -1 - x else x
  {
    if x > MAX_INT then Wrap(x - TWO_64) else if x < -TWO_63 then Wrap(x + TWO_64) else x
  }

  datatype Cause = OutOfMemory | OutOfRange

  /**
   Line and cursor, or the Go runtime has panicked.  Overflow can leave the cursor outside the
   line, negative or past its end; the code then goes on until it recovers or slices out of range.
   */
  datatype Editor = Live(line: seq<Byte>, col: int) | Panicked(cause: Cause)

  /** Slice and cursor are representable. */
  predicate Sane(e: Editor) {
    e.Live? ==> |e.line| <= MAX_ALLOC && -TWO_63 <= e.col <= MAX_INT
  }

  /** The cursor is where it belongs. */
  predicate InLine(e: Editor) {
    e.Live? && 0 <= e.col <= |e.line| <= MAX_ALLOC
  }

  /** A slice that had to be allocated. */
  function Allocate(line: seq<Byte>, col: int): Editor {
    if |line| > MAX_ALLOC then Panicked(OutOfMemory) else Live(line, col)
  }

  function Min(a: int, b: int): int { if a < b then a else b }

  function Max0(x: int): nat { if x < 0 then 0 else x }

  predicate IsDigit(b: Byte) { 0x30 <= b <= 0x39 }

  /** Parameter bytes before the first semicolon. */
  function Head(params: seq<Byte>): seq<Byte> {
    if params == [] || params[0] == 0x3b then [] else [params[0]] + Head(params[1..])
  }

  predicate AllDigits(s: seq<Byte>) { forall i :: 0 <= i < |s| ==> IsDigit(s[i]) }

  /** The accumulator of `csiParam`, with its silent overflow. */
  function Accumulate(s: seq<Byte>): int
    requires AllDigits(s)
  {
    if s == [] then 0 else Wrap(Accumulate(s[..|s| - 1]) * 10 + (s[|s| - 1] - 0x30))
  }

  /** `csiParam`: the first parameter, or `def` when absent, zero or not a number. */
  function Param(params: seq<Byte>, def: int): (r: int)
    ensures def <= MAX_INT ==> r <= MAX_INT
  {
    if !AllDigits(Head(params)) then def
    else if Accumulate(Head(params)) == 0 then def
    else Accumulate(Head(params))
  }

  function Zeros(n: nat): seq<Byte> { seq(n, _ => 0) }

  function EraseInLine(line: seq<Byte>, col: int, mode: int): Editor {
    if mode == 1 then
      if col <= 0 then Live(line, col)
      else if col > |line| then Panicked(OutOfRange)
      else Live(line[col..], 0)
    else if mode == 2 then Live([], 0)
    else if col >= |line| then Live(line, col)
    else if col < 0 then Panicked(OutOfRange)
    else Live(line[..col], col)
  }

  function DeleteChars(line: seq<Byte>, col: int, n: int): Editor {
    if n > 0 && col < |line| then
      var end := Min(Wrap(col + n), |line|);
      if col < 0 || end < 0 then Panicked(OutOfRange) else Live(line[..col] + line[end..], col)
    else Live(line, col)
  }

  function InsertBlanks(line: seq<Byte>, col: int, n: int): Editor {
    if n <= 0 then Live(line, col)
    else if n > MAX_ALLOC then Panicked(OutOfMemory)
    else if col < 0 || col > |line| then Panicked(OutOfRange)
    else Allocate(line[..col] + Zeros(n) + line[col..], col)
  }

  /** The commands, for a parameter `n` (defaulting to 1) and an EL mode (defaulting to 0). */
  function Command(line: seq<Byte>, col: int, cmd: Byte, n: int, mode: int): Editor {
    if cmd == 0x4b then EraseInLine(line, col, mode)  // K
    else if cmd == 0x47 then Live(line, Min(Max0(Wrap(n - 1)), |line|))  // G
    else if cmd == 0x43 then Live(line, Min(Wrap(col + n), |line|))  // C
    else if cmd == 0x44 then Live(line, Max0(Wrap(col - n)))  // D
    else if cmd == 0x50 then DeleteChars(line, col, n)  // P
    else if cmd == 0x40 then InsertBlanks(line, col, n)  // @
    else Live(line, col)
  }

  lemma CommandSane(line: seq<Byte>, col: int, cmd: Byte, n: int, mode: int)
    requires Sane(Live(line, col)) && n <= MAX_INT
    ensures Sane(Command(line, col, cmd, n, mode))
  {
  }

  function AfterCsi(e: Editor, cmd: Byte, params: seq<Byte>): (r: Editor)
    requires Sane(e)
    ensures Sane(r)
  {
    if e.Panicked? then e
    else
      var n := Param(params, 1);
      CommandSane(e.line, e.col, cmd, n, Param(params, 0));
      Command(e.line, e.col, cmd, n, Param(params, 0))
  }

  function AfterInsert(e: Editor, b: Byte): (r: Editor)
    requires Sane(e)
    ensures Sane(r)
  {
    if e.Panicked? then e
    else if e.col >= |e.line| then Allocate(e.line + [b], |e.line| + 1)
    else if e.col < 0 then Panicked(OutOfRange)
    else Live(e.line[e.col := b], e.col + 1)
  }

  predicate IsErase(b: Byte) { b == 0x08 || b == 0x7f }

  predicate IsPrintable(b: Byte) { b >= 32 && b != 0x7f }

  function AfterByte(e: Editor, b: Byte): (r: Editor)
    requires Sane(e)
    ensures Sane(r)
  {
    if e.Panicked? then e
    else if b == 0x0d then Live([], 0)
    else if IsErase(b) then
      if e.col <= 0 then e
      else if e.col > |e.line| then Panicked(OutOfRange)
      else Live(e.line[..e.col - 1] + e.line[e.col..], e.col - 1)
    else if IsPrintable(b) then AfterInsert(e, b)
    else e
  }

  function Apply(e: Editor, x: Lexeme): (r: Editor)
    requires Sane(e)
    ensures Sane(r)
  {
    match x
    case Plain(b) => AfterByte(e, b)
    case Escape(s) => if |s| >= 3 && s[1] == CSI then AfterCsi(e, s[|s| - 1], s[2..|s| - 1]) else e
  }

  function Edit(e: Editor, toks: seq<Lexeme>): (r: Editor)
    requires Sane(e)
    ensures Sane(r)
    decreases |toks|
  {
    if toks == [] then e else Edit(Apply(e, toks[0]), toks[1..])
  }

  lemma {:induction false} EditConcat(e: Editor, a: seq<Lexeme>, b: seq<Lexeme>)
    requires Sane(e)
    ensures Edit(e, a + b) == Edit(Edit(e, a), b)
    decreases |a|
  {
    if a == [] {
      assert a + b == b;
    } else {
      EditConcat(Apply(e, a[0]), a[1..], b);
      assert (a + b)[1..] == a[1..] + b;
    }
  }

  // ----- The tracker as a whole -----

  /** Line, cursor and pending escape buffer. */
  datatype Tracker = Tracker(editor: Editor, pending: seq<Byte>)

  function AfterFeed(t: Tracker, p: seq<Byte>): (r: Tracker)
    requires Sane(t.editor)
    ensures Sane(r.editor)
  {
    var s := Scan(t.pending + p);
    Tracker(Edit(t.editor, s.toks), s.rest)
  }

  /** Chunk independence: where a stream is cut into chunks cannot be observed. */
  lemma ChunkIndependence(t: Tracker, p: seq<Byte>, q: seq<Byte>)
    requires Sane(t.editor)
    ensures AfterFeed(AfterFeed(t, p), q) == AfterFeed(t, p + q)
  {
    var a := Scan(t.pending + p);
    var b := Scan(a.rest + q);
    ScanConcat(t.pending + p, q);
    assert (t.pending + p) + q == t.pending + (p + q);
    EditConcat(t.editor, a.toks, b.toks);
  }

  function AfterChunks(t: Tracker, chunks: seq<seq<Byte>>): (r: Tracker)
    requires Sane(t.editor)
    ensures Sane(r.editor)
    decreases |chunks|
  {
    if chunks == [] then t else AfterChunks(AfterFeed(t, chunks[0]), chunks[1..])
  }

  function Flatten(chunks: seq<seq<Byte>>): seq<Byte> {
    if chunks == [] then [] else chunks[0] + Flatten(chunks[1..])
  }

  /** Any chunking of a stream leaves what feeding it in one piece leaves. */
  lemma {:induction false} AnyChunking(t: Tracker, chunks: seq<seq<Byte>>)
    requires Sane(t.editor) && t == AfterFeed(t, [])
    ensures AfterChunks(t, chunks) == AfterFeed(t, Flatten(chunks))
    decreases |chunks|
  {
    if chunks == [] {
    } else {
      ChunkIndependence(t, chunks[0], []);
      assert chunks[0] + [] == chunks[0];
      AnyChunking(AfterFeed(t, chunks[0]), chunks[1..]);
      ChunkIndependence(t, chunks[0], Flatten(chunks[1..]));
    }
  }

  /** Every tracker state that some feed produces is settled: feeding nothing changes nothing. */
  lemma FedIsSettled(t: Tracker, p: seq<Byte>)
    requires Sane(t.editor)
    ensures AfterFeed(AfterFeed(t, p), []) == AfterFeed(t, p)
  {
    ChunkIndependence(t, p, []);
    assert p + [] == p;
  }

  /** An OSC sequence in the stream is invisible: removing it leaves the same tracker. */
  lemma OscIsInvisible(t: Tracker, p: seq<Byte>, osc: seq<Byte>, q: seq<Byte>)
    requires Sane(t.editor) && IsOsc(osc) && AfterFeed(t, p).pending == []
    ensures AfterFeed(t, p + osc + q) == AfterFeed(t, p + q)
  {
    var u := AfterFeed(t, p);
    ChunkIndependence(t, p, osc + q);
    assert p + (osc + q) == p + osc + q;
    ChunkIndependence(t, p, q);
    ChunkIndependence(u, osc, q);
    OscAlone(u, osc);
  }

  lemma OscAlone(u: Tracker, osc: seq<Byte>)
    requires Sane(u.editor) && u.pending == [] && IsOsc(osc)
    ensures AfterFeed(u, osc) == u
  {
    ScanOneEscape(osc);
    assert u.pending + osc == osc;
    var e := Apply(u.editor, Escape(osc));
    assert e == u.editor;
    assert Edit(u.editor, [Escape(osc)]) == Edit(e, []);
  }

  lemma ScanOneEscape(e: seq<Byte>)
    requires Complete(e)
    ensures Scan(e) == Scanned([Escape(e)], [])
  {
    EscapeLengthSpec(e, |e|);
    assert e[..|e|] == e;
    assert e[|e|..] == [];
  }

  /** ESC followed by a byte that starts or ends nothing. */
  predicate Dead(pending: seq<Byte>) { |pending| >= 2 && pending[0] == ESC && !IsFinal(pending[1]) }

  /** A dead escape swallows all further input. */
  lemma DeadAbsorbs(t: Tracker, q: seq<Byte>)
    requires Sane(t.editor) && Dead(t.pending)
    ensures AfterFeed(t, q) == Tracker(t.editor, t.pending + q)
  {
    assert EscapeLength(t.pending + q) == 0;
  }

  function Completion(pending: seq<Byte>): seq<Byte>
    requires pending != []
  {
    if |pending| == 1 then [0x4d] else if pending[1] == OSC then [BEL] else [0x6d]
  }

  /** Dead buffers are the only hopeless ones: any other pending escape can still be completed. */
  lemma DeadIff(t: Tracker, p: seq<Byte>)
    requires Sane(t.editor)
    ensures var u := AfterFeed(t, p);
            u.pending != [] ==>
              (Dead(u.pending) <==> forall q :: AfterFeed(u, q).pending == u.pending + q)
  {
    var u := AfterFeed(t, p);
    ScanSplits(t.pending + p);
    if u.pending != [] {
      if Dead(u.pending) {
        forall q ensures AfterFeed(u, q).pending == u.pending + q { DeadAbsorbs(u, q); }
      } else {
        var q := Completion(u.pending);
        CompletionWorks(u.pending);
        var e := u.pending + q;
        ScanOneEscape(e);
        assert AfterFeed(u, q).pending == [];
        assert e != [];
      }
    }
  }

  lemma CompletionWorks(pending: seq<Byte>)
    requires pending != [] && Unfinished(pending) && !Dead(pending)
    ensures Complete(pending + Completion(pending))
  {
    var e := pending + Completion(pending);
    if |pending| == 1 {
      assert IsShort(e);
    } else {
      assert !Complete(pending[..2]);
      assert pending[..2][1] == pending[1];
      var k := |pending|;
      if pending[1] == OSC {
        forall j | 2 <= j < k ensures !TerminatorAt(e, j) {
          OscEndSpec(pending, 2, 0);
          if TerminatorAt(e, j) { FirstTerminator(pending, 2, j); }
        }
        assert OscShape(e, k);
      } else {
        assert pending[1] == CSI;
        forall j | 2 <= j < k ensures !IsFinal(e[j]) {
          if IsFinal(pending[j]) { FirstFinal(pending, 2, j); }
        }
        assert IsCsi(e);
      }
    }
  }

  lemma {:induction false} FirstTerminator(s: seq<Byte>, i: nat, j: nat)
    requires 2 <= i <= j < |s| && s[0] == ESC && s[1] == OSC && TerminatorAt(s, j)
    requires forall m :: 2 <= m < i ==> !TerminatorAt(s, m)
    ensures exists k: nat :: k <= |s| && Complete(s[..k])
    decreases j - i
  {
    if TerminatorAt(s, i) {
      var k := if s[i] == BEL then i + 1 else i + 2;
      OscPrefixAt(s, i, k);
      assert Complete(s[..k]);
    } else {
      FirstTerminator(s, i + 1, j);
    }
  }

  lemma {:induction false} FirstFinal(s: seq<Byte>, i: nat, j: nat)
    requires 2 <= i <= j < |s| && s[0] == ESC && s[1] == CSI && IsFinal(s[j])
    requires forall m :: 2 <= m < i ==> !IsFinal(s[m])
    ensures exists k: nat :: k <= |s| && Complete(s[..k])
    decreases j - i
  {
    if IsFinal(s[i]) {
      assert IsCsi(s[..i + 1]);
    } else {
      FirstFinal(s, i + 1, j);
    }
  }

  // ----- Overflow, exactly -----

  /** The number a parameter spells, with no limit on its size. */
  function Decimal(s: seq<Byte>): nat
    requires AllDigits(s)
  {
    if s == [] then 0 else Decimal(s[..|s| - 1]) * 10 + (s[|s| - 1] - 0x30)
  }

  /** Wrapping forgets multiples of 2^64, and nothing else. */
  lemma {:induction false} WrapIs(x: int) returns (m: int)
    ensures Wrap(x) == x + m * TWO_64
    decreases if x < 0 then -1 - x else x
  {
    m := 0;
    if x > MAX_INT {
      m := WrapIs(x - TWO_64);
      m := m - 1;
    } else if x < -TWO_63 {
      m := WrapIs(x + TWO_64);
      m := m + 1;
    }
  }

  lemma WrapShift(x: int, m: int)
    ensures Wrap(x + m * TWO_64) == Wrap(x)
  {
    var a := WrapIs(x);
    var b := WrapIs(x + m * TWO_64);
    assert Wrap(x + m * TWO_64) - Wrap(x) == (b + m - a) * TWO_64;
  }

  /** Overflow at every digit amounts to one wrap of the true value. */
  lemma {:induction false} AccumulateWraps(s: seq<Byte>)
    requires AllDigits(s)
    ensures Accumulate(s) == Wrap(Decimal(s))
    decreases |s|
  {
    if s != [] {
      var init, d := s[..|s| - 1], s[|s| - 1] - 0x30;
      AccumulateWraps(init);
      var m := WrapIs(Decimal(init));
      WrapShift(Decimal(init) * 10 + d, m * 10);
      assert (Decimal(init) + m * TWO_64) * 10 + d == Decimal(init) * 10 + d + (m * 10) * TWO_64;
    }
  }

  /** The motion count a CSI parameter asks for: 1 unless it spells another number. */
  function Value(params: seq<Byte>): nat {
    if AllDigits(Head(params)) && Wrap(Decimal(Head(params))) != 0 then Decimal(Head(params)) else 1
  }

  lemma ParamIsValue(params: seq<Byte>)
    ensures Param(params, 1) == Wrap(Value(params))
  {
    if AllDigits(Head(params)) { AccumulateWraps(Head(params)); }
  }

  lemma WrapSum(a: int, v: int)
    ensures Wrap(a + Wrap(v)) == Wrap(a + v) && Wrap(a - Wrap(v)) == Wrap(a - v)
  {
    var m := WrapIs(v);
    WrapShift(a + v, m);
    WrapShift(a - v, -m);
    assert a - (v + m * TWO_64) == a - v + (-m) * TWO_64;
  }

  /** The digits of a number, most significant first. */
  function Spell(v: nat): seq<Byte> {
    if v < 10 then [0x30 + v] else Spell(v / 10) + [0x30 + v % 10]
  }

  lemma {:induction false} SpellSpec(v: nat)
    ensures AllDigits(Spell(v)) && Decimal(Spell(v)) == v && Head(Spell(v)) == Spell(v)
  {
    if v >= 10 {
      SpellSpec(v / 10);
      assert Spell(v)[..|Spell(v)| - 1] == Spell(v / 10);
    } else {
      assert Spell(v)[..0] == [];
    }
    HeadWhole(Spell(v));
  }

  lemma {:induction false} HeadWhole(s: seq<Byte>)
    requires AllDigits(s)
    ensures Head(s) == s
  {
    if s != [] { HeadWhole(s[1..]); assert s == [s[0]] + s[1..]; }
  }

  /** Exactly when a control sequence drives the cursor out of the line, for every parameter. */
  lemma CursorLostIff(line: seq<Byte>, col: int, cmd: Byte, params: seq<Byte>)
    requires InLine(Live(line, col))
    ensures var v, r := Value(params), AfterCsi(Live(line, col), cmd, params);
            r.Live? && !InLine(r) <==>
              (cmd == 0x43 && Wrap(col + v) < 0) || (cmd == 0x44 && Wrap(col - v) > |line|)
  {
    var v, n := Value(params), Param(params, 1);
    assert Wrap(col + n) == Wrap(col + v) && Wrap(col - n) == Wrap(col - v) by {
      ParamIsValue(params);
      WrapSum(col, v);
    }
    CommandLosesIff(line, col, cmd, n, Param(params, 0));
  }

  lemma CommandLosesIff(line: seq<Byte>, col: nat, cmd: Byte, n: int, mode: int)
    requires col <= |line| <= MAX_ALLOC && n <= MAX_INT
    ensures var r := Command(line, col, cmd, n, mode);
            r.Live? && !InLine(r) <==>
              (cmd == 0x43 && Wrap(col + n) < 0) || (cmd == 0x44 && Wrap(col - n) > |line|)
  {
    if cmd == 0x4b {
      assert EraseInLine(line, col, mode).Live? ==> InLine(EraseInLine(line, col, mode));
    } else if cmd == 0x50 {
      DeleteStaysInLine(line, col, n);
    } else if cmd == 0x40 {
      BlanksStayInLine(line, col, n);
    }
  }

  lemma DeleteStaysInLine(line: seq<Byte>, col: nat, n: int)
    requires col <= |line| <= MAX_ALLOC && n <= MAX_INT
    ensures DeleteChars(line, col, n).Live? ==> InLine(DeleteChars(line, col, n)) && |DeleteChars(line, col, n).line| <= |line|
  {
    if n > 0 && col < |line| {
      var end := Min(Wrap(col + n), |line|);
      if end >= 0 {
        assert Wrap(col + n) >= col;
        assert |line[..col] + line[end..]| == col + |line| - end;
      }
    }
  }

  lemma BlanksStayInLine(line: seq<Byte>, col: nat, n: int)
    requires col <= |line| <= MAX_ALLOC
    ensures InsertBlanks(line, col, n).Live? ==> InLine(InsertBlanks(line, col, n))
  {
    if 0 < n <= MAX_ALLOC {
      assert |line[..col] + Zeros(n) + line[col..]| == |line| + n;
    }
  }

  /** Exactly when one panics: DCH past the largest int, or ICH past the largest allocation. */
  lemma CsiPanicIff(line: seq<Byte>, col: int, cmd: Byte, params: seq<Byte>)
    requires InLine(Live(line, col))
    ensures var v, r := Value(params), AfterCsi(Live(line, col), cmd, params);
            && (r == Panicked(OutOfRange) <==> cmd == 0x50 && col < |line| && Wrap(v) > 0 && Wrap(col + v) < 0)
            && (r == Panicked(OutOfMemory) <==> cmd == 0x40 && Wrap(v) > 0 && |line| + Wrap(v) > MAX_ALLOC)
  {
    var v, n := Value(params), Param(params, 1);
    assert n == Wrap(v) && Wrap(col + n) == Wrap(col + v) by {
      ParamIsValue(params);
      WrapSum(col, v);
    }
    CommandPanicsIff(line, col, cmd, n, Param(params, 0));
  }

  lemma CommandPanicsIff(line: seq<Byte>, col: nat, cmd: Byte, n: int, mode: int)
    requires col <= |line| <= MAX_ALLOC && n <= MAX_INT
    ensures var r := Command(line, col, cmd, n, mode);
            && (r == Panicked(OutOfRange) <==> cmd == 0x50 && col < |line| && n > 0 && Wrap(col + n) < 0)
            && (r == Panicked(OutOfMemory) <==> cmd == 0x40 && n > 0 && |line| + n > MAX_ALLOC)
  {
    if cmd == 0x40 { BlanksPanicIff(line, col, n); }
  }

  lemma BlanksPanicIff(line: seq<Byte>, col: nat, n: int)
    requires col <= |line| <= MAX_ALLOC
    ensures var r := InsertBlanks(line, col, n);
            r != Panicked(OutOfRange) && (r == Panicked(OutOfMemory) <==> n > 0 && |line| + n > MAX_ALLOC)
  {
    if 0 < n <= MAX_ALLOC {
      assert |line[..col] + Zeros(n) + line[col..]| == |line| + n;
    }
  }

  /**
   What a plain byte does to a cursor outside the line: CR brings it back, and so does a printable
   byte past the end; a printable byte at a negative column and an erasure past the end panic;
   anything else changes nothing.
   */
  lemma LostCursorByte(line: seq<Byte>, col: int, b: Byte)
    requires Sane(Live(line, col)) && !InLine(Live(line, col)) && |line| < MAX_ALLOC
    ensures var r := AfterByte(Live(line, col), b);
            && (InLine(r) <==> b == 0x0d || (IsPrintable(b) && col > |line|))
            && (r.Panicked? <==> (IsPrintable(b) && col < 0) || (IsErase(b) && col > |line|))
            && (r.Live? && !InLine(r) ==> r == Live(line, col))
  {
  }

  /** CHA and EL 2 bring back any cursor. */
  lemma LostCursorReturns(line: seq<Byte>, col: int, params: seq<Byte>)
    requires Sane(Live(line, col))
    ensures InLine(AfterCsi(Live(line, col), 0x47, params))
    ensures AfterCsi(Live(line, col), 0x4b, Spell(2)) == Live([], 0)
  {
    SpellSpec(2);
    AccumulateWraps(Spell(2));
    WrapSmall(2);
  }

  /** Small enough that adding a cursor position cannot overflow. */
  predicate Modest(x: Lexeme) {
    x.Escape? && |x.bytes| >= 3 && x.bytes[1] == CSI && x.bytes[|x.bytes| - 1] in {0x43, 0x44, 0x50} ==>
      Value(x.bytes[2..|x.bytes| - 1]) <= MAX_INT - MAX_ALLOC
  }

  /** Most bytes the line can gain from one lexeme. */
  function Growth(x: Lexeme): nat {
    match x
    case Plain(_) => 1
    case Escape(s) => if |s| >= 3 && s[1] == CSI && s[|s| - 1] == 0x40 then Value(s[2..|s| - 1]) else 0
  }

  function TotalGrowth(toks: seq<Lexeme>): nat {
    if toks == [] then 0 else Growth(toks[0]) + TotalGrowth(toks[1..])
  }

  lemma WrapSmall(x: int)
    requires -TWO_63 <= x <= MAX_INT
    ensures Wrap(x) == x
  {
  }

  lemma SafeStep(e: Editor, x: Lexeme)
    requires InLine(e) && Modest(x) && |e.line| + Growth(x) <= MAX_ALLOC
    ensures InLine(Apply(e, x)) && |Apply(e, x).line| <= |e.line| + Growth(x)
  {
    match x
    case Plain(b) => SafeByte(e, b);
    case Escape(s) =>
      if |s| >= 3 && s[1] == CSI {
        var cmd, params := s[|s| - 1], s[2..|s| - 1];
        SafeCsi(e, cmd, params);
      }
  }

  lemma SafeByte(e: Editor, b: Byte)
    requires InLine(e) && |e.line| < MAX_ALLOC
    ensures InLine(AfterByte(e, b)) && |AfterByte(e, b).line| <= |e.line| + 1
  {
    if IsErase(b) && e.col > 0 {
      assert |e.line[..e.col - 1] + e.line[e.col..]| == |e.line| - 1;
    }
  }

  lemma SafeCsi(e: Editor, cmd: Byte, params: seq<Byte>)
    requires InLine(e)
    requires cmd in {0x43, 0x44, 0x50} ==> Value(params) <= MAX_INT - MAX_ALLOC
    requires cmd == 0x40 ==> |e.line| + Value(params) <= MAX_ALLOC
    ensures var r := AfterCsi(e, cmd, params);
            InLine(r) && |r.line| <= |e.line| + if cmd == 0x40 then Value(params) else 0
  {
    var v := Value(params);
    ParamIsValue(params);
    if cmd in {0x43, 0x44, 0x50} {
      WrapSmall(v);
      WrapSmall(e.col + v);
      WrapSmall(e.col - v);
      DeleteStaysInLine(e.line, e.col, v);
    } else if cmd == 0x40 {
      WrapSmall(v);
      BlanksStayInLine(e.line, e.col, v);
    }
  }

  /** Safe editing: while memory lasts and no motion count is huge, the cursor stays in the line. */
  lemma {:induction false} SafeEditing(e: Editor, toks: seq<Lexeme>)
    requires InLine(e) && |e.line| + TotalGrowth(toks) <= MAX_ALLOC
    requires forall i :: 0 <= i < |toks| ==> Modest(toks[i])
    ensures InLine(Edit(e, toks)) && |Edit(e, toks).line| <= |e.line| + TotalGrowth(toks)
    decreases |toks|
  {
    if toks != [] {
      SafeStep(e, toks[0]);
      SafeEditing(Apply(e, toks[0]), toks[1..]);
    }
  }

  function Pow10(n: nat): nat { if n == 0 then 1 else 10 * Pow10(n - 1) }

  /** Eighteen digits are always modest. */
  lemma {:induction false} DecimalBound(s: seq<Byte>, bound: nat)
    requires AllDigits(s) && |s| <= 18
    requires bound == Pow10(|s|)
    ensures Decimal(s) < bound <= 1_000_000_000_000_000_000
    decreases |s|
  {
    Pow10Monotone(|s|);
    if s != [] { DecimalBound(s[..|s| - 1], Pow10(|s| - 1)); }
  }

  lemma {:induction false} Pow10Monotone(n: nat)
    requires n <= 18
    ensures Pow10(n) <= 1_000_000_000_000_000_000
    decreases 18 - n
  {
    if n == 18 {
      assert Pow10(18) == 10 * 10 * 10 * 10 * 10 * 10 * Pow10(12);
      assert Pow10(12) == 10 * 10 * 10 * 10 * 10 * 10 * Pow10(6);
    } else {
      Pow10Monotone(n + 1);
    }
  }

  /** A control sequence whose first parameter is a number of at most 18 digits, or not a number. */
  predicate ShortRun(x: Lexeme) {
    x.Escape? && |x.bytes| >= 3 && x.bytes[1] == CSI && AllDigits(Head(x.bytes[2..|x.bytes| - 1])) ==>
      |Head(x.bytes[2..|x.bytes| - 1])| <= 18
  }

  /** The stream form of safety: digit runs of at most 18 and bounded growth are enough. */
  lemma SafeStream(t: Tracker, p: seq<Byte>)
    requires InLine(t.editor)
    requires |t.editor.line| + TotalGrowth(Scan(t.pending + p).toks) <= MAX_ALLOC
    requires forall x :: x in Scan(t.pending + p).toks ==> ShortRun(x)
    ensures InLine(AfterFeed(t, p).editor)
  {
    var toks := Scan(t.pending + p).toks;
    forall i | 0 <= i < |toks| ensures Modest(toks[i]) {
      assert toks[i] in toks;
      ShortRunIsModest(toks[i]);
    }
    SafeEditing(t.editor, toks);
  }

  lemma ShortRunIsModest(x: Lexeme)
    requires ShortRun(x)
    ensures Modest(x)
  {
    if x.Escape? && |x.bytes| >= 3 && x.bytes[1] == CSI {
      var h := Head(x.bytes[2..|x.bytes| - 1]);
      if AllDigits(h) { DecimalBound(h, Pow10(|h|)); }
    }
  }

  lemma SpelledParam(v: nat)
    requires 0 < v <= MAX_INT
    ensures Param(Spell(v), 1) == v
  {
    SpellSpec(v);
    AccumulateWraps(Spell(v));
    WrapSmall(v);
  }

  /**
   Nineteen digits are not: CUF by any int that takes the column past the largest one (which the
   largest int does from every column but 0) makes it negative, and the next printable byte panics.
   */
  lemma CursorEscapes(line: seq<Byte>, col: int, v: nat, b: Byte)
    requires InLine(Live(line, col)) && v <= MAX_INT < col + v && IsPrintable(b)
    ensures var r := AfterCsi(Live(line, col), 0x43, Spell(v));
            r.Live? && r.col < 0 && AfterByte(r, b) == Panicked(OutOfRange)
  {
    SpelledParam(v);
    assert Wrap(col + v) == col + v - TWO_64;
  }

  // ----- Laws of the editor -----

  /** EL 0 keeps what is left of the cursor, EL 1 what is right of it: together, the whole line. */
  lemma EraseSplitsLine(e: Editor)
    requires InLine(e)
    ensures var left, right := AfterCsi(e, 0x4b, []), AfterCsi(e, 0x4b, Spell(1));
            && left.Live? && right.Live? && left.line + right.line == e.line
            && left.col == |left.line| == e.col && right.col == 0
    ensures AfterCsi(e, 0x4b, Spell(2)) == Live([], 0)
  {
    SpellSpec(1);
    SpellSpec(2);
    AccumulateWraps(Spell(1));
    AccumulateWraps(Spell(2));
    WrapSmall(1);
    WrapSmall(2);
    assert e.line[..e.col] + e.line[e.col..] == e.line;
  }

  /** DCH undoes ICH: the inserted blanks are exactly what is deleted again. */
  lemma DeleteUndoesInsert(e: Editor, params: seq<Byte>)
    requires InLine(e) && |e.line| + Value(params) <= MAX_ALLOC
    ensures var ins := AfterCsi(e, 0x40, params);
            && ins == Live(e.line[..e.col] + Zeros(Value(params)) + e.line[e.col..], e.col)
            && AfterCsi(ins, 0x50, params) == e
  {
    var v := Value(params);
    ParamIsValue(params);
    WrapSmall(v);
    WrapSmall(e.col + v);
    var ins := e.line[..e.col] + Zeros(v) + e.line[e.col..];
    assert v > 0;
    assert ins[..e.col] == e.line[..e.col];
    assert ins[e.col + v..] == e.line[e.col..];
    assert e.line[..e.col] + e.line[e.col..] == e.line;
  }

  /** CUB undoes CUF while the line is long enough, and CHA to the same column reaches it directly. */
  lemma MotionsAgree(e: Editor, params: seq<Byte>)
    requires InLine(e) && e.col + Value(params) <= |e.line|
    ensures var fwd := AfterCsi(e, 0x43, params);
            && fwd == Live(e.line, e.col + Value(params))
            && AfterCsi(fwd, 0x44, params) == e
            && AfterCsi(e, 0x47, Spell(fwd.col + 1)) == fwd
  {
    var v := Value(params);
    MotionsStop(e.line, e.col, params);
    MotionsStop(e.line, e.col + v, params);
    ColumnIsReached(e.line, e.col, e.col + v);
  }

  /** CHA to a column of the line, counted from 1. */
  lemma ColumnIsReached(line: seq<Byte>, col: int, goal: nat)
    requires InLine(Live(line, col)) && goal <= |line|
    ensures AfterCsi(Live(line, col), 0x47, Spell(goal + 1)) == Live(line, goal)
  {
    ValueIsFirst(goal + 1, []);
    MotionsStop(line, col, Spell(goal + 1));
  }

  /** Rubbing out at the end of the line undoes typing a printable byte. */
  lemma BackspaceUndoesTyping(e: Editor, b: Byte)
    requires InLine(e) && e.col == |e.line| < MAX_ALLOC && IsPrintable(b)
    ensures AfterByte(e, b) == Live(e.line + [b], e.col + 1)
    ensures AfterByte(AfterByte(e, b), 0x7f) == e == AfterByte(AfterByte(e, b), 0x08)
  {
    assert (e.line + [b])[..e.col] == e.line;
  }

  // ----- What arrives as bytes -----

  /** A control sequence acts as its final byte with its parameter bytes. */
  lemma CsiIsFed(e: Editor, params: seq<Byte>, cmd: Byte)
    requires Sane(e) && IsFinal(cmd) && forall i :: 0 <= i < |params| ==> !IsFinal(params[i])
    ensures AfterFeed(Tracker(e, []), [ESC, CSI] + params + [cmd]) == Tracker(AfterCsi(e, cmd, params), [])
  {
    var bytes := [ESC, CSI] + params + [cmd];
    assert forall j :: 2 <= j < |bytes| - 1 ==> bytes[j] == params[j - 2];
    assert IsCsi(bytes);
    OneEscapeIsFed(e, bytes);
    assert bytes[2..|bytes| - 1] == params;
  }

  lemma OneEscapeIsFed(e: Editor, bytes: seq<Byte>)
    requires Sane(e) && Complete(bytes)
    ensures AfterFeed(Tracker(e, []), bytes) == Tracker(Apply(e, Escape(bytes)), [])
  {
    ScanOneEscape(bytes);
    assert [] + bytes == bytes;
    assert Edit(e, [Escape(bytes)]) == Edit(Apply(e, Escape(bytes)), []);
  }

  /** Any other byte but ESC acts by itself. */
  lemma ByteIsFed(e: Editor, b: Byte)
    requires Sane(e) && b != ESC
    ensures AfterFeed(Tracker(e, []), [b]) == Tracker(AfterByte(e, b), [])
  {
    assert [] + [b] == [b] && [b][1..] == [];
    assert Scan([b]) == Prepend(Plain(b), Scan([])) == Scanned([Plain(b)], []);
    assert Edit(e, [Plain(b)]) == Edit(Apply(e, Plain(b)), []);
  }

  /** Two-byte escapes do nothing. */
  lemma ShortIsFed(e: Editor, b: Byte)
    requires Sane(e) && IsFinal(b) && b != OSC && b != CSI
    ensures AfterFeed(Tracker(e, []), [ESC, b]) == Tracker(e, [])
  {
    assert IsShort([ESC, b]);
    OneEscapeIsFed(e, [ESC, b]);
  }

  // ----- What each command does, cell by cell -----

  /** The parameter is what stands before the first semicolon. */
  lemma {:induction false} HeadIsFirst(p: seq<Byte>, rest: seq<Byte>)
    requires 0x3b !in p
    ensures Head(p) == p && Head(p + [0x3b] + rest) == p
  {
    if p == [] {
      assert (p + [0x3b] + rest)[0] == 0x3b;
    } else {
      HeadIsFirst(p[1..], rest);
      assert p == [p[0]] + p[1..];
      assert (p + [0x3b] + rest)[1..] == p[1..] + [0x3b] + rest;
      assert (p + [0x3b] + rest)[0] == p[0];
    }
  }

  /** A number is read as itself, whatever follows it; nothing or anything else as 1. */
  lemma ValueIsFirst(v: nat, rest: seq<Byte>)
    requires 0 < v <= MAX_INT
    ensures Value(Spell(v)) == v == Value(Spell(v) + [0x3b] + rest)
  {
    SpellSpec(v);
    WrapSmall(v);
    assert 0x3b !in Spell(v) by { assert !IsDigit(0x3b); }
    HeadIsFirst(Spell(v), rest);
  }

  lemma ValueOfRubbish(p: seq<Byte>, rest: seq<Byte>)
    requires 0x3b !in p && (p == [] || exists i :: 0 <= i < |p| && !IsDigit(p[i]))
    ensures Value(p) == 1 == Value(p + [0x3b] + rest)
  {
    HeadIsFirst(p, rest);
    if p == [] { WrapSmall(0); }
  }

  /** CUF and CUB move by the value, up to the ends of the line; CHA goes to a column counted from 1. */
  lemma MotionsStop(line: seq<Byte>, col: int, params: seq<Byte>)
    requires InLine(Live(line, col)) && Value(params) <= MAX_INT - MAX_ALLOC
    ensures var v := Value(params);
            && AfterCsi(Live(line, col), 0x43, params) == Live(line, if col + v < |line| then col + v else |line|)
            && AfterCsi(Live(line, col), 0x44, params) == Live(line, if v < col then col - v else 0)
            && AfterCsi(Live(line, col), 0x47, params) == Live(line, if v - 1 < |line| then v - 1 else |line|)
  {
    var v := Value(params);
    ParamIsValue(params);
    WrapSmall(v);
    WrapSmall(col + v);
    WrapSmall(col - v);
    WrapSmall(v - 1);
  }

  /** DCH takes out the bytes from the cursor on, as many as asked for or as there are. */
  lemma DeletesCells(line: seq<Byte>, col: int, params: seq<Byte>)
    requires InLine(Live(line, col)) && Value(params) <= MAX_INT - MAX_ALLOC
    ensures var r := AfterCsi(Live(line, col), 0x50, params);
            var k := if Value(params) < |line| - col then Value(params) else |line| - col;
            && r.Live? && r.col == col && |r.line| == |line| - k
            && (forall i :: 0 <= i < col ==> r.line[i] == line[i])
            && (forall i :: col <= i < |r.line| ==> r.line[i] == line[i + k])
  {
    var v := Value(params);
    ParamIsValue(params);
    WrapSmall(v);
    WrapSmall(col + v);
  }

  /** ICH puts that many zero bytes at the cursor and moves the rest right. */
  lemma InsertsCells(line: seq<Byte>, col: int, params: seq<Byte>)
    requires InLine(Live(line, col)) && |line| + Value(params) <= MAX_ALLOC
    ensures var r, v := AfterCsi(Live(line, col), 0x40, params), Value(params);
            && r.Live? && r.col == col && |r.line| == |line| + v
            && (forall i :: 0 <= i < col ==> r.line[i] == line[i])
            && (forall i :: col <= i < col + v ==> r.line[i] == 0)
            && (forall i :: col + v <= i < |r.line| ==> r.line[i] == line[i - v])
  {
    DeleteUndoesInsert(Live(line, col), params);
  }

  /** EL 1 keeps what is right of the cursor, EL 2 nothing, any other EL what is left of it. */
  lemma ErasesCells(line: seq<Byte>, col: int, params: seq<Byte>)
    requires InLine(Live(line, col))
    ensures var n := if AllDigits(Head(params)) then Wrap(Decimal(Head(params))) else 0;
            AfterCsi(Live(line, col), 0x4b, params) ==
              if n == 1 then Live(line[col..], 0) else if n == 2 then Live([], 0) else Live(line[..col], col)
  {
    if AllDigits(Head(params)) { AccumulateWraps(Head(params)); }
    assert line[..|line|] == line && line[0..] == line;
  }

  /** Other control sequences do nothing. */
  lemma OthersIgnored(e: Editor, cmd: Byte, params: seq<Byte>)
    requires Sane(e) && cmd !in {0x4b, 0x47, 0x43, 0x44, 0x50, 0x40}
    ensures AfterCsi(e, cmd, params) == e
  {
  }

  /** What a byte does inside the line: CR empties it, BS and DEL rub out the byte before the cursor, a printable byte overwrites. */
  lemma ByteCells(line: seq<Byte>, col: int, b: Byte)
    requires InLine(Live(line, col)) && |line| < MAX_ALLOC
    ensures var r := AfterByte(Live(line, col), b);
            && (b == 0x0d ==> r == Live([], 0))
            && ((b == 0x08 || b == 0x7f) && col == 0 ==> r == Live(line, 0))
            && ((b == 0x08 || b == 0x7f) && col > 0 ==>
                  && r.Live? && r.col == col - 1 && |r.line| == |line| - 1
                  && (forall i :: 0 <= i < col - 1 ==> r.line[i] == line[i])
                  && (forall i :: col - 1 <= i < |line| - 1 ==> r.line[i] == line[i + 1]))
            && (b < 32 && b != 0x0d && b != 0x08 ==> r == Live(line, col))
            && (b >= 32 && b != 0x7f ==>
                  && r.Live? && r.col == col + 1 && |r.line| == (if col == |line| then |line| + 1 else |line|)
                  && r.line[col] == b && (forall i :: 0 <= i < |line| && i != col ==> r.line[i] == line[i]))
  {
  }

  // ----- The code -----

  /** Processing `d` from editor `e` leads to `goal`. */
  ghost predicate Reaches(e: Editor, d: seq<Byte>, goal: Tracker) {
    Sane(e) && goal == Tracker(Edit(e, Scan(d).toks), Scan(d).rest)
  }

  lemma ReachPlain(e: Editor, d: seq<Byte>, goal: Tracker)
    requires Reaches(e, d, goal) && d != [] && d[0] != ESC
    ensures Reaches(AfterByte(e, d[0]), d[1..], goal)
  {
    assert Scan(d).toks[1..] == Scan(d[1..]).toks;
  }

  lemma ReachEscape(e: Editor, d: seq<Byte>, goal: Tracker)
    requires Reaches(e, d, goal) && d != [] && d[0] == ESC && EscapeLength(d) != 0
    ensures EscapeLength(d) <= |d| && Reaches(Apply(e, Escape(d[..EscapeLength(d)])), d[EscapeLength(d)..], goal)
  {
    EscapeLengthSpec(d, 0);
    assert Scan(d).toks[1..] == Scan(d[EscapeLength(d)..]).toks;
  }

  lemma ReachEnd(e: Editor, d: seq<Byte>, goal: Tracker)
    requires Reaches(e, d, goal) && (d == [] || (d[0] == ESC && EscapeLength(d) == 0))
    ensures goal == Tracker(e, d)
  {
    assert Scan(d).toks == [];
  }

  datatype Health = Running | Stopped(cause: Cause)

  /** No semicolon in the first `i` bytes. */
  ghost predicate HeadReaches(params: seq<Byte>, i: nat) {
    i <= |params| && Head(params) == params[..i] + Head(params[i..])
  }

  class CommandLineTracker {
    var line: seq<Byte>
    var col: int
    var escBuf: seq<Byte>
    var health: Health

    ghost function State(): Tracker
      reads this
    {
      Tracker(if health.Running? then Live(line, col) else Panicked(health.cause), escBuf)
    }

    ghost predicate Valid()
      reads this
    {
      Sane(State().editor)
    }

    constructor ()
      ensures Valid() && State() == Tracker(Live([], 0), [])
    {
      line, col, escBuf, health := [], 0, [], Running;
    }

    /** From any state, lost cursor or dead escape included. */
    method Reset()
      modifies this
      ensures Valid() && State() == Tracker(Live([], 0), [])
    {
      line, col, escBuf, health := [], 0, [], Running;
    }

    /** Any chunk, complete or not, from any state. */
    method Feed(p: seq<Byte>)
      requires Valid()
      modifies this
      ensures State() == AfterFeed(old(State()), p) && Valid()
    {
      var data := p;
      if |escBuf| > 0 {
        data := escBuf + p;
        escBuf := [];
      }
      assert data == old(escBuf) + p;
      FeedData(data, AfterFeed(old(State()), p));
    }

    /** The loop of `feed`, over the buffered escape followed by the new chunk. */
    method FeedData(data: seq<Byte>, ghost goal: Tracker)
      requires escBuf == [] && Reaches(State().editor, data, goal)
      modifies this
      ensures State() == goal
    {
      ghost var d := data;
      var i := 0;
      while i < |data|
        invariant 0 <= i <= |data| && escBuf == [] && d == data[i..]
        invariant Reaches(State().editor, d, goal)
      {
        ghost var e := State().editor;
        if data[i] == ESC {
          var n, ok := ConsumeEscape(data[i..]);
          if !ok {
            ReachEnd(e, d, goal);
            escBuf := data[i..];
            return;
          }
          ReachEscape(e, d, goal);
          i, d := i + n, d[n..];
        } else {
          FeedByte(data[i]);
          ReachPlain(e, d, goal);
          i, d := i + 1, d[1..];
        }
      }
      ReachEnd(State().editor, d, goal);
    }

    /** One escape sequence at the front of `s`: its length and effect, or incomplete. */
    method ConsumeEscape(s: seq<Byte>) returns (n: nat, ok: bool)
      requires Valid() && |s| > 0 && s[0] == ESC && escBuf == []
      modifies this
      ensures Valid() && escBuf == []
      ensures ok <==> EscapeLength(s) != 0
      ensures ok ==> n == EscapeLength(s) <= |s| && State().editor == Apply(old(State().editor), Escape(s[..n]))
      ensures !ok ==> State() == old(State())
    {
      EscapeLengthSpec(s, 0);
      if |s| == 1 { return 0, false; }
      if s[1] == OSC {
        var j := 2;
        while j < |s|
          invariant 2 <= j <= |s| && OscEnd(s, j) == OscEnd(s, 2)
          invariant Valid() && State() == old(State())
        {
          if s[j] == BEL { return j + 1, true; }
          if s[j] == ESC && j + 1 < |s| && s[j + 1] == BACKSLASH { return j + 2, true; }
          j := j + 1;
        }
        return 0, false;
      } else if s[1] == CSI {
        var j := 2;
        while j < |s|
          invariant 2 <= j <= |s| && CsiEnd(s, j) == CsiEnd(s, 2)
          invariant Valid() && State() == old(State())
        {
          if IsFinal(s[j]) {
            assert s[..j + 1][2..j] == s[2..j];
            ApplyCSI(s[j], s[2..j]);
            return j + 1, true;
          }
          j := j + 1;
        }
        return 0, false;
      } else if IsFinal(s[1]) {
        return 2, true;
      }
      return 0, false;
    }

    method FeedByte(b: Byte)
      requires Valid()
      modifies this
      ensures Valid() && escBuf == old(escBuf)
      ensures State().editor == AfterByte(old(State().editor), b)
    {
      if health.Stopped? { return; }
      if b == 0x0d {
        line, col := [], 0;
      } else if b == 0x0a || b == 0x07 {
      } else if b == 0x08 || b == 0x7f {
        if col > 0 {
          if col > |line| {
            health := Stopped(OutOfRange);
            return;
          }
          line := line[..col - 1] + line[col..];
          col := col - 1;
        }
      } else if b == 0x09 || b < 32 {
      } else {
        InsertByte(b);
      }
    }

    method InsertByte(b: Byte)
      requires Valid() && health.Running?
      modifies this
      ensures Valid() && escBuf == old(escBuf)
      ensures State().editor == AfterInsert(old(State().editor), b)
    {
      if col >= |line| {
        line := line + [b];
        col := |line|;
        CheckAlloc();
      } else if col < 0 {
        health := Stopped(OutOfRange);
      } else {
        line := line[col := b];
        col := col + 1;
      }
    }

    /** The runtime's own check on every allocation. */
    method CheckAlloc()
      requires health.Running?
      modifies this
      ensures escBuf == old(escBuf) && State().editor == Allocate(old(line), old(col))
    {
      if |line| > MAX_ALLOC { health := Stopped(OutOfMemory); }
    }

    method ApplyCSI(cmd: Byte, params: seq<Byte>)
      requires Valid() && escBuf == []
      modifies this
      ensures State().editor == AfterCsi(old(State().editor), cmd, params)
      ensures Valid() && escBuf == []
    {
      if health.Stopped? { return; }
      if cmd == 0x4b {
        EraseLine(params);
      } else if cmd == 0x47 {
        var n := CsiParam(params, 1);
        var c := Wrap(n - 1);
        if c < 0 { c := 0; }
        if c > |line| { col := |line|; } else { col := c; }
      } else if cmd == 0x43 {
        var n := CsiParam(params, 1);
        col := Wrap(col + n);
        if col > |line| { col := |line|; }
      } else if cmd == 0x44 {
        var n := CsiParam(params, 1);
        col := Wrap(col - n);
        if col < 0 { col := 0; }
      } else if cmd == 0x50 {
        DeleteCharacters(params);
      } else if cmd == 0x40 {
        InsertBlankCharacters(params);
      }
    }

    method EraseLine(params: seq<Byte>)
      requires Valid() && health.Running? && escBuf == []
      modifies this
      ensures escBuf == []
      ensures State().editor == EraseInLine(old(line), old(col), Param(params, 0))
    {
      var mode := CsiParam(params, 0);
      if mode == 1 {
        if col > |line| {
          health := Stopped(OutOfRange);
        } else if col > 0 {
          line := line[col..];
          col := 0;
        }
      } else if mode == 2 {
        Reset();
      } else if col < |line| {
        if col < 0 { health := Stopped(OutOfRange); } else { line := line[..col]; }
      }
    }

    method DeleteCharacters(params: seq<Byte>)
      requires Valid() && health.Running?
      modifies this
      ensures escBuf == old(escBuf)
      ensures State().editor == DeleteChars(old(line), old(col), Param(params, 1))
    {
      var n := CsiParam(params, 1);
      if n > 0 && col < |line| {
        var end := Wrap(col + n);
        if end > |line| { end := |line|; }
        if col < 0 || end < 0 {
          health := Stopped(OutOfRange);
        } else {
          line := line[..col] + line[end..];
        }
      }
    }

    method InsertBlankCharacters(params: seq<Byte>)
      requires Valid() && health.Running?
      modifies this
      ensures escBuf == old(escBuf)
      ensures State().editor == InsertBlanks(old(line), old(col), Param(params, 1))
    {
      var n := CsiParam(params, 1);
      if n > 0 {
        if n > MAX_ALLOC {
          health := Stopped(OutOfMemory);
        } else if col < 0 || col > |line| {
          health := Stopped(OutOfRange);
        } else {
          line := line[..col] + Zeros(n) + line[col..];
          CheckAlloc();
        }
      }
    }

    static method CsiParam(params: seq<Byte>, def: int) returns (r: int)
      ensures r == Param(params, def)
    {
      if params == [] { return def; }
      var head := CutAtSemicolon(params);
      var n, i := 0, 0;
      while i < |head|
        invariant 0 <= i <= |head| && AllDigits(head[..i]) && n == Accumulate(head[..i])
      {
        if !IsDigit(head[i]) { return def; }
        assert head[..i + 1][..i] == head[..i];
        n := Wrap(n * 10 + (head[i] - 0x30));
        i := i + 1;
      }
      assert head[..i] == head;
      if n == 0 { return def; }
      return n;
    }

    static method CutAtSemicolon(params: seq<Byte>) returns (head: seq<Byte>)
      ensures head == Head(params)
    {
      var i := 0;
      while i < |params| && params[i] != 0x3b
        invariant 0 <= i <= |params| && HeadReaches(params, i)
      {
        HeadStep(params, i);
        i := i + 1;
      }
      HeadStops(params, i);
      head := params[..i];
    }
  }

  lemma HeadStep(params: seq<Byte>, i: nat)
    requires i < |params| && HeadReaches(params, i) && params[i] != 0x3b
    ensures HeadReaches(params, i + 1)
  {
    assert params[i..][1..] == params[i + 1..];
    assert Head(params[i..]) == [params[i]] + Head(params[i + 1..]);
    assert params[..i] + [params[i]] == params[..i + 1];
  }

  lemma HeadStops(params: seq<Byte>, i: nat)
    requires HeadReaches(params, i) && (i < |params| ==> params[i] == 0x3b)
    ensures Head(params) == params[..i]
  {
    assert Head(params[i..]) == [];
  }
}
