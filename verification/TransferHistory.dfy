/**
 The file_transfer_jobs table (internal/filetransfer/store.go): filtered listing with a
 composite (updated_at, id) cursor, the cursor as the HTTP layer passes it on
 (internal/httpapi/file_transfers.go), and per-user history trimming.
 */
module TransferHistory {
  import opened Basics
  import opened Order
  import opened TransferJobs
  import Like

  /** Nanoseconds since the zero time; 0 is Go's `Time.IsZero`. */
  type Time = nat

  datatype Job = Job(user: string, target: string, targetName: string, backend: string, direction: string,
                     remotePath: string, fileName: string, status: Status, updated: Time)

  /** The table, keyed by id. */
  type Rows = map<string, Job>

  /** The sort key of a row. */
  datatype Key = Key(updated: Time, id: string)

  /** ORDER BY updated_at DESC, id DESC: `a` is listed before `b`. */
  predicate Before(a: Key, b: Key) {
    a.updated > b.updated || (a.updated == b.updated && StringLess(b.id, a.id))
  }

  lemma BeforeTransitive(x: Key, y: Key, z: Key)
    requires Before(x, y) && Before(y, z)
    ensures Before(x, z)
  {
    if x.updated == y.updated == z.updated { StringLessTransitive(z.id, y.id, x.id); }
  }

  lemma BeforeIrreflexive(x: Key)
    ensures !Before(x, x)
  {
    StringLessIrreflexive(x.id);
  }

  lemma BeforeAsymmetric(x: Key, y: Key)
    requires Before(x, y)
    ensures !Before(y, x)
  {
    if Before(y, x) { BeforeTransitive(x, y, x); }
    BeforeIrreflexive(x);
  }

  lemma BeforeIsOrder()
    ensures StrictTotal(Before)
  {
    forall x ensures !Before(x, x) { BeforeIrreflexive(x); }
    forall x, y, z | Before(x, y) && Before(y, z) ensures Before(x, z) { BeforeTransitive(x, y, z); }
    forall x, y ensures Before(x, y) || x == y || Before(y, x) { StringLessTotal(x.id, y.id); }
  }

  // ----- Filtering -----

  /** Zero values mean "no constraint", as in `ListFilter`. */
  datatype Filter = Filter(user: string, query: string, target: string, direction: string, backend: string,
                           states: seq<Status>, from: Time, to: Time)

  /** The conjunction `buildFileTransferJobQuery` assembles, without the cursor. */
  predicate Selects(f: Filter, j: Job) {
    && j.user == f.user
    && (f.from != 0 ==> j.updated >= f.from)
    && (f.to != 0 ==> j.updated < f.to)
    && (f.target != "" ==> j.target == f.target)
    && (f.direction != "" ==> j.direction == f.direction)
    && (f.backend != "" ==> j.backend == f.backend)
    && (f.states != [] ==> j.status in f.states)
    && (f.query != "" ==>
          var pat := "%" + Like.Escape(f.query) + "%";
          Like.Matches(pat, j.fileName) || Like.Matches(pat, j.remotePath) || Like.Matches(pat, j.targetName))
  }

  /** A query string is plain text: it selects the rows that contain it, whatever characters it has. */
  lemma QueryIsSubstring(f: Filter, j: Job)
    requires Selects(f.(query := ""), j) && f.query != ""
    ensures Selects(f, j) <==> Like.ContainsFold(j.fileName, f.query) || Like.ContainsFold(j.remotePath, f.query)
                               || Like.ContainsFold(j.targetName, f.query)
  {
    Like.ContainsPatternExact(f.query, j.fileName);
    Like.ContainsPatternExact(f.query, j.remotePath);
    Like.ContainsPatternExact(f.query, j.targetName);
  }

  /** Every other clause of the filter, for the values that stand for no constraint as well. */
  lemma SelectsIff(f: Filter, j: Job)
    ensures Selects(f.(query := ""), j) <==>
              && j.user == f.user
              && (f.from == 0 || f.from <= j.updated) && (f.to == 0 || j.updated < f.to)
              && (f.target == "" || f.target == j.target) && (f.direction == "" || f.direction == j.direction)
              && (f.backend == "" || f.backend == j.backend) && (f.states == [] || j.status in f.states)
    ensures Selects(f, j) ==> Selects(f.(query := ""), j)
  {
  }

  function Selected(rows: Rows, f: Filter): set<Key> {
    set id | id in rows && Selects(f, rows[id]) :: Key(rows[id].updated, id)
  }

  // ----- Paging -----

  /** The WHERE clause of the cursor; a zero timestamp is no cursor. */
  predicate Beyond(cursor: Key, k: Key) {
    cursor.updated == 0 || k.updated < cursor.updated || (k.updated == cursor.updated && StringLess(k.id, cursor.id))
  }

  const START := Key(0, "")

  function KeysBeyond(keys: set<Key>, cursor: Key): set<Key> {
    set k | k in keys && Beyond(cursor, k)
  }

  /** What remains after a cursor, in order. */
  ghost function Rest(keys: set<Key>, cursor: Key): (r: seq<Key>)
    ensures Lists(r, KeysBeyond(keys, cursor), Before)
    ensures forall k :: k in r <==> k in keys && Beyond(cursor, k)
  {
    BeforeIsOrder();
    var r := Sorted(KeysBeyond(keys, cursor), Before);
    assert forall k :: k in r <==> k in Elements(r);
    r
  }

  /** One query: ORDER BY ... LIMIT, where a non-positive limit means 100. */
  ghost function Page(keys: set<Key>, cursor: Key, limit: int): seq<Key> {
    Take(Rest(keys, cursor), if limit <= 0 then 100 else limit)
  }

  /** All rows carry a real timestamp. */
  predicate Stamped(keys: set<Key>) { forall k :: k in keys ==> k.updated >= SECOND }

  const SECOND: nat := 1_000_000_000

  /** How the next cursor is derived from the last row shown: as it is, or cut to whole seconds (RFC 3339). */
  function Cursor(k: Key, wholeSeconds: bool): Key {
    if wholeSeconds then Key(k.updated - k.updated % SECOND, k.id) else k
  }

  /** A cut cursor lies at its row or later in the listing; it is never the empty cursor. */
  lemma CursorIsLater(k: Key, wholeSeconds: bool)
    requires k.updated >= SECOND
    ensures var c := Cursor(k, wholeSeconds); c.updated != 0 && (c == k || Before(k, c))
  {
  }

  /** Beyond a later cursor there is less. */
  lemma BeyondLater(cursor: Key, k: Key, c: Key, x: Key)
    requires Beyond(cursor, k) && k.updated != 0 && c.updated != 0 && (c == k || Before(k, c)) && Beyond(c, x)
    ensures Beyond(k, x) && Beyond(cursor, x) && x != k
  {
    if c != k { BeforeTransitive(k, c, x); }
    if cursor.updated != 0 { BeforeTransitive(cursor, k, x); }
    BeforeIrreflexive(k);
  }

  /** Every next cursor leaves strictly fewer rows than there were. */
  lemma CursorShrinks(keys: set<Key>, cursor: Key, k: Key, wholeSeconds: bool)
    requires Stamped(keys) && k in Rest(keys, cursor)
    ensures |Rest(keys, Cursor(k, wholeSeconds))| < |Rest(keys, cursor)|
  {
    var c := Cursor(k, wholeSeconds);
    var before, now := KeysBeyond(keys, cursor), KeysBeyond(keys, c);
    CursorIsLater(k, wholeSeconds);
    forall x | x in now ensures x in before && x != k { BeyondLater(cursor, k, c, x); }
    assert k in before && k !in now;
    SubsetSize(now, before);
    BeforeIsOrder();
    AscendingSize(Rest(keys, cursor), before, Before);
    AscendingSize(Rest(keys, c), now, Before);
  }

  lemma SubsetSize<T>(a: set<T>, b: set<T>)
    requires a < b
    ensures |a| < |b|
  {
    var extra := b - a;
    assert b == a + extra && extra != {};
  }

  /** A client following next cursors with pages of `n`, as `handleFileTransfersList` serves them. */
  ghost function Walk(keys: set<Key>, cursor: Key, n: nat, wholeSeconds: bool): seq<Key>
    requires Stamped(keys) && n > 0
    decreases |Rest(keys, cursor)|
  {
    var items := Page(keys, cursor, n + 1);
    if |items| <= n then items
    else
      CursorShrinks(keys, cursor, items[n - 1], wholeSeconds);
      items[..n] + Walk(keys, Cursor(items[n - 1], wholeSeconds), n, wholeSeconds)
  }

  lemma WalkStep(keys: set<Key>, cursor: Key, n: nat, wholeSeconds: bool)
    requires Stamped(keys) && n > 0
    ensures var rest := Rest(keys, cursor);
            && (|rest| <= n ==> Walk(keys, cursor, n, wholeSeconds) == rest)
            && (|rest| > n ==>
                  && |Rest(keys, Cursor(rest[n - 1], wholeSeconds))| < |rest|
                  && Walk(keys, cursor, n, wholeSeconds) == rest[..n] + Walk(keys, Cursor(rest[n - 1], wholeSeconds), n, wholeSeconds))
  {
    var rest := Rest(keys, cursor);
    if |rest| > n {
      CursorShrinks(keys, cursor, rest[n - 1], wholeSeconds);
      var items := Page(keys, cursor, n + 1);
      assert items[..n] == rest[..n];
    }
  }

  /** Resuming from a row continues with its successor in the listing. */
  lemma RestAfterRow(keys: set<Key>, cursor: Key, k: nat)
    requires Stamped(keys) && k < |Rest(keys, cursor)|
    ensures var rest := Rest(keys, cursor); rest[k] in keys && Rest(keys, rest[k]) == rest[k + 1..]
  {
    var rest := Rest(keys, cursor);
    var tail := rest[k + 1..];
    assert rest[k] in rest;
    forall x ensures x in tail <==> x in keys && Beyond(rest[k], x) { RestAfterRowHas(keys, cursor, k, x); }
    assert Elements(tail) == KeysBeyond(keys, rest[k]);
    SuffixAscending(rest, Before, k + 1);
    BeforeIsOrder();
    ListingUnique(Rest(keys, rest[k]), tail, KeysBeyond(keys, rest[k]), Before);
  }

  lemma RestAfterRowHas(keys: set<Key>, cursor: Key, k: nat, x: Key)
    requires Stamped(keys) && k < |Rest(keys, cursor)|
    ensures var rest := Rest(keys, cursor); x in rest[k + 1..] <==> x in keys && Beyond(rest[k], x)
  {
    var rest := Rest(keys, cursor);
    var r := rest[k];
    assert r in rest;
    if x in rest[k + 1..] {
      var j :| k < j < |rest| && rest[j] == x;
      assert Before(rest[k], rest[j]);
    }
    if x in keys && Beyond(r, x) {
      BeyondLater(cursor, r, r, x);
      var j :| 0 <= j < |rest| && rest[j] == x;
      if j < k { BeforeAsymmetric(rest[j], rest[k]); }
      assert j != k;
      assert j > k;
      assert rest[k + 1..][j - k - 1] == x;
    }
  }

  /** No row is listed after `r` and yet not beyond r's cursor. */
  predicate NothingSkipped(keys: set<Key>, r: Key, wholeSeconds: bool) {
    forall x :: x in keys && Before(r, x) ==> Before(Cursor(r, wholeSeconds), x)
  }

  predicate NeverSkips(keys: set<Key>, wholeSeconds: bool) {
    forall r :: r in keys ==> NothingSkipped(keys, r, wholeSeconds)
  }

  /** If nothing is skipped at `r`, resuming from its cursor is resuming right after it. */
  lemma CursorIsExact(keys: set<Key>, r: Key, wholeSeconds: bool)
    requires Stamped(keys) && r in keys && NothingSkipped(keys, r, wholeSeconds)
    ensures Rest(keys, Cursor(r, wholeSeconds)) == Rest(keys, r)
  {
    var c := Cursor(r, wholeSeconds);
    CursorIsLater(r, wholeSeconds);
    forall x | x in keys ensures Beyond(c, x) <==> Beyond(r, x) {
      if Beyond(c, x) { BeyondLater(START, r, c, x); }
    }
    assert KeysBeyond(keys, c) == KeysBeyond(keys, r);
  }

  /** Where nothing is skipped, a full page leaves exactly the rows after it. */
  lemma PageLeavesRest(keys: set<Key>, cursor: Key, n: nat, wholeSeconds: bool)
    requires Stamped(keys) && 0 < n < |Rest(keys, cursor)| && NeverSkips(keys, wholeSeconds)
    ensures var rest := Rest(keys, cursor); Rest(keys, Cursor(rest[n - 1], wholeSeconds)) == rest[n..]
  {
    var last := Rest(keys, cursor)[n - 1];
    RestAfterRow(keys, cursor, n - 1);
    assert NothingSkipped(keys, last, wholeSeconds);
    CursorIsExact(keys, last, wholeSeconds);
  }

  lemma {:induction false} WalkFrom(keys: set<Key>, cursor: Key, n: nat, wholeSeconds: bool)
    requires Stamped(keys) && n > 0 && NeverSkips(keys, wholeSeconds)
    ensures Walk(keys, cursor, n, wholeSeconds) == Rest(keys, cursor)
    decreases |Rest(keys, cursor)|
  {
    var rest := Rest(keys, cursor);
    WalkStep(keys, cursor, n, wholeSeconds);
    if |rest| > n {
      PageLeavesRest(keys, cursor, n, wholeSeconds);
      WalkFrom(keys, Cursor(rest[n - 1], wholeSeconds), n, wholeSeconds);
      assert rest[..n] + rest[n..] == rest;
    }
  }

  /**
   At the store, pages chained by the exact key of their last row enumerate precisely the
   selected rows in order, each once, even among equal timestamps.
   */
  lemma ExactCursorWalk(rows: Rows, f: Filter, n: nat)
    requires n > 0 && Stamped(Selected(rows, f))
    ensures Lists(Walk(Selected(rows, f), START, n, false), Selected(rows, f), Before)
  {
    var keys := Selected(rows, f);
    assert NeverSkips(keys, false);
    WalkFrom(keys, START, n, false);
    assert KeysBeyond(keys, START) == keys;
  }

  lemma {:induction false} WalkWithin(keys: set<Key>, cursor: Key, n: nat, wholeSeconds: bool)
    requires Stamped(keys) && n > 0
    ensures forall k :: k in Walk(keys, cursor, n, wholeSeconds) ==> k in keys
    decreases |Rest(keys, cursor)|
  {
    var rest := Rest(keys, cursor);
    WalkStep(keys, cursor, n, wholeSeconds);
    if |rest| > n { WalkWithin(keys, Cursor(rest[n - 1], wholeSeconds), n, wholeSeconds); }
  }

  /** No walk, with either kind of cursor, shows another user's job or one outside the time range. */
  lemma WalkShowsOwnJobs(rows: Rows, f: Filter, n: nat, wholeSeconds: bool, k: Key)
    requires n > 0 && Stamped(Selected(rows, f)) && k in Walk(Selected(rows, f), START, n, wholeSeconds)
    ensures k.id in rows && rows[k.id].updated == k.updated && rows[k.id].user == f.user && Selects(f, rows[k.id])
    ensures f.from <= k.updated && (f.to == 0 || k.updated < f.to)
  {
    WalkWithin(Selected(rows, f), START, n, wholeSeconds);
    SelectsIff(f, rows[k.id]);
  }

  /** A query returns the first rows beyond the cursor: as many as its limit says, or 100. */
  lemma PageIsPrefix(keys: set<Key>, cursor: Key, limit: int)
    ensures var page, rest, n := Page(keys, cursor, limit), Rest(keys, cursor), if limit > 0 then limit else 100;
            |page| == (if |rest| < n then |rest| else n) && forall i :: 0 <= i < |page| ==> page[i] == rest[i]
  {
  }

  /** Pages of one row pass every row, so a complete walk of them means nothing was skipped. */
  lemma {:induction false} SingleStepsReveal(keys: set<Key>, cursor: Key, r: Key)
    requires Stamped(keys) && Walk(keys, cursor, 1, true) == Rest(keys, cursor) && r in Rest(keys, cursor)
    ensures NothingSkipped(keys, r, true)
    decreases |Rest(keys, cursor)|
  {
    var rest := Rest(keys, cursor);
    var first := rest[0];
    var c := Cursor(first, true);
    WalkStep(keys, cursor, 1, true);
    RestAfterRow(keys, cursor, 0);
    if |rest| > 1 {
      WalkStaysBeyond(keys, c);
      CursorIsLater(first, true);
      assert Walk(keys, c, 1, true) == rest[1..];
      assert NothingSkipped(keys, first, true);
      if r != first {
        CursorIsExact(keys, first, true);
        SingleStepsReveal(keys, c, r);
      }
    }
  }

  lemma {:induction false} WalkStaysBeyond(keys: set<Key>, cursor: Key)
    requires Stamped(keys)
    ensures forall x :: x in Walk(keys, cursor, 1, true) ==> x in keys && Beyond(cursor, x)
    decreases |Rest(keys, cursor)|
  {
    var rest := Rest(keys, cursor);
    WalkStep(keys, cursor, 1, true);
    if |rest| > 1 {
      var last := rest[0];
      var c := Cursor(last, true);
      CursorIsLater(last, true);
      WalkStaysBeyond(keys, c);
      forall x | x in Walk(keys, c, 1, true) ensures Beyond(cursor, x) { BeyondLater(cursor, last, c, x); }
    }
  }

  /** A row with a fraction shares its second only with rows before it, or at its start with smaller ids. */
  predicate SecondsApart(keys: set<Key>) {
    forall r, x :: r in keys && x in keys && Before(r, x) && x.updated / SECOND == r.updated / SECOND ==>
      r.updated % SECOND == 0 || (x.updated % SECOND == 0 && StringLess(x.id, r.id))
  }

  lemma SkippedIff(r: Key, x: Key)
    requires Before(r, x)
    ensures !Before(Cursor(r, true), x) <==>
            x.updated / SECOND == r.updated / SECOND && r.updated % SECOND != 0
            && (x.updated % SECOND == 0 ==> !StringLess(x.id, r.id))
  {
  }

  lemma NeverSkipsIff(keys: set<Key>)
    ensures NeverSkips(keys, true) <==> SecondsApart(keys)
  {
    if SecondsApart(keys) {
      forall r | r in keys ensures NothingSkipped(keys, r, true) {
        forall x | x in keys && Before(r, x) ensures Before(Cursor(r, true), x) { SkippedIff(r, x); }
      }
    }
    if NeverSkips(keys, true) {
      forall r, x | r in keys && x in keys && Before(r, x) && x.updated / SECOND == r.updated / SECOND
        ensures r.updated % SECOND == 0 || (x.updated % SECOND == 0 && StringLess(x.id, r.id))
      {
        SkippedIff(r, x);
        assert NothingSkipped(keys, r, true);
      }
    }
  }

  ghost predicate WalksAreComplete(keys: set<Key>, wholeSeconds: bool)
    requires Stamped(keys)
  {
    forall n: nat :: n > 0 ==> Walk(keys, START, n, wholeSeconds) == Rest(keys, START)
  }

  /**
   With the cursor cut to whole seconds, walks are complete for every page size exactly when the
   rows sharing a second are apart in the sense of `SecondsApart`.
   */
  lemma WholeSecondWalkIff(keys: set<Key>)
    requires Stamped(keys)
    ensures WalksAreComplete(keys, true) <==> SecondsApart(keys)
  {
    NeverSkipsIff(keys);
    if NeverSkips(keys, true) {
      forall n: nat | n > 0 ensures Walk(keys, START, n, true) == Rest(keys, START) {
        WalkFrom(keys, START, n, true);
      }
    }
    if WalksAreComplete(keys, true) {
      forall r | r in keys ensures NothingSkipped(keys, r, true) { SingleStepsReveal(keys, START, r); }
    }
  }

  /** Whole-second timestamps are safe. */
  lemma WholeSecondRowsNeverSkip(keys: set<Key>)
    requires Stamped(keys) && forall k :: k in keys ==> k.updated % SECOND == 0
    ensures WalksAreComplete(keys, true)
  {
    WholeSecondWalkIff(keys);
  }

  /** Any two rows of one second, the newer with a fraction, are not: some walk never shows the older one. */
  lemma SubSecondRowsSkip(r: Key, x: Key)
    requires x.updated / SECOND == r.updated / SECOND > 0 && x.updated < r.updated && x.updated % SECOND != 0
    ensures !WalksAreComplete({r, x}, true)
  {
    WholeSecondWalkIff({r, x});
    assert Before(r, x);
  }

  // ----- History trimming -----

  predicate InHistory(j: Job, user: string) { j.user == user && Terminal(j.status) }

  function HistoryKeys(rows: Rows, user: string): set<Key> {
    set id | id in rows && InHistory(rows[id], user) :: Key(rows[id].updated, id)
  }

  /** The inner SELECT ... ORDER BY ... LIMIT. */
  ghost function Newest(rows: Rows, user: string, max: nat): seq<Key> {
    BeforeIsOrder();
    Take(Sorted(HistoryKeys(rows, user), Before), max)
  }

  /** `TrimUserHistory`. */
  ghost function Trim(rows: Rows, user: string, max: int): Rows {
    if max <= 0 then rows
    else
      var keep := Elements(Newest(rows, user, max));
      map id | id in rows && (InHistory(rows[id], user) ==> Key(rows[id].updated, id) in keep) :: rows[id]
  }

  /** Trimming touches nothing but the surplus of this user's finished jobs. */
  lemma TrimKeepsOthers(rows: Rows, user: string, max: int)
    ensures var t := Trim(rows, user, max);
            && t.Keys <= rows.Keys && (forall id :: id in t ==> t[id] == rows[id])
            && (forall id :: id in rows && !InHistory(rows[id], user) ==> id in t)
  {
  }

  /**
   After trimming, the user has as many finished jobs as before but at most the cap, and they are
   the greatest by (updated_at, id): every one kept is newer than every one deleted.
   */
  lemma TrimKeepsNewest(rows: Rows, user: string, max: int)
    requires max > 0
    ensures var t := Trim(rows, user, max);
            && HistoryKeys(t, user) <= HistoryKeys(rows, user)
            && |HistoryKeys(t, user)| == (if |HistoryKeys(rows, user)| > max then max else |HistoryKeys(rows, user)|)
            && forall a, b :: a in HistoryKeys(t, user) && b in HistoryKeys(rows, user) - HistoryKeys(t, user) ==> Before(a, b)
  {
    BeforeIsOrder();
    var all := Sorted(HistoryKeys(rows, user), Before);
    var n := if |all| > max then max else |all|;
    assert Newest(rows, user, max) == all[..n];
    TrimmedKeys(rows, user, max);
    PrefixIsGreatest(all, HistoryKeys(rows, user), n);
  }

  lemma PrefixIsGreatest(all: seq<Key>, keys: set<Key>, n: nat)
    requires Lists(all, keys, Before) && n <= |all|
    ensures Elements(all[..n]) <= keys && |Elements(all[..n])| == n && |keys| == |all|
    ensures forall a, b :: a in Elements(all[..n]) && b in keys - Elements(all[..n]) ==> Before(a, b)
  {
    var kept := all[..n];
    BeforeIsOrder();
    SuffixAscending(all, Before, n);
    AscendingSize(all, keys, Before);
    AscendingSize(kept, Elements(kept), Before);
    forall a, b | a in Elements(kept) && b in keys - Elements(kept) ensures Before(a, b) {
      assert b in Elements(all);
      var i :| 0 <= i < n && kept[i] == a;
      var j :| 0 <= j < |all| && all[j] == b;
      assert j >= n by { assert forall i :: 0 <= i < n ==> all[i] == kept[i] && kept[i] in Elements(kept); }
      assert Before(all[i], all[j]);
    }
  }

  lemma TrimmedKeys(rows: Rows, user: string, max: int)
    requires max > 0
    ensures HistoryKeys(Trim(rows, user, max), user) == Elements(Newest(rows, user, max))
  {
    var kept := Newest(rows, user, max);
    BeforeIsOrder();
    var t := Trim(rows, user, max);
    var all := Sorted(HistoryKeys(rows, user), Before);
    forall k | k in kept ensures k in HistoryKeys(t, user) {
      assert k in all && k in Elements(all);
      var id :| id in rows && InHistory(rows[id], user) && k == Key(rows[id].updated, id);
      assert id in t;
    }
  }

  /** A finished job survives exactly if fewer than `max` finished jobs of its user are newer. */
  lemma TrimKeepsIff(rows: Rows, user: string, max: int, id: string)
    requires max > 0 && id in rows && InHistory(rows[id], user)
    ensures id in Trim(rows, user, max) <==> |Ahead(HistoryKeys(rows, user), Before, Key(rows[id].updated, id))| < max
  {
    BeforeIsOrder();
    var keys := HistoryKeys(rows, user);
    var k := Key(rows[id].updated, id);
    assert k in keys;
    TakeIff(Sorted(keys, Before), keys, Before, max, k);
  }

  function Updated(rows: Rows, id: string, status: Status, now: Time): Rows {
    if id in rows then rows[id := rows[id].(status := status, updated := now)] else rows
  }

  /** The key the updated job has in the history of `user`, if any. */
  function NewKey(rows: Rows, id: string, user: string, status: Status, now: Time): set<Key> {
    if id in rows && rows[id].user == user && Terminal(status) then {Key(now, id)} else {}
  }

  lemma UpdatedHistory(rows: Rows, id: string, status: Status, now: Time)
    ensures forall user :: HistoryKeys(Updated(rows, id, status, now), user) ==
                           (set k | k in HistoryKeys(rows, user) && k.id != id) + NewKey(rows, id, user, status, now)
  {
    var after := Updated(rows, id, status, now);
    forall user ensures HistoryKeys(after, user) ==
                        (set k | k in HistoryKeys(rows, user) && k.id != id) + NewKey(rows, id, user, status, now)
    {
      forall k ensures k in HistoryKeys(after, user) <==>
                       (k in HistoryKeys(rows, user) && k.id != id) || k in NewKey(rows, id, user, status, now)
      {
        HasKey(rows, user, k);
        HasKey(after, user, k);
      }
    }
  }

  lemma HasKey(rows: Rows, user: string, k: Key)
    ensures k in HistoryKeys(rows, user) <==> k.id in rows && InHistory(rows[k.id], user) && k.updated == rows[k.id].updated
  {
    if k.id in rows && InHistory(rows[k.id], user) && k.updated == rows[k.id].updated {
      assert k == Key(rows[k.id].updated, k.id);
    }
  }

  predicate NewerThanHistory(rows: Rows, user: string, now: Time) {
    forall k :: k in HistoryKeys(rows, user) ==> k.updated < now
  }

  ghost predicate FinishedAndTrimmed(before: Rows, after: Rows, id: string, user: string, status: Status, now: Time, max: int) {
    && (max > 0 ==> |HistoryKeys(after, user)| <= max)
    && (forall x :: x in before && x != id && !InHistory(before[x], user) ==> x in after)
    && (forall x :: x in after && x != id ==> x in before && after[x] == before[x])
    && (id in before && Terminal(status) && NewerThanHistory(before, user, now) ==>
          id in after && after[id] == before[id].(status := status, updated := now))
  }

  lemma FinishTrims(rows: Rows, id: string, user: string, status: Status, now: Time, max: int)
    requires id in rows ==> rows[id].user == user
    ensures FinishedAndTrimmed(rows, Trim(Updated(rows, id, status, now), user, max), id, user, status, now, max)
  {
    var mid := Updated(rows, id, status, now);
    TrimKeepsOthers(mid, user, max);
    if max > 0 { TrimKeepsNewest(mid, user, max); }
    if id in rows && Terminal(status) && NewerThanHistory(rows, user, now) {
      NewestSurvives(rows, id, status, now, max);
    }
  }

  lemma NewestSurvives(rows: Rows, id: string, status: Status, now: Time, max: int)
    requires id in rows && Terminal(status) && NewerThanHistory(rows, rows[id].user, now)
    ensures id in Trim(Updated(rows, id, status, now), rows[id].user, max)
  {
    var mid, user := Updated(rows, id, status, now), rows[id].user;
    UpdatedHistory(rows, id, status, now);
    forall k | k in HistoryKeys(mid, user) && k.id != id ensures Before(Key(now, id), k) {
      assert k in HistoryKeys(rows, user);
    }
    if max > 0 { FreshJobSurvives(mid, id, max); }
  }

  /** `MarkOrphansFailed`: every job is finished, nothing finished changes. */
  function Reap(rows: Rows, now: Time): Rows {
    map id | id in rows ::
      if Terminal(rows[id].status) then rows[id] else rows[id].(status := Failed, updated := now)
  }

  /** The table as the store's UPDATE and DELETE statements change it. */
  class JobStore {
    var rows: Rows

    constructor ()
      ensures rows == map[]
    {
      rows := map[];
    }

    /** The job leaves its place in its user's history, if it had one, for the newest; nobody else's changes. */
    method UpdateState(id: string, status: Status, now: Time)
      modifies this
      ensures rows == Updated(old(rows), id, status, now)
      ensures forall user :: HistoryKeys(rows, user) ==
                             (set k | k in HistoryKeys(old(rows), user) && k.id != id) + NewKey(old(rows), id, user, status, now)
    {
      UpdatedHistory(rows, id, status, now);
      if id in rows { rows := rows[id := rows[id].(status := status, updated := now)]; }
    }

    /** Exactly the unfinished jobs become failed, and `n` is how many rows changed. */
    method MarkOrphansFailed(now: Time) returns (n: nat)
      modifies this
      ensures rows.Keys == old(rows).Keys
      ensures forall id :: id in rows ==> Terminal(rows[id].status)
      ensures forall id :: id in rows && rows[id] != old(rows)[id] ==>
                !Terminal(old(rows)[id].status) && rows[id] == old(rows)[id].(status := Failed, updated := now)
      ensures n == |set id | id in rows && rows[id] != old(rows)[id]|
      ensures forall user :: HistoryKeys(old(rows), user) <= HistoryKeys(rows, user)
    {
      ghost var before := rows;
      var orphans := set id | id in rows && !Terminal(rows[id].status);
      rows := Reap(rows, now);
      assert orphans == set id | id in rows && rows[id] != before[id];
      n := |orphans|;
    }

    /**
     A job's terminal `SetState` or `Cancel`: store the state, then trim.  Afterwards the user has
     at most the cap of finished jobs, this one among them if it is the newest, and all other
     users' jobs and all active jobs are as they were.
     */
    method FinishJob(id: string, user: string, status: Status, now: Time, max: int)
      requires id in rows ==> rows[id].user == user
      modifies this
      ensures rows == Trim(Updated(old(rows), id, status, now), user, max)
      ensures FinishedAndTrimmed(old(rows), rows, id, user, status, now, max)
    {
      FinishTrims(rows, id, user, status, now, max);
      UpdateState(id, status, now);
      var _ := TrimUserHistory(user, max);
    }

    method TrimUserHistory(user: string, max: int) returns (n: nat)
      modifies this
      ensures rows == Trim(old(rows), user, max) && n + |rows| == |old(rows)|
    {
      if max <= 0 { return 0; }
      var keys := HistoryKeys(rows, user);
      var surplus := set id | id in rows && InHistory(rows[id], user) && |Ahead(keys, Before, Key(rows[id].updated, id))| >= max;
      forall id | id in rows ensures id in surplus <==> id !in Trim(rows, user, max) {
        if InHistory(rows[id], user) { TrimKeepsIff(rows, user, max, id); }
      }
      assert rows - surplus == Trim(rows, user, max);
      DropSize(rows, surplus);
      n := |surplus|;
      rows := rows - surplus;
    }
  }

  lemma DropSize(rows: Rows, ids: set<string>)
    requires ids <= rows.Keys
    ensures |rows - ids| + |ids| == |rows|
  {
    assert (rows - ids).Keys == rows.Keys - ids;
    assert rows.Keys == (rows.Keys - ids) + ids;
    assert |rows.Keys| == |rows.Keys - ids| + |ids|;
  }

  /** A job that has just finished later than all others survives the trim it triggers. */
  lemma FreshJobSurvives(rows: Rows, id: string, max: int)
    requires max > 0 && id in rows && Terminal(rows[id].status)
    requires forall k :: k in HistoryKeys(rows, rows[id].user) && k.id != id ==> Before(Key(rows[id].updated, id), k)
    ensures id in Trim(rows, rows[id].user, max)
  {
    var user := rows[id].user;
    var k := Key(rows[id].updated, id);
    assert k in HistoryKeys(rows, user);
    TrimKeepsNewest(rows, user, max);
    var t := Trim(rows, user, max);
    if id !in t {
      assert k !in HistoryKeys(t, user);
      assert HistoryKeys(rows, user) != {};
      assert HistoryKeys(t, user) != {};
      var a :| a in HistoryKeys(t, user);
      BeforeAsymmetric(a, k);
      assert false;
    }
  }

  /** Trimming twice is trimming once. */
  lemma TrimIdempotent(rows: Rows, user: string, max: int)
    ensures Trim(Trim(rows, user, max), user, max) == Trim(rows, user, max)
  {
    if max > 0 {
      var t := Trim(rows, user, max);
      TrimKeepsNewest(rows, user, max);
      TrimKeepsNewest(t, user, max);
      var tt := Trim(t, user, max);
      SubsetSameSize(HistoryKeys(tt, user), HistoryKeys(t, user));
      forall id | id in t ensures id in tt {
        if InHistory(t[id], user) {
          assert Key(t[id].updated, id) in HistoryKeys(t, user);
        }
      }
      assert tt == t;
    }
  }

  lemma SubsetSameSize<T>(a: set<T>, b: set<T>)
    requires a <= b && |a| == |b|
    ensures a == b
  {
    if a != b { SubsetSize(a, b); }
  }
}
