/**
 The in-memory audit log (internal/httpapi/audit_store.go): a bounded buffer of numbered
 entries that is read newest first, page by page, while other requests keep adding to it.
 */
module AuditRing {
  import opened Basics

  /** `id` is 0 until the store assigns one. */
  datatype Entry = Entry(id: int, time: int, event: string, fields: map<string, string>)

  // ----- What the buffer holds -----

  /** Every entry ever added, numbered from 1. */
  function Numbered(history: seq<Entry>): (r: seq<Entry>)
    ensures |r| == |history|
    ensures forall i :: 0 <= i < |r| ==> r[i] == history[i].(id := i + 1)
  {
    seq(|history|, i requires 0 <= i < |history| => history[i].(id := i + 1))
  }

  function FirstKept(history: seq<Entry>, max: nat): nat {
    if |history| > max then |history| - max else 0
  }

  /** The newest `max` of them. */
  function Retained(history: seq<Entry>, max: nat): (r: seq<Entry>)
    ensures |r| == if |history| > max then max else |history|
  {
    Numbered(history)[FirstKept(history, max)..]
  }

  /** Membership by number: ids are consecutive and an entry never changes. */
  lemma RetainedIff(history: seq<Entry>, max: nat, e: Entry)
    ensures e in Retained(history, max) <==>
            FirstKept(history, max) < e.id <= |history| && e == Numbered(history)[e.id - 1]
  {
    var r := Retained(history, max);
    var k := FirstKept(history, max);
    if k < e.id <= |history| && e == Numbered(history)[e.id - 1] {
      assert r[e.id - 1 - k] == e;
    }
  }

  function Pushed(items: seq<Entry>, max: nat, e: Entry): seq<Entry> {
    var s := items + [e];
    if |s| > max then s[|s| - max..] else s
  }

  /** Adding appends the next number and drops the oldest entry when the buffer is full. */
  lemma RetainedGrows(h: seq<Entry>, max: nat, e: Entry)
    requires max > 0
    ensures Retained(h + [e], max) == Pushed(Retained(h, max), max, e.(id := |h| + 1))
  {
    var k := FirstKept(h, max);
    var all := Numbered(h + [e]);
    assert all == Numbered(h) + [e.(id := |h| + 1)];
    assert all[k..] == Retained(h, max) + [e.(id := |h| + 1)];
    if |h| >= max {
      assert all[k..][1..] == all[k + 1..];
    }
  }

  /** As entries are added, the old ones leave in order and none comes back. */
  lemma RetainedLater(h: seq<Entry>, later: seq<Entry>, max: nat, e: Entry)
    requires h <= later && e in Retained(later, max) && e.id <= |h|
    ensures e in Retained(h, max)
  {
    RetainedIff(later, max, e);
    RetainedIff(h, max, e);
  }

  // ----- Reading -----

  predicate Keep(e: Entry, afterID: int, filter: Entry -> bool) {
    !(afterID > 0 && e.id >= afterID) && filter(e)
  }

  /** All matching entries, newest first. */
  function Matching(items: seq<Entry>, afterID: int, filter: Entry -> bool): seq<Entry> {
    if items == [] then []
    else
      var last := items[|items| - 1];
      (if Keep(last, afterID, filter) then [last] else []) + Matching(items[..|items| - 1], afterID, filter)
  }

  lemma MatchingStep(items: seq<Entry>, i: nat, afterID: int, filter: Entry -> bool, done: seq<Entry>)
    requires i < |items|
    ensures done + Matching(items[..i + 1], afterID, filter) ==
            (if Keep(items[i], afterID, filter) then done + [items[i]] else done) + Matching(items[..i], afterID, filter)
  {
    assert items[..i + 1][..i] == items[..i];
  }

  lemma TakeDone<T>(all: seq<T>, done: seq<T>, rest: seq<T>, n: nat)
    requires all == done + rest && |done| <= n && (|done| < n ==> rest == [])
    ensures done == Take(all, n)
  {
  }

  ghost predicate Numbers(items: seq<Entry>) {
    && (forall i :: 0 <= i < |items| ==> items[i].id > 0)
    && (forall i, j :: 0 <= i < j < |items| ==> items[i].id < items[j].id)
  }

  ghost predicate Decreasing(s: seq<Entry>) {
    forall i, j :: 0 <= i < j < |s| ==> s[i].id > s[j].id
  }

  lemma {:induction false} MatchingSpec(items: seq<Entry>, afterID: int, filter: Entry -> bool)
    requires Numbers(items)
    ensures var m := Matching(items, afterID, filter);
            && Decreasing(m)
            && forall e :: e in m <==> e in items && Keep(e, afterID, filter)
    decreases |items|
  {
    if items != [] {
      var front, last := items[..|items| - 1], items[|items| - 1];
      MatchingSpec(front, afterID, filter);
      assert items == front + [last];
      var rest := Matching(front, afterID, filter);
      forall e | e in rest ensures e.id < last.id {
        var i :| 0 <= i < |front| && front[i] == e;
        assert items[i].id < items[|items| - 1].id;
      }
      Joined([last], rest, last.id);
    }
  }

  lemma Joined(a: seq<Entry>, b: seq<Entry>, c: int)
    requires Decreasing(a) && Decreasing(b)
    requires (forall e :: e in a ==> e.id >= c) && (forall e :: e in b ==> e.id < c)
    ensures Decreasing(a + b)
  {
    var s := a + b;
    forall i, j | 0 <= i < j < |s| ensures s[i].id > s[j].id {
      assert i < |a| ==> s[i] in a;
      assert j >= |a| ==> s[j] in b;
    }
  }

  function PageLimit(limit: int): nat {
    if limit <= 0 || limit > 1000 then 200 else limit
  }

  /** `auditNextCursor`, with None for the empty string. */
  function AuditNextCursor(items: seq<Entry>, pageLimit: int): Option<int> {
    if |items| <= pageLimit || pageLimit <= 0 then None else Some(items[pageLimit - 1].id)
  }

  function TrimAuditPage(items: seq<Entry>, pageLimit: int): seq<Entry> {
    if |items| > pageLimit && pageLimit > 0 then items[..pageLimit] else items
  }

  /** The page a request returns: the first entries that match. */
  function PageOf(items: seq<Entry>, limit: int, afterID: int, filter: Entry -> bool): seq<Entry> {
    Take(Matching(items, afterID, filter), PageLimit(limit))
  }

  /** A cursor is returned exactly if matching entries were left out. */
  function CursorOf(items: seq<Entry>, limit: int, afterID: int, filter: Entry -> bool): Option<int> {
    var m := Matching(items, afterID, filter);
    if |m| > PageLimit(limit) then Some(m[PageLimit(limit) - 1].id) else None
  }

  class AuditStore {
    var max: int
    var nextID: int
    var items: seq<Entry>
    /** Everything added so far. */
    ghost var history: seq<Entry>

    ghost predicate Valid() reads this {
      max > 0 && nextID == |history| && items == Retained(history, max)
    }

    constructor (max: int)
      ensures Valid() && history == [] && this.max == if max <= 0 then 1000 else max
    {
      this.max := if max <= 0 then 1000 else max;
      nextID := 0;
      items := [];
      history := [];
    }

    method Add(e: Entry)
      requires Valid()
      modifies this
      ensures Valid() && max == old(max) && history == old(history) + [e]
    {
      if max <= 0 {
        return;
      }
      RetainedGrows(history, max, e);
      ghost var after := Pushed(items, max, e.(id := nextID + 1));
      nextID := nextID + 1;
      items := items + [e.(id := nextID)];
      history := history + [e];
      if |items| > max {
        items := items[|items| - max..];
      }
      assert items == after;
    }

    method ListNewestFirst(limit: int, afterID: int, filter: Entry -> bool) returns (out: seq<Entry>)
      ensures out == Take(Matching(items, afterID, filter), PageLimit(limit) + 1)
    {
      var lim := limit;
      if lim <= 0 || lim > 1000 {
        lim := 200;
      }
      var fetch := lim + 1;
      out := [];
      var i := |items| - 1;
      ghost var all := Matching(items, afterID, filter);
      assert items[..|items|] == items;
      while i >= 0 && |out| < fetch
        invariant -1 <= i < |items| && |out| <= fetch
        invariant out + Matching(items[..i + 1], afterID, filter) == all
      {
        var e := items[i];
        MatchingStep(items, i, afterID, filter, out);
        if Keep(e, afterID, filter) {
          out := out + [e];
        }
        i := i - 1;
      }
      TakeDone(all, out, Matching(items[..i + 1], afterID, filter), fetch);
    }

    /** The fallback branch of `handleAuditLogs`: one page and the cursor of the next. */
    method HandleAuditLogs(limit: int, afterID: int, filter: Entry -> bool) returns (page: seq<Entry>, cursor: Option<int>)
      ensures page == PageOf(items, limit, afterID, filter)
      ensures cursor == CursorOf(items, limit, afterID, filter)
    {
      var pageLimit := limit;
      if pageLimit <= 0 || pageLimit > 1000 {
        pageLimit := 200;
      }
      var found := ListNewestFirst(pageLimit, afterID, filter);
      cursor := AuditNextCursor(found, pageLimit);
      page := TrimAuditPage(found, pageLimit);
    }
  }

  /** A request for 1 to 1000 entries gets that many of the newest matches, any other request 200; a cursor says there are more. */
  lemma PageHolds(items: seq<Entry>, limit: int, afterID: int, filter: Entry -> bool)
    ensures var m, page := Matching(items, afterID, filter), PageOf(items, limit, afterID, filter);
            var n := if 1 <= limit <= 1000 then limit else 200;
            && |page| == (if |m| < n then |m| else n)
            && (forall i :: 0 <= i < |page| ==> page[i] == m[i])
            && (CursorOf(items, limit, afterID, filter) == if |m| > n then Some(page[n - 1].id) else None)
  {
  }

  // ----- Walking through the pages while entries are added -----

  /** One request: the history at that moment and the page size asked for. */
  datatype Request = Request(history: seq<Entry>, limit: int)

  ghost predicate Growing(reqs: seq<Request>) {
    forall i, j :: 0 <= i < j < |reqs| ==> reqs[i].history <= reqs[j].history
  }

  /** The entries a client collects, following cursors from `afterID` (0 at the start). */
  function Walk(reqs: seq<Request>, max: nat, afterID: int, filter: Entry -> bool): seq<Entry> {
    if reqs == [] then []
    else
      var items := Retained(reqs[0].history, max);
      var page := PageOf(items, reqs[0].limit, afterID, filter);
      match CursorOf(items, reqs[0].limit, afterID, filter)
      case None => page
      case Some(c) => page + Walk(reqs[1..], max, c, filter)
  }

  /** How many requests are made before no cursor comes back, if that happens. */
  function Requests(reqs: seq<Request>, max: nat, afterID: int, filter: Entry -> bool): (r: Option<nat>)
    ensures r.Some? ==> 0 < r.value <= |reqs|
  {
    if reqs == [] then None
    else
      match CursorOf(Retained(reqs[0].history, max), reqs[0].limit, afterID, filter)
      case None => Some(1)
      case Some(c) =>
        var rest := Requests(reqs[1..], max, c, filter);
        if rest.Some? then Some(rest.value + 1) else None
  }

  lemma RetainedNumbers(h: seq<Entry>, max: nat)
    ensures Numbers(Retained(h, max))
  {
  }

  /** What one request shows and what it leaves for later. */
  lemma PageSpec(h: seq<Entry>, max: nat, limit: int, afterID: int, filter: Entry -> bool)
    ensures var items := Retained(h, max); var page := PageOf(items, limit, afterID, filter);
            && Decreasing(page)
            && (forall e :: e in page ==> e in items && Keep(e, afterID, filter))
            && match CursorOf(items, limit, afterID, filter)
               case None => forall e :: e in items && Keep(e, afterID, filter) ==> e in page
               case Some(c) =>
                 && c > 0 && (afterID > 0 ==> c < afterID)
                 && (forall e :: e in page ==> e.id >= c)
                 && (exists e :: e in page && e.id == c)
                 && (forall e :: e in items && Keep(e, afterID, filter) ==> e in page || e.id < c)
  {
    var items := Retained(h, max);
    RetainedNumbers(h, max);
    MatchingSpec(items, afterID, filter);
    var m := Matching(items, afterID, filter);
    TakeDecreasing(m, PageLimit(limit));
    assert forall e :: e in m ==> e.id > 0;
  }

  lemma TakeDecreasing(m: seq<Entry>, n: nat)
    requires Decreasing(m) && n > 0
    ensures Decreasing(Take(m, n)) && forall e :: e in Take(m, n) ==> e in m
    ensures |m| > n ==> var c := m[n - 1].id;
              && m[n - 1] in m && m[n - 1] in Take(m, n)
              && (forall e :: e in Take(m, n) ==> e.id >= c)
              && (forall e :: e in m ==> e in Take(m, n) || e.id < c)
  {
    if |m| > n {
      assert m == m[..n] + m[n..];
      assert m[..n][n - 1] in m[..n];
      assert forall i :: 0 <= i < n ==> m[..n][i].id >= m[n - 1].id;
      forall e | e in m ensures e in m[..n] || e.id < m[n - 1].id {
        var i :| 0 <= i < |m| && m[i] == e;
        if i < n { assert m[..n][i] == e; }
      }
    }
  }

  /** No entry is shown twice: ids strictly decrease over the whole walk, whatever is added meanwhile. */
  lemma {:induction false} WalkDecreases(reqs: seq<Request>, max: nat, afterID: int, filter: Entry -> bool)
    ensures Decreasing(Walk(reqs, max, afterID, filter))
    ensures forall e :: e in Walk(reqs, max, afterID, filter) ==> Keep(e, afterID, filter)
    decreases |reqs|
  {
    if reqs != [] {
      var items := Retained(reqs[0].history, max);
      PageSpec(reqs[0].history, max, reqs[0].limit, afterID, filter);
      match CursorOf(items, reqs[0].limit, afterID, filter)
      case None =>
      case Some(c) =>
        WalkDecreases(reqs[1..], max, c, filter);
        Joined(PageOf(items, reqs[0].limit, afterID, filter), Walk(reqs[1..], max, c, filter), c);
    }
  }

  /** A finished walk shows every matching entry that was in the buffer at each of its requests. */
  lemma {:induction false} WalkIsComplete(reqs: seq<Request>, max: nat, afterID: int, filter: Entry -> bool, e: Entry)
    requires Requests(reqs, max, afterID, filter).Some? && Keep(e, afterID, filter)
    requires forall i :: 0 <= i < Requests(reqs, max, afterID, filter).value ==> e in Retained(reqs[i].history, max)
    ensures e in Walk(reqs, max, afterID, filter)
    decreases |reqs|
  {
    var items := Retained(reqs[0].history, max);
    PageSpec(reqs[0].history, max, reqs[0].limit, afterID, filter);
    match CursorOf(items, reqs[0].limit, afterID, filter)
    case None =>
    case Some(c) =>
      if e !in PageOf(items, reqs[0].limit, afterID, filter) {
        var n := Requests(reqs[1..], max, c, filter).value;
        forall i | 0 <= i < n ensures e in Retained(reqs[1..][i].history, max) {
          assert reqs[1..][i] == reqs[i + 1];
        }
        WalkIsComplete(reqs[1..], max, c, filter, e);
      }
  }

  /** It shows nothing that was not in the buffer when it began: later entries never appear. */
  lemma {:induction false} WalkShowsTheStart(reqs: seq<Request>, max: nat, afterID: int, filter: Entry -> bool, e: Entry)
    requires Growing(reqs) && e in Walk(reqs, max, afterID, filter)
    ensures e in Retained(reqs[0].history, max)
    decreases |reqs|
  {
    var h := reqs[0].history;
    var items := Retained(h, max);
    PageSpec(h, max, reqs[0].limit, afterID, filter);
    if e !in PageOf(items, reqs[0].limit, afterID, filter) {
      var c := CursorOf(items, reqs[0].limit, afterID, filter).value;
      WalkDecreases(reqs[1..], max, c, filter);
      WalkShowsTheStart(reqs[1..], max, c, filter, e);
      RetainedLater(h, reqs[1].history, max, e);
    }
  }

  lemma RetainedBetween(reqs: seq<Request>, i: nat, last: nat, max: nat, e: Entry)
    requires Growing(reqs) && i <= last < |reqs| && e in Retained(reqs[last].history, max) && e.id <= |reqs[0].history|
    ensures e in Retained(reqs[i].history, max)
  {
    if i < last {
      assert |reqs[0].history| <= |reqs[i].history| by { assert i > 0 ==> reqs[0].history <= reqs[i].history; }
      RetainedLater(reqs[i].history, reqs[last].history, max, e);
    }
  }

  /**
   Audit paging under concurrent adds: what a finished walk shows lies between the matching
   entries still in the buffer at its last request and those in the buffer at its first.
   */
  lemma WalkBounds(reqs: seq<Request>, max: nat, filter: Entry -> bool, e: Entry)
    requires Growing(reqs) && Requests(reqs, max, 0, filter).Some?
    ensures var last := reqs[Requests(reqs, max, 0, filter).value - 1].history;
            && (filter(e) && e in Retained(last, max) && e.id <= |reqs[0].history| ==> e in Walk(reqs, max, 0, filter))
            && (e in Walk(reqs, max, 0, filter) ==> filter(e) && e in Retained(reqs[0].history, max))
  {
    var n := Requests(reqs, max, 0, filter).value;
    if filter(e) && e in Retained(reqs[n - 1].history, max) && e.id <= |reqs[0].history| {
      forall i | 0 <= i < n ensures e in Retained(reqs[i].history, max) { RetainedBetween(reqs, i, n - 1, max, e); }
      WalkIsComplete(reqs, max, 0, filter, e);
    }
    if e in Walk(reqs, max, 0, filter) {
      WalkDecreases(reqs, max, 0, filter);
      WalkShowsTheStart(reqs, max, 0, filter, e);
    }
  }

  /** Following cursors ends: every further page starts at a smaller id. */
  lemma {:induction false} WalkEnds(reqs: seq<Request>, max: nat, afterID: int, filter: Entry -> bool)
    requires reqs != [] && (afterID > 0 ==> |reqs| >= afterID) && (afterID <= 0 ==> |reqs| > |reqs[0].history|)
    ensures Requests(reqs, max, afterID, filter).Some?
    decreases |reqs|
  {
    var h := reqs[0].history;
    var items := Retained(h, max);
    PageSpec(h, max, reqs[0].limit, afterID, filter);
    match CursorOf(items, reqs[0].limit, afterID, filter)
    case None =>
    case Some(c) =>
      assert c <= |h| by {
        var e :| e in PageOf(items, reqs[0].limit, afterID, filter) && e.id == c;
        RetainedIff(h, max, e);
      }
      WalkEnds(reqs[1..], max, c, filter);
  }
}
