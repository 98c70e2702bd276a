/**
 Listing windows: the limit/offset/cursor code shared by the access queries
 (internal/access/sqlite_store.go), the chunked lookup `ListByIDs`, and the keyset walk that
 clients of `handleTargets` perform (internal/httpapi/targets_handler.go).
 */
module Paging {
  import opened Basics
  import opened Order

  type Id = string

  datatype ListOpts = ListOpts(limit: int, offset: int, afterID: Id)

  function Limit(opts: Option<ListOpts>, default: int): int {
    if opts.Some? && opts.value.limit > 0 then opts.value.limit else default
  }

  function Offset(opts: Option<ListOpts>): nat {
    if opts.Some? && opts.value.offset > 0 then opts.value.offset else 0
  }

  /** What is left of a listing after the cursor; an empty cursor means the start. */
  function Rest(all: seq<Id>, after: Id): seq<Id> {
    if after == "" then all else After(all, StringLess, after)
  }

  function Drop<T>(s: seq<T>, n: nat): seq<T> {
    if n >= |s| then [] else s[n..]
  }

  /** The window a listing method returns. */
  function Window(all: seq<Id>, opts: Option<ListOpts>, default: int): seq<Id> {
    var rest := Drop(Rest(all, if opts.Some? then opts.value.afterID else ""), Offset(opts));
    if Limit(opts, default) > 0 then Take(rest, Limit(opts, default)) else rest
  }

  /** The window is the stretch of the listing beyond the cursor that offset and limit describe. */
  lemma WindowCells(all: seq<Id>, opts: Option<ListOpts>, default: nat)
    requires default > 0
    ensures var w := Window(all, opts, default);
            var rest := if opts.Some? then Rest(all, opts.value.afterID) else all;
            var offset := if opts.Some? && opts.value.offset > 0 then opts.value.offset else 0;
            var limit := if opts.Some? && opts.value.limit > 0 then opts.value.limit else default;
            && |w| == (if offset >= |rest| then 0 else if |rest| - offset > limit then limit else |rest| - offset)
            && forall i :: 0 <= i < |w| ==> w[i] == rest[offset + i]
  {
  }

  /** The slicing code at the end of `TargetIDsForUser`, `GroupIDsForUser` and `UserIDsForTarget`. */
  method ApplyWindow(sorted: seq<Id>, opts: Option<ListOpts>, default: int) returns (all: seq<Id>)
    ensures all == Window(sorted, opts, default)
  {
    all := sorted;
    var limit, offset := Limit(opts, default), Offset(opts);
    if opts.Some? && opts.value.afterID != "" {
      var i := 0;
      while i < |all| && !StringLess(opts.value.afterID, all[i])
        invariant 0 <= i <= |all| && After(all[i..], StringLess, opts.value.afterID) == Rest(sorted, opts.value.afterID)
      {
        assert all[i..][1..] == all[i + 1..];
        i := i + 1;
      }
      all := all[i..];
    }
    if offset > 0 {
      if offset >= |all| { return []; }
      all := all[offset..];
    }
    if limit > 0 && |all| > limit {
      all := all[..limit];
    }
  }

  /** `sort.Slice` over the collected set: repeatedly take the least. */
  method SortIDs(seen: set<Id>) returns (all: seq<Id>)
    ensures Lists(all, seen, StringLess)
  {
    all := [];
    var left := seen;
    while left != {}
      invariant left + Elements(all) == seen && Ascending(all, StringLess)
      invariant forall x, y :: x in all && y in left ==> StringLess(x, y)
      decreases left
    {
      var m := Least(left);
      all := all + [m];
      left := left - {m};
    }
  }

  method Least(s: set<Id>) returns (m: Id)
    requires s != {}
    ensures m in s && forall x :: x in s && x != m ==> StringLess(m, x)
  {
    m :| m in s;
    var left := s - {m};
    while left != {}
      invariant m in s && left <= s
      invariant forall x :: x in s && x !in left && x != m ==> StringLess(m, x)
      decreases left
    {
      var x :| x in left;
      StringOrder();
      if StringLess(x, m) { m := x; }
      left := left - {x};
    }
  }

  // ----- The offset that should be ignored -----

  /** The documented meaning: a cursor makes the offset irrelevant. */
  function DocumentedWindow(all: seq<Id>, opts: ListOpts, default: int): seq<Id> {
    if opts.afterID == "" then Window(all, Some(opts), default)
    else Window(all, Some(opts.(offset := 0)), default)
  }

  /** The code ignores the offset exactly when it is not positive or nothing follows the cursor. */
  lemma OffsetIgnoredIff(all: seq<Id>, opts: ListOpts, default: int)
    requires Ascending(all, StringLess) && opts.afterID != "" && default > 0
    ensures (Window(all, Some(opts), default) == DocumentedWindow(all, opts, default)) <==>
              (opts.offset <= 0 || Rest(all, opts.afterID) == [])
  {
    StringOrder();
    var k := AfterSpec(all, StringLess, opts.afterID);
    DroppedDiffers(all, k, Offset(Some(opts)), Limit(Some(opts), default));
  }

  lemma DroppedDiffers(all: seq<Id>, k: nat, offset: nat, limit: int)
    requires Ascending(all, StringLess) && k <= |all| && limit > 0
    ensures (Take(Drop(all[k..], offset), limit) == Take(Drop(all[k..], 0), limit)) <==> (offset == 0 || all[k..] == [])
  {
    if offset > 0 && k + offset < |all| {
      assert StringLess(all[k], all[k + offset]);
      StringLessIrreflexive(all[k]);
      assert Take(Drop(all[k..], offset), limit)[0] == all[k + offset];
      assert Take(Drop(all[k..], 0), limit)[0] == all[k];
    }
  }

  // ----- Chunked lookup -----

  datatype Target = Target(id: Id, port: int, name: string)

  /** First occurrences, in order, without the empty ID. */
  function Unique(ids: seq<Id>): seq<Id> {
    if ids == [] then []
    else
      var u, id := Unique(ids[..|ids| - 1]), ids[|ids| - 1];
      if id == "" || id in u then u else u + [id]
  }

  predicate Usable(table: map<Id, Target>, id: Id) {
    id in table && 0 <= table[id].port <= 65535
  }

  /** One lookup per ID. */
  function LookupEach(ids: seq<Id>, table: map<Id, Target>): seq<Target> {
    if ids == [] then []
    else
      var rest := LookupEach(ids[..|ids| - 1], table);
      var id := ids[|ids| - 1];
      if Usable(table, id) then rest + [table[id]] else rest
  }

  /** The items are the rows of the table for the ids asked for, in that order, without those that cannot be loaded. */
  lemma {:induction false} LookupIsRows(ids: seq<Id>, table: map<Id, Target>, from: Id, item: Target)
    ensures |LookupEach(ids, table)| <= |ids|
    ensures item in LookupEach(ids, table) <==>
              0 <= item.port <= 65535 && exists id :: id in ids && id in table && table[id] == item
    ensures LookupEach(ids + [from], table) == LookupEach(ids, table) + if Usable(table, from) then [table[from]] else []
    decreases |ids|
  {
    assert (ids + [from])[..|ids|] == ids;
    if ids != [] {
      var init, last := ids[..|ids| - 1], ids[|ids| - 1];
      assert ids == init + [last];
      LookupIsRows(init, table, from, item);
    }
  }

  /** The ids that fall into the requested window. */
  function IdWindow(ids: seq<Id>, opts: Option<ListOpts>, default: nat): seq<Id> {
    var limit, offset := Limit(opts, default), Offset(opts);
    if offset > 0 || limit < |ids| then
      if offset >= |ids| then [] else Take(ids[offset..], limit)
    else ids
  }

  /** They are the stretch that offset and limit describe. */
  lemma IdWindowCells(ids: seq<Id>, opts: Option<ListOpts>, default: nat)
    ensures var w := IdWindow(ids, opts, default);
            var offset := if opts.Some? && opts.value.offset > 0 then opts.value.offset else 0;
            var limit := if opts.Some? && opts.value.limit > 0 then opts.value.limit else default;
            && |w| == (if offset >= |ids| then 0 else if |ids| - offset > limit then limit else |ids| - offset)
            && forall i :: 0 <= i < |w| ==> w[i] == ids[offset + i]
  {
  }

  /** `SELECT ... WHERE id IN (chunk)` and the port check on each row. */
  function QueryChunk(chunk: seq<Id>, table: map<Id, Target>): map<Id, Target> {
    map id | id in chunk && Usable(table, id) :: table[id]
  }

  method Deduplicate(window: seq<Id>) returns (unique: seq<Id>)
    ensures unique == Unique(window)
  {
    var seen: set<Id> := {};
    unique := [];
    var i := 0;
    while i < |window|
      invariant 0 <= i <= |window| && unique == Unique(window[..i]) && seen == Elements(unique)
    {
      assert window[..i + 1][..i] == window[..i];
      if window[i] != "" && window[i] !in seen {
        seen := seen + {window[i]};
        unique := unique + [window[i]];
      }
      i := i + 1;
    }
    assert window[..i] == window;
  }

  method FetchInChunks(unique: seq<Id>, table: map<Id, Target>, maxVars: nat) returns (byID: map<Id, Target>)
    requires maxVars > 0
    ensures forall id :: id in byID <==> id in unique && Usable(table, id)
    ensures forall id :: id in byID ==> Usable(table, id) && byID[id] == table[id]
  {
    byID := map[];
    var i := 0;
    while i < |unique|
      invariant 0 <= i <= |unique|
      invariant forall id :: id in byID <==> id in unique[..i] && Usable(table, id)
      invariant forall id :: id in byID ==> byID[id] == table[id]
    {
      var end := i + maxVars;
      if end > |unique| { end := |unique|; }
      var chunk := unique[i..end];
      assert unique[..end] == unique[..i] + chunk;
      byID := byID + QueryChunk(chunk, table);
      i := end;
    }
    assert unique[..i] == unique;
  }

  /** Chunking by any number of variables gives what one lookup per ID gives. */
  method ListByIDs(ids: seq<Id>, opts: Option<ListOpts>, default: nat, table: map<Id, Target>, maxVars: nat)
    returns (out: seq<Target>)
    requires maxVars > 0
    ensures out == LookupEach(Unique(IdWindow(ids, opts, default)), table)
  {
    var limit, offset := Limit(opts, default), Offset(opts);
    var window := ids;
    if offset > 0 || limit < |ids| {
      if offset >= |ids| {
        return [];
      }
      var end := offset + limit;
      if end > |ids| { end := |ids|; }
      window := ids[offset..end];
      assert window == Take(ids[offset..], limit);
    }

    var unique := Deduplicate(window);
    var byID := FetchInChunks(unique, table, maxVars);

    out := [];
    var i := 0;
    while i < |unique|
      invariant 0 <= i <= |unique| && out == LookupEach(unique[..i], table)
    {
      assert unique[..i + 1][..i] == unique[..i];
      assert unique[i] in unique;
      if unique[i] in byID {
        out := out + [byID[unique[i]]];
      }
      i := i + 1;
    }
    assert unique[..i] == unique;
  }

  predicate Distinct(ids: seq<Id>) {
    forall i, j :: 0 <= i < j < |ids| ==> ids[i] != ids[j]
  }

  /** Position of the first occurrence. */
  function FirstIndex(ids: seq<Id>, id: Id): nat
    requires id in ids
    ensures FirstIndex(ids, id) < |ids| && ids[FirstIndex(ids, id)] == id && id !in ids[..FirstIndex(ids, id)]
  {
    if ids[0] == id then 0
    else
      assert ids == [ids[0]] + ids[1..];
      var k := FirstIndex(ids[1..], id);
      assert ids[..k + 1] == [ids[0]] + ids[1..][..k];
      k + 1
  }

  /** `Unique` keeps each non-empty ID once, in the order of first occurrence. */
  lemma {:induction false} UniqueSpec(ids: seq<Id>)
    ensures Distinct(Unique(ids))
    ensures forall id :: id in Unique(ids) <==> id in ids && id != ""
    ensures var u := Unique(ids);
            forall i, j :: 0 <= i < j < |u| && u[i] in ids && u[j] in ids ==> FirstIndex(ids, u[i]) < FirstIndex(ids, u[j])
    decreases |ids|
  {
    if ids != [] {
      var init, last := ids[..|ids| - 1], ids[|ids| - 1];
      UniqueSpec(init);
      assert ids == init + [last];
      var u := Unique(ids);
      forall id | id in init ensures FirstIndex(ids, id) == FirstIndex(init, id) {
        assert ids[..FirstIndex(init, id)] == init[..FirstIndex(init, id)];
        FirstIndexUnique(ids, id, FirstIndex(init, id));
      }
      if last !in init {
        assert ids[..|init|] == init;
        FirstIndexUnique(ids, last, |init|);
      }
      forall i, j | 0 <= i < j < |u| && u[i] in ids && u[j] in ids
        ensures FirstIndex(ids, u[i]) < FirstIndex(ids, u[j])
      {
        assert i < |Unique(init)| && u[i] == Unique(init)[i] && u[i] in init;
        if j < |Unique(init)| { assert u[j] == Unique(init)[j] && u[j] in init; }
      }
    }
  }

  lemma {:induction false} FirstIndexUnique(ids: seq<Id>, id: Id, k: nat)
    requires k < |ids| && ids[k] == id && id !in ids[..k]
    ensures FirstIndex(ids, id) == k
  {
    if k > 0 {
      assert ids[..k][0] == ids[0];
      assert ids[..k] == [ids[0]] + ids[1..][..k - 1];
      FirstIndexUnique(ids[1..], id, k - 1);
    }
  }

  lemma {:induction false} UniqueOfDistinct(ids: seq<Id>)
    requires Distinct(ids) && "" !in ids
    ensures Unique(ids) == ids
    decreases |ids|
  {
    if ids != [] {
      var init := ids[..|ids| - 1];
      assert ids == init + [ids[|ids| - 1]];
      UniqueOfDistinct(init);
    }
  }

  // ----- The walk over all pages -----

  function Ids(ts: seq<Target>): seq<Id> {
    seq(|ts|, i requires 0 <= i < |ts| => ts[i].id)
  }

  datatype Page = Page(items: seq<Id>, cursor: Id)

  /**
   The ids of one page and the next cursor, as `handleTargets` and `handleGroups` cut them: `all` is
   the sorted listing, `pageLimit` what `listOptsFromRequest` made of the limit parameter (0 when
   it was not a positive number).
   */
  function PageIds(all: seq<Id>, pageLimit: nat, after: Id, default: nat): Page {
    var ids := Window(all, Some(ListOpts(pageLimit + 1, 0, after)), default);
    if pageLimit > 0 && |ids| > pageLimit then Page(ids[..pageLimit], ids[pageLimit - 1]) else Page(ids, "")
  }

  /** What `listOptsFromRequest` returns: nil, or a page limit and a cursor. */
  datatype Request = Unpaged | Paged(pageLimit: nat, after: Id)

  function RequestedIds(all: seq<Id>, req: Request, default: nat): Page {
    match req
    case Unpaged => Page(Window(all, None, default), "")
    case Paged(pageLimit, after) => PageIds(all, pageLimit, after, default)
  }

  /** The options both handlers derive from the request. */
  function OptsOf(req: Request): Option<ListOpts> {
    if req.Unpaged? then None else Some(ListOpts(req.pageLimit + 1, 0, req.after))
  }

  /** The truncation in both handlers, applied to what the listing returned. */
  method CutPage(listed: seq<Id>, req: Request, ghost all: seq<Id>, ghost default: nat) returns (ids: seq<Id>, cursor: Id)
    requires listed == Window(all, OptsOf(req), default)
    ensures Page(ids, cursor) == RequestedIds(all, req, default)
  {
    ids, cursor := listed, "";
    if req.Paged? && req.pageLimit > 0 && |ids| > req.pageLimit {
      ids := ids[..req.pageLimit];
      cursor := ids[req.pageLimit - 1];
    }
  }

  /** One request to `handleTargets`: the page, looked up again with nil options. */
  function HandlePage(all: seq<Id>, pageLimit: nat, after: Id, default: nat, table: map<Id, Target>): Page {
    var p := PageIds(all, pageLimit, after, default);
    Page(Ids(LookupEach(Unique(IdWindow(p.items, None, default)), table)), p.cursor)
  }

  /** A sorted listing of non-empty IDs. */
  ghost predicate Listing(all: seq<Id>) {
    Ascending(all, StringLess) && "" !in all
  }

  lemma RestIsSuffix(all: seq<Id>, after: Id) returns (k: nat)
    requires Listing(all)
    ensures k <= |all| && Rest(all, after) == all[k..] && Listing(all[k..])
  {
    StringOrder();
    if after == "" {
      k := 0;
    } else {
      k := AfterSpec(all, StringLess, after);
    }
    SuffixAscending(all, StringLess, k);
  }

  /** A page with a cursor leaves strictly less behind it. */
  lemma CursorAdvances(all: seq<Id>, pageLimit: nat, after: Id)
    requires Listing(all) && 0 < pageLimit < |Rest(all, after)|
    ensures var rest := Rest(all, after);
            rest[pageLimit - 1] != "" && Rest(all, rest[pageLimit - 1]) == rest[pageLimit..]
  {
    StringOrder();
    var k := RestIsSuffix(all, after);
    var c := k + pageLimit - 1;
    assert all[c] in all;
    AfterMember(all, StringLess, c);
    assert all[k..][pageLimit..] == all[c + 1..];
  }

  /** The ids of a page, in closed form. */
  lemma PageIdsAre(all: seq<Id>, pageLimit: nat, after: Id, default: nat)
    requires Listing(all) && pageLimit > 0
    ensures var rest := Rest(all, after);
            PageIds(all, pageLimit, after, default) ==
              if |rest| <= pageLimit then Page(rest, "") else Page(rest[..pageLimit], rest[pageLimit - 1])
  {
    var rest := Rest(all, after);
    var ids := Window(all, Some(ListOpts(pageLimit + 1, 0, after)), default);
    assert ids == Take(rest, pageLimit + 1);
  }

  /** The ids of all pages, following cursors. */
  ghost function IdWalk(all: seq<Id>, pageLimit: nat, after: Id, default: nat): seq<Id>
    requires Listing(all)
    decreases |Rest(all, after)|
  {
    var p := PageIds(all, pageLimit, after, default);
    if p.cursor == "" || pageLimit == 0 || |Rest(all, after)| <= pageLimit then p.items
    else
      CursorAdvances(all, pageLimit, after);
      PageIdsAre(all, pageLimit, after, default);
      p.items + IdWalk(all, pageLimit, p.cursor, default)
  }

  lemma {:induction false} IdWalkIsRest(all: seq<Id>, pageLimit: nat, after: Id, default: nat)
    requires Listing(all) && pageLimit > 0
    ensures IdWalk(all, pageLimit, after, default) == Rest(all, after)
    decreases |Rest(all, after)|
  {
    var rest := Rest(all, after);
    PageIdsAre(all, pageLimit, after, default);
    if |rest| > pageLimit {
      CursorAdvances(all, pageLimit, after);
      IdWalkIsRest(all, pageLimit, rest[pageLimit - 1], default);
      assert rest == rest[..pageLimit] + rest[pageLimit..];
    }
  }

  /** Following cursors until a page carries none. */
  ghost function Walk(all: seq<Id>, pageLimit: nat, after: Id, default: nat, table: map<Id, Target>): seq<Id>
    requires Listing(all)
    decreases |Rest(all, after)|
  {
    var p := HandlePage(all, pageLimit, after, default, table);
    if p.cursor == "" || pageLimit == 0 || |Rest(all, after)| <= pageLimit then p.items
    else
      CursorAdvances(all, pageLimit, after);
      p.items + Walk(all, pageLimit, p.cursor, default, table)
  }

  function Present(ids: seq<Id>, table: map<Id, Target>): seq<Id> {
    if ids == [] then []
    else
      var rest := Present(ids[..|ids| - 1], table);
      if Usable(table, ids[|ids| - 1]) then rest + [ids[|ids| - 1]] else rest
  }

  lemma {:induction false} PresentSpec(ids: seq<Id>, table: map<Id, Target>)
    requires Ascending(ids, StringLess)
    ensures Ascending(Present(ids, table), StringLess)
    ensures forall x :: x in Present(ids, table) <==> x in ids && Usable(table, x)
    decreases |ids|
  {
    if ids != [] {
      var init, last := ids[..|ids| - 1], ids[|ids| - 1];
      assert ids == init + [last];
      PresentSpec(init, table);
      forall x | x in init ensures StringLess(x, last) {
        var i :| 0 <= i < |init| && init[i] == x;
        assert StringLess(ids[i], ids[|ids| - 1]);
      }
      var p := Present(init, table);
      assert forall i :: 0 <= i < |p| ==> p[i] in p;
    }
  }

  predicate KeyedById(table: map<Id, Target>) {
    forall id :: id in table ==> table[id].id == id
  }

  lemma {:induction false} LookupIds(ids: seq<Id>, table: map<Id, Target>)
    requires KeyedById(table)
    ensures Ids(LookupEach(ids, table)) == Present(ids, table)
    decreases |ids|
  {
    if ids != [] { LookupIds(ids[..|ids| - 1], table); }
  }

  /** The items of one page: the ids of the page, cut again by the default limit of `ListByIDs`. */
  lemma PageItems(ids: seq<Id>, default: nat, table: map<Id, Target>)
    requires Listing(ids) && KeyedById(table)
    ensures Ids(LookupEach(Unique(IdWindow(ids, None, default)), table)) == Present(Take(ids, default), table)
  {
    var cut := Take(ids, default);
    assert IdWindow(ids, None, default) == cut by { if default < |ids| { assert ids[0..] == ids; } }
    StringOrder();
    forall i, j | 0 <= i < j < |cut| ensures cut[i] != cut[j] {
      assert StringLess(ids[i], ids[j]) && !StringLess(ids[i], ids[i]);
    }
    assert forall x :: x in cut ==> x in ids;
    UniqueOfDistinct(cut);
    LookupIds(cut, table);
  }

  /** What a whole walk shows of `rest`: of each page of `pageLimit`, the first `default`. */
  function Shown(rest: seq<Id>, pageLimit: nat, default: nat): seq<Id>
    requires pageLimit > 0
    decreases |rest|
  {
    if |rest| <= pageLimit then Take(rest, default)
    else Take(rest[..pageLimit], default) + Shown(rest[pageLimit..], pageLimit, default)
  }

  lemma {:induction false} PresentConcat(a: seq<Id>, b: seq<Id>, table: map<Id, Target>)
    ensures Present(a + b, table) == Present(a, table) + Present(b, table)
    decreases |b|
  {
    if b == [] {
      assert a + b == a;
    } else {
      PresentConcat(a, b[..|b| - 1], table);
      assert (a + b)[..|a + b| - 1] == a + b[..|b| - 1];
    }
  }

  /** One page, in closed form. */
  lemma PageIs(all: seq<Id>, pageLimit: nat, after: Id, default: nat, table: map<Id, Target>)
    requires Listing(all) && KeyedById(table) && pageLimit > 0
    ensures var rest := Rest(all, after);
            HandlePage(all, pageLimit, after, default, table) ==
              if |rest| <= pageLimit then Page(Present(Take(rest, default), table), "")
              else Page(Present(Take(rest[..pageLimit], default), table), rest[pageLimit - 1])
  {
    var rest := Rest(all, after);
    var k := RestIsSuffix(all, after);
    PageIdsAre(all, pageLimit, after, default);
    if |rest| <= pageLimit {
      PageItems(rest, default, table);
    } else {
      SuffixAscending(rest, StringLess, pageLimit);
      PageItems(rest[..pageLimit], default, table);
    }
  }

  lemma {:induction false} WalkShows(all: seq<Id>, pageLimit: nat, after: Id, default: nat, table: map<Id, Target>)
    requires Listing(all) && KeyedById(table) && pageLimit > 0
    ensures Walk(all, pageLimit, after, default, table) == Present(Shown(Rest(all, after), pageLimit, default), table)
    decreases |Rest(all, after)|
  {
    var rest := Rest(all, after);
    PageIs(all, pageLimit, after, default, table);
    if |rest| > pageLimit {
      CursorAdvances(all, pageLimit, after);
      WalkShows(all, pageLimit, rest[pageLimit - 1], default, table);
      PresentConcat(Take(rest[..pageLimit], default), Shown(rest[pageLimit..], pageLimit, default), table);
    }
  }

  lemma {:induction false} ShownWhole(rest: seq<Id>, pageLimit: nat, default: nat)
    requires pageLimit > 0
    ensures Shown(rest, pageLimit, default) == rest <==> pageLimit <= default || |rest| <= default
    ensures |Shown(rest, pageLimit, default)| <= |rest|
    ensures pageLimit <= default || |rest| <= default || |Shown(rest, pageLimit, default)| < |rest|
    decreases |rest|
  {
    if |rest| > pageLimit {
      ShownWhole(rest[pageLimit..], pageLimit, default);
      assert rest == rest[..pageLimit] + rest[pageLimit..];
    }
  }

  lemma {:induction false} PresentAll(ids: seq<Id>, table: map<Id, Target>)
    requires forall x :: x in ids ==> Usable(table, x)
    ensures Present(ids, table) == ids
    decreases |ids|
  {
    if ids != [] {
      assert ids == ids[..|ids| - 1] + [ids[|ids| - 1]];
      PresentAll(ids[..|ids| - 1], table);
    }
  }

  /** Pages of at most the default list limit: the walk lists every accessible target that can be loaded, once. */
  lemma WalkIsComplete(all: seq<Id>, pageLimit: nat, default: nat, table: map<Id, Target>)
    requires Listing(all) && KeyedById(table) && 1 <= pageLimit <= default
    ensures Walk(all, pageLimit, "", default, table) == Present(all, table)
  {
    WalkShows(all, pageLimit, "", default, table);
    ShownWhole(all, pageLimit, default);
  }

  /**
   For every limit parameter, when all targets can be loaded: the walk lists exactly the accessible
   targets if and only if no page is longer than the default list limit; and a limit that was
   not a positive number shows one target at most.
   */
  lemma WalkIsCompleteIff(all: seq<Id>, pageLimit: nat, default: nat, table: map<Id, Target>)
    requires Listing(all) && KeyedById(table) && default > 0
    requires forall x :: x in all ==> Usable(table, x)
    ensures Walk(all, pageLimit, "", default, table) == all <==>
              if pageLimit == 0 then |all| <= 1 else pageLimit <= default || |all| <= default
  {
    if pageLimit == 0 {
      var ids := Window(all, Some(ListOpts(1, 0, "")), default);
      assert ids == Take(all, 1);
      SuffixAscending(all, StringLess, if |all| > 1 then 1 else |all|);
      assert all[..|all|] == all;
      PageItems(ids, default, table);
      PresentAll(ids, table);
    } else {
      WalkShows(all, pageLimit, "", default, table);
      ShownWhole(all, pageLimit, default);
      ShownSubset(all, pageLimit, default);
      PresentAll(Shown(all, pageLimit, default), table);
    }
  }

  lemma {:induction false} ShownSubset(rest: seq<Id>, pageLimit: nat, default: nat)
    requires pageLimit > 0
    ensures forall x :: x in Shown(rest, pageLimit, default) ==> x in rest
    decreases |rest|
  {
    if |rest| > pageLimit { ShownSubset(rest[pageLimit..], pageLimit, default); }
  }
}
