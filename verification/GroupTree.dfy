/**
 The group tree that `handleGroups` (internal/httpapi/groups_handler.go) serves to an ordinary
 user: the groups it can see, page by page, each with its direct targets as far as the user may
 access them and they can be loaded.
 */
module GroupTree {
  import opened Basics
  import opened Order
  import opened Paging
  import opened Access

  datatype Row = Row(group: Name, targets: seq<Name>)

  // ----- What the tree is -----

  function Allowed(ids: seq<Name>, allowed: set<Name>): seq<Name> {
    if ids == [] then []
    else
      var rest := Allowed(ids[..|ids| - 1], allowed);
      if ids[|ids| - 1] in allowed then rest + [ids[|ids| - 1]] else rest
  }

  function DirectTargets(db: Tables, g: Name): set<Name> {
    set gt | gt in db.groupTargets && gt.0 == g :: gt.1
  }

  ghost function SortedDirect(db: Tables, g: Name): seq<Name> {
    StringOrder();
    Sorted(DirectTargets(db, g), StringLess)
  }

  ghost function SortedGroups(db: Tables, u: Name, now: int): seq<Name> {
    StringOrder();
    Sorted(GroupsFor(db, u, now), StringLess)
  }

  ghost function AllowedSet(db: Tables, u: Name, now: int, default: nat): set<Name> {
    Elements(Window(SortedTargets(db, u, now), None, default))
  }

  /** One line: the first direct targets of the group, filtered, and those of them that load. */
  ghost function TreeRow(db: Tables, table: map<Name, Target>, allowed: set<Name>, g: Name, default: nat): Row {
    Row(g, Present(Allowed(Window(SortedDirect(db, g), None, default), allowed), table))
  }

  ghost function Tree(db: Tables, table: map<Name, Target>, allowed: set<Name>, groups: seq<Name>, default: nat): seq<Row> {
    seq(|groups|, i requires 0 <= i < |groups| => TreeRow(db, table, allowed, groups[i], default))
  }

  // ----- The code -----

  method TargetIDsForGroup(db: Tables, g: Name, default: nat) returns (ids: seq<Name>)
    ensures ids == Window(SortedDirect(db, g), None, default)
  {
    var all := SortIDs(DirectTargets(db, g));
    StringOrder();
    ListingUnique(all, SortedDirect(db, g), DirectTargets(db, g), StringLess);
    ids := ApplyWindow(all, None, default);
  }

  method GroupIDsForUser(db: Tables, u: Name, now: int, opts: Option<ListOpts>, default: nat) returns (ids: seq<Name>)
    ensures ids == Window(SortedGroups(db, u, now), opts, default)
  {
    var seen := GroupsByMembership(db, u, now);
    seen := seen + GroupsByTargetTag(db, u);
    seen := seen + GroupsByGroupTag(db, u);
    var all := SortIDs(seen);
    StringOrder();
    ListingUnique(all, SortedGroups(db, u, now), seen, StringLess);
    ids := ApplyWindow(all, opts, default);
  }

  method FilterAllowed(ids: seq<Name>, allowed: set<Name>) returns (out: seq<Name>)
    ensures out == Allowed(ids, allowed)
  {
    out := [];
    for i := 0 to |ids|
      invariant out == Allowed(ids[..i], allowed)
    {
      assert ids[..i + 1][..i] == ids[..i];
      if ids[i] in allowed { out := out + [ids[i]]; }
    }
    assert ids[..|ids|] == ids;
  }

  lemma {:induction false} AllowedSpec(ids: seq<Name>, allowed: set<Name>)
    requires Ascending(ids, StringLess)
    ensures Ascending(Allowed(ids, allowed), StringLess) && |Allowed(ids, allowed)| <= |ids|
    ensures forall t :: t in Allowed(ids, allowed) <==> t in ids && t in allowed
    decreases |ids|
  {
    if ids != [] {
      var init, last := ids[..|ids| - 1], ids[|ids| - 1];
      assert ids == init + [last];
      AllowedSpec(init, allowed);
      var kept := Allowed(init, allowed);
      forall i | 0 <= i < |kept| ensures StringLess(kept[i], last) {
        assert kept[i] in init;
        var j :| 0 <= j < |init| && init[j] == kept[i];
        assert StringLess(ids[j], ids[|ids| - 1]);
      }
    }
  }

  /** No target has the empty id; `validateTargetID` sees to that. */
  predicate TargetsNamed(db: Tables) { forall gt :: gt in db.groupTargets ==> gt.1 != "" }

  lemma DirectWindow(db: Tables, g: Name, default: nat)
    requires TargetsNamed(db) && default > 0
    ensures var ids := Window(SortedDirect(db, g), None, default);
            && Listing(ids) && |ids| <= default
            && (forall t :: t in ids ==> (g, t) in db.groupTargets)
            && (|DirectTargets(db, g)| <= default ==> forall t :: (g, t) in db.groupTargets ==> t in ids)
  {
    StringOrder();
    var all := SortedDirect(db, g);
    AscendingSize(all, DirectTargets(db, g), StringLess);
    forall t ensures t in all <==> (g, t) in db.groupTargets {
      assert t in Elements(all) <==> t in all;
      assert (g, t) in db.groupTargets ==> (g, t).1 in DirectTargets(db, g);
    }
    assert "" !in all;
    if |all| > default { SuffixAscending(all, StringLess, default); }
  }

  method BuildRow(db: Tables, table: map<Name, Target>, g: Name, allowed: set<Name>, default: nat) returns (row: Row)
    requires TargetsNamed(db) && KeyedById(table) && default > 0
    ensures row == TreeRow(db, table, allowed, g, default)
  {
    var tids := TargetIDsForGroup(db, g, default);
    var filtered := FilterAllowed(tids, allowed);
    var targets := ListByIDs(filtered, None, default, table, MAX_VARS);
    DirectWindow(db, g, default);
    AllowedSpec(tids, allowed);
    PageItems(filtered, default, table);
    row := Row(g, Ids(targets));
  }

  /** The loop over the groups of the page. */
  method BuildTree(db: Tables, table: map<Name, Target>, groupIDs: seq<Name>, allowed: set<Name>, default: nat)
    returns (out: seq<Row>)
    requires TargetsNamed(db) && KeyedById(table) && default > 0
    ensures out == Tree(db, table, allowed, groupIDs, default)
  {
    out := [];
    for i := 0 to |groupIDs|
      invariant out == Tree(db, table, allowed, groupIDs[..i], default)
    {
      var row := BuildRow(db, table, groupIDs[i], allowed, default);
      TreeConcat(db, table, allowed, groupIDs[..i], [groupIDs[i]], default);
      assert groupIDs[..i + 1] == groupIDs[..i] + [groupIDs[i]];
      out := out + [row];
    }
    assert groupIDs[..|groupIDs|] == groupIDs;
  }

  /** `handleGroups` for an ordinary user: the tree over one page of the groups it can see. */
  method HandleGroups(db: Tables, table: map<Name, Target>, u: Name, now: int, req: Request, default: nat)
    returns (out: seq<Row>, cursor: Name)
    requires TargetsNamed(db) && KeyedById(table) && default > 0
    ensures var page := RequestedIds(SortedGroups(db, u, now), req, default);
            && out == Tree(db, table, AllowedSet(db, u, now, default), page.items, default)
            && cursor == page.cursor
  {
    var groupIDs := GroupIDsForUser(db, u, now, OptsOf(req), default);
    groupIDs, cursor := CutPage(groupIDs, req, SortedGroups(db, u, now), default);
    var allowedIDs := TargetIDsForUser(db, u, now, None, default);
    var allowed := ToSet(allowedIDs);
    out := BuildTree(db, table, groupIDs, allowed, default);
  }

  // ----- What it shows -----

  /** Each line shows accessible, loadable targets of its group, and all of them unless a list was cut. */
  lemma RowSpec(db: Tables, table: map<Name, Target>, u: Name, now: int, g: Name, default: nat)
    requires TargetsNamed(db) && default > 0
    ensures var row := TreeRow(db, table, AllowedSet(db, u, now, default), g, default);
            && (forall t :: t in row.targets ==>
                  (g, t) in db.groupTargets && MayAccess(db, u, t, now) && Usable(table, t))
            && (|DirectTargets(db, g)| <= default && |TargetsFor(db, u, now)| <= default ==>
                  forall t :: (g, t) in db.groupTargets && MayAccess(db, u, t, now) && Usable(table, t) ==> t in row.targets)
  {
    var allowed := AllowedSet(db, u, now, default);
    var ids := Window(SortedDirect(db, g), None, default);
    DirectWindow(db, g, default);
    AllowedSpec(ids, allowed);
    PresentSpec(Allowed(ids, allowed), table);
    AllowedSetSpec(db, u, now, default);
  }

  lemma AllowedSetSpec(db: Tables, u: Name, now: int, default: nat)
    requires default > 0
    ensures forall t :: t in AllowedSet(db, u, now, default) ==> MayAccess(db, u, t, now)
    ensures |TargetsFor(db, u, now)| <= default ==>
              forall t :: MayAccess(db, u, t, now) ==> t in AllowedSet(db, u, now, default)
  {
    forall t ensures t in AllowedSet(db, u, now, default) <==> CheckPasses(db, u, t, now, default) {}
    forall t | CheckPasses(db, u, t, now, default) ensures MayAccess(db, u, t, now) {
      CheckIsSound(db, u, t, now, default);
    }
    CheckIsExactIff(db, u, now, default);
  }

  ghost predicate ShownUnder(rows: seq<Row>, g: Name, t: Name) {
    exists i :: 0 <= i < |rows| && rows[i].group == g && t in rows[i].targets
  }

  lemma TreeShowsIff(db: Tables, table: map<Name, Target>, allowed: set<Name>, groups: seq<Name>, default: nat, g: Name, t: Name)
    ensures ShownUnder(Tree(db, table, allowed, groups, default), g, t) <==>
            g in groups && t in TreeRow(db, table, allowed, g, default).targets
  {
    var rows := Tree(db, table, allowed, groups, default);
    if g in groups && t in TreeRow(db, table, allowed, g, default).targets {
      var i :| 0 <= i < |groups| && groups[i] == g;
      assert rows[i].group == g;
    }
  }

  /** Whatever page is asked for and whatever is cut: only accessible targets, under visible groups that hold them. */
  lemma PageIsSound(db: Tables, table: map<Name, Target>, u: Name, now: int, req: Request, default: nat, g: Name, t: Name)
    requires TargetsNamed(db) && default > 0
    requires ShownUnder(Tree(db, table, AllowedSet(db, u, now, default), RequestedIds(SortedGroups(db, u, now), req, default).items, default), g, t)
    ensures g in GroupsFor(db, u, now) && (g, t) in db.groupTargets && MayAccess(db, u, t, now) && Usable(table, t)
  {
    var all := SortedGroups(db, u, now);
    var page := RequestedIds(all, req, default).items;
    TreeShowsIff(db, table, AllowedSet(db, u, now, default), page, default, g, t);
    RowSpec(db, table, u, now, g, default);
    PageWithin(all, req, default, g);
    assert g in Elements(all);
  }

  lemma {:induction false} AfterWithin(all: seq<Name>, after: Name, x: Name)
    requires x in After(all, StringLess, after)
    ensures x in all
    decreases |all|
  {
    if all != [] && !StringLess(after, all[0]) { AfterWithin(all[1..], after, x); }
  }

  lemma PageWithin(all: seq<Name>, req: Request, default: nat, x: Name)
    requires x in RequestedIds(all, req, default).items
    ensures x in all
  {
    if req.Paged? && req.after != "" { AfterWithin(all, req.after, x); }
  }

  ghost predicate Shown(rows: seq<Row>, t: Name) { exists g :: ShownUnder(rows, g, t) }

  /** The whole tree shows exactly the accessible targets that are in some group and can be loaded. */
  lemma TreeIsExact(db: Tables, table: map<Name, Target>, u: Name, now: int, default: nat, t: Name)
    requires ForeignKeys(db) && TargetsNamed(db) && default > 0
    requires |TargetsFor(db, u, now)| <= default
    requires forall g :: g in GroupsFor(db, u, now) ==> |DirectTargets(db, g)| <= default
    ensures Shown(Tree(db, table, AllowedSet(db, u, now, default), SortedGroups(db, u, now), default), t) <==>
            MayAccess(db, u, t, now) && Assigned(db, t) && Usable(table, t)
  {
    var allowed, all := AllowedSet(db, u, now, default), SortedGroups(db, u, now);
    var rows := Tree(db, table, allowed, all, default);
    if Shown(rows, t) {
      var g :| ShownUnder(rows, g, t);
      TreeShowsIff(db, table, allowed, all, default, g, t);
      RowSpec(db, table, u, now, g, default);
    }
    if MayAccess(db, u, t, now) && Assigned(db, t) && Usable(table, t) {
      Duality(db, u, t, now);
      var g := VisibleGroup(db, u, t, now);
      assert g in Elements(all);
      RowSpec(db, table, u, now, g, default);
      TreeShowsIff(db, table, allowed, all, default, g, t);
    }
  }

  /** An unpaged request serves the whole tree when the groups fit. */
  lemma UnpagedIsWhole(db: Tables, u: Name, now: int, default: nat)
    requires |GroupsFor(db, u, now)| <= default
    ensures RequestedIds(SortedGroups(db, u, now), Unpaged, default) == Page(SortedGroups(db, u, now), "")
  {
    StringOrder();
    AscendingSize(SortedGroups(db, u, now), GroupsFor(db, u, now), StringLess);
  }

  // ----- Walking through the pages of the tree -----

  /** The rows a client collects, following cursors with pages of `pageLimit`. */
  ghost function TreeWalk(db: Tables, table: map<Name, Target>, u: Name, now: int, pageLimit: nat, after: Name, default: nat): seq<Row>
    requires Listing(SortedGroups(db, u, now))
    decreases |Rest(SortedGroups(db, u, now), after)|
  {
    var all := SortedGroups(db, u, now);
    var page := RequestedIds(all, Paged(pageLimit, after), default);
    var rows := Tree(db, table, AllowedSet(db, u, now, default), page.items, default);
    if page.cursor == "" || pageLimit == 0 || |Rest(all, after)| <= pageLimit then rows
    else
      CursorAdvances(all, pageLimit, after);
      PageIdsAre(all, pageLimit, after, default);
      rows + TreeWalk(db, table, u, now, pageLimit, page.cursor, default)
  }

  lemma {:induction false} TreeWalkIsTree(db: Tables, table: map<Name, Target>, u: Name, now: int, pageLimit: nat, after: Name, default: nat)
    requires Listing(SortedGroups(db, u, now)) && pageLimit > 0
    ensures TreeWalk(db, table, u, now, pageLimit, after, default) ==
            Tree(db, table, AllowedSet(db, u, now, default), IdWalk(SortedGroups(db, u, now), pageLimit, after, default), default)
    decreases |Rest(SortedGroups(db, u, now), after)|
  {
    var all := SortedGroups(db, u, now);
    var rest := Rest(all, after);
    PageIdsAre(all, pageLimit, after, default);
    if |rest| > pageLimit {
      CursorAdvances(all, pageLimit, after);
      var c := rest[pageLimit - 1];
      TreeWalkIsTree(db, table, u, now, pageLimit, c, default);
      TreeConcat(db, table, AllowedSet(db, u, now, default), rest[..pageLimit], IdWalk(all, pageLimit, c, default), default);
    }
  }

  lemma TreeConcat(db: Tables, table: map<Name, Target>, allowed: set<Name>, a: seq<Name>, b: seq<Name>, default: nat)
    ensures Tree(db, table, allowed, a + b, default) == Tree(db, table, allowed, a, default) + Tree(db, table, allowed, b, default)
  {
  }

  /** For every page size the walk collects the whole tree, each group once: no default limit cuts the groups here. */
  lemma TreeWalkIsComplete(db: Tables, table: map<Name, Target>, u: Name, now: int, pageLimit: nat, default: nat)
    requires "" !in GroupsFor(db, u, now) && pageLimit > 0
    ensures Listing(SortedGroups(db, u, now))
    ensures TreeWalk(db, table, u, now, pageLimit, "", default) ==
            Tree(db, table, AllowedSet(db, u, now, default), SortedGroups(db, u, now), default)
  {
    var all := SortedGroups(db, u, now);
    assert "" in all <==> "" in Elements(all);
    TreeWalkIsTree(db, table, u, now, pageLimit, "", default);
    IdWalkIsRest(all, pageLimit, "", default);
  }
}
