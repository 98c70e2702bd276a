/**
 Deleting a group (internal/access/sqlite_store.go) under the cascades of the schema
 (internal/db/sqlite/migrate.go), and moving a target (internal/httpapi/targets_handler.go).
 */
module GroupStore {
  import opened GroupPath
  import opened Access
  import Like

  datatype Outcome = Deleted | Invalid | NotEmpty | NotFound

  predicate HasAssignments(db: Tables, id: Name) { exists gt :: gt in db.groupTargets && gt.0 == id }

  /** `SELECT COUNT(*) ... WHERE id LIKE escape(id) || '/%'` is positive. */
  predicate HasLikeChildren(db: Tables, id: Name) {
    exists g :: g in db.groups && Like.Matches(Like.Escape(id) + "/%", g)
  }

  /** The target's own row does not go with the group. */
  predicate Kept(db: Tables, id: Name, t: Name) { t in db.targetHome && db.targetHome[t] != id }

  /** `DELETE FROM access_groups WHERE id = ?` with ON DELETE CASCADE on every reference to the row. */
  function Cascade(db: Tables, id: Name): Tables {
    Tables(
      db.groups - {id},
      (map t | t in db.targetHome && db.targetHome[t] != id :: db.targetHome[t]),
      (set m | m in db.userGroups && m.group != id),
      (set gt | gt in db.groupTargets && gt.0 != id && Kept(db, id, gt.1)),
      db.userTags,
      (set tt | tt in db.targetTags && Kept(db, id, tt.0)),
      (set x | x in db.groupTags && x.0 != id))
  }

  /** A deletion that no other statement comes between. */
  function AfterDelete(db: Tables, id: Name): (Outcome, Tables) {
    if !ValidGroupId(id) then (Invalid, db)
    else if HasAssignments(db, id) || HasLikeChildren(db, id) then (NotEmpty, db)
    else if id !in db.groups then (NotFound, db)
    else (Deleted, Cascade(db, id))
  }

  // ----- Other writers -----

  /** What another request may do between the statements of `Delete`. */
  datatype Write =
    | CreateGroup(group: Name)
    | DropGroup(group: Name)
    | CreateTarget(target: Name, home: Name)
    | DropTarget(target: Name)
    | Assign(group: Name, target: Name)
    | Unassign(group: Name, target: Name)

  function AfterWrite(db: Tables, w: Write): Tables {
    match w
    case CreateGroup(g) => db.(groups := db.groups + {g})
    case DropGroup(g) => Cascade(db, g)
    case CreateTarget(t, g) => if g in db.groups && t !in db.targetHome then db.(targetHome := db.targetHome[t := g]) else db
    case DropTarget(t) =>
      db.(targetHome := db.targetHome - {t},
          groupTargets := (set gt | gt in db.groupTargets && gt.1 != t),
          targetTags := (set tt | tt in db.targetTags && tt.0 != t))
    case Assign(g, t) => if g in db.groups && t in db.targetHome then db.(groupTargets := db.groupTargets + {(g, t)}) else db
    case Unassign(g, t) => db.(groupTargets := db.groupTargets - {(g, t)})
  }

  function AfterWrites(db: Tables, ws: seq<Write>): Tables {
    if ws == [] then db else AfterWrite(AfterWrites(db, ws[..|ws| - 1]), ws[|ws| - 1])
  }

  /** `Delete` as it runs: two counts and a DELETE, with the writes of others between them. */
  function Interleaved(db: Tables, id: Name, first: seq<Write>, second: seq<Write>): (Outcome, Tables) {
    if !ValidGroupId(id) then (Invalid, db)
    else if HasAssignments(db, id) then (NotEmpty, db)
    else
      var counted := AfterWrites(db, first);
      if HasLikeChildren(counted, id) then (NotEmpty, counted)
      else
        var reached := AfterWrites(counted, second);
        if id !in reached.groups then (NotFound, reached) else (Deleted, Cascade(reached, id))
  }

  lemma AloneIsInterleaved(db: Tables, id: Name)
    ensures Interleaved(db, id, [], []) == AfterDelete(db, id)
  {
  }

  /** Only the assignment moves; the target's home group stays what it was at creation. */
  function Moved(db: Tables, t: Name, newGroup: Name): Tables {
    db.(groupTargets := (set gt | gt in db.groupTargets && gt.1 != t) + {(newGroup, t)})
  }

  class Store {
    var db: Tables

    constructor (db: Tables)
      ensures this.db == db
    {
      this.db := db;
    }

    /** `first` and `second` are what other requests write between the three statements. */
    method Delete(id: Name, first: seq<Write>, second: seq<Write>) returns (r: Outcome)
      modifies this
      ensures (r, db) == Interleaved(old(db), id, first, second)
    {
      if !ValidGroupId(id) { return Invalid; }
      var held := set gt | gt in db.groupTargets && gt.0 == id;
      assert forall gt :: gt in db.groupTargets && gt.0 == id ==> gt in held;
      if |held| > 0 {
        var gt :| gt in held;
        return NotEmpty;
      }
      db := AfterWrites(db, first);
      var pattern := Like.EscapeLikeOperand(id);
      var children := set g | g in db.groups && Like.Matches(pattern + "/%", g);
      assert forall g :: g in db.groups && Like.Matches(Like.Escape(id) + "/%", g) ==> g in children;
      if |children| > 0 {
        var g :| g in children;
        return NotEmpty;
      }
      db := AfterWrites(db, second);
      if id !in db.groups { return NotFound; }
      db := Cascade(db, id);
      return Deleted;
    }

    /** The group change in `handleUpdateTarget`: leave every other group, then join the new one. */
    method MoveTarget(t: Name, newGroup: Name, current: seq<Name>)
      requires forall g :: g in current <==> (g, t) in db.groupTargets
      modifies this
      ensures db == Moved(old(db), t, newGroup)
    {
      var already := false;
      for i := 0 to |current|
        invariant db == old(db).(groupTargets := db.groupTargets)
        invariant db.groupTargets == set gt | gt in old(db).groupTargets && !(gt.1 == t && gt.0 in current[..i] && gt.0 != newGroup)
        invariant already <==> newGroup in current[..i]
      {
        assert current[..i + 1] == current[..i] + [current[i]];
        if current[i] == newGroup {
          already := true;
        } else {
          db := db.(groupTargets := db.groupTargets - {(current[i], t)});
        }
      }
      assert current[..|current|] == current;
      if !already {
        db := db.(groupTargets := db.groupTargets + {(newGroup, t)});
      }
      assert db.groupTargets == Moved(old(db), t, newGroup).groupTargets;
    }
  }

  /** What each table keeps when the row of a group goes. */
  lemma CascadeKeeps(db: Tables, id: Name)
    ensures var after := Cascade(db, id);
            && (forall g :: g in after.groups <==> g in db.groups && g != id)
            && (forall t :: t in after.targetHome <==> t in db.targetHome && db.targetHome[t] != id)
            && (forall t :: t in after.targetHome ==> after.targetHome[t] == db.targetHome[t])
            && (forall m :: m in after.userGroups <==> m in db.userGroups && m.group != id)
            && (forall gt :: gt in after.groupTargets <==> gt in db.groupTargets && gt.0 != id && gt.1 in after.targetHome)
            && (forall x :: x in after.groupTags <==> x in db.groupTags && x.0 != id)
            && (forall x :: x in after.targetTags <==> x in db.targetTags && x.0 in after.targetHome)
            && after.userTags == db.userTags
  {
  }

  /** Moving a target changes its assignments and nothing else. */
  lemma MoveKeeps(db: Tables, t: Name, newGroup: Name)
    ensures var after := Moved(db, t, newGroup);
            && (forall gt :: gt in after.groupTargets <==> if gt.1 == t then gt.0 == newGroup else gt in db.groupTargets)
            && after == db.(groupTargets := after.groupTargets)
  {
  }

  // ----- Children -----

  /** The LIKE test finds exactly the groups below `id` up to ASCII case. */
  lemma LikeChildrenIff(db: Tables, id: Name)
    ensures HasLikeChildren(db, id) <==>
              exists g :: g in db.groups && |id| < |g| && Like.SameFold(id, g[..|id|]) && g[|id|] == '/'
  {
    forall g | g in db.groups
      ensures Like.Matches(Like.Escape(id) + "/%", g) <==> |id| < |g| && Like.SameFold(id, g[..|id|]) && g[|id|] == '/'
    {
      Like.PrefixPatternExact(id, g);
    }
  }

  lemma DescendantIsLikeChild(db: Tables, id: Name, g: Name)
    requires g in db.groups && DescendantOrSelf(g, id) && g != id
    ensures HasLikeChildren(db, id)
  {
    assert g[..|id| + 1] == id + "/";
    assert g[|id|] == '/' && g[..|id|] == id;
    LikeChildrenIff(db, id);
  }

  /** The last that `ws` does to the group is to create it. */
  predicate StaysCreated(ws: seq<Write>, g: Name) {
    ws != [] &&
    (ws[|ws| - 1] == CreateGroup(g) || (ws[|ws| - 1] != DropGroup(g) && StaysCreated(ws[..|ws| - 1], g)))
  }

  lemma {:induction false} CreatedIff(db: Tables, ws: seq<Write>, g: Name)
    requires g !in db.groups
    ensures g in AfterWrites(db, ws).groups <==> StaysCreated(ws, g)
    decreases |ws|
  {
    if ws != [] { CreatedIff(db, ws[..|ws| - 1], g); }
  }

  predicate Below(g: Name, id: Name) { DescendantOrSelf(g, id) && g != id }

  /**
   With other writers: a successful deletion leaves no descendant exactly if no group below it was
   created, and left, between the count of the children and the DELETE.
   */
  lemma NoOrphansIff(db: Tables, id: Name, first: seq<Write>, second: seq<Write>)
    requires Interleaved(db, id, first, second).0 == Deleted
    ensures (forall g :: g in Interleaved(db, id, first, second).1.groups ==> !DescendantOrSelf(g, id)) <==>
            (forall g :: Below(g, id) ==> !StaysCreated(second, g))
  {
    var counted := AfterWrites(db, first);
    var after := Interleaved(db, id, first, second).1;
    forall g ensures g in after.groups && DescendantOrSelf(g, id) <==> Below(g, id) && StaysCreated(second, g) {
      if Below(g, id) {
        if g in counted.groups { DescendantIsLikeChild(counted, id, g); }
        CreatedIff(counted, second, g);
      }
    }
  }

  /** With no other writer, a deleted group leaves no descendant behind. */
  lemma DeleteLeavesNoOrphans(db: Tables, id: Name)
    requires AfterDelete(db, id).0 == Deleted
    ensures forall g :: g in AfterDelete(db, id).1.groups ==> !DescendantOrSelf(g, id)
    ensures AfterDelete(db, id).1.groups == db.groups - {id}
  {
    AloneIsInterleaved(db, id);
    NoOrphansIff(db, id, [], []);
  }

  predicate CaseVariantBelow(db: Tables, id: Name, g: Name) {
    g in db.groups && |id| < |g| && Like.SameFold(id, g[..|id|]) && g[|id|] == '/'
  }

  /**
   An existing, unassigned group can be deleted exactly when no group lies below it in any
   spelling; a group below a mere case variant blocks it as well.
   */
  lemma DeletableIff(db: Tables, id: Name)
    requires ValidGroupId(id) && id in db.groups && !HasAssignments(db, id)
    ensures AfterDelete(db, id).0 == Deleted <==> !exists g :: CaseVariantBelow(db, id, g)
  {
    LikeChildrenIff(db, id);
    if g :| CaseVariantBelow(db, id, g) { assert CaseVariantBelow(db, id, g); }
    if HasLikeChildren(db, id) {
      var g :| g in db.groups && |id| < |g| && Like.SameFold(id, g[..|id|]) && g[|id|] == '/';
      assert CaseVariantBelow(db, id, g);
    }
  }

  /** The outcome of an undisturbed deletion, and that every failure changes nothing. */
  lemma OutcomeIs(db: Tables, id: Name)
    ensures var (r, after) := AfterDelete(db, id);
            var blocked := (exists t :: (id, t) in db.groupTargets) || exists g :: CaseVariantBelow(db, id, g);
            && (r == Invalid <==> !ValidGroupId(id))
            && (r == NotEmpty <==> ValidGroupId(id) && blocked)
            && (r == NotFound <==> ValidGroupId(id) && !blocked && id !in db.groups)
            && (r == Deleted <==> ValidGroupId(id) && !blocked && id in db.groups)
            && (r != Deleted ==> after == db)
            && (r == Deleted ==> after == Cascade(db, id))
  {
    LikeChildrenIff(db, id);
    if g :| CaseVariantBelow(db, id, g) { assert CaseVariantBelow(db, id, g); }
    if HasLikeChildren(db, id) {
      var g :| g in db.groups && |id| < |g| && Like.SameFold(id, g[..|id|]) && g[|id|] == '/';
      assert CaseVariantBelow(db, id, g);
    }
    if HasAssignments(db, id) {
      var gt :| gt in db.groupTargets && gt.0 == id;
      assert (id, gt.1) in db.groupTargets;
    }
    if t :| (id, t) in db.groupTargets { assert (id, t).0 == id; }
  }

  // ----- Assignments -----

  /**
   Deletion keeps every assignment exactly when no assigned target still has the group as its
   home: the cascade goes through targets.group_id, which the emptiness check does not look at.
   */
  lemma DeleteKeepsAssignmentsIff(db: Tables, id: Name)
    requires ForeignKeys(db) && AfterDelete(db, id).0 == Deleted
    ensures AfterDelete(db, id).1.groupTargets == db.groupTargets <==>
              forall gt :: gt in db.groupTargets ==> db.targetHome[gt.1] != id
  {
    var db' := Cascade(db, id);
    forall gt | gt in db.groupTargets ensures gt in db'.groupTargets <==> db.targetHome[gt.1] != id {
      assert gt.0 != id;
    }
    if forall gt :: gt in db.groupTargets ==> db.targetHome[gt.1] != id {
      assert db'.groupTargets == db.groupTargets;
    }
  }

  /** With other writers: exactly if, when the DELETE runs, no assignment names the group or a target at home in it. */
  lemma InterleavedKeepsAssignmentsIff(db: Tables, id: Name, first: seq<Write>, second: seq<Write>)
    requires ForeignKeys(db) && Interleaved(db, id, first, second).0 == Deleted
    ensures var reached := AfterWrites(AfterWrites(db, first), second);
            && ForeignKeys(reached)
            && (Interleaved(db, id, first, second).1.groupTargets == reached.groupTargets <==>
                  forall gt :: gt in reached.groupTargets ==> gt.0 != id && reached.targetHome[gt.1] != id)
  {
    WritesKeepForeignKeys(db, first);
    WritesKeepForeignKeys(AfterWrites(db, first), second);
    var reached := AfterWrites(AfterWrites(db, first), second);
    var after := Cascade(reached, id);
    assert forall gt :: gt in after.groupTargets <==> gt in reached.groupTargets && gt.0 != id && reached.targetHome[gt.1] != id;
    if forall gt :: gt in reached.groupTargets ==> gt.0 != id && reached.targetHome[gt.1] != id {
      assert after.groupTargets == reached.groupTargets;
    }
  }

  lemma WriteKeepsForeignKeys(db: Tables, w: Write)
    requires ForeignKeys(db)
    ensures ForeignKeys(AfterWrite(db, w))
  {
  }

  lemma {:induction false} WritesKeepForeignKeys(db: Tables, ws: seq<Write>)
    requires ForeignKeys(db)
    ensures ForeignKeys(AfterWrites(db, ws))
    decreases |ws|
  {
    if ws != [] {
      WritesKeepForeignKeys(db, ws[..|ws| - 1]);
      WriteKeepsForeignKeys(AfterWrites(db, ws[..|ws| - 1]), ws[|ws| - 1]);
    }
  }

  /** The family that fails: a target moved to another group dies with the group it came from. */
  lemma MovedTargetIsLost(db: Tables, t: Name, from: Name, to: Name)
    requires ForeignKeys(db) && to in db.groups && to != from && ValidGroupId(from) && from in db.groups
    requires t in db.targetHome && db.targetHome[t] == from
    requires !HasLikeChildren(db, from) && forall gt :: gt in db.groupTargets && gt.0 == from ==> gt.1 == t
    ensures var moved := Moved(db, t, to);
            var (r, after) := AfterDelete(moved, from);
            && ForeignKeys(moved) && (to, t) in moved.groupTargets
            && r == Deleted && t !in after.targetHome && (to, t) !in after.groupTargets
  {
    var moved := Moved(db, t, to);
    assert !HasAssignments(moved, from);
    assert moved.groups == db.groups && !HasLikeChildren(moved, from);
  }

  /** Deletion keeps the tables consistent. */
  lemma DeleteKeepsForeignKeys(db: Tables, id: Name)
    requires ForeignKeys(db)
    ensures ForeignKeys(AfterDelete(db, id).1)
  {
  }
}
