/**
 Inviting a group to a session on a target (`invitableUserIDsForGroup` in
 internal/httpapi/sharing.go): the members of the group and of its ancestors, as far as the
 access check admits them.
 */
module Invitations {
  import opened Basics
  import opened Order
  import opened GroupPath
  import opened Paging
  import opened Access
  import opened GroupTree

  datatype Outcome = Invited(users: seq<Name>) | GroupInvalid | NotForTarget

  /** The limit passed to `UserIDsForGroup`. */
  const MEMBER_LIMIT: nat := 1000

  function Members(db: Tables, g: Name, now: int): set<Name> {
    set m | m in db.userGroups && m.group == g && Active(m.expires, now) :: m.user
  }

  ghost function SortedMembers(db: Tables, g: Name, now: int): seq<Name> {
    StringOrder();
    Sorted(Members(db, g, now), StringLess)
  }

  ghost predicate Listed(db: Tables, g: Name, u: Name, now: int) {
    u in Take(SortedMembers(db, g, now), MEMBER_LIMIT)
  }

  ghost predicate Candidate(db: Tables, ancestors: seq<Name>, u: Name, now: int) {
    exists g :: g in ancestors && Listed(db, g, u, now)
  }

  /** Found in some listing, and passed by the access check. */
  ghost predicate Invitable(db: Tables, group: Name, t: Name, u: Name, now: int, default: nat) {
    Candidate(db, AncestorsOf(group), u, now) && CheckPasses(db, u, t, now, default)
  }

  /** `ownerBelongsToGroup`, and the existence of the group. */
  ghost predicate GroupUsable(db: Tables, owner: Name, group: Name, now: int, default: nat) {
    group != "" && group in db.groups && owner != "" && group in Window(SortedGroups(db, owner, now), None, default)
  }

  // ----- The code -----

  method UserIDsForGroup(db: Tables, g: Name, now: int, limit: nat) returns (ids: seq<Name>)
    ensures ids == Take(SortedMembers(db, g, now), limit)
  {
    var all := SortIDs(Members(db, g, now));
    StringOrder();
    ListingUnique(all, SortedMembers(db, g, now), Members(db, g, now), StringLess);
    ids := Take(all, limit);
  }

  method CollectMembers(db: Tables, ancestors: seq<Name>, now: int) returns (seen: set<Name>)
    ensures forall u :: u in seen <==> Candidate(db, ancestors, u, now)
  {
    seen := {};
    for i := 0 to |ancestors|
      invariant forall u :: u in seen <==> Candidate(db, ancestors[..i], u, now)
    {
      var ids := UserIDsForGroup(db, ancestors[i], now, MEMBER_LIMIT);
      var have := ToSet(ids);
      CandidateMore(db, ancestors, i, now);
      assert forall u :: u in have <==> Listed(db, ancestors[i], u, now);
      seen := seen + have;
    }
    assert ancestors[..|ancestors|] == ancestors;
  }

  lemma CandidateMore(db: Tables, ancestors: seq<Name>, i: nat, now: int)
    requires i < |ancestors|
    ensures forall u :: Candidate(db, ancestors[..i + 1], u, now) <==>
                        Candidate(db, ancestors[..i], u, now) || Listed(db, ancestors[i], u, now)
  {
    assert ancestors[..i + 1] == ancestors[..i] + [ancestors[i]];
    forall u ensures Candidate(db, ancestors[..i + 1], u, now) <==>
                     Candidate(db, ancestors[..i], u, now) || Listed(db, ancestors[i], u, now)
    {
      if Candidate(db, ancestors[..i], u, now) {
        var g :| g in ancestors[..i] && Listed(db, g, u, now);
        assert g in ancestors[..i + 1];
      }
      if Listed(db, ancestors[i], u, now) { assert ancestors[i] in ancestors[..i + 1]; }
    }
  }

  method KeepAdmitted(db: Tables, users: seq<Name>, t: Name, now: int, default: nat) returns (out: seq<Name>)
    requires Ascending(users, StringLess)
    ensures Ascending(out, StringLess)
    ensures forall u :: u in out <==> u in users && CheckPasses(db, u, t, now, default)
  {
    ghost var admitted := set u | u in users && CheckPasses(db, u, t, now, default);
    out := [];
    for i := 0 to |users|
      invariant out == Allowed(users[..i], admitted)
    {
      var ok := UserCanAccessTarget(db, users[i], t, now, default);
      assert users[..i + 1][..i] == users[..i];
      if ok { out := out + [users[i]]; }
    }
    assert users[..|users|] == users;
    AllowedSpec(users, admitted);
  }

  /** `invitableUserIDsForGroup`, for a group id without surrounding spaces. */
  method InvitableUserIDsForGroup(db: Tables, owner: Name, t: Name, group: Name, now: int, default: nat) returns (r: Outcome)
    ensures r == GroupInvalid <==> !GroupUsable(db, owner, group, now, default)
    ensures r == NotForTarget <==>
            GroupUsable(db, owner, group, now, default) && t !in Window(SortedDirect(db, group), None, default)
    ensures r.Invited? ==> Ascending(r.users, StringLess)
    ensures r.Invited? ==> forall u :: u in r.users <==> Invitable(db, group, t, u, now, default)
  {
    if group == "" || group !in db.groups || owner == "" { return GroupInvalid; }
    var held := GroupIDsForUser(db, owner, now, None, default);
    if group !in held { return GroupInvalid; }
    var targetIDs := TargetIDsForGroup(db, group, default);
    if t !in targetIDs { return NotForTarget; }
    var ancestors := AncestorGroupIDs(group);
    var seen := CollectMembers(db, ancestors, now);
    var users := SortIDs(seen);
    var out := KeepAdmitted(db, users, t, now, default);
    assert forall u :: u in Elements(users) <==> u in users;
    r := Invited(out);
  }

  // ----- Whom it reaches -----

  /** The owner may invite the group exactly if it exists and is among the first groups the owner sees. */
  lemma GroupUsableIff(db: Tables, owner: Name, group: Name, now: int, default: nat)
    requires default > 0
    ensures GroupUsable(db, owner, group, now, default) <==>
            && group != "" && owner != "" && group in db.groups && group in GroupsFor(db, owner, now)
            && |Ahead(GroupsFor(db, owner, now), StringLess, group)| < default
  {
    StringOrder();
    TakeIff(SortedGroups(db, owner, now), GroupsFor(db, owner, now), StringLess, default, group);
  }

  /** And the target passes exactly if it is among the first assigned to the group. */
  lemma TargetListedIff(db: Tables, group: Name, t: Name, default: nat)
    requires default > 0
    ensures t in Window(SortedDirect(db, group), None, default) <==>
            (group, t) in db.groupTargets && |Ahead(DirectTargets(db, group), StringLess, t)| < default
  {
    StringOrder();
    TakeIff(SortedDirect(db, group), DirectTargets(db, group), StringLess, default, t);
    assert (group, t) in db.groupTargets ==> (group, t).1 in DirectTargets(db, group);
  }

  /** The membership covers the group, and neither listing is cut before the user or the target. */
  predicate Reaches(db: Tables, u: Name, t: Name, group: Name, now: int, m: Membership) {
    MemberGrant(db, u, t, now, m, (group, t)) && |Ahead(Members(db, m.group, now), StringLess, u)| < 1000
  }

  /**
   Exactly whom an invitation of a group reaches: those whose membership covers the group, with
   fewer than 1000 members listed before them there and fewer than the default limit of their
   accessible targets before the target in question.
   */
  lemma InvitedIff(db: Tables, group: Name, t: Name, u: Name, now: int, default: nat)
    requires ValidGroupId(group) && (group, t) in db.groupTargets && default > 0
    ensures Invitable(db, group, t, u, now, default) <==>
            (exists m :: Reaches(db, u, t, group, now, m)) && |Ahead(TargetsFor(db, u, now), StringLess, t)| < default
  {
    CheckPassesIff(db, u, t, now, default);
    if exists m :: Reaches(db, u, t, group, now, m) {
      var m :| Reaches(db, u, t, group, now, m);
      assert Reaches(db, u, t, group, now, m) && ByMembership(db, u, t, now);
      ListedIff(db, group, t, m.group, u, now);
      assert Listed(db, m.group, u, now);
    }
    if Candidate(db, AncestorsOf(group), u, now) {
      var g :| g in AncestorsOf(group) && Listed(db, g, u, now);
      ListedIff(db, group, t, g, u, now);
    }
  }

  lemma ListedIff(db: Tables, group: Name, t: Name, g: Name, u: Name, now: int)
    requires ValidGroupId(group) && (group, t) in db.groupTargets
    ensures g in AncestorsOf(group) && Listed(db, g, u, now) <==>
            exists m: Membership :: m.group == g && Reaches(db, u, t, group, now, m)
  {
    HierarchyEquivalence(group, g);
    StringOrder();
    TakeIff(SortedMembers(db, g, now), Members(db, g, now), StringLess, MEMBER_LIMIT, u);
    if u in Members(db, g, now) && g in AncestorsOf(group) {
      var m :| m in db.userGroups && m.group == g && Active(m.expires, now) && m.user == u;
      assert MemberGrant(db, u, t, now, m, (group, t));
    }
    if exists m: Membership :: m.group == g && Reaches(db, u, t, group, now, m) {
      var m: Membership :| m.group == g && Reaches(db, u, t, group, now, m);
      assert m.user in Members(db, g, now);
    }
  }

  /** Nobody is invited who may not access the target, whatever is cut. */
  lemma InvitedMayAccess(db: Tables, group: Name, t: Name, u: Name, now: int, default: nat)
    requires Invitable(db, group, t, u, now, default)
    ensures MayAccess(db, u, t, now)
  {
    CheckIsSound(db, u, t, now, default);
  }

  /** While the lists fit, an invitation reaches exactly those whose membership covers the group. */
  lemma InvitedIsCoverage(db: Tables, group: Name, t: Name, u: Name, now: int, default: nat)
    requires ValidGroupId(group) && (group, t) in db.groupTargets && default > 0
    requires |TargetsFor(db, u, now)| <= default
    requires forall g :: g in AncestorsOf(group) ==> |Members(db, g, now)| <= MEMBER_LIMIT
    ensures Invitable(db, group, t, u, now, default) <==>
            exists m :: MemberGrant(db, u, t, now, m, (group, t))
  {
    InvitedIff(db, group, t, u, now, default);
    if exists m :: MemberGrant(db, u, t, now, m, (group, t)) {
      var m :| MemberGrant(db, u, t, now, m, (group, t));
      assert MemberGrant(db, u, t, now, m, (group, t)) && ByMembership(db, u, t, now);
      Duality(db, u, t, now);
      HierarchyEquivalence(group, m.group);
      assert m.user in Members(db, m.group, now);
      AheadIsFewer(Members(db, m.group, now), u);
      AheadIsFewer(TargetsFor(db, u, now), t);
      assert Reaches(db, u, t, group, now, m);
    }
    if exists m :: Reaches(db, u, t, group, now, m) {
      var m :| Reaches(db, u, t, group, now, m);
      assert MemberGrant(db, u, t, now, m, (group, t));
    }
  }

  lemma AheadIsFewer(all: set<Name>, k: Name)
    requires k in all
    ensures |Ahead(all, StringLess, k)| < |all|
  {
    StringLessIrreflexive(k);
    var rest := all - Ahead(all, StringLess, k);
    assert k in rest && all == Ahead(all, StringLess, k) + rest;
  }
}
