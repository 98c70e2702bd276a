/**
 The access relation (internal/access/sqlite_store.go): users reach targets through
 time-limited memberships of "/"-hierarchical groups and through three kinds of tags.
 Tables are sets of rows and each SQL query is a set comprehension; the Go code around the
 queries (union, sort, window, membership checks, tree building) is verified against them.
 */
module Access {
  import opened Basics
  import opened Order
  import opened GroupPath
  import opened Paging

  type Name = string

  datatype Expiry = Never | Until(t: int)

  /** `expires_at IS NULL OR expires_at > now`. */
  predicate Active(e: Expiry, now: int) { e.Never? || e.t > now }

  datatype Membership = Membership(user: Name, group: Name, expires: Expiry)

  /** `targetHome` is targets.group_id; `groupTargets` the (group, target) assignments. */
  datatype Tables = Tables(
    groups: set<Name>,
    targetHome: map<Name, Name>,
    userGroups: set<Membership>,
    groupTargets: set<(Name, Name)>,
    userTags: set<(Name, Name)>,
    targetTags: set<(Name, Name)>,
    groupTags: set<(Name, Name)>)

  /** The foreign keys the queries rely on. */
  predicate ForeignKeys(db: Tables) {
    && (forall gt :: gt in db.groupTargets ==> gt.0 in db.groups && gt.1 in db.targetHome)
    && (forall t :: t in db.targetHome ==> db.targetHome[t] in db.groups)
    && (forall m :: m in db.userGroups ==> m.group in db.groups)
    && (forall x :: x in db.groupTags ==> x.0 in db.groups)
    && (forall x :: x in db.targetTags ==> x.0 in db.targetHome)
  }

  // ----- The three grant paths, row by row -----

  predicate MemberGrant(db: Tables, u: Name, t: Name, now: int, m: Membership, gt: (Name, Name)) {
    && m in db.userGroups && gt in db.groupTargets
    && m.user == u && gt.1 == t && Active(m.expires, now) && DescendantOrSelf(gt.0, m.group)
  }

  predicate TargetTagGrant(db: Tables, u: Name, t: Name, ut: (Name, Name), tt: (Name, Name)) {
    ut in db.userTags && tt in db.targetTags && ut.0 == u && tt.0 == t && ut.1 == tt.1
  }

  predicate GroupTagGrant(db: Tables, u: Name, t: Name, ut: (Name, Name), gtag: (Name, Name), gt: (Name, Name)) {
    && ut in db.userTags && gtag in db.groupTags && gt in db.groupTargets
    && ut.0 == u && gt.1 == t && ut.1 == gtag.1 && DescendantOrSelf(gt.0, gtag.0)
  }

  ghost predicate ByMembership(db: Tables, u: Name, t: Name, now: int) {
    exists m, gt :: MemberGrant(db, u, t, now, m, gt)
  }

  ghost predicate ByTargetTag(db: Tables, u: Name, t: Name) {
    exists ut, tt :: TargetTagGrant(db, u, t, ut, tt)
  }

  ghost predicate ByGroupTag(db: Tables, u: Name, t: Name) {
    exists ut, gtag, gt :: GroupTagGrant(db, u, t, ut, gtag, gt)
  }

  /** The access rules as documented: who may reach what. */
  ghost predicate MayAccess(db: Tables, u: Name, t: Name, now: int) {
    ByMembership(db, u, t, now) || ByTargetTag(db, u, t) || ByGroupTag(db, u, t)
  }

  // ----- The queries -----

  // The ON/WHERE condition of each sub-query, as written there.

  predicate UserMemberWhere(u: Name, now: int, m: Membership, gt: (Name, Name)) {
    m.user == u && Active(m.expires, now) && DescendantOrSelf(gt.0, m.group)
  }

  predicate UserGroupTagWhere(u: Name, ut: (Name, Name), gtag: (Name, Name), gt: (Name, Name)) {
    gtag.1 == ut.1 && ut.0 == u && DescendantOrSelf(gt.0, gtag.0)
  }

  predicate TargetMemberWhere(t: Name, now: int, m: Membership, gt: (Name, Name)) {
    DescendantOrSelf(gt.0, m.group) && gt.1 == t && Active(m.expires, now)
  }

  predicate TargetGroupTagWhere(t: Name, ut: (Name, Name), gtag: (Name, Name), gt: (Name, Name)) {
    gtag.1 == ut.1 && DescendantOrSelf(gt.0, gtag.0) && gt.1 == t
  }

  function TargetsByMembership(db: Tables, u: Name, now: int): set<Name> {
    set m, gt | m in db.userGroups && gt in db.groupTargets && UserMemberWhere(u, now, m, gt) :: gt.1
  }

  function TargetsByTargetTag(db: Tables, u: Name): set<Name> {
    set ut, tt | ut in db.userTags && tt in db.targetTags && ut.1 == tt.1 && ut.0 == u :: tt.0
  }

  function TargetsByGroupTag(db: Tables, u: Name): set<Name> {
    set ut, gtag, gt | ut in db.userTags && gtag in db.groupTags && gt in db.groupTargets
                       && UserGroupTagWhere(u, ut, gtag, gt) :: gt.1
  }

  /** `TargetIDsForUser` before limits. */
  function TargetsFor(db: Tables, u: Name, now: int): set<Name> {
    TargetsByMembership(db, u, now) + TargetsByTargetTag(db, u) + TargetsByGroupTag(db, u)
  }

  function UsersByMembership(db: Tables, t: Name, now: int): set<Name> {
    set m, gt | m in db.userGroups && gt in db.groupTargets && TargetMemberWhere(t, now, m, gt) :: m.user
  }

  function UsersByTargetTag(db: Tables, t: Name): set<Name> {
    set ut, tt | ut in db.userTags && tt in db.targetTags && tt.1 == ut.1 && tt.0 == t :: ut.0
  }

  function UsersByGroupTag(db: Tables, t: Name): set<Name> {
    set ut, gtag, gt | ut in db.userTags && gtag in db.groupTags && gt in db.groupTargets
                       && TargetGroupTagWhere(t, ut, gtag, gt) :: ut.0
  }

  /** `UserIDsForTarget` before limits: its own query, joined the other way round. */
  function UsersFor(db: Tables, t: Name, now: int): set<Name> {
    UsersByMembership(db, t, now) + UsersByTargetTag(db, t) + UsersByGroupTag(db, t)
  }

  predicate GroupTagReaches(db: Tables, t: Name, gtag: (Name, Name), gt: (Name, Name)) {
    gtag in db.groupTags && gt in db.groupTargets && gt.1 == t && DescendantOrSelf(gt.0, gtag.0)
  }

  /** `TagsGrantingTargetAccess`. */
  function TagsGranting(db: Tables, t: Name): set<Name> {
    (set tt | tt in db.targetTags && tt.0 == t :: tt.1)
    + (set gtag, gt | gtag in db.groupTags && gt in db.groupTargets && GroupTagReaches(db, t, gtag, gt) :: gtag.1)
  }

  predicate MemberSees(db: Tables, u: Name, g: Name, now: int, m: Membership) {
    m in db.userGroups && g in db.groups && m.user == u && Active(m.expires, now) && DescendantOrSelf(g, m.group)
  }

  predicate TagSees(db: Tables, u: Name, g: Name, ut: (Name, Name), gtag: (Name, Name)) {
    ut in db.userTags && gtag in db.groupTags && g in db.groups && ut.0 == u && ut.1 == gtag.1 && DescendantOrSelf(g, gtag.0)
  }

  function GroupsByMembership(db: Tables, u: Name, now: int): set<Name> {
    set m, g | m in db.userGroups && g in db.groups && MemberSees(db, u, g, now, m) :: g
  }

  function GroupsByTargetTag(db: Tables, u: Name): set<Name> {
    set ut, tt, gt | ut in db.userTags && tt in db.targetTags && gt in db.groupTargets
                     && TargetTagGrant(db, u, gt.1, ut, tt) :: gt.0
  }

  function GroupsByGroupTag(db: Tables, u: Name): set<Name> {
    set ut, gtag, g | ut in db.userTags && gtag in db.groupTags && g in db.groups && TagSees(db, u, g, ut, gtag) :: g
  }

  /** `GroupIDsForUser` before limits. */
  function GroupsFor(db: Tables, u: Name, now: int): set<Name> {
    GroupsByMembership(db, u, now) + GroupsByTargetTag(db, u) + GroupsByGroupTag(db, u)
  }

  // ----- Duality -----

  lemma MembershipQueries(db: Tables, u: Name, t: Name, now: int)
    ensures t in TargetsByMembership(db, u, now) <==> ByMembership(db, u, t, now)
    ensures u in UsersByMembership(db, t, now) <==> ByMembership(db, u, t, now)
  {
    if ByMembership(db, u, t, now) {
      var m, gt :| MemberGrant(db, u, t, now, m, gt);
      assert UserMemberWhere(u, now, m, gt) && TargetMemberWhere(t, now, m, gt);
    }
    if t in TargetsByMembership(db, u, now) {
      var m, gt :| m in db.userGroups && gt in db.groupTargets && UserMemberWhere(u, now, m, gt) && gt.1 == t;
      assert MemberGrant(db, u, t, now, m, gt);
    }
    if u in UsersByMembership(db, t, now) {
      var m, gt :| m in db.userGroups && gt in db.groupTargets && TargetMemberWhere(t, now, m, gt) && m.user == u;
      assert MemberGrant(db, u, t, now, m, gt);
    }
  }

  lemma TargetTagQueries(db: Tables, u: Name, t: Name)
    ensures t in TargetsByTargetTag(db, u) <==> ByTargetTag(db, u, t)
    ensures u in UsersByTargetTag(db, t) <==> ByTargetTag(db, u, t)
  {
    if t in TargetsByTargetTag(db, u) || u in UsersByTargetTag(db, t) {
      var ut, tt :| ut in db.userTags && tt in db.targetTags && ut.0 == u && tt.0 == t && ut.1 == tt.1;
      assert TargetTagGrant(db, u, t, ut, tt);
    }
  }

  lemma GroupTagQueries(db: Tables, u: Name, t: Name)
    ensures t in TargetsByGroupTag(db, u) <==> ByGroupTag(db, u, t)
    ensures u in UsersByGroupTag(db, t) <==> ByGroupTag(db, u, t)
  {
    if ByGroupTag(db, u, t) {
      var ut, gtag, gt :| GroupTagGrant(db, u, t, ut, gtag, gt);
      assert UserGroupTagWhere(u, ut, gtag, gt) && TargetGroupTagWhere(t, ut, gtag, gt);
    }
    if t in TargetsByGroupTag(db, u) {
      var ut, gtag, gt :| ut in db.userTags && gtag in db.groupTags && gt in db.groupTargets
                       && UserGroupTagWhere(u, ut, gtag, gt) && gt.1 == t;
      assert GroupTagGrant(db, u, t, ut, gtag, gt);
    }
    if u in UsersByGroupTag(db, t) {
      var ut, gtag, gt :| ut in db.userTags && gtag in db.groupTags && gt in db.groupTargets
                       && TargetGroupTagWhere(t, ut, gtag, gt) && ut.0 == u;
      assert GroupTagGrant(db, u, t, ut, gtag, gt);
    }
  }

  /** Both listings decide the documented rules, so they are inverse to each other. */
  lemma Duality(db: Tables, u: Name, t: Name, now: int)
    ensures t in TargetsFor(db, u, now) <==> MayAccess(db, u, t, now)
    ensures u in UsersFor(db, t, now) <==> MayAccess(db, u, t, now)
  {
    MembershipQueries(db, u, t, now);
    TargetTagQueries(db, u, t);
    GroupTagQueries(db, u, t);
  }

  /** Access by tag is exactly holding one of the granting tags. */
  lemma TagAccessIff(db: Tables, u: Name, t: Name)
    ensures ByTargetTag(db, u, t) || ByGroupTag(db, u, t) <==>
              exists tag :: tag in TagsGranting(db, t) && (u, tag) in db.userTags
  {
    if ByTargetTag(db, u, t) {
      var ut, tt :| TargetTagGrant(db, u, t, ut, tt);
      assert ut == (u, ut.1) && tt.1 in TagsGranting(db, t);
    }
    if ByGroupTag(db, u, t) {
      var ut, gtag, gt :| GroupTagGrant(db, u, t, ut, gtag, gt);
      assert ut == (u, ut.1) && GroupTagReaches(db, t, gtag, gt) && gtag.1 in TagsGranting(db, t);
    }
    if exists tag :: tag in TagsGranting(db, t) && (u, tag) in db.userTags {
      var tag :| tag in TagsGranting(db, t) && (u, tag) in db.userTags;
      GrantingTagGrants(db, u, t, tag);
    }
  }

  lemma GrantingTagGrants(db: Tables, u: Name, t: Name, tag: Name)
    requires tag in TagsGranting(db, t) && (u, tag) in db.userTags
    ensures ByTargetTag(db, u, t) || ByGroupTag(db, u, t)
  {
    if tag in set tt | tt in db.targetTags && tt.0 == t :: tt.1 {
      var tt :| tt in db.targetTags && tt.0 == t && tt.1 == tag;
      assert TargetTagGrant(db, u, t, (u, tag), tt);
    } else {
      var gtag, gt :| GroupTagReaches(db, t, gtag, gt) && gtag.1 == tag;
      assert GroupTagReaches(db, t, gtag, gt);
      assert GroupTagGrant(db, u, t, (u, tag), gtag, gt);
    }
  }

  // ----- The rules on the rows themselves -----

  /** The group is the holder, or its id extends the holder's by a slash. */
  predicate AtOrBelow(g: Name, holder: Name) { g == holder || holder + "/" <= g }

  lemma AtOrBelowIff(g: Name, holder: Name)
    ensures AtOrBelow(g, holder) <==> DescendantOrSelf(g, holder)
  {
    if holder + "/" <= g { assert g[..|holder| + 1] == holder + "/"; }
  }

  ghost predicate MembershipCovers(db: Tables, u: Name, g: Name, now: int) {
    exists m :: m in db.userGroups && m.user == u && (m.expires.Until? ==> now < m.expires.t) && AtOrBelow(g, m.group)
  }

  ghost predicate GroupTagCovers(db: Tables, u: Name, g: Name) {
    exists tag, p :: (u, tag) in db.userTags && (p, tag) in db.groupTags && AtOrBelow(g, p)
  }

  ghost predicate SharesTag(db: Tables, u: Name, t: Name) {
    exists tag :: (u, tag) in db.userTags && (t, tag) in db.targetTags
  }

  /**
   Who may reach a target: an active membership of the user covers a group that holds it, or the
   user shares a tag with it, or a tag of the user is on a group at or above one that holds it.
   */
  lemma MayAccessIff(db: Tables, u: Name, t: Name, now: int)
    ensures MayAccess(db, u, t, now) <==>
              || SharesTag(db, u, t)
              || exists g :: (g, t) in db.groupTargets && (MembershipCovers(db, u, g, now) || GroupTagCovers(db, u, g))
  {
    if ByMembership(db, u, t, now) {
      var m, gt :| MemberGrant(db, u, t, now, m, gt);
      AtOrBelowIff(gt.0, m.group);
      assert gt == (gt.0, t) && MembershipCovers(db, u, gt.0, now);
    }
    if ByTargetTag(db, u, t) {
      var ut, tt :| TargetTagGrant(db, u, t, ut, tt);
      assert ut == (u, ut.1) && tt == (t, ut.1);
    }
    if ByGroupTag(db, u, t) {
      var ut, gtag, gt :| GroupTagGrant(db, u, t, ut, gtag, gt);
      AtOrBelowIff(gt.0, gtag.0);
      assert ut == (u, ut.1) && gtag == (gtag.0, ut.1) && gt == (gt.0, t) && GroupTagCovers(db, u, gt.0);
    }
    if SharesTag(db, u, t) {
      var tag :| (u, tag) in db.userTags && (t, tag) in db.targetTags;
      assert TargetTagGrant(db, u, t, (u, tag), (t, tag));
    }
    if g :| (g, t) in db.groupTargets && (MembershipCovers(db, u, g, now) || GroupTagCovers(db, u, g)) {
      CoverGrants(db, u, t, now, g);
    }
  }

  lemma CoverGrants(db: Tables, u: Name, t: Name, now: int, g: Name)
    requires (g, t) in db.groupTargets && (MembershipCovers(db, u, g, now) || GroupTagCovers(db, u, g))
    ensures MayAccess(db, u, t, now)
  {
    if MembershipCovers(db, u, g, now) {
      var m :| m in db.userGroups && m.user == u && (m.expires.Until? ==> now < m.expires.t) && AtOrBelow(g, m.group);
      AtOrBelowIff(g, m.group);
      assert MemberGrant(db, u, t, now, m, (g, t));
    } else {
      var tag, p :| (u, tag) in db.userTags && (p, tag) in db.groupTags && AtOrBelow(g, p);
      AtOrBelowIff(g, p);
      assert GroupTagGrant(db, u, t, (u, tag), (p, tag), (g, t));
    }
  }

  /**
   Who sees a group: an active membership covers it, or a tag of the user is on a target assigned
   to it, or on a group at or above it.
   */
  lemma SeesGroupIff(db: Tables, u: Name, g: Name, now: int)
    ensures g in GroupsFor(db, u, now) <==>
              || (g in db.groups && (MembershipCovers(db, u, g, now) || GroupTagCovers(db, u, g)))
              || exists t :: (g, t) in db.groupTargets && SharesTag(db, u, t)
  {
    MembershipSeesIff(db, u, g, now);
    GroupTagSeesIff(db, u, g);
    if g in GroupsByTargetTag(db, u) {
      var ut, tt, gt :| ut in db.userTags && tt in db.targetTags && gt in db.groupTargets
                       && TargetTagGrant(db, u, gt.1, ut, tt) && gt.0 == g;
      assert TargetTagGrant(db, u, gt.1, ut, tt);
      assert ut == (u, ut.1) && tt == (gt.1, ut.1) && gt == (g, gt.1) && SharesTag(db, u, gt.1);
    }
    if t :| (g, t) in db.groupTargets && SharesTag(db, u, t) {
      var tag :| (u, tag) in db.userTags && (t, tag) in db.targetTags;
      assert TargetTagGrant(db, u, t, (u, tag), (t, tag));
      assert (g, t).0 in GroupsByTargetTag(db, u);
    }
  }

  lemma MembershipSeesIff(db: Tables, u: Name, g: Name, now: int)
    ensures g in GroupsByMembership(db, u, now) <==> g in db.groups && MembershipCovers(db, u, g, now)
  {
    if g in GroupsByMembership(db, u, now) {
      var m :| m in db.userGroups && g in db.groups && MemberSees(db, u, g, now, m);
      assert MemberSees(db, u, g, now, m);
      AtOrBelowIff(g, m.group);
    }
    if g in db.groups && MembershipCovers(db, u, g, now) {
      var m :| m in db.userGroups && m.user == u && (m.expires.Until? ==> now < m.expires.t) && AtOrBelow(g, m.group);
      AtOrBelowIff(g, m.group);
      assert MemberSees(db, u, g, now, m);
    }
  }

  lemma GroupTagSeesIff(db: Tables, u: Name, g: Name)
    ensures g in GroupsByGroupTag(db, u) <==> g in db.groups && GroupTagCovers(db, u, g)
  {
    if g in GroupsByGroupTag(db, u) {
      var ut, gtag :| ut in db.userTags && gtag in db.groupTags && g in db.groups && TagSees(db, u, g, ut, gtag);
      assert TagSees(db, u, g, ut, gtag);
      AtOrBelowIff(g, gtag.0);
      assert ut == (u, ut.1) && gtag == (gtag.0, ut.1);
    }
    if g in db.groups && GroupTagCovers(db, u, g) {
      var tag, p :| (u, tag) in db.userTags && (p, tag) in db.groupTags && AtOrBelow(g, p);
      AtOrBelowIff(g, p);
      assert TagSees(db, u, g, (u, tag), (p, tag));
    }
  }

  /** Which tags grant access to a target: those on it, and those on a group at or above one that holds it. */
  lemma GrantingTagIff(db: Tables, t: Name, tag: Name)
    ensures tag in TagsGranting(db, t) <==>
              || (t, tag) in db.targetTags
              || exists g, p :: (g, t) in db.groupTargets && (p, tag) in db.groupTags && AtOrBelow(g, p)
  {
    if tag in set tt | tt in db.targetTags && tt.0 == t :: tt.1 {
      var tt :| tt in db.targetTags && tt.0 == t && tt.1 == tag;
      assert tt == (t, tag);
    } else if tag in TagsGranting(db, t) {
      var gtag, gt :| GroupTagReaches(db, t, gtag, gt) && gtag.1 == tag;
      assert GroupTagReaches(db, t, gtag, gt);
      AtOrBelowIff(gt.0, gtag.0);
      assert gt == (gt.0, t) && gtag == (gtag.0, tag);
    }
    if (t, tag) in db.targetTags {
      assert (t, tag).1 in set tt | tt in db.targetTags && tt.0 == t :: tt.1;
    }
    if g, p :| (g, t) in db.groupTargets && (p, tag) in db.groupTags && AtOrBelow(g, p) {
      AtOrBelowIff(g, p);
      assert GroupTagReaches(db, t, (p, tag), (g, t));
      assert (p, tag).1 in TagsGranting(db, t);
    }
  }

  // ----- Time and purging -----

  function Purge(db: Tables, olderThan: int): Tables {
    db.(userGroups := set m | m in db.userGroups && (m.expires.Never? || m.expires.t >= olderThan))
  }

  /** Exactly the memberships that expired before `olderThan` go, and nothing else changes. */
  lemma PurgeIsExact(db: Tables, olderThan: int, m: Membership)
    ensures m in Purge(db, olderThan).userGroups <==> m in db.userGroups && !(m.expires.Until? && m.expires.t < olderThan)
    ensures Purge(db, olderThan) == db.(userGroups := Purge(db, olderThan).userGroups)
  {
  }

  /** Purging what expired before `olderThan` changes no access decision from `olderThan - 1` on. */
  lemma PurgeIsInvisible(db: Tables, olderThan: int, u: Name, now: int)
    requires now >= olderThan - 1
    ensures TargetsFor(Purge(db, olderThan), u, now) == TargetsFor(db, u, now)
    ensures GroupsFor(Purge(db, olderThan), u, now) == GroupsFor(db, u, now)
  {
    var p := Purge(db, olderThan);
    assert forall m :: m in db.userGroups && Active(m.expires, now) ==> m in p.userGroups;
    assert forall t, m, gt :: MemberGrant(db, u, t, now, m, gt) <==> MemberGrant(p, u, t, now, m, gt);
    assert forall g, m :: MemberSees(db, u, g, now, m) <==> MemberSees(p, u, g, now, m);
    assert TargetsByMembership(p, u, now) == TargetsByMembership(db, u, now);
    assert GroupsByMembership(p, u, now) == GroupsByMembership(db, u, now);
    SameTagQueries(p, db, u);
  }

  lemma SameTagQueries(p: Tables, db: Tables, u: Name)
    requires p == db.(userGroups := p.userGroups)
    ensures TargetsByTargetTag(p, u) == TargetsByTargetTag(db, u) && TargetsByGroupTag(p, u) == TargetsByGroupTag(db, u)
    ensures GroupsByTargetTag(p, u) == GroupsByTargetTag(db, u) && GroupsByGroupTag(p, u) == GroupsByGroupTag(db, u)
  {
    assert forall t, ut, tt :: TargetTagGrant(db, u, t, ut, tt) <==> TargetTagGrant(p, u, t, ut, tt);
    assert forall t, ut, a, b :: GroupTagGrant(db, u, t, ut, a, b) <==> GroupTagGrant(p, u, t, ut, a, b);
    assert forall g, ut, a :: TagSees(db, u, g, ut, a) <==> TagSees(p, u, g, ut, a);
  }

  /** With tables unchanged, access only ever shrinks as time passes. */
  lemma AccessShrinks(db: Tables, u: Name, now: int, later: int)
    requires now <= later
    ensures TargetsFor(db, u, later) <= TargetsFor(db, u, now)
  {
    forall t, m, gt | MemberGrant(db, u, t, later, m, gt) ensures MemberGrant(db, u, t, now, m, gt) {}
    assert TargetsByMembership(db, u, later) <= TargetsByMembership(db, u, now);
  }

  // ----- The group tree covers access -----

  /** What `handleGroups` lists before limits: direct targets of visible groups, filtered. */
  function TreeTargets(db: Tables, u: Name, now: int): set<Name> {
    set gt | gt in db.groupTargets && gt.0 in GroupsFor(db, u, now) && gt.1 in TargetsFor(db, u, now) :: gt.1
  }

  predicate Assigned(db: Tables, t: Name) { exists gt :: gt in db.groupTargets && gt.1 == t }

  /** The tree shows exactly the accessible targets that are in some group. */
  lemma TreeCoversAccess(db: Tables, u: Name, now: int)
    requires ForeignKeys(db)
    ensures TreeTargets(db, u, now) == set t | t in TargetsFor(db, u, now) && Assigned(db, t)
  {
    forall t | t in TargetsFor(db, u, now) && Assigned(db, t) ensures t in TreeTargets(db, u, now) {
      var g := VisibleGroup(db, u, t, now);
      assert (g, t) in db.groupTargets;
    }
  }

  /** For every grant path, some group that holds the target is visible. */
  lemma VisibleGroup(db: Tables, u: Name, t: Name, now: int) returns (g: Name)
    requires ForeignKeys(db) && t in TargetsFor(db, u, now) && Assigned(db, t)
    ensures (g, t) in db.groupTargets && g in GroupsFor(db, u, now)
  {
    Duality(db, u, t, now);
    if ByMembership(db, u, t, now) {
      var m, gt :| MemberGrant(db, u, t, now, m, gt);
      g := gt.0;
      assert gt == (g, t) && MemberSees(db, u, g, now, m);
      assert g in GroupsByMembership(db, u, now);
    } else if ByTargetTag(db, u, t) {
      var ut, tt :| TargetTagGrant(db, u, t, ut, tt);
      var gt :| gt in db.groupTargets && gt.1 == t;
      g := gt.0;
      assert gt == (g, t) && g in GroupsByTargetTag(db, u);
    } else {
      var ut, gtag, gt :| GroupTagGrant(db, u, t, ut, gtag, gt);
      g := gt.0;
      assert gt == (g, t) && TagSees(db, u, g, ut, gtag);
      assert g in GroupsByGroupTag(db, u);
    }
  }

  /** Group visibility is closed downwards for memberships and group tags. */
  lemma VisibilityInherits(db: Tables, u: Name, now: int, parent: Name, child: Name)
    requires child in db.groups && DescendantOrSelf(child, parent)
    requires parent in GroupsByMembership(db, u, now) || parent in GroupsByGroupTag(db, u)
    ensures child in GroupsFor(db, u, now)
  {
    if parent in GroupsByMembership(db, u, now) {
      var m :| MemberSees(db, u, parent, now, m);
      assert MemberSees(db, u, parent, now, m);
      HierarchyIsPartialOrder(child, parent, m.group);
      assert MemberSees(db, u, child, now, m) && child in GroupsByMembership(db, u, now);
    } else {
      var ut, gtag :| TagSees(db, u, parent, ut, gtag);
      assert TagSees(db, u, parent, ut, gtag);
      HierarchyIsPartialOrder(child, parent, gtag.0);
      assert TagSees(db, u, child, ut, gtag) && child in GroupsByGroupTag(db, u);
    }
  }

  // ----- Listings and checks -----

  ghost function SortedTargets(db: Tables, u: Name, now: int): seq<Name> {
    StringOrder();
    Sorted(TargetsFor(db, u, now), StringLess)
  }

  /** The Go code around the three queries: union into `seen`, sort, window. */
  method TargetIDsForUser(db: Tables, u: Name, now: int, opts: Option<ListOpts>, default: int) returns (ids: seq<Name>)
    ensures ids == Window(SortedTargets(db, u, now), opts, default)
  {
    var seen := TargetsByMembership(db, u, now);
    seen := seen + TargetsByTargetTag(db, u);
    seen := seen + TargetsByGroupTag(db, u);
    var all := SortIDs(seen);
    StringOrder();
    ListingUnique(all, SortedTargets(db, u, now), seen, StringLess);
    ids := ApplyWindow(all, opts, default);
  }

  ghost predicate CheckPasses(db: Tables, u: Name, t: Name, now: int, default: int) {
    t in Window(SortedTargets(db, u, now), None, default)
  }

  ghost function SortedUsers(db: Tables, t: Name, now: int): seq<Name> {
    StringOrder();
    Sorted(UsersFor(db, t, now), StringLess)
  }

  /** The query with its ORDER BY, and the window. */
  method UserIDsForTarget(db: Tables, t: Name, now: int, opts: Option<ListOpts>, default: int) returns (ids: seq<Name>)
    ensures ids == Window(SortedUsers(db, t, now), opts, default)
  {
    var all := SortIDs(UsersFor(db, t, now));
    StringOrder();
    ListingUnique(all, SortedUsers(db, t, now), UsersFor(db, t, now), StringLess);
    ids := ApplyWindow(all, opts, default);
  }

  /** `allowedTargetIDSet` and `userCanAccessTarget`: both go through a listing with nil options. */
  method UserCanAccessTarget(db: Tables, u: Name, t: Name, now: int, default: int) returns (ok: bool)
    ensures ok == CheckPasses(db, u, t, now, default)
  {
    var allowed := TargetIDsForUser(db, u, now, None, default);
    var have := ToSet(allowed);
    ok := t in have;
  }

  method ToSet(ids: seq<Name>) returns (have: set<Name>)
    ensures have == Elements(ids)
  {
    have := {};
    for i := 0 to |ids|
      invariant have == Elements(ids[..i])
    {
      assert ids[..i + 1] == ids[..i] + [ids[i]];
      have := have + {ids[i]};
    }
    assert ids[..|ids|] == ids;
  }

  /** The check never admits anyone the relation does not. */
  lemma CheckIsSound(db: Tables, u: Name, t: Name, now: int, default: int)
    requires CheckPasses(db, u, t, now, default)
    ensures MayAccess(db, u, t, now) && u in UsersFor(db, t, now)
  {
    SortedIsSet(db, u, t, now);
    Duality(db, u, t, now);
  }

  lemma SortedIsSet(db: Tables, u: Name, t: Name, now: int)
    ensures t in SortedTargets(db, u, now) <==> t in TargetsFor(db, u, now)
  {
    StringOrder();
    var all := SortedTargets(db, u, now);
    assert t in Elements(all) <==> t in all;
  }

  /** It agrees with the rules on every target exactly when the user's set fits the default limit. */
  lemma CheckIsExactIff(db: Tables, u: Name, now: int, default: int)
    requires default > 0
    ensures (forall t :: CheckPasses(db, u, t, now, default) <==> MayAccess(db, u, t, now)) <==>
              |TargetsFor(db, u, now)| <= default
  {
    StringOrder();
    var all := SortedTargets(db, u, now);
    AscendingSize(all, TargetsFor(db, u, now), StringLess);
    CutLosesIff(all, default);
    forall t ensures t in all <==> MayAccess(db, u, t, now) {
      SortedIsSet(db, u, t, now);
      Duality(db, u, t, now);
    }
  }

  lemma CutLosesIff(all: seq<Name>, n: int)
    requires Ascending(all, StringLess) && n > 0
    ensures (forall t :: t in Window(all, None, n) <==> t in all) <==> |all| <= n
  {
    if |all| > n {
      var t := all[n];
      forall i | 0 <= i < n ensures all[i] != t {
        assert StringLess(all[i], all[n]);
        StringLessIrreflexive(t);
      }
      assert t in all && t !in all[..n];
    }
  }

  /** Target by target: it passes those the user may access that fewer than the limit sort before. */
  lemma CheckPassesIff(db: Tables, u: Name, t: Name, now: int, default: nat)
    requires default > 0
    ensures CheckPasses(db, u, t, now, default) <==>
            MayAccess(db, u, t, now) && |Ahead(TargetsFor(db, u, now), StringLess, t)| < default
  {
    StringOrder();
    TakeIff(SortedTargets(db, u, now), TargetsFor(db, u, now), StringLess, default, t);
    Duality(db, u, t, now);
  }

  // ----- Listing targets page by page -----

  const MAX_VARS: nat := 999

  /** `handleTargets` for an ordinary user. */
  method HandleTargets(db: Tables, table: map<Name, Target>, u: Name, now: int, req: Request, default: nat)
    returns (items: seq<Target>, cursor: Name)
    ensures var page := RequestedIds(SortedTargets(db, u, now), req, default);
            cursor == page.cursor && items == LookupEach(Unique(IdWindow(page.items, None, default)), table)
  {
    var ids := TargetIDsForUser(db, u, now, OptsOf(req), default);
    ids, cursor := CutPage(ids, req, SortedTargets(db, u, now), default);
    items := ListByIDs(ids, None, default, table, MAX_VARS);
  }

  lemma SortedIsListing(db: Tables, u: Name, now: int)
    requires "" !in TargetsFor(db, u, now)
    ensures Listing(SortedTargets(db, u, now))
  {
    SortedIsSet(db, u, "", now);
  }

  /**
   A user's walk over `handleTargets`: with pages of 1 up to the default limit it lists every
   accessible target that can be loaded, in order, once.
   */
  lemma TargetWalkIsComplete(db: Tables, table: map<Name, Target>, u: Name, now: int, pageLimit: nat, default: nat)
    requires "" !in TargetsFor(db, u, now) && KeyedById(table) && 0 < pageLimit <= default
    ensures Listing(SortedTargets(db, u, now))
    ensures var shown := Walk(SortedTargets(db, u, now), pageLimit, "", default, table);
            && shown == Present(SortedTargets(db, u, now), table) && Ascending(shown, StringLess)
            && forall t :: t in shown <==> MayAccess(db, u, t, now) && Usable(table, t)
  {
    var all := SortedTargets(db, u, now);
    SortedIsListing(db, u, now);
    WalkIsComplete(all, pageLimit, default, table);
    PresentSpec(all, table);
    forall t ensures t in all <==> MayAccess(db, u, t, now) {
      SortedIsSet(db, u, t, now);
      Duality(db, u, t, now);
    }
  }

  /** The rows of targets: one per target, with a valid port. */
  predicate TargetTable(db: Tables, table: map<Name, Target>) {
    && table.Keys == db.targetHome.Keys && KeyedById(table) && "" !in table
    && forall t :: t in table ==> Usable(table, t)
  }

  /** In a consistent database the walk is the sorted accessible set itself. */
  lemma TargetWalkIsSortedSet(db: Tables, table: map<Name, Target>, u: Name, now: int, pageLimit: nat, default: nat)
    requires ForeignKeys(db) && TargetTable(db, table) && 0 < pageLimit <= default
    ensures Listing(SortedTargets(db, u, now))
    ensures Walk(SortedTargets(db, u, now), pageLimit, "", default, table) == SortedTargets(db, u, now)
  {
    forall t | t in TargetsFor(db, u, now) ensures t in table { AccessibleExists(db, u, t, now); }
    TargetWalkIsComplete(db, table, u, now, pageLimit, default);
    forall t | t in SortedTargets(db, u, now) ensures Usable(table, t) { SortedIsSet(db, u, t, now); }
    PresentAll(SortedTargets(db, u, now), table);
  }

  lemma AccessibleExists(db: Tables, u: Name, t: Name, now: int)
    requires ForeignKeys(db) && t in TargetsFor(db, u, now)
    ensures t in db.targetHome
  {
    Duality(db, u, t, now);
    if ByMembership(db, u, t, now) {
      var m, gt :| MemberGrant(db, u, t, now, m, gt);
      assert gt in db.groupTargets && gt.1 == t;
    } else if ByTargetTag(db, u, t) {
      var ut, tt :| TargetTagGrant(db, u, t, ut, tt);
      assert tt in db.targetTags && tt.0 == t;
    } else {
      var ut, gtag, gt :| GroupTagGrant(db, u, t, ut, gtag, gt);
      assert gt in db.groupTargets && gt.1 == t;
    }
  }
}
