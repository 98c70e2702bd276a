/**
 Group reconciliation at OIDC login (`syncOIDCGroups` in internal/httpapi/auth_oidc.go) over
 the user's memberships and the groups recorded as granted by OIDC (internal/auth/oidc_links.go).
 */
module OidcSync {
  import opened Basics

  /** One user: membership expiries by group (None is permanent), and the groups OIDC manages. */
  datatype Account = Account(members: map<string, Option<int>>, managed: set<string>)

  const PERMANENT: Option<int> := None

  // ----- The desired groups -----

  predicate Maps(claim: seq<string>, groupMap: map<string, seq<string>>, target: string) {
    exists g :: g in claim && g in groupMap && target in groupMap[g]
  }

  /** `found`: the groups whose lookup succeeds.  An error counts like a missing group. */
  predicate Desires(claim: seq<string>, groupMap: map<string, seq<string>>, found: set<string>, target: string) {
    target in found && Maps(claim, groupMap, target)
  }

  lemma DesiresMore(claim: seq<string>, groupMap: map<string, seq<string>>, groups: set<string>, i: nat)
    requires i < |claim|
    ensures forall t :: Desires(claim[..i + 1], groupMap, groups, t) <==>
                        Desires(claim[..i], groupMap, groups, t)
                        || (claim[i] in groupMap && t in groupMap[claim[i]] && t in groups)
  {
    assert claim[..i + 1] == claim[..i] + [claim[i]];
    forall t ensures Maps(claim[..i + 1], groupMap, t) <==>
                     Maps(claim[..i], groupMap, t) || (claim[i] in groupMap && t in groupMap[claim[i]])
    {
      if Maps(claim[..i], groupMap, t) {
        var g :| g in claim[..i] && g in groupMap && t in groupMap[g];
        assert g in claim[..i + 1];
      }
      if claim[i] in groupMap && t in groupMap[claim[i]] { assert claim[i] in claim[..i + 1]; }
    }
  }

  method DesiredGroups(claim: seq<string>, groupMap: map<string, seq<string>>, groups: set<string>, unreadable: set<string>)
    returns (desired: set<string>)
    ensures forall t :: t in desired <==> Desires(claim, groupMap, groups - unreadable, t)
  {
    ghost var found := groups - unreadable;
    desired := {};
    for i := 0 to |claim|
      invariant forall t :: t in desired <==> Desires(claim[..i], groupMap, found, t)
    {
      DesiresMore(claim, groupMap, found, i);
      var targets := if claim[i] in groupMap then groupMap[claim[i]] else [];
      for k := 0 to |targets|
        invariant forall t :: t in desired <==> Desires(claim[..i], groupMap, found, t) || (t in targets[..k] && t in found)
      {
        if targets[k] in groups && targets[k] !in unreadable {
          desired := desired + {targets[k]};
        }
        assert targets[..k + 1] == targets[..k] + [targets[k]];
      }
      assert targets[..|targets|] == targets;
    }
    assert claim[..|claim|] == claim;
  }

  // ----- One synchronisation -----

  /** Permanent memberships for `added`, none for `removed`. */
  function Change(members: map<string, Option<int>>, added: set<string>, removed: set<string>): map<string, Option<int>> {
    map g | g in members.Keys + added && g !in removed :: if g in added then PERMANENT else members[g]
  }

  /** A login whose claim asks for exactly `desired`. */
  function Sync(a: Account, desired: set<string>): Account {
    Account(Change(a.members, desired - a.managed, a.managed - desired), desired)
  }

  lemma ChangeNothing(members: map<string, Option<int>>)
    ensures Change(members, {}, {}) == members
  {
  }

  lemma ChangeGrant(members: map<string, Option<int>>, added: set<string>, g: string)
    ensures Change(members, added, {})[g := PERMANENT] == Change(members, added + {g}, {})
  {
  }

  lemma ChangeRevoke(members: map<string, Option<int>>, removed: set<string>, g: string)
    ensures Change(members, {}, removed) - {g} == Change(members, {}, removed + {g})
  {
  }

  lemma ChangeTwice(members: map<string, Option<int>>, added: set<string>, removed: set<string>)
    requires added !! removed
    ensures Change(Change(members, added, {}), {}, removed) == Change(members, added, removed)
  {
  }

  /** Map iteration: the keys in some order. */
  method InSomeOrder(s: set<string>) returns (r: seq<string>)
    ensures (set g | g in r) == s
  {
    r := [];
    var todo := s;
    while todo != {}
      invariant todo <= s && forall g :: g in r <==> g in s - todo
      decreases todo
    {
      var g :| g in todo;
      r := r + [g];
      todo := todo - {g};
    }
  }

  /** What a login that stops on an error may leave: grants come first, and the managed set is written last. */
  ghost predicate Interrupted(before: Account, desired: set<string>, after: Account, added: set<string>, removed: set<string>) {
    && added <= desired - before.managed && removed <= before.managed - desired
    && (removed != {} ==> added == desired - before.managed)
    && after == Account(Change(before.members, added, removed), before.managed)
  }

  /** Logins, and what else happens to the user's memberships between them. */
  datatype Event =
    | Login(desired: set<string>)
    | FailedLogin(added: set<string>, removed: set<string>)
    | Grant(group: string, until: Option<int>)
    | Revoke(group: string)
    | DropGroup(group: string)

  function Step(a: Account, e: Event): Account {
    match e
    case Login(d) => Sync(a, d)
    case FailedLogin(add, rem) => a.(members := Change(a.members, add - a.managed, rem * a.managed))
    case Grant(g, t) => a.(members := a.members[g := t])
    case Revoke(g) => a.(members := a.members - {g})
    case DropGroup(g) => Account(a.members - {g}, a.managed - {g})
  }

  class UserAccount {
    /** The groups that exist. */
    var groups: set<string>
    var members: map<string, Option<int>>
    var managed: set<string>

    constructor (groups: set<string>, members: map<string, Option<int>>, managed: set<string>)
      requires members.Keys + managed <= groups
      ensures Valid() && this.groups == groups && Value() == Account(members, managed)
    {
      this.groups := groups;
      this.members := members;
      this.managed := managed;
    }

    /** The foreign keys of both tables. */
    ghost predicate Valid() reads this { members.Keys + managed <= groups }

    function Value(): Account reads this { Account(members, managed) }

    method AddUserToGroup(g: string) returns (ok: bool)
      modifies this`members
      ensures ok == (g in groups)
      ensures members == if ok then old(members)[g := PERMANENT] else old(members)
      ensures ok ==> Value() == Step(old(Value()), Grant(g, PERMANENT))
    {
      ok := g in groups;
      if ok { members := members[g := PERMANENT]; }
    }

    /** False stands for `ErrGroupNotFound`. */
    method RemoveUserFromGroup(g: string) returns (found: bool)
      modifies this`members
      ensures found == (g in groups)
      ensures members == if found then old(members) - {g} else old(members)
      ensures found ==> Value() == Step(old(Value()), Revoke(g))
    {
      found := g in groups;
      if found { members := members - {g}; }
    }

    /** Begin, delete, insert and commit: `statements` of these succeed, and an error rolls everything back. */
    method SetManagedGroups(groupIDs: seq<string>, statements: nat) returns (ok: bool)
      modifies this`managed
      ensures ok == (|groupIDs| + 3 <= statements)
      ensures managed == if ok then (set g | g in groupIDs) else old(managed)
    {
      if statements < 2 { return false; }
      var rows: set<string> := {};
      for i := 0 to |groupIDs|
        invariant rows == set g | g in groupIDs[..i]
        invariant i + 2 <= statements
      {
        if i + 2 == statements { return false; }
        rows := rows + {groupIDs[i]};
        assert groupIDs[..i + 1] == groupIDs[..i] + [groupIDs[i]];
      }
      assert groupIDs[..|groupIDs|] == groupIDs;
      if |groupIDs| + 2 == statements { return false; }
      managed := rows;
      ok := true;
    }

    /** `writes` of the membership writes succeed, then the store fails. */
    method GrantMissing(desired: set<string>, writes: nat) returns (ok: bool, done: set<string>)
      requires Valid() && desired <= groups
      modifies this`members
      ensures Valid() && done <= desired - managed && (ok <==> done == desired - managed)
      ensures |done| <= writes
      ensures members == Change(old(members), done, {})
    {
      done := {};
      ghost var before := members;
      ChangeNothing(before);
      var todo := desired - managed;
      while todo != {}
        invariant todo + done == desired - managed && todo !! done
        invariant |done| <= writes && members.Keys <= groups
        invariant members == Change(before, done, {})
        decreases todo
      {
        if |done| == writes { return false, done; }
        var g :| g in todo;
        ChangeGrant(before, done, g);
        var _ := AddUserToGroup(g);
        done := done + {g};
        todo := todo - {g};
      }
      ok := true;
    }

    method RevokeStale(desired: set<string>, writes: nat) returns (ok: bool, done: set<string>)
      requires Valid()
      modifies this`members
      ensures Valid() && done <= managed - desired && (ok <==> done == managed - desired)
      ensures members == Change(old(members), {}, done)
    {
      done := {};
      ghost var before := members;
      ChangeNothing(before);
      var todo := managed - desired;
      while todo != {}
        invariant todo + done == managed - desired && todo !! done
        invariant members == Change(before, {}, done)
        decreases todo
      {
        if |done| == writes { return false, done; }
        var g :| g in todo;
        ChangeRevoke(before, done, g);
        var _ := RemoveUserFromGroup(g);
        done := done + {g};
        todo := todo - {g};
      }
      ok := true;
    }

    /** The two membership loops: grants first, then revocations. */
    method UpdateMemberships(desired: set<string>, writes: nat) returns (ok: bool, ghost added: set<string>, ghost removed: set<string>)
      requires Valid() && desired <= groups
      modifies this`members
      ensures Valid()
      ensures added <= desired - managed && removed <= managed - desired
      ensures removed != {} || ok ==> added == desired - managed
      ensures ok ==> removed == managed - desired
      ensures members == Change(old(members), added, removed)
    {
      added, removed := {}, {};
      ghost var before := members;
      var granted, revoked;
      ok, granted := GrantMissing(desired, writes);
      added := granted;
      if !ok { return; }
      ok, revoked := RevokeStale(desired, writes - |granted|);
      removed := revoked;
      ChangeTwice(before, granted, revoked);
    }

    /**
     Lookups of `unreadable` groups fail; `listable` says whether the managed groups can be read;
     `writes` and `statements` say where the stores start failing.
     */
    method SyncOIDCGroups(claim: seq<string>, groupMap: map<string, seq<string>>, unreadable: set<string>,
                          listable: bool, writes: nat, statements: nat)
      returns (ok: bool, ghost desired: set<string>, ghost added: set<string>, ghost removed: set<string>)
      requires Valid()
      modifies this`members, this`managed
      ensures Valid()
      ensures forall t :: t in desired <==> Desires(claim, groupMap, groups - unreadable, t)
      ensures ok ==> Value() == Step(old(Value()), Login(desired))
      ensures !ok ==> Value() == Step(old(Value()), FailedLogin(added, removed))
      ensures !ok ==> Interrupted(old(Value()), desired, Value(), added, removed)
    {
      var want := DesiredGroups(claim, groupMap, groups, unreadable);
      desired := want;
      ghost var before := Value();
      if !listable {
        added, removed := {}, {};
        ChangeNothing(members);
        return false, desired, added, removed;
      }
      ok, added, removed := UpdateMemberships(want, writes);
      if ok {
        var rows := InSomeOrder(want);
        ok := SetManagedGroups(rows, statements);
      }
      if !ok { InterruptedIsFailedLogin(before, desired, Value(), added, removed); }
    }
  }

  // ----- Runs -----

  /** An interrupted `SyncOIDCGroups` is a `FailedLogin` step. */
  lemma InterruptedIsFailedLogin(a: Account, desired: set<string>, b: Account, added: set<string>, removed: set<string>)
    requires Interrupted(a, desired, b, added, removed)
    ensures b == Step(a, FailedLogin(added, removed))
  {
    assert added - a.managed == added && removed * a.managed == removed;
  }

  function Run(a: Account, es: seq<Event>): Account {
    if es == [] then a else Step(Run(a, es[..|es| - 1]), es[|es| - 1])
  }

  /** The part of an account that concerns one group. */
  function View(a: Account, g: string): (bool, Option<int>, bool) {
    (g in a.members, if g in a.members then a.members[g] else PERMANENT, g in a.managed)
  }

  predicate Concerns(e: Event, g: string) {
    match e
    case Login(d) => g in d
    case FailedLogin(add, rem) => g in add || g in rem
    case Grant(h, _) => h == g
    case Revoke(h) => h == g
    case DropGroup(h) => h == g
  }

  /** A group no event concerns, and that OIDC does not manage, is untouched by any run. */
  lemma {:induction false} Untouched(a: Account, es: seq<Event>, g: string)
    requires g !in a.managed && forall i :: 0 <= i < |es| ==> !Concerns(es[i], g)
    ensures View(Run(a, es), g) == View(a, g)
    decreases |es|
  {
    if es != [] { Untouched(a, es[..|es| - 1], g); }
  }

  /** Groups do not interfere: accounts that agree on `g` still do after any run. */
  lemma {:induction false} Noninterference(a: Account, b: Account, es: seq<Event>, g: string)
    requires View(a, g) == View(b, g)
    ensures View(Run(a, es), g) == View(Run(b, es), g)
    decreases |es|
  {
    if es != [] { Noninterference(a, b, es[..|es| - 1], g); }
  }

  /** Deleting a group takes its membership and its mark along, and so the next login that wants it grants it anew. */
  lemma DroppedIsForgotten(a: Account, g: string, desired: set<string>)
    requires g in desired
    ensures g !in Step(a, DropGroup(g)).members && g !in Step(a, DropGroup(g)).managed
    ensures var r := Sync(Step(a, DropGroup(g)), desired); g in r.members && r.members[g] == PERMANENT && g in r.managed
  {
  }

  /** The second of two equal logins does nothing. */
  lemma SyncIdempotent(a: Account, desired: set<string>)
    ensures Sync(Sync(a, desired), desired) == Sync(a, desired)
  {
  }

  function Logins(ds: seq<set<string>>): seq<Event> {
    seq(|ds|, i requires 0 <= i < |ds| => Login(ds[i]))
  }

  predicate EverDesired(ds: seq<set<string>>, g: string) {
    exists i :: 0 <= i < |ds| && g in ds[i]
  }

  lemma EverDesiredSnoc(ds: seq<set<string>>, g: string)
    requires ds != []
    ensures EverDesired(ds, g) <==> EverDesired(ds[..|ds| - 1], g) || g in ds[|ds| - 1]
  {
    var front := ds[..|ds| - 1];
    if EverDesired(front, g) {
      var i :| 0 <= i < |front| && g in front[i];
      assert g in ds[i];
    }
  }

  /**
   Closed form: with nothing managed at first and no other writer, any sequence of logins leaves
   the last desired groups, permanently, and those initial memberships that were never desired.
   */
  lemma {:induction false} ClosedForm(a: Account, ds: seq<set<string>>)
    requires a.managed == {} && ds != []
    ensures var r := Run(a, Logins(ds)); var last := ds[|ds| - 1];
            && r.managed == last
            && (forall g :: g in r.members <==> g in last || (g in a.members && !EverDesired(ds, g)))
            && (forall g :: g in last ==> r.members[g] == PERMANENT)
            && (forall g :: g in r.members && g !in last ==> r.members[g] == a.members[g])
    decreases |ds|
  {
    var front, last := ds[..|ds| - 1], ds[|ds| - 1];
    assert Logins(ds)[..|ds| - 1] == Logins(front);
    forall g ensures EverDesired(ds, g) <==> EverDesired(front, g) || g in last { EverDesiredSnoc(ds, g); }
    if front != [] {
      ClosedForm(a, front);
      forall g | g in front[|front| - 1] ensures EverDesired(front, g) {}
    } else {
      assert Run(a, Logins(front)) == a;
    }
  }

  predicate AlwaysDesired(ds: seq<set<string>>, g: string) {
    forall i :: 0 <= i < |ds| ==> g in ds[i]
  }

  lemma AlwaysDesiredSnoc(ds: seq<set<string>>, g: string)
    requires ds != []
    ensures AlwaysDesired(ds, g) <==> AlwaysDesired(ds[..|ds| - 1], g) && g in ds[|ds| - 1]
  {
    var front := ds[..|ds| - 1];
    assert forall i :: 0 <= i < |front| ==> front[i] == ds[i];
  }

  /** No login takes the group up or drops it. */
  predicate NeverChanged(a: Account, ds: seq<set<string>>, g: string) {
    if g in a.managed then AlwaysDesired(ds, g) else !EverDesired(ds, g)
  }

  /** From any account, what any sequence of logins makes of one membership. */
  lemma {:induction false} MembershipAfterLogins(a: Account, ds: seq<set<string>>, g: string)
    requires g in a.members
    ensures var r := Run(a, Logins(ds));
            && (ds != [] ==> (g in r.managed <==> g in ds[|ds| - 1]))
            && (NeverChanged(a, ds, g) ==> g in r.members && r.members[g] == a.members[g] && (g in r.managed <==> g in a.managed))
            && (!NeverChanged(a, ds, g) ==> ds != [] && (g in r.members <==> g in ds[|ds| - 1]))
            && (!NeverChanged(a, ds, g) && g in r.members ==> r.members[g] == PERMANENT)
    decreases |ds|
  {
    if ds != [] {
      var front := ds[..|ds| - 1];
      assert Logins(ds)[..|ds| - 1] == Logins(front);
      MembershipAfterLogins(a, front, g);
      EverDesiredSnoc(ds, g);
      AlwaysDesiredSnoc(ds, g);
    } else {
      assert Run(a, Logins(ds)) == a;
    }
  }

  /**
   A membership that an admin made by hand, whatever OIDC manages at that time, is left as it was
   exactly if its group is never desired, or managed and always desired, or if it is permanent
   and the last login desires it.
   */
  lemma HandMadeSurvivesIff(a: Account, ds: seq<set<string>>, g: string)
    requires g in a.members && ds != []
    ensures var r := Run(a, Logins(ds));
            (g in r.members && r.members[g] == a.members[g]) <==>
            (if g in a.managed then AlwaysDesired(ds, g) else !EverDesired(ds, g))
            || (g in ds[|ds| - 1] && a.members[g] == PERMANENT)
  {
    MembershipAfterLogins(a, ds, g);
  }

  /** Two families that fail: a group some login takes up and a later one drops, and a managed one granted by hand. */
  lemma HandMadeIsRemoved(a: Account, g: string, until: Option<int>, desired: set<string>)
    requires g !in desired
    ensures g !in a.managed ==> g !in Run(a, [Grant(g, until)] + Logins([{g}, desired])).members
    ensures g in a.managed ==> g !in Run(a, [Grant(g, until)] + Logins([desired])).members
  {
    var b := Step(a, Grant(g, until));
    RunAfter(a, Grant(g, until), Logins([{g}, desired]));
    RunAfter(a, Grant(g, until), Logins([desired]));
    MembershipAfterLogins(b, [{g}, desired], g);
    MembershipAfterLogins(b, [desired], g);
    assert g in [{g}, desired][0] && g !in [desired][0];
  }

  lemma {:induction false} RunAfter(a: Account, e: Event, es: seq<Event>)
    ensures Run(a, [e] + es) == Run(Step(a, e), es)
    decreases |es|
  {
    if es == [] {
      assert [e] + es == [e] && [e][..0] == [];
    } else {
      RunAfter(a, e, es[..|es| - 1]);
      assert ([e] + es)[..|es|] == [e] + es[..|es| - 1];
    }
  }

  // ----- Is a claimed group granted? -----

  /** After a login, a claimed group is held unless it was already managed and had been lost. */
  lemma ClaimGrantsIff(a: Account, desired: set<string>, g: string)
    requires g in desired
    ensures g in Sync(a, desired).members <==> g !in a.managed || g in a.members
  {
  }

  /** So a managed group that an admin takes away does not come back while the claim keeps it. */
  lemma {:induction false} RevokedStaysAway(a: Account, g: string, ds: seq<set<string>>)
    requires g in a.managed && g !in a.members && forall i :: 0 <= i < |ds| ==> g in ds[i]
    ensures g !in Run(a, Logins(ds)).members && g in Run(a, Logins(ds)).managed
    decreases |ds|
  {
    if ds != [] {
      assert Logins(ds)[..|ds| - 1] == Logins(ds[..|ds| - 1]);
      RevokedStaysAway(a, g, ds[..|ds| - 1]);
    }
  }

  /**
   A managed group is kept by a login exactly if the claim still maps to it and its lookup succeeds:
   an error of the lookup takes it away like a deletion would.
   */
  lemma ManagedKeptIff(a: Account, desired: set<string>, claim: seq<string>, groupMap: map<string, seq<string>>,
                       groups: set<string>, unreadable: set<string>, g: string)
    requires forall t :: t in desired <==> Desires(claim, groupMap, groups - unreadable, t)
    requires g in a.managed && g in a.members && g in groups
    ensures g in Sync(a, desired).members <==> Maps(claim, groupMap, g) && g !in unreadable
  {
    assert g in desired <==> Desires(claim, groupMap, groups - unreadable, g);
  }

  predicate TakesAway(e: Event, managed: set<string>) {
    match e
    case FailedLogin(_, rem) => rem * managed != {}
    case Revoke(g) => g in managed
    case _ => false
  }

  /** While nobody takes managed groups away, managed groups are held, so every claimed group is granted. */
  lemma {:induction false} ManagedAreHeld(a: Account, es: seq<Event>)
    requires a.managed <= a.members.Keys
    requires forall i :: 0 <= i < |es| ==> !TakesAway(es[i], Run(a, es[..i]).managed)
    ensures Run(a, es).managed <= Run(a, es).members.Keys
    decreases |es|
  {
    if es != [] {
      var front := es[..|es| - 1];
      forall i | 0 <= i < |front| ensures !TakesAway(front[i], Run(a, front[..i]).managed) {
        assert front[..i] == es[..i];
      }
      ManagedAreHeld(a, front);
      assert !TakesAway(es[|es| - 1], Run(a, es[..|es| - 1]).managed);
    }
  }

  // ----- Retrying after an error -----

  /** A login with the same claim completes what an interrupted one began. */
  lemma RetryConverges(a: Account, desired: set<string>, b: Account, added: set<string>, removed: set<string>)
    requires Interrupted(a, desired, b, added, removed)
    ensures Sync(b, desired) == Sync(a, desired)
  {
  }

  /**
   A login with another claim `next` ends as if the interrupted one had not happened exactly if
   `next` carries the new grants it made and none of the memberships it took away.
   */
  lemma RecoversIff(a: Account, desired: set<string>, b: Account, added: set<string>, removed: set<string>, next: set<string>)
    requires Interrupted(a, desired, b, added, removed)
    ensures Sync(b, next) == Sync(a, next) <==>
            && (forall g :: g in added ==> g in next || (g in a.members && a.members[g] == PERMANENT))
            && (forall g :: g in removed ==> g !in next || g !in a.members)
  {
    var x, y := Sync(b, next), Sync(a, next);
    forall g | g in added && !(g in next || (g in a.members && a.members[g] == PERMANENT)) ensures View(x, g) != View(y, g) {}
    forall g | g in removed && g in next && g in a.members ensures View(x, g) != View(y, g) {}
    if (forall g :: g in added ==> g in next || (g in a.members && a.members[g] == PERMANENT))
       && (forall g :: g in removed ==> g !in next || g !in a.members) {
      assert x.members.Keys == y.members.Keys;
      assert x.members == y.members;
    }
  }
}
