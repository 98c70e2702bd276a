/**
 The life of a second factor (internal/auth/totp.go): `BeginEnrolment` looks whether a confirmed
 factor exists and then stores a fresh secret; `Confirm` checks a code against the secret it
 loaded and then enables whatever secret is stored.  Each is a read followed by a write, and any
 number of calls, and of `Disable`, may interleave.
 */
module Enrolment {

  /** Secrets are random; here they are numbered in the order in which they are stored. */
  type Secret = nat

  datatype Row = Absent | Row(secret: Secret, enabled: bool)

  /**
   `minted`: how many secrets have been stored.  `begins`: calls of `BeginEnrolment` that found no
   confirmed factor and have not stored yet.  `confirms`: calls of `Confirm` that have checked a
   code, with the secret they checked it against.
   */
  datatype State = State(row: Row, minted: nat, begins: set<nat>, confirms: map<nat, Secret>)

  datatype Event =
    | BeginCheck(id: nat) | BeginStore(id: nat)
    | ConfirmCheck(id: nat) | ConfirmStore(id: nat)
    | Disable

  predicate Confirmed(r: Row) { r.Row? && r.enabled }

  predicate Pending(r: Row) { r.Row? && !r.enabled }

  function Step(s: State, e: Event): State {
    match e
    case BeginCheck(id) => if Confirmed(s.row) then s else s.(begins := s.begins + {id})
    case BeginStore(id) =>  // INSERT ... ON CONFLICT DO UPDATE SET enabled = 0
      if id !in s.begins then s
      else s.(row := Row(s.minted, false), minted := s.minted + 1, begins := s.begins - {id})
    case ConfirmCheck(id) => if Pending(s.row) then s.(confirms := s.confirms[id := s.row.secret]) else s
    case ConfirmStore(id) =>  // UPDATE ... WHERE enabled = 0
      if id !in s.confirms then s
      else s.(row := if Pending(s.row) then s.row.(enabled := true) else s.row, confirms := s.confirms - {id})
    case Disable => s.(row := Absent)
  }

  function Run(s: State, es: seq<Event>): State
    decreases |es|
  {
    if es == [] then s else Run(Step(s, es[0]), es[1..])
  }

  const START := State(Absent, 0, {}, map[])

  ghost predicate Reachable(s: State) { exists es: seq<Event> :: s == Run(START, es) }

  lemma RunTwo(s: State, a: Event, b: Event)
    ensures Run(s, [a, b]) == Step(Step(s, a), b)
  {
    assert [a, b][1..] == [b] && [b][1..] == [];
    assert Run(Step(s, a), [b]) == Step(Step(s, a), b);
  }

  lemma {:induction false} RunConcat(s: State, a: seq<Event>, b: seq<Event>)
    ensures Run(s, a + b) == Run(Run(s, a), b)
    decreases |a|
  {
    if a == [] {
      assert a + b == b;
    } else {
      assert (a + b)[1..] == a[1..] + b;
      RunConcat(Step(s, a[0]), a[1..], b);
    }
  }

  // ----- Does a confirmed factor stay? -----

  /** Nothing but `Disable` touches the row. */
  ghost predicate Stays(s: State) {
    forall es :: Disable !in es ==> Run(s, es).row == s.row
  }

  lemma {:induction false} StaysFrom(s: State, es: seq<Event>)
    requires Confirmed(s.row) && s.begins == {} && Disable !in es
    ensures Run(s, es).row == s.row
    decreases |es|
  {
    if es != [] {
      assert es[0] in es && forall e :: e in es[1..] ==> e in es;
      StaysFrom(Step(s, es[0]), es[1..]);
    }
  }

  /** A confirmed factor stays as it is exactly if no `BeginEnrolment` is between its check and its write. */
  lemma ConfirmedStaysIff(s: State)
    requires Confirmed(s.row)
    ensures Stays(s) <==> s.begins == {}
  {
    if s.begins == {} {
      forall es | Disable !in es ensures Run(s, es).row == s.row { StaysFrom(s, es); }
    } else {
      var id :| id in s.begins;
      var es := [BeginStore(id)];
      assert es[1..] == [];
      assert Pending(Run(s, es).row);
    }
  }

  /** Such a call replaces the factor by an unconfirmed one, and can be under way: a second enrolment begins while the first is being confirmed. */
  lemma DisablingRaceIsReachable()
    ensures exists s :: Reachable(s) && Confirmed(s.row) && s.begins != {}
  {
    var a := Step(Step(START, BeginCheck(0)), BeginStore(0));
    var b := Step(Step(a, ConfirmCheck(0)), BeginCheck(1));
    var c := Step(b, ConfirmStore(0));
    var first, second := [BeginCheck(0), BeginStore(0)], [ConfirmCheck(0), BeginCheck(1)];
    RunTwo(START, BeginCheck(0), BeginStore(0));
    RunTwo(a, ConfirmCheck(0), BeginCheck(1));
    RunConcat(START, first, second);
    RunConcat(START, first + second, [ConfirmStore(0)]);
    assert [ConfirmStore(0)][1..] == [];
    assert c == Run(START, first + second + [ConfirmStore(0)]);
    assert Reachable(c) && 1 in c.begins;
  }

  // ----- Is the enabled secret the one whose code was checked? -----

  /** Since `s`: no secret was stored and the row holds the same one or is gone, or it holds a later one. */
  predicate Since(s: State, t: State) {
    && s.minted <= t.minted
    && (t.row.Row? ==> t.row.secret < t.minted)
    && (t.row.Row? && t.minted == s.minted ==> s.row.Row? && t.row.secret == s.row.secret)
    && (t.row.Row? && t.minted > s.minted ==> t.row.secret >= s.minted)
  }

  lemma {:induction false} SinceRun(s: State, t: State, es: seq<Event>)
    requires Since(s, t)
    ensures Since(s, Run(t, es))
    decreases |es|
  {
    if es != [] { SinceRun(s, Step(t, es[0]), es[1..]); }
  }

  lemma ReachableInv(s: State)
    requires Reachable(s)
    ensures s.row.Row? ==> s.row.secret < s.minted
  {
    var es :| s == Run(START, es);
    SinceRun(START, START, es);
  }

  lemma {:induction false} CheckedSecretKept(s: State, es: seq<Event>, id: nat)
    requires id in s.confirms && ConfirmStore(id) !in es && ConfirmCheck(id) !in es
    ensures id in Run(s, es).confirms && Run(s, es).confirms[id] == s.confirms[id]
    decreases |es|
  {
    if es != [] {
      assert es[0] in es && forall e :: e in es[1..] ==> e in es;
      CheckedSecretKept(Step(s, es[0]), es[1..], id);
    }
  }

  /**
   A `Confirm` that checks a code and, with any events in between, then enables the factor enables
   the secret it checked exactly if no enrolment stored a secret meanwhile.
   */
  lemma EnablesCheckedIff(s: State, id: nat, between: seq<Event>)
    requires Reachable(s) && Pending(s.row)
    requires ConfirmStore(id) !in between && ConfirmCheck(id) !in between
    requires Pending(Run(Step(s, ConfirmCheck(id)), between).row)
    ensures var now := Run(Step(s, ConfirmCheck(id)), between);
            var end := Step(now, ConfirmStore(id));
            && Confirmed(end.row)
            && (end.row.secret == s.row.secret <==> now.minted == s.minted)
  {
    var checked := Step(s, ConfirmCheck(id));
    ReachableInv(s);
    SinceRun(s, checked, between);
    CheckedSecretKept(checked, between, id);
  }

  /** From every state in which both calls are under way, a secret nobody checked gets enabled. */
  lemma UncheckedIsEnabled(s: State, id: nat, other: nat)
    requires Reachable(s) && Pending(s.row) && other in s.begins
    ensures var end := Run(Step(s, ConfirmCheck(id)), [BeginStore(other), ConfirmStore(id)]);
            Confirmed(end.row) && end.row.secret != s.row.secret
  {
    ReachableInv(s);
    RunTwo(Step(s, ConfirmCheck(id)), BeginStore(other), ConfirmStore(id));
  }

  // ----- The code -----

  /** The user_totp row when nothing else runs. */
  class Factor {
    var row: Row
    ghost var minted: nat

    constructor ()
      ensures Value() == START
    {
      row, minted := Absent, 0;
    }

    ghost function Value(): State reads this { State(row, minted, {}, map[]) }

    /** `BeginEnrolment`: its two steps in a row; it fails on a confirmed factor. */
    method BeginEnrolment(ghost id: nat, secret: Secret) returns (ok: bool)
      requires secret == minted
      modifies this
      ensures Value() == Run(old(Value()), [BeginCheck(id), BeginStore(id)])
      ensures ok == !Confirmed(old(row)) && row == if ok then Row(secret, false) else old(row)
    {
      RunTwo(Value(), BeginCheck(id), BeginStore(id));
      if Confirmed(row) { return false; }
      row := Row(secret, false);
      minted := minted + 1;
      return true;
    }

    /** `Disable`, which fails without a factor. */
    method Disable() returns (ok: bool)
      modifies this
      ensures Value() == Step(old(Value()), Event.Disable)
      ensures ok == old(row).Row? && row == Absent
    {
      ok := row.Row?;
      row := Absent;
    }

    /** `Confirm` with a valid code: its two steps in a row. */
    method Confirm(ghost id: nat) returns (ok: bool)
      modifies this
      ensures Value() == Run(old(Value()), [ConfirmCheck(id), ConfirmStore(id)])
      ensures ok == Pending(old(row)) && row == if ok then Row(old(row).secret, true) else old(row)
    {
      RunTwo(Value(), ConfirmCheck(id), ConfirmStore(id));
      if !Pending(row) { return false; }
      row := row.(enabled := true);
      return true;
    }
  }
}
