/**
 Recovery-code consumption (internal/auth/totp.go): `Verify` loads the stored digest list,
 looks the typed code up in that copy, and writes the shortened list back with an UPDATE
 guarded by the old list.  Any number of calls may interleave.

 A run is a sequence of the atomic database statements of those calls and of any number of
 concurrent `Confirm` calls, starting from a pending enrolment.
 */
module RecoveryCodes {

  predicate IsHex(s: string) {
    forall i :: 0 <= i < |s| ==> '0' <= s[i] <= '9' || 'a' <= s[i] <= 'f'
  }

  /** Lower-case hex digests: the only strings `hashRecoveryCode` produces. */
  type Digest = s: string | IsHex(s) witness ""

  // ----- The stored text -----

  function Quoted(codes: seq<Digest>): string {
    if codes == [] then "" else "\"" + codes[0] + "\"" + (if |codes| > 1 then "," else "") + Quoted(codes[1..])
  }

  /** `json.Marshal` of a list of digests; the UPDATE compares this text. */
  function Marshal(codes: seq<Digest>): string {
    "[" + Quoted(codes) + "]"
  }

  /** Equal text means equal list, so the guard on text is a guard on lists. */
  lemma MarshalInjective(a: seq<Digest>, b: seq<Digest>)
    requires Marshal(a) == Marshal(b)
    ensures a == b
  {
    assert Marshal(a)[1..|Marshal(a)| - 1] == Quoted(a);
    assert Marshal(b)[1..|Marshal(b)| - 1] == Quoted(b);
    QuotedInjective(a, b);
  }

  lemma {:induction false} QuotedInjective(a: seq<Digest>, b: seq<Digest>)
    requires Quoted(a) == Quoted(b)
    ensures a == b
  {
    if a == [] || b == [] {
      assert |a| > 0 ==> |Quoted(a)| > 0;
      assert |b| > 0 ==> |Quoted(b)| > 0;
    } else {
      FirstDigest(a);
      FirstDigest(b);
      var qa, qb := Quoted(a), Quoted(b);
      assert |a[0]| == |b[0]|;
      assert a[0] == qa[1..1 + |a[0]|] == qb[1..1 + |b[0]|] == b[0];
      RestOfQuoted(a);
      RestOfQuoted(b);
      assert Quoted(a[1..]) == Quoted(b[1..]);
      QuotedInjective(a[1..], b[1..]);
      assert a == [a[0]] + a[1..] && b == [b[0]] + b[1..];
    }
  }

  lemma FirstDigest(a: seq<Digest>)
    requires a != []
    ensures var q := Quoted(a); |q| >= |a[0]| + 2 && q[1 + |a[0]|] == '\"' && q[1..1 + |a[0]|] == a[0]
  {
  }

  lemma RestOfQuoted(a: seq<Digest>)
    requires a != []
    ensures var q, k := Quoted(a), |a[0]| + 2;
            && |q| >= k
            && (|a| == 1 ==> |q| == k && Quoted(a[1..]) == [])
            && (|a| > 1 ==> |q| > k && Quoted(a[1..]) == q[k + 1..])
  {
  }

  // ----- One call -----

  function IndexOf(codes: seq<Digest>, h: Digest): int {
    if codes == [] then -1
    else if codes[0] == h then 0
    else var r := IndexOf(codes[1..], h); if r < 0 then -1 else r + 1
  }

  /** The comparison loop: the first matching position in the loaded copy. */
  method FindDigest(codes: seq<Digest>, h: Digest) returns (idx: int)
    ensures idx == IndexOf(codes, h)
  {
    idx := -1;
    for i := 0 to |codes|
      invariant idx == -1 && h !in codes[..i]
      invariant IndexOf(codes, h) == -1 || IndexOf(codes, h) >= i
    {
      IndexOfSpec(codes, h);
      if codes[i] == h {
        assert IndexOf(codes, h) == i;
        return i;
      }
    }
    IndexOfSpec(codes, h);
  }

  lemma {:induction false} IndexOfSpec(codes: seq<Digest>, h: Digest)
    ensures var i := IndexOf(codes, h);
            if h in codes then 0 <= i < |codes| && codes[i] == h && h !in codes[..i] else i == -1
  {
    if codes != [] {
      IndexOfSpec(codes[1..], h);
      assert codes == [codes[0]] + codes[1..];
      var r := IndexOf(codes[1..], h);
      if codes[0] != h && r >= 0 {
        assert codes[..r + 1] == [codes[0]] + codes[1..][..r];
      }
    }
  }

  function Without(codes: seq<Digest>, h: Digest): (r: seq<Digest>)
    requires h in codes
    ensures |r| == |codes| - 1
  {
    IndexOfSpec(codes, h);
    var i := IndexOf(codes, h);
    codes[..i] + codes[i + 1..]
  }

  lemma WithoutMultiset(codes: seq<Digest>, h: Digest)
    requires h in codes
    ensures multiset(Without(codes, h)) + multiset{h} == multiset(codes)
  {
    IndexOfSpec(codes, h);
    var i := IndexOf(codes, h);
    assert codes == codes[..i] + [h] + codes[i + 1..];
  }

  // ----- Interleavings -----

  /** A `Verify` call: it has loaded a copy that contains its digest, or it has ended. */
  datatype Call = Loaded(copy: seq<Digest>, h: Digest) | Accepted(h: Digest) | Rejected | TotpOk

  /**
   `row`: the stored list. `enabled`: the factor is confirmed. `log`: digests accepted so far, in
   order. `handedOut`: the code lists that successful `Confirm` calls returned.
   */
  datatype State = State(row: seq<Digest>, enabled: bool, calls: map<nat, Call>,
                         log: seq<Digest>, handedOut: seq<seq<Digest>>)

  /** One database statement of one call. */
  datatype Event =
    | Confirm(codes: seq<Digest>)
    | Load(id: nat, h: Digest, totpValid: bool)
    | Update(id: nat)

  function Step(s: State, e: Event): State {
    match e
    case Confirm(codes) =>  // UPDATE ... WHERE enabled = 0
      if s.enabled then s
      else s.(row := codes, enabled := true, handedOut := s.handedOut + [codes])
    case Load(id, h, totpValid) =>
      if id in s.calls then s
      else if !s.enabled then s.(calls := s.calls[id := Rejected])
      else if totpValid then s.(calls := s.calls[id := TotpOk])
      else if h !in s.row then s.(calls := s.calls[id := Rejected])
      else s.(calls := s.calls[id := Loaded(s.row, h)])
    case Update(id) =>
      if id in s.calls && s.calls[id].Loaded? && s.calls[id].h in s.calls[id].copy then
        var c := s.calls[id];
        if Marshal(s.row) == Marshal(c.copy) then
          s.(row := Without(c.copy, c.h), calls := s.calls[id := Accepted(c.h)], log := s.log + [c.h])
        else s.(calls := s.calls[id := Rejected])
      else s
  }

  function Run(s: State, es: seq<Event>): State
    decreases |es|
  {
    if es == [] then s else Run(Step(s, es[0]), es[1..])
  }

  const PENDING := State([], false, map[], [], [])

  // ----- The sequential meaning -----

  /** The issued list after the logins in `log`, one at a time with nothing interleaved. */
  predicate Sequential(issued: seq<Digest>, log: seq<Digest>, row: seq<Digest>)
    decreases |log|
  {
    if log == [] then row == issued
    else log[0] in issued && Sequential(Without(issued, log[0]), log[1..], row)
  }

  lemma {:induction false} SequentialSnoc(issued: seq<Digest>, log: seq<Digest>, row: seq<Digest>, h: Digest)
    requires Sequential(issued, log, row) && h in row
    ensures Sequential(issued, log + [h], Without(row, h))
    decreases |log|
  {
    if log == [] {
      assert ([] + [h])[1..] == [];
    } else {
      SequentialSnoc(Without(issued, log[0]), log[1..], row, h);
      assert (log + [h])[1..] == log[1..] + [h];
    }
  }

  /** Codes are conserved: what is left and what was used make up what was issued. */
  lemma {:induction false} SequentialConserves(issued: seq<Digest>, log: seq<Digest>, row: seq<Digest>)
    requires Sequential(issued, log, row)
    ensures multiset(row) + multiset(log) == multiset(issued)
    ensures |row| + |log| == |issued|
    decreases |log|
  {
    if log == [] {
      assert multiset(log) == multiset{};
    } else {
      WithoutMultiset(issued, log[0]);
      SequentialConserves(Without(issued, log[0]), log[1..], row);
      assert log == [log[0]] + log[1..];
    }
  }

  function AcceptedCalls(s: State): set<nat> {
    set id | id in s.calls && s.calls[id].Accepted?
  }

  /** The list the one successful `Confirm` handed out, if any. */
  function Issued(s: State): seq<Digest> {
    if s.handedOut == [] then [] else s.handedOut[0]
  }

  ghost predicate Inv(s: State) {
    && |s.handedOut| == (if s.enabled then 1 else 0)
    && Sequential(Issued(s), s.log, s.row)
    && (forall id :: id in s.calls && s.calls[id].Loaded? ==> s.enabled && s.calls[id].h in s.calls[id].copy)
    && |AcceptedCalls(s)| == |s.log|
    && (!s.enabled ==> s.log == [])
  }

  lemma StepInv(s: State, e: Event)
    requires Inv(s)
    ensures Inv(Step(s, e))
  {
    match e
    case Confirm(_) => assert AcceptedCalls(Step(s, e)) == AcceptedCalls(s);
    case Load(_, _, _) => assert AcceptedCalls(Step(s, e)) == AcceptedCalls(s);
    case Update(id) => UpdateInv(s, id);
  }

  lemma UpdateInv(s: State, id: nat)
    requires Inv(s)
    ensures Inv(Step(s, Update(id)))
  {
    var t := Step(s, Update(id));
    if t.log != s.log {
      var c := s.calls[id];
      MarshalInjective(s.row, c.copy);
      SequentialSnoc(Issued(s), s.log, s.row, c.h);
      assert AcceptedCalls(t) == AcceptedCalls(s) + {id};
    } else {
      assert AcceptedCalls(t) == AcceptedCalls(s);
    }
  }

  lemma {:induction false} RunInv(s: State, es: seq<Event>)
    requires Inv(s)
    ensures Inv(Run(s, es))
    ensures s.handedOut <= Run(s, es).handedOut
    decreases |es|
  {
    if es != [] {
      StepInv(s, es[0]);
      RunInv(Step(s, es[0]), es[1..]);
    }
  }

  lemma PendingInv()
    ensures Inv(PENDING)
  {
    assert AcceptedCalls(PENDING) == {};
  }

  /** The codes of the first confirmation in `es`, if there is one. */
  function FirstConfirmed(es: seq<Event>): seq<Digest> {
    if es == [] then [] else if es[0].Confirm? then es[0].codes else FirstConfirmed(es[1..])
  }

  predicate HasConfirm(es: seq<Event>) { exists i :: 0 <= i < |es| && es[i].Confirm? }

  /** The first confirmation, and no other, enables the factor and issues its codes. */
  lemma {:induction false} FirstConfirmIssues(s: State, es: seq<Event>)
    requires !s.enabled && s.handedOut == []
    ensures var t := Run(s, es);
            && (t.enabled <==> HasConfirm(es))
            && (t.enabled ==> t.handedOut == [FirstConfirmed(es)])
            && (!t.enabled ==> t.handedOut == [] && FirstConfirmed(es) == [])
    decreases |es|
  {
    if es != [] {
      var t := Step(s, es[0]);
      if es[0].Confirm? {
        IssuedOnce(t, es[1..]);
      } else {
        FirstConfirmIssues(t, es[1..]);
        if HasConfirm(es) {
          var i :| 0 <= i < |es| && es[i].Confirm?;
          assert es[1..][i - 1].Confirm?;
        }
        if HasConfirm(es[1..]) {
          var i :| 0 <= i < |es[1..]| && es[1..][i].Confirm?;
          assert es[i + 1].Confirm?;
        }
      }
    }
  }

  lemma {:induction false} IssuedOnce(s: State, es: seq<Event>)
    requires s.enabled
    ensures Run(s, es).enabled && Run(s, es).handedOut == s.handedOut
    decreases |es|
  {
    if es != [] { IssuedOnce(Step(s, es[0]), es[1..]); }
  }

  /**
   Every interleaving issues the codes of its first confirmation and no others, and is equivalent
   to the accepted logins happening one at a time: the stored list is what that sequential
   history leaves, remaining codes plus successful logins is the issued count, and no digest is
   accepted more often than it was issued.
   */
  lemma EveryInterleavingConserves(es: seq<Event>)
    ensures var s, issued := Run(PENDING, es), FirstConfirmed(es);
            && (s.enabled <==> HasConfirm(es))
            && s.handedOut == (if s.enabled then [issued] else [])
            && Sequential(issued, s.log, s.row)
            && |s.row| + |AcceptedCalls(s)| == |issued|
            && multiset(s.row) + multiset(s.log) == multiset(issued)
            && forall h :: multiset(s.log)[h] <= multiset(issued)[h]
  {
    PendingInv();
    RunInv(PENDING, es);
    FirstConfirmIssues(PENDING, es);
    var s, issued := Run(PENDING, es), FirstConfirmed(es);
    assert Issued(s) == issued;
    SequentialConserves(issued, s.log, s.row);
    forall h ensures multiset(s.log)[h] <= multiset(issued)[h] {
      assert (multiset(s.row) + multiset(s.log))[h] == multiset(issued)[h];
    }
  }

  /** Once enabled, the list only ever shrinks, and stays the same exactly while nobody is accepted. */
  lemma {:induction false} RunShrinks(s: State, es: seq<Event>)
    requires Inv(s) && s.enabled
    ensures var t := Run(s, es);
            && s.log <= t.log
            && |t.row| + |t.log| == |s.row| + |s.log|
            && (t.log == s.log ==> t.row == s.row)
    decreases |es|
  {
    if es != [] {
      StepInv(s, es[0]);
      StepShrinks(s, es[0]);
      RunShrinks(Step(s, es[0]), es[1..]);
    }
  }

  lemma StepShrinks(s: State, e: Event)
    requires s.enabled
    ensures var t := Step(s, e);
            && t.enabled && s.log <= t.log
            && |t.row| + |t.log| == |s.row| + |s.log|
            && (t.log == s.log ==> t.row == s.row)
  {
    if e.Update? && Step(s, e).log != s.log {
      MarshalInjective(s.row, s.calls[e.id].copy);
    }
  }

  /** A waiting call keeps its copy until its own update. */
  lemma {:induction false} WaitingCallUntouched(s: State, es: seq<Event>, id: nat)
    requires id in s.calls && s.calls[id].Loaded?
    requires forall i :: 0 <= i < |es| ==> es[i] != Update(id)
    ensures var t := Run(s, es); id in t.calls && t.calls[id] == s.calls[id]
    decreases |es|
  {
    if es != [] {
      assert es[0] != Update(id);
      WaitingCallUntouched(Step(s, es[0]), es[1..], id);
    }
  }

  /**
   The compare-and-swap has no ABA: a call that has just loaded the current list, with any
   events in between, is accepted at its update if and only if no other call was accepted
   meanwhile.  So the first updater among those that read the current list always succeeds,
   and every other one of them fails.
   */
  lemma UpdateSucceedsIff(before: seq<Event>, id: nat, h: Digest, between: seq<Event>)
    requires var s := Run(PENDING, before);
             id !in s.calls && s.enabled && h in s.row
    requires forall i :: 0 <= i < |between| ==> between[i] != Update(id)
    ensures var loaded := Step(Run(PENDING, before), Load(id, h, false));
            var now := Run(loaded, between);
            var end := Step(now, Update(id));
            && id in end.calls
            && (end.calls[id] == Accepted(h) <==> now.log == loaded.log)
            && (end.calls[id] == Accepted(h) || (end.calls[id] == Rejected && end.row == now.row))
  {
    PendingInv();
    RunInv(PENDING, before);
    var s := Run(PENDING, before);
    var loaded := Step(s, Load(id, h, false));
    StepInv(s, Load(id, h, false));
    var now := Run(loaded, between);
    WaitingCallUntouched(loaded, between, id);
    RunShrinks(loaded, between);
    assert loaded.row == s.row && loaded.calls[id] == Loaded(s.row, h);
    if Marshal(now.row) == Marshal(s.row) { MarshalInjective(now.row, s.row); }
  }

  // ----- The code -----

  /** What the two steps of one call do when nothing comes between them. */
  lemma VerifyAlone(s: State, id: nat, h: Digest, totpValid: bool)
    requires id !in s.calls
    ensures var t := Step(Step(s, Load(id, h, totpValid)), Update(id));
            && t.enabled == s.enabled && id in t.calls
            && (!s.enabled ==> t.row == s.row && t.calls[id] == Rejected)
            && (s.enabled && totpValid ==> t.row == s.row && t.calls[id] == TotpOk)
            && (s.enabled && !totpValid && h !in s.row ==> t.row == s.row && t.calls[id] == Rejected)
            && (s.enabled && !totpValid && h in s.row ==> t.row == Without(s.row, h) && t.calls[id] == Accepted(h))
  {
    var m := Step(s, Load(id, h, totpValid));
    assert id in m.calls && m.row == s.row;
  }

  /** The user_totp row of one user. */
  class TotpRow {
    var codes: seq<Digest>
    var enabled: bool

    constructor ()
      ensures codes == PENDING.row && enabled == PENDING.enabled
    {
      codes, enabled := [], false;
    }

    /** `s` is a state of the protocol that stores this row. */
    ghost predicate Stores(s: State) reads this { s.row == codes && s.enabled == enabled }

    /** `Verify` with nothing in between is its load step followed by its update step. */
    method Verify(h: Digest, totpValid: bool, ghost s: State, ghost id: nat) returns (r: Call)
      requires Stores(s) && id !in s.calls
      modifies this
      ensures var t := Step(Step(s, Load(id, h, totpValid)), Update(id)); Stores(t) && t.calls[id] == r
      ensures r == Accepted(h) <==> old(enabled) && !totpValid && h in old(codes)
      ensures r == TotpOk <==> old(enabled) && totpValid
      ensures enabled == old(enabled)
      ensures if r == Accepted(h) then multiset(codes) + multiset{h} == multiset(old(codes)) else codes == old(codes)
    {
      VerifyAlone(s, id, h, totpValid);
      if !enabled { return Rejected; }
      if totpValid { return TotpOk; }
      var idx := FindDigest(codes, h);
      IndexOfSpec(codes, h);
      if idx < 0 { return Rejected; }
      codes := codes[..idx] + codes[idx + 1..];
      assert codes == Without(s.row, h);
      WithoutMultiset(s.row, h);
      return Accepted(h);
    }

    /** `Confirm` once the TOTP code has been checked. */
    method Confirm(hashes: seq<Digest>, ghost s: State) returns (ok: bool)
      requires Stores(s)
      modifies this
      ensures Stores(Step(s, Event.Confirm(hashes))) && ok == !old(enabled)
      ensures if ok then enabled && codes == hashes else enabled == old(enabled) && codes == old(codes)
    {
      if enabled { return false; }
      codes, enabled := hashes, true;
      return true;
    }
  }
}
