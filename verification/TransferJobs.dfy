/**
 One file-transfer job (internal/filetransfer/manager.go, internal/httpapi/file_transfers_jobs.go).
 The stored row and the in-memory handle are separate: the worker goroutine goes through the
 handle (`SetState`), while `Cancel` writes the row directly.  The steps below are the critical
 sections and database statements of one worker, any number of `Cancel` calls, history
 trimming, deletion, and a restart that reaps orphans; a run is any interleaving of them.
 */
module TransferJobs {

  datatype Status = Receiving | Running | Completed | Failed | Cancelled

  /** `isTerminalState`. */
  predicate Terminal(st: Status) { st.Completed? || st.Failed? || st.Cancelled? }

  datatype Row = Missing | Present(status: Status)

  predicate RowTerminal(r: Row) { r.Present? ==> Terminal(r.status) }

  /**
   Where the worker is: between calls, committed to `SetState(st)` but not yet at the lock,
   past the lock (handle updated, row not yet), row written, or gone with its process.
   */
  datatype Worker = Idle | Decided(st: Status) | Locked(st: Status) | Written(st: Status) | Dead

  /** Where a `Cancel` call is: row read and not terminal, cancel function called, row written. */
  datatype CancelPc = HasRead | HasSignalled | HasWritten

  datatype State = State(
    row: Row, handle: Status, worker: Worker,
    ctxDone: bool, registered: bool, live: bool,
    cancels: map<nat, CancelPc>,
    writeLost: bool)                  // some SetState or restart could not store a final state

  datatype Event =
    | Register                        // Create: m.live[id] = handle
    | StartRunning                    // the upload handler's SetState(running)
    | Fail                            // failTransferJob, at any point of the transfer
    | Finish                          // last select on ctx.Done(): cancelled, else completed
    | Lock | WriteRow | Release       // the three parts of SetState
    | WriteFails                      // UpdateState reports an error, which SetState discards
    | CancelRead(id: nat) | CancelSignal(id: nat) | CancelWrite(id: nat) | CancelRelease(id: nat)
    | CancelFails(id: nat)            // UpdateState reports an error, and Cancel returns it
    | TrimRow                         // TrimUserHistory removes this row
    | DropLive | DeleteRow            // the two parts of Remove
    | Restart(reaped: bool)           // process exit, then MarkOrphansFailed at start-up, which may fail

  function Created(init: Status): State {
    State(Present(init), init, Idle, false, false, false, map[], false)
  }

  function SetRow(r: Row, st: Status): Row {
    if r.Missing? then r else Present(st)  // UPDATE ... WHERE id = ?
  }

  /** An event that is not enabled leaves the state alone. */
  function Step(s: State, e: Event): State {
    match e
    case Register =>
      if s.registered || s.worker.Dead? then s else s.(registered := true, live := true)
    case StartRunning =>
      if s.worker.Idle? && s.registered then s.(worker := Decided(Running)) else s
    case Fail =>
      if s.worker.Idle? && s.registered then s.(worker := Decided(Failed)) else s
    case Finish =>
      if s.worker.Idle? && s.registered
      then s.(worker := Decided(if s.ctxDone then Cancelled else Completed)) else s
    case Lock =>
      if !s.worker.Decided? then s
      else if Terminal(s.handle) then s.(worker := Idle)
      else s.(handle := s.worker.st, worker := Locked(s.worker.st))
    case WriteRow =>
      if !s.worker.Locked? then s
      else s.(row := SetRow(s.row, s.worker.st), worker := Written(s.worker.st))
    case WriteFails =>
      if !s.worker.Locked? then s
      else s.(worker := Written(s.worker.st), writeLost := true)
    case Release =>
      if !s.worker.Written? then s
      else s.(live := s.live && !Terminal(s.worker.st), worker := Idle)
    case CancelRead(id) =>
      if id in s.cancels || s.row.Missing? || Terminal(s.row.status) then s
      else s.(cancels := s.cancels[id := HasRead])
    case CancelSignal(id) =>
      if id in s.cancels && s.cancels[id].HasRead?
      then s.(ctxDone := s.ctxDone || s.live, cancels := s.cancels[id := HasSignalled]) else s
    case CancelWrite(id) =>
      if id in s.cancels && s.cancels[id].HasSignalled?
      then s.(row := SetRow(s.row, Cancelled), cancels := s.cancels[id := HasWritten]) else s
    case CancelRelease(id) =>
      if id in s.cancels && s.cancels[id].HasWritten?
      then s.(live := false, cancels := s.cancels - {id}) else s
    case CancelFails(id) =>
      if id in s.cancels && s.cancels[id].HasSignalled? then s.(cancels := s.cancels - {id}) else s
    case TrimRow => if s.row.Present? && Terminal(s.row.status) then s.(row := Missing) else s
    case DropLive => s.(live := false)
    case DeleteRow => s.(row := Missing)
    case Restart(reaped) =>
      var orphan := s.row.Present? && !Terminal(s.row.status);
      s.(worker := Dead, live := false, cancels := map[],
         row := if orphan && reaped then Present(Failed) else s.row,
         writeLost := s.writeLost || (orphan && !reaped))
  }

  function Run(s: State, es: seq<Event>): State
    decreases |es|
  {
    if es == [] then s else Run(Step(s, es[0]), es[1..])
  }

  lemma {:induction false} RunConcat(s: State, a: seq<Event>, b: seq<Event>)
    ensures Run(s, a + b) == Run(Run(s, a), b)
    decreases |a|
  {
    if a == [] {
      assert a + b == b;
    } else {
      assert (a + b)[1..] == a[1..] + b;
      RunConcat(Step(s, a[0]), a[1..], b);
    }
  }

  ghost predicate Reachable(s: State) {
    exists init: Status, es: seq<Event> :: !Terminal(init) && s == Run(Created(init), es)
  }

  // ----- The handle -----

  /** The guard in `SetState` makes terminal handle states final, from any state at all. */
  lemma {:induction false} HandleIsSticky(s: State, es: seq<Event>)
    requires Terminal(s.handle)
    ensures Run(s, es).handle == s.handle
    decreases |es|
  {
    if es != [] { HandleIsSticky(Step(s, es[0]), es[1..]); }
  }

  // ----- The row -----

  /** A row that was removed is never stored again. */
  lemma {:induction false} RemovedStaysRemoved(s: State, es: seq<Event>)
    requires s.row.Missing?
    ensures Run(s, es).row.Missing?
    decreases |es|
  {
    if es != [] { RemovedStaysRemoved(Step(s, es[0]), es[1..]); }
  }

  /** The worker is done with `st`: it is in the handle, and nothing is between handle and row. */
  predicate Done(s: State, st: Status) { s.handle == st && !s.worker.Locked? }

  /**
   A worker past the lock has its state in the handle; one that is done has it in the row, unless
   a write was lost; and a row is only ever completed or failed by its worker or by a restart.
   */
  predicate Inv(s: State) {
    && (s.worker.Locked? || s.worker.Written? ==> s.handle == s.worker.st)
    && (s.worker.Dead? && !s.writeLost ==> RowTerminal(s.row))
    && (!s.worker.Locked? && Terminal(s.handle) && !s.writeLost ==> RowTerminal(s.row))
    && (s.row == Present(Completed) ==> s.worker.Dead? || Done(s, Completed))
    && (s.row == Present(Failed) ==> s.worker.Dead? || Done(s, Failed))
  }

  lemma {:induction false} RunInv(s: State, es: seq<Event>)
    requires Inv(s)
    ensures Inv(Run(s, es))
    decreases |es|
  {
    if es != [] {
      StepInv(s, es[0]);
      RunInv(Step(s, es[0]), es[1..]);
    }
  }

  lemma StepInv(s: State, e: Event)
    requires Inv(s)
    ensures Inv(Step(s, e))
  {
  }

  lemma ReachableInv(s: State)
    requires Reachable(s)
    ensures Inv(s)
  {
    var init, es :| !Terminal(init) && s == Run(Created(init), es);
    RunInv(Created(init), es);
  }

  predicate InFlight(s: State) {
    exists id :: id in s.cancels && !s.cancels[id].HasWritten?
  }

  /** The terminal `SetState` has returned (or the process is gone) and no `Cancel` is in flight. */
  predicate Settled(s: State) {
    && (s.worker.Dead? || (Terminal(s.handle) && !s.worker.Locked?))
    && !InFlight(s)
  }

  lemma SettledStep(s: State, e: Event)
    requires Settled(s) && RowTerminal(s.row)
    ensures Settled(Step(s, e)) && RowTerminal(Step(s, e).row)
    ensures Step(s, e).row == s.row || Step(s, e).row == Missing
  {
    var t := Step(s, e);
    assert forall id :: id in t.cancels ==> id in s.cancels && t.cancels[id] == s.cancels[id];
  }

  lemma {:induction false} SettledForever(s: State, es: seq<Event>)
    requires Settled(s) && RowTerminal(s.row)
    ensures Run(s, es).row == s.row || Run(s, es).row == Missing
    decreases |es|
  {
    if es != [] {
      SettledStep(s, es[0]);
      SettledForever(Step(s, es[0]), es[1..]);
    }
  }

  /** No continuation changes the state of the row; it can only be removed. */
  ghost predicate RowFinal(s: State) {
    forall es :: Run(s, es).row == s.row || Run(s, es).row == Missing
  }

  /**
   Stability: once settled, and with no write lost, the row is terminal (if it still exists) and
   never changes state again.
   */
  lemma RowIsStable(s: State)
    requires Reachable(s) && Settled(s) && !s.writeLost
    ensures RowTerminal(s.row) && RowFinal(s)
  {
    ReachableInv(s);
    SettledIsFinalIff(s);
  }

  /** With lost writes: a settled row is final exactly if it is terminal or gone. */
  lemma SettledIsFinalIff(s: State)
    requires Settled(s)
    ensures RowFinal(s) <==> RowTerminal(s.row)
  {
    if RowTerminal(s.row) {
      forall es ensures Run(s, es).row == s.row || Run(s, es).row == Missing { SettledForever(s, es); }
    } else {
      RunOne(s, Restart(true));
      assert Run(s, [Restart(true)]).row == Present(Failed);
    }
  }

  /**
   A lost write leaves such a row behind: whatever terminal state the worker asked for, an active
   row stays active although the job is over.
   */
  lemma LostWriteStrands(s: State)
    requires s.worker.Decided? && Terminal(s.worker.st) && !Terminal(s.handle) && !InFlight(s)
    requires s.row.Present? && !Terminal(s.row.status)
    ensures var t := Run(s, [Lock, WriteFails]); Settled(t) && t.row == s.row && !RowFinal(t)
  {
    RunTwo(s, Lock, WriteFails);
    var t := Run(s, [Lock, WriteFails]);
    assert t.cancels == s.cancels;
    SettledIsFinalIff(t);
  }

  /** A restart settles every job, and makes its row final exactly if it reaps or there was nothing to reap. */
  lemma RestartSettles(s: State, reaped: bool)
    ensures var t := Step(s, Restart(reaped));
            && Settled(t) && (RowFinal(t) <==> reaped || RowTerminal(s.row))
            && t.row == (if reaped && !RowTerminal(s.row) then Present(Failed) else s.row)
            && !t.live && t.cancels == map[]
  {
    SettledIsFinalIff(Step(s, Restart(reaped)));
  }

  // ----- Cancelled rows are not final -----

  /** The worker can still write something other than "cancelled". */
  predicate MayOverwrite(s: State) {
    match s.worker
    case Dead => false
    case Locked(st) => st != Cancelled
    case Decided(st) => !Terminal(s.handle) && st != Cancelled
    case Idle => !Terminal(s.handle)
    case Written(_) => !Terminal(s.handle)
  }

  lemma CannotOverwriteStep(s: State, e: Event)
    requires Inv(s) && !MayOverwrite(s) && (s.row.Present? ==> s.row.status == Cancelled)
    ensures var t := Step(s, e); !MayOverwrite(t) && (t.row.Present? ==> t.row.status == Cancelled)
  {
  }

  lemma {:induction false} CannotOverwrite(s: State, es: seq<Event>)
    requires Inv(s) && !MayOverwrite(s) && (s.row.Present? ==> s.row.status == Cancelled)
    ensures var t := Run(s, es); t.row.Present? ==> t.row.status == Cancelled
    decreases |es|
  {
    if es != [] {
      StepInv(s, es[0]);
      CannotOverwriteStep(s, es[0]);
      CannotOverwrite(Step(s, es[0]), es[1..]);
    }
  }

  /** A continuation that overwrites the row. */
  function Overwriting(s: State): seq<Event> {
    match s.worker
    case Locked(_) => [WriteRow]
    case Decided(_) => [Lock, WriteRow]
    case Written(_) => [Release, Register, Fail, Lock, WriteRow]
    case _ => [Register, Fail, Lock, WriteRow]
  }

  /**
   A cancelled row stays cancelled in every continuation exactly when the worker can no longer
   write anything else: being cancelled is not final by itself.
   */
  lemma CancelledStaysIff(s: State)
    requires Reachable(s) && s.row == Present(Cancelled)
    ensures (forall es :: Run(s, es).row.Present? ==> Run(s, es).row.status == Cancelled) <==> !MayOverwrite(s)
  {
    if MayOverwrite(s) {
      OverwritingWorks(s);
    } else {
      ReachableInv(s);
      forall es ensures Run(s, es).row.Present? ==> Run(s, es).row.status == Cancelled {
        CannotOverwrite(s, es);
      }
    }
  }

  lemma OverwritingWorks(s: State)
    requires s.row == Present(Cancelled) && MayOverwrite(s)
    ensures Run(s, Overwriting(s)).row.Present? && Run(s, Overwriting(s)).row.status != Cancelled
  {
    match s.worker
    case Locked(_) =>
      RunOne(s, WriteRow);
    case Decided(_) =>
      RunTwo(s, Lock, WriteRow);
    case Written(_) =>
      var t := Step(s, Release);
      OverwriteFromIdle(t);
      assert Overwriting(s) == [Release] + [Register, Fail, Lock, WriteRow];
      assert Overwriting(s)[1..] == [Register, Fail, Lock, WriteRow];
    case Idle =>
      OverwriteFromIdle(s);
  }

  lemma RunOne(s: State, a: Event)
    ensures Run(s, [a]) == Step(s, a)
  {
    assert [a][1..] == [];
  }

  lemma RunTwo(s: State, a: Event, b: Event)
    ensures Run(s, [a, b]) == Step(Step(s, a), b)
  {
    assert [a, b][1..] == [b];
    RunOne(Step(s, a), b);
  }

  lemma OverwriteFromIdle(s: State)
    requires s.row == Present(Cancelled) && s.worker.Idle? && !Terminal(s.handle)
    ensures Run(s, [Register, Fail, Lock, WriteRow]).row == Present(Failed)
  {
    var es := [Register, Fail, Lock, WriteRow];
    assert es[1..] == [Fail, Lock, WriteRow] && es[1..][1..] == [Lock, WriteRow];
    RunTwo(Step(Step(s, Register), Fail), Lock, WriteRow);
  }

  function WholeCancel(id: nat): seq<Event> {
    [CancelRead(id), CancelSignal(id)] + [CancelWrite(id), CancelRelease(id)]
  }

  /**
   The race in question, from every state in which the worker has passed its last context check:
   a `Cancel` runs to its end and stores "cancelled", and then "completed" replaces it.
   */
  lemma CancelledThenCompleted(s: State, id: nat)
    requires s.worker == Decided(Completed) && !Terminal(s.handle)
    requires s.row.Present? && !Terminal(s.row.status) && id !in s.cancels
    ensures var c := Run(s, WholeCancel(id));
            && c.row == Present(Cancelled) && c.cancels == s.cancels
            && Run(c, [Lock, WriteRow]).row == Present(Completed)
  {
    var c := CancelRuns(s, id);
    RunTwo(c, Lock, WriteRow);
  }

  function Store(fails: bool): Event { if fails then WriteFails else WriteRow }

  lemma SignalRuns(s: State, id: nat)
    requires s.row.Present? && !Terminal(s.row.status) && id !in s.cancels
    ensures Run(s, [CancelRead(id), CancelSignal(id)]) ==
            s.(ctxDone := s.ctxDone || s.live, cancels := s.cancels[id := HasSignalled])
  {
    RunTwo(s, CancelRead(id), CancelSignal(id));
  }

  lemma CancelRuns(s: State, id: nat) returns (c: State)
    requires s.row.Present? && !Terminal(s.row.status) && id !in s.cancels
    ensures c == Run(s, WholeCancel(id))
    ensures c == s.(row := Present(Cancelled), ctxDone := s.ctxDone || s.live, live := false)
  {
    RunConcat(s, [CancelRead(id), CancelSignal(id)], [CancelWrite(id), CancelRelease(id)]);
    SignalRuns(s, id);
    var m := Run(s, [CancelRead(id), CancelSignal(id)]);
    RunTwo(m, CancelWrite(id), CancelRelease(id));
    c := Run(m, [CancelWrite(id), CancelRelease(id)]);
    assert c.cancels == s.cancels;
  }

  /** That race is reachable. */
  lemma RaceIsReachable()
    ensures exists s :: Reachable(s) && s.worker == Decided(Completed) && !Terminal(s.handle)
                     && s.row.Present? && !Terminal(s.row.status)
  {
    var s := Step(Step(Created(Running), Register), Finish);
    RunTwo(Created(Running), Register, Finish);
    assert Reachable(s);
  }

  // ----- Nor are completed and failed rows -----

  /** A `Cancel` in flight turns a finished job into a cancelled one. */
  lemma CompletedThenCancelled(s: State, id: nat)
    requires s.row == Present(Completed) || s.row == Present(Failed)
    requires id in s.cancels && !s.cancels[id].HasWritten?
    ensures Run(s, [CancelSignal(id), CancelWrite(id)]).row == Present(Cancelled)
  {
    RunTwo(s, CancelSignal(id), CancelWrite(id));
  }

  /**
   A completed or failed row is final exactly while no `Cancel` is between its read of the row and
   its write: only a call that read the row before it became terminal can still change it.
   */
  lemma FinishedStaysIff(s: State)
    requires Reachable(s) && (s.row == Present(Completed) || s.row == Present(Failed))
    ensures RowFinal(s) <==> !InFlight(s)
  {
    ReachableInv(s);
    if InFlight(s) {
      var id :| id in s.cancels && !s.cancels[id].HasWritten?;
      CompletedThenCancelled(s, id);
    } else {
      SettledIsFinalIff(s);
    }
  }

  /** That race is reachable too: a `Cancel` reads the row, and then the worker completes. */
  lemma CompletedRaceIsReachable()
    ensures exists s :: Reachable(s) && s.row == Present(Completed) && InFlight(s)
  {
    var a := Step(Step(Created(Running), Register), CancelRead(0));
    var b := Step(Step(a, Finish), Lock);
    var s := Step(b, WriteRow);
    var first, second := [Register, CancelRead(0)], [Finish, Lock];
    RunTwo(Created(Running), Register, CancelRead(0));
    RunTwo(a, Finish, Lock);
    RunOne(b, WriteRow);
    RunConcat(Created(Running), first, second);
    RunConcat(Created(Running), first + second, [WriteRow]);
    assert s == Run(Created(Running), first + second + [WriteRow]);
    assert Reachable(s) && 0 in s.cancels;
  }

  // ----- What the context check buys -----

  /** A worker that saw a signal, or still will, stores "cancelled". */
  lemma SignalledIsCancelled(s: State)
    requires s.ctxDone && s.registered && !Terminal(s.handle) && s.row.Present?
    requires s.worker.Idle? || s.worker == Decided(Cancelled)
    ensures var t := Run(s, [Finish] + [Lock, WriteRow]); t.row == Present(Cancelled) && t.handle == Cancelled
  {
    RunConcat(s, [Finish], [Lock, WriteRow]);
    RunOne(s, Finish);
    RunTwo(Step(s, Finish), Lock, WriteRow);
  }

  /** And one that was not signalled before its check stores "completed", whatever is signalled later. */
  lemma UnsignalledCompletes(s: State, id: nat)
    requires !s.ctxDone && s.registered && !Terminal(s.handle) && s.row.Present? && s.worker.Idle?
    ensures var t := Run(s, [Finish, CancelSignal(id)] + [Lock, WriteRow]); t.row == Present(Completed) && t.handle == Completed
  {
    RunConcat(s, [Finish, CancelSignal(id)], [Lock, WriteRow]);
    RunTwo(s, Finish, CancelSignal(id));
    RunTwo(Run(s, [Finish, CancelSignal(id)]), Lock, WriteRow);
  }

  predicate CommittedToComplete(s: State) {
    || s.handle == Completed || s.row == Present(Completed)
    || (!s.worker.Idle? && !s.worker.Dead? && s.worker.st == Completed)
  }

  /** A job whose cancel signal arrives before the worker's last context check never completes. */
  lemma {:induction false} SignalledNeverCompletes(s: State, es: seq<Event>)
    requires s.ctxDone && !CommittedToComplete(s)
    ensures var t := Run(s, es); t.ctxDone && !CommittedToComplete(t)
    decreases |es|
  {
    if es != [] {
      SignalledStep(s, es[0]);
      SignalledNeverCompletes(Step(s, es[0]), es[1..]);
    }
  }

  lemma SignalledStep(s: State, e: Event)
    requires !CommittedToComplete(s)
    ensures CommittedToComplete(Step(s, e)) ==> e == Finish && !s.ctxDone
    ensures s.ctxDone ==> Step(s, e).ctxDone
  {
  }

  /** And a completed row always comes from a worker that saw no cancel signal at its check. */
  lemma {:induction false} CompletedWasUncancelled(s: State, es: seq<Event>)
    requires !CommittedToComplete(s)
    ensures CommittedToComplete(Run(s, es)) ==>
              exists k :: 0 <= k < |es| && es[k] == Finish && !Run(s, es[..k]).ctxDone
    decreases |es|
  {
    if es != [] {
      var m := Step(s, es[0]);
      SignalledStep(s, es[0]);
      if CommittedToComplete(m) {
        assert es[0] == Finish && es[..0] == [];
        assert !Run(s, es[..0]).ctxDone;
      } else if CommittedToComplete(Run(s, es)) {
        CompletedWasUncancelled(m, es[1..]);
        var k :| 0 <= k < |es[1..]| && es[1..][k] == Finish && !Run(m, es[1..][..k]).ctxDone;
        assert es[..k + 1][1..] == es[1..][..k];
        assert Run(s, es[..k + 1]) == Run(m, es[1..][..k]);
        assert es[k + 1] == Finish;
      }
    }
  }

  // ----- The code -----

  function FailedCancel(id: nat): seq<Event> {
    [CancelRead(id), CancelSignal(id)] + [CancelFails(id)]
  }

  /** A `Cancel` whose write fails has still given its signal. */
  lemma FailedCancelRuns(s: State, id: nat)
    requires !RowTerminal(s.row) && id !in s.cancels
    ensures Run(s, FailedCancel(id)) == s.(ctxDone := s.ctxDone || s.live)
  {
    RunConcat(s, [CancelRead(id), CancelSignal(id)], [CancelFails(id)]);
    SignalRuns(s, id);
    var m := Run(s, [CancelRead(id), CancelSignal(id)]);
    RunOne(m, CancelFails(id));
    assert m.cancels - {id} == s.cancels;
  }

  lemma CancelIsIdle(s: State, id: nat)
    requires id !in s.cancels && (s.row.Missing? || Terminal(s.row.status))
    ensures Run(s, WholeCancel(id)) == s == Run(s, FailedCancel(id))
  {
    RunConcat(s, [CancelRead(id), CancelSignal(id)], [CancelFails(id)]);
    RunOne(s, CancelFails(id));
    RunConcat(s, [CancelRead(id), CancelSignal(id)], [CancelWrite(id), CancelRelease(id)]);
    RunTwo(s, CancelRead(id), CancelSignal(id));
    RunTwo(s, CancelWrite(id), CancelRelease(id));
  }

  /** One job as the process sees it when nothing else runs; `Value` is the matching state between calls. */
  class LiveJob {
    var row: Row
    var handle: Status
    var ctxDone: bool
    var live: bool
    /** Some state did not reach the row. */
    ghost var writeLost: bool

    constructor (init: Status)
      ensures Value() == Step(Created(init), Register)
    {
      row, handle, ctxDone, live, writeLost := Present(init), init, false, true, false;
    }

    ghost function Value(): State reads this {
      State(row, handle, Idle, ctxDone, true, live, map[], writeLost)
    }

    /** `SetState`: exactly the three steps of a worker that asks for `st`; an error of the store is discarded. */
    method SetState(st: Status, storeFails: bool)
      modifies this
      ensures Value() == Run(old(Value()).(worker := Decided(st)), [Lock, Store(storeFails)] + [Release])
      ensures Terminal(old(handle)) ==> Value() == old(Value())
      ensures !Terminal(old(handle)) ==> handle == st && live == (old(live) && !Terminal(st)) && ctxDone == old(ctxDone)
      ensures !Terminal(old(handle)) && (storeFails || old(row).Missing?) ==> row == old(row)
      ensures !Terminal(old(handle)) && !storeFails && old(row).Present? ==> row == Present(st)
    {
      ghost var s, w := Value().(worker := Decided(st)), Store(storeFails);
      RunConcat(s, [Lock, w], [Release]);
      RunTwo(s, Lock, w);
      RunOne(Run(s, [Lock, w]), Release);
      if Terminal(handle) { return; }
      handle := st;
      if storeFails { writeLost := true; } else { row := SetRow(row, st); }
      if Terminal(st) { live := false; }
    }

    /**
     The end of `runRemoteDownload` and `runRemoteUpload`: the last look at the context decides
     between cancelled and completed.
     */
    method FinishTransfer(storeFails: bool)
      modifies this
      ensures Value() == Run(Step(old(Value()), Finish), [Lock, Store(storeFails)] + [Release])
      ensures Terminal(old(handle)) ==> Value() == old(Value())
      ensures !Terminal(old(handle)) ==> handle == if old(ctxDone) then Cancelled else Completed
      ensures !Terminal(old(handle)) && !storeFails && old(row).Present? ==> row == Present(handle)
      ensures !live || Terminal(old(handle))
    {
      if ctxDone { SetState(Cancelled, storeFails); } else { SetState(Completed, storeFails); }
    }

    /** `failTransferJob`, at any point before. */
    method FailTransfer(storeFails: bool)
      modifies this
      ensures Value() == Run(Step(old(Value()), Fail), [Lock, Store(storeFails)] + [Release])
      ensures Terminal(old(handle)) ==> Value() == old(Value())
      ensures !Terminal(old(handle)) ==> handle == Failed && (!storeFails && old(row).Present? ==> row == Present(Failed))
    {
      SetState(Failed, storeFails);
    }

    /** The upload handler, once the file has been received. */
    method StartTransfer(storeFails: bool)
      modifies this
      ensures Value() == Run(Step(old(Value()), StartRunning), [Lock, Store(storeFails)] + [Release])
      ensures !Terminal(old(handle)) ==> handle == Running && live == old(live) && (!storeFails && old(row).Present? ==> row == Present(Running))
    {
      SetState(Running, storeFails);
    }

    /** `Cancel`: its steps in a row, or nothing if the row is gone or already terminal. */
    method Cancel(ghost id: nat, storeFails: bool) returns (ok: bool)
      modifies this
      ensures Value() == Run(old(Value()), if storeFails then FailedCancel(id) else WholeCancel(id))
      ensures handle == old(handle)
      ensures !ok <==> storeFails && !RowTerminal(old(row))
      ensures RowTerminal(old(row)) ==> Value() == old(Value())
      ensures !RowTerminal(old(row)) ==> ctxDone == (old(ctxDone) || old(live))
      ensures !RowTerminal(old(row)) ==>
                if storeFails then row == old(row) && live == old(live) else row == Present(Cancelled) && !live
    {
      ghost var s := Value();
      if row.Missing? || Terminal(row.status) {
        CancelIsIdle(s, id);
        return true;
      }
      if live { ctxDone := true; }
      if storeFails {
        FailedCancelRuns(s, id);
        return false;
      }
      ghost var c := CancelRuns(s, id);
      row := SetRow(row, Cancelled);
      live := false;
      return true;
    }
  }
}
