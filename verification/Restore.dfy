/**
 Staged database restore (internal/httpapi/backup.go).  `stageRestore` prepares
 `<db>.restore-pending`; at the next start `ApplyPendingRestore` moves the old database aside
 and renames the staged file into place.  The process may die between any two file
 operations and any operation may report an error; start-up then goes on to open the database,
 creating an empty one if the old one has been moved aside, and the next start tries again.
 */
module Restore {

  /** A database file: what it holds, how many login sessions, and whether it verifies. */
  datatype File = File(payload: int, sessions: nat, sound: bool)

  datatype Path =
    | Db | Wal | Shm | Pending | PendingTmp | Rejected
    | PreRestore(stamp: string)
    | Other(name: string)

  type Fs = map<Path, File>

  /** `scrubSnapshot`: delete the sessions, in one transaction. */
  function Scrub(f: File): File { f.(sessions := 0) }

  /** An atomic rename, replacing whatever was at the destination. */
  function Rename(fs: Fs, src: Path, dst: Path): Fs
    requires src in fs && src != dst
  {
    (fs - {src})[dst := fs[src]]
  }

  // ----- ApplyPendingRestore, one file operation per step -----

  datatype Result = NothingPending | StageRejected | Failed | Applied(moved: bool)

  datatype Pc =
    | StatPending | VerifyPending | ScrubPending | Reject
    | StatDb | MoveAside | DropWal(moved: bool) | DropShm(moved: bool) | Promote(moved: bool)
    | Finished(result: Result)

  /** The operation at `pc`, which reports an error and changes nothing when `fault`. */
  function Step(pc: Pc, fs: Fs, stamp: string, fault: bool): (Pc, Fs) {
    match pc
    case StatPending =>
      if fault || Pending !in fs then (Finished(NothingPending), fs) else (VerifyPending, fs)
    case VerifyPending =>
      if fault || Pending !in fs || !fs[Pending].sound then (Reject, fs) else (ScrubPending, fs)
    case ScrubPending =>
      if fault || Pending !in fs then (Reject, fs) else (StatDb, fs[Pending := Scrub(fs[Pending])])
    case Reject =>
      (Finished(StageRejected), if fault || Pending !in fs then fs else Rename(fs, Pending, Rejected))
    case StatDb =>
      if fault || Db !in fs then (DropWal(false), fs) else (MoveAside, fs)
    case MoveAside =>
      if fault || Db !in fs then (Finished(Failed), fs) else (DropWal(true), Rename(fs, Db, PreRestore(stamp)))
    case DropWal(m) => (DropShm(m), if fault then fs else fs - {Wal})
    case DropShm(m) => (Promote(m), if fault then fs else fs - {Shm})
    case Promote(m) =>
      if fault || Pending !in fs then (Finished(Failed), fs) else (Finished(Applied(m)), Rename(fs, Pending, Db))
    case Finished(_) => (pc, fs)
  }

  /** Run until finished or until the process dies, which is after |faults| operations. */
  function RunFrom(pc: Pc, fs: Fs, stamp: string, faults: seq<bool>): (Pc, Fs)
    decreases |faults|
  {
    if pc.Finished? || faults == [] then (pc, fs)
    else
      var (pc', fs') := Step(pc, fs, stamp, faults[0]);
      RunFrom(pc', fs', stamp, faults[1..])
  }

  function Attempt(fs: Fs, stamp: string, faults: seq<bool>): (Pc, Fs) {
    RunFrom(StatPending, fs, stamp, faults)
  }

  // ----- stageRestore -----

  datatype StagePc = VerifySource | OpenTmp | CopyTmp | CloseTmp | ScrubTmp | RenameTmp | Staged(ok: bool)

  function StageStep(pc: StagePc, fs: Fs, src: File, fault: bool): (StagePc, Fs) {
    match pc
    case VerifySource => (if fault || !src.sound then Staged(false) else OpenTmp, fs)
    case OpenTmp => if fault then (Staged(false), fs) else (CopyTmp, fs[PendingTmp := File(0, 0, false)])
    case CopyTmp => if fault then (Staged(false), fs - {PendingTmp}) else (CloseTmp, fs[PendingTmp := src])
    case CloseTmp => (if fault then Staged(false) else ScrubTmp, fs)
    case ScrubTmp =>
      if fault || PendingTmp !in fs then (Staged(false), fs - {PendingTmp})
      else (RenameTmp, fs[PendingTmp := Scrub(fs[PendingTmp])])
    case RenameTmp =>
      if fault || PendingTmp !in fs then (Staged(false), fs) else (Staged(true), Rename(fs, PendingTmp, Pending))
    case Staged(_) => (pc, fs)
  }

  function StageFrom(pc: StagePc, fs: Fs, src: File, faults: seq<bool>): (StagePc, Fs)
    decreases |faults|
  {
    if pc.Staged? || faults == [] then (pc, fs)
    else
      var (pc', fs') := StageStep(pc, fs, src, faults[0]);
      StageFrom(pc', fs', src, faults[1..])
  }

  lemma ToStep(pc: Pc, fs: Fs, stamp: string, faults: seq<bool>)
    requires faults != [] && !pc.Finished?
    ensures var (pc', fs') := Step(pc, fs, stamp, faults[0]);
            && RunFrom(pc, fs, stamp, faults) == RunFrom(pc', fs', stamp, faults[1..])
            && (pc'.Finished? ==> RunFrom(pc, fs, stamp, faults) == (pc', fs'))
  {
  }

  lemma ToStageStep(pc: StagePc, fs: Fs, src: File, faults: seq<bool>)
    requires faults != [] && !pc.Staged?
    ensures var (pc', fs') := StageStep(pc, fs, src, faults[0]);
            && StageFrom(pc, fs, src, faults) == StageFrom(pc', fs', src, faults[1..])
            && (pc'.Staged? ==> StageFrom(pc, fs, src, faults) == (pc', fs'))
  {
  }

  // ----- Histories of starts, openings and stagings -----

  /** What SQLite creates when it opens a path that holds nothing. */
  const EMPTY := File(0, 0, true)

  datatype Event =
    | Start(stamp: string, faults: seq<bool>)
    | Open
    | Stage(src: File, faults: seq<bool>)

  function Happen(fs: Fs, e: Event): Fs {
    match e
    case Start(stamp, faults) => Attempt(fs, stamp, faults).1
    case Open => if Db in fs then fs else fs[Db := EMPTY]
    case Stage(src, faults) => StageFrom(VerifySource, fs, src, faults).1
  }

  function Replay(fs: Fs, es: seq<Event>): Fs
    decreases |es|
  {
    if es == [] then fs else Replay(Happen(fs, es[0]), es[1..])
  }

  /** The same files, except possibly at the paths in `except`. */
  predicate SameBut(a: Fs, b: Fs, except: set<Path>) {
    && (forall p :: p in a && p !in except ==> p in b && b[p] == a[p])
    && (forall p :: p in b && p !in except ==> p in a)
  }

  // ----- The former database survives -----

  /** `former` is live, or set aside under one of the stamps in use. */
  ghost predicate Survives(fs: Fs, former: File, used: set<string>) {
    || (Db in fs && fs[Db] == former)
    || exists s :: s in used && PreRestore(s) in fs && fs[PreRestore(s)] == former
  }

  predicate StampsUsed(fs: Fs, used: set<string>) {
    forall p :: p in fs && p.PreRestore? ==> p.stamp in used
  }

  /** The stat of the live database does not misreport an existing file as missing. */
  predicate HonestStat(pc: Pc, fs: Fs, fault: bool) {
    pc == StatDb && Db in fs ==> !fault
  }

  predicate HonestRun(pc: Pc, fs: Fs, stamp: string, faults: seq<bool>)
    decreases |faults|
  {
    pc.Finished? || faults == [] ||
    (&& HonestStat(pc, fs, faults[0])
     && var (pc', fs') := Step(pc, fs, stamp, faults[0]);
        HonestRun(pc', fs', stamp, faults[1..]))
  }

  /** What holds at each program point: the stamp is still free, or the live path is. */
  ghost predicate MidRun(pc: Pc, fs: Fs, former: File, used: set<string>, stamp: string) {
    && Survives(fs, former, used + {stamp})
    && StampsUsed(fs, used + {stamp})
    && (pc in {StatPending, VerifyPending, ScrubPending, Reject, StatDb, MoveAside} ==>
          Survives(fs, former, used) && StampsUsed(fs, used) && stamp !in used)
    && (pc.DropWal? || pc.DropShm? || pc.Promote? ==> Db !in fs)
  }

  lemma StepSurvives(pc: Pc, fs: Fs, former: File, used: set<string>, stamp: string, fault: bool)
    requires MidRun(pc, fs, former, used, stamp) && HonestStat(pc, fs, fault)
    ensures var (pc', fs') := Step(pc, fs, stamp, fault); MidRun(pc', fs', former, used, stamp)
  {
    var (pc', fs') := Step(pc, fs, stamp, fault);
    if !(Db in fs && fs[Db] == former) {
      var all := used + {stamp};
      var s :| s in all && PreRestore(s) in fs && fs[PreRestore(s)] == former;
      if pc == MoveAside {
        assert s in used;
      }
      assert s in all && PreRestore(s) in fs' && fs'[PreRestore(s)] == former;
    } else if pc == MoveAside && !fault {
      assert stamp in used + {stamp} && fs'[PreRestore(stamp)] == former;
    }
  }

  lemma {:induction false} RunSurvives(pc: Pc, fs: Fs, former: File, used: set<string>, stamp: string, faults: seq<bool>)
    requires MidRun(pc, fs, former, used, stamp) && HonestRun(pc, fs, stamp, faults)
    ensures var r := RunFrom(pc, fs, stamp, faults); MidRun(r.0, r.1, former, used, stamp)
    decreases |faults|
  {
    if !pc.Finished? && faults != [] {
      StepSurvives(pc, fs, former, used, stamp, faults[0]);
      var (pc', fs') := Step(pc, fs, stamp, faults[0]);
      RunSurvives(pc', fs', former, used, stamp, faults[1..]);
    }
  }

  /** Staging touches only the temporary and the pending path. */
  lemma {:induction false} StageFrame(pc: StagePc, fs: Fs, src: File, faults: seq<bool>)
    ensures var r := StageFrom(pc, fs, src, faults).1;
            forall p :: p != Pending && p != PendingTmp ==>
              (p in r <==> p in fs) && (p in fs ==> r[p] == fs[p])
    decreases |faults|
  {
    if !pc.Staged? && faults != [] {
      var (pc', fs') := StageStep(pc, fs, src, faults[0]);
      StageFrame(pc', fs', src, faults[1..]);
    }
  }

  /** Every start uses a stamp no earlier one used, and stats the live file honestly. */
  predicate Orderly(fs: Fs, es: seq<Event>, used: set<string>)
    decreases |es|
  {
    es == [] ||
    match es[0]
    case Start(stamp, faults) =>
      && stamp !in used
      && HonestRun(StatPending, fs, stamp, faults)
      && Orderly(Happen(fs, es[0]), es[1..], used + {stamp})
    case Open => Orderly(Happen(fs, es[0]), es[1..], used)
    case Stage(_, _) => Orderly(Happen(fs, es[0]), es[1..], used)
  }

  function StampsOf(es: seq<Event>): set<string> {
    if es == [] then {}
    else (if es[0].Start? then {es[0].stamp} else {}) + StampsOf(es[1..])
  }

  lemma {:induction false} HistorySurvives(fs: Fs, former: File, es: seq<Event>, used: set<string>)
    requires Survives(fs, former, used) && StampsUsed(fs, used) && Orderly(fs, es, used)
    ensures Survives(Replay(fs, es), former, used + StampsOf(es))
    decreases |es|
  {
    if es != [] {
      var next := Happen(fs, es[0]);
      match es[0]
      case Start(stamp, faults) =>
        SurvivesMore(fs, former, used, stamp);
        RunSurvives(StatPending, fs, former, used, stamp, faults);
        HistorySurvives(next, former, es[1..], used + {stamp});
        assert used + {stamp} + StampsOf(es[1..]) == used + StampsOf(es);
      case Open =>
        OpenSurvives(fs, former, used);
        HistorySurvives(next, former, es[1..], used);
        assert used + StampsOf(es[1..]) == used + StampsOf(es);
      case Stage(src, faults) =>
        StageFrame(VerifySource, fs, src, faults);
        if !(Db in fs && fs[Db] == former) {
          var s :| s in used && PreRestore(s) in fs && fs[PreRestore(s)] == former;
          assert s in used && PreRestore(s) in next && next[PreRestore(s)] == former;
        }
        HistorySurvives(next, former, es[1..], used);
        assert used + StampsOf(es[1..]) == used + StampsOf(es);
    } else {
      assert used + StampsOf(es) == used;
    }
  }

  lemma OpenSurvives(fs: Fs, former: File, used: set<string>)
    requires Survives(fs, former, used) && StampsUsed(fs, used)
    ensures Survives(Happen(fs, Open), former, used) && StampsUsed(Happen(fs, Open), used)
    ensures Db in Happen(fs, Open) && SameBut(fs, Happen(fs, Open), {Db}) && (Db in fs ==> Happen(fs, Open) == fs)
  {
    var next := Happen(fs, Open);
    if !(Db in fs && fs[Db] == former) {
      var s :| s in used && PreRestore(s) in fs && fs[PreRestore(s)] == former;
      assert PreRestore(s) in next && next[PreRestore(s)] == former;
    }
  }

  lemma SurvivesMore(fs: Fs, former: File, used: set<string>, stamp: string)
    requires Survives(fs, former, used)
    ensures Survives(fs, former, used + {stamp})
  {
    if !(Db in fs && fs[Db] == former) {
      var s :| s in used && PreRestore(s) in fs && fs[PreRestore(s)] == former;
      assert s in used + {stamp};
    }
  }

  /**
   Crash safety: however many starts, openings and stagings follow, wherever each of them dies, the
   database file that was live at the beginning is still live or set aside.
   */
  lemma OldDatabaseSurvives(fs: Fs, es: seq<Event>)
    requires Db in fs
    requires var used := set p | p in fs && p.PreRestore? :: p.stamp;
             Orderly(fs, es, used)
    ensures var end := Replay(fs, es);
            (Db in end && end[Db] == fs[Db]) || exists s :: PreRestore(s) in end && end[PreRestore(s)] == fs[Db]
  {
    var used := set p | p in fs && p.PreRestore? :: p.stamp;
    HistorySurvives(fs, fs[Db], es, used);
  }

  // ----- A completed run -----

  /** From the scrub on: what a run that ends in `Applied` has done. */
  lemma {:induction false} TailApplied(pc: Pc, fs: Fs, stamp: string, faults: seq<bool>)
    requires pc in {StatDb, MoveAside} || pc.DropWal? || pc.DropShm? || pc.Promote?
    requires RunFrom(pc, fs, stamp, faults).0.Finished? && RunFrom(pc, fs, stamp, faults).0.result.Applied?
    ensures var end := RunFrom(pc, fs, stamp, faults).1;
            && Pending in fs && Db in end && end[Db] == fs[Pending] && Pending !in end
            && SameBut(fs, end, {Db, Wal, Shm, Pending, PreRestore(stamp)})
            && end.Keys <= fs.Keys + {Db, PreRestore(stamp)}
            && (pc == MoveAside ==> Db in fs && PreRestore(stamp) in end && end[PreRestore(stamp)] == fs[Db])
            && (pc.DropWal? || pc.DropShm? || pc.Promote? ==>
                  (PreRestore(stamp) in end <==> PreRestore(stamp) in fs) &&
                  (PreRestore(stamp) in fs ==> end[PreRestore(stamp)] == fs[PreRestore(stamp)]))
            && (pc == StatDb && Db in fs && HonestRun(pc, fs, stamp, faults) ==>
                  PreRestore(stamp) in end && end[PreRestore(stamp)] == fs[Db])
    decreases |faults|
  {
    if faults != [] {
      var (pc', fs') := Step(pc, fs, stamp, faults[0]);
      if !pc'.Finished? {
        TailApplied(pc', fs', stamp, faults[1..]);
      }
    }
  }

  /**
   A start that reports success leaves exactly the staged content live, verified and free of
   sessions, nothing pending, the old database at the stamped path, and nothing else changed.
   */
  lemma AppliedIsStaged(fs: Fs, stamp: string, faults: seq<bool>)
    requires var r := Attempt(fs, stamp, faults).0; r.Finished? && r.result.Applied?
    ensures var end := Attempt(fs, stamp, faults).1;
            && Pending in fs && fs[Pending].sound
            && Db in end && end[Db] == Scrub(fs[Pending]) && end[Db].sessions == 0 && end[Db].sound
            && Pending !in end
            && SameBut(fs, end, {Db, Wal, Shm, Pending, PreRestore(stamp)})
            && end.Keys <= fs.Keys + {Db, PreRestore(stamp)}
            && (Db in fs && HonestRun(StatPending, fs, stamp, faults) ==>
                  PreRestore(stamp) in end && end[PreRestore(stamp)] == fs[Db])
  {
    assert faults != [];
    var (pc1, fs1) := Step(StatPending, fs, stamp, faults[0]);
    assert RunFrom(StatPending, fs, stamp, faults) == RunFrom(pc1, fs1, stamp, faults[1..]);
    assert pc1 == VerifyPending;
    VerifyApplied(fs, stamp, faults[1..]);
    assert HonestRun(StatPending, fs, stamp, faults) ==> HonestRun(VerifyPending, fs, stamp, faults[1..]);
    assert HonestRun(VerifyPending, fs, stamp, faults[1..]) ==> HonestRun(ScrubPending, fs, stamp, faults[1..][1..]);
  }

  predicate ScrubOutcome(fs: Fs, stamp: string, faults: seq<bool>) {
    var end := RunFrom(ScrubPending, fs, stamp, faults).1;
    && Pending in fs && Db in end && end[Db] == Scrub(fs[Pending]) && Pending !in end
    && SameBut(fs, end, {Db, Wal, Shm, Pending, PreRestore(stamp)})
    && end.Keys <= fs.Keys + {Db, PreRestore(stamp)}
    && (Db in fs && HonestRun(ScrubPending, fs, stamp, faults) ==>
          PreRestore(stamp) in end && end[PreRestore(stamp)] == fs[Db])
  }

  lemma VerifyApplied(fs: Fs, stamp: string, faults: seq<bool>)
    requires var r := RunFrom(VerifyPending, fs, stamp, faults).0; r.Finished? && r.result.Applied?
    ensures faults != [] && Pending in fs && fs[Pending].sound
    ensures Step(VerifyPending, fs, stamp, faults[0]) == (ScrubPending, fs)
    ensures RunFrom(VerifyPending, fs, stamp, faults) == RunFrom(ScrubPending, fs, stamp, faults[1..])
    ensures ScrubOutcome(fs, stamp, faults[1..])
  {
    assert faults != [];
    var (pc1, fs1) := Step(VerifyPending, fs, stamp, faults[0]);
    assert RunFrom(VerifyPending, fs, stamp, faults) == RunFrom(pc1, fs1, stamp, faults[1..]);
    RejectRejects(fs, stamp, faults[1..]);
    ScrubApplied(fs, stamp, faults[1..]);
  }

  lemma ScrubApplied(fs: Fs, stamp: string, faults: seq<bool>)
    requires var r := RunFrom(ScrubPending, fs, stamp, faults).0; r.Finished? && r.result.Applied?
    ensures ScrubOutcome(fs, stamp, faults)
  {
    assert faults != [];
    var (pc1, fs1) := Step(ScrubPending, fs, stamp, faults[0]);
    assert RunFrom(ScrubPending, fs, stamp, faults) == RunFrom(pc1, fs1, stamp, faults[1..]);
    RejectRejects(fs, stamp, faults[1..]);
    TailApplied(pc1, fs1, stamp, faults[1..]);
  }

  lemma RejectRejects(fs: Fs, stamp: string, faults: seq<bool>)
    ensures var r := RunFrom(Reject, fs, stamp, faults).0; r == Reject || r == Finished(StageRejected)
  {
    if faults != [] {
      var (pc', fs') := Step(Reject, fs, stamp, faults[0]);
      assert RunFrom(Reject, fs, stamp, faults) == RunFrom(pc', fs', stamp, faults[1..]);
    }
  }

  // ----- Reruns converge -----

  /** The staged content `c` is still pending, or already live and nothing is pending. */
  predicate OnTheWay(fs: Fs, c: File) {
    if Pending in fs then fs[Pending].sound && Scrub(fs[Pending]) == Scrub(c)
    else Db in fs && fs[Db] == Scrub(c)
  }

  ghost predicate Converging(pc: Pc, fs: Fs, c: File) {
    && OnTheWay(fs, c)
    && (!pc.Finished? ==> Pending in fs && fs[Pending] == Scrub(c))
  }

  /** Once the staged file is scrubbed, errors and crashes only delay its promotion. */
  lemma {:induction false} TailConverging(pc: Pc, fs: Fs, c: File, stamp: string, faults: seq<bool>)
    requires c.sound && Converging(pc, fs, c)
    requires pc in {StatDb, MoveAside} || pc.DropWal? || pc.DropShm? || pc.Promote? || pc.Finished?
    ensures OnTheWay(RunFrom(pc, fs, stamp, faults).1, c)
    decreases |faults|
  {
    if !pc.Finished? && faults != [] {
      var (pc', fs') := Step(pc, fs, stamp, faults[0]);
      TailConverging(pc', fs', c, stamp, faults[1..]);
    }
  }

  /** The start errs while it verifies or scrubs the staged file, and renames it to "rejected". */
  predicate Discards(fs: Fs, faults: seq<bool>) {
    && Pending in fs && |faults| >= 3 && !faults[0]
    && (if faults[1] then !faults[2] else |faults| >= 4 && faults[2] && !faults[3])
  }

  /** A start discards a sound staged file, or brings it no further from being live. */
  lemma StartConverges(fs: Fs, c: File, stamp: string, faults: seq<bool>)
    requires c.sound && OnTheWay(fs, c)
    ensures !Discards(fs, faults) ==> OnTheWay(Attempt(fs, stamp, faults).1, c)
    ensures Discards(fs, faults) ==> Attempt(fs, stamp, faults).1 == Rename(fs, Pending, Rejected)
  {
    if faults != [] {
      ToStep(StatPending, fs, stamp, faults);
      if Pending in fs && !faults[0] && |faults| > 1 {
        var f := faults[1..];
        ToStep(VerifyPending, fs, stamp, f);
        if f[0] {
          RejectOutcome(fs, stamp, f[1..]);
        } else if |f| > 1 {
          ToStep(ScrubPending, fs, stamp, f[1..]);
          if f[1] {
            RejectOutcome(fs, stamp, f[1..][1..]);
          } else {
            TailConverging(StatDb, fs[Pending := Scrub(fs[Pending])], c, stamp, f[1..][1..]);
          }
        }
      }
    }
  }

  lemma RejectOutcome(fs: Fs, stamp: string, faults: seq<bool>)
    requires Pending in fs
    ensures RunFrom(Reject, fs, stamp, faults).1 == if faults != [] && !faults[0] then Rename(fs, Pending, Rejected) else fs
  {
    if faults != [] { ToStep(Reject, fs, stamp, faults); }
  }

  /** Some start of the history, which stages nothing, discards the staged file. */
  predicate EverDiscards(fs: Fs, es: seq<Event>)
    decreases |es|
  {
    es != [] &&
    ((es[0].Start? && Discards(fs, es[0].faults)) || EverDiscards(Happen(fs, es[0]), es[1..]))
  }

  predicate NoStaging(es: seq<Event>) { forall i :: 0 <= i < |es| ==> !es[i].Stage? }

  lemma {:induction false} HistoryConverging(fs: Fs, c: File, es: seq<Event>)
    requires c.sound && OnTheWay(fs, c) && NoStaging(es) && !EverDiscards(fs, es)
    ensures OnTheWay(Replay(fs, es), c)
    decreases |es|
  {
    if es != [] {
      if es[0].Start? { StartConverges(fs, c, es[0].stamp, es[0].faults); }
      HistoryConverging(Happen(fs, es[0]), c, es[1..]);
    }
  }

  /** The live file, if any, is not the staged content, and after a discard nothing is pending. */
  predicate NotLive(fs: Fs, c: File) { Db in fs ==> fs[Db] != Scrub(c) }

  predicate Lost(fs: Fs, c: File) { Pending !in fs && NotLive(fs, c) }

  lemma {:induction false} LostForever(fs: Fs, c: File, es: seq<Event>)
    requires Lost(fs, c) && Scrub(c) != EMPTY && NoStaging(es)
    ensures Lost(Replay(fs, es), c)
    decreases |es|
  {
    if es != [] {
      if es[0].Start? && es[0].faults != [] { ToStep(StatPending, fs, es[0].stamp, es[0].faults); }
      LostForever(Happen(fs, es[0]), c, es[1..]);
    }
  }

  /** As long as it is pending it is not live. */
  predicate OneOrTheOther(fs: Fs, c: File) { OnTheWay(fs, c) && (Pending in fs ==> NotLive(fs, c)) }

  lemma {:induction false} TailOneOrTheOther(pc: Pc, fs: Fs, c: File, stamp: string, faults: seq<bool>)
    requires Pending in fs ==> NotLive(fs, c)
    ensures var end := RunFrom(pc, fs, stamp, faults).1; Pending in end ==> NotLive(end, c)
    decreases |faults|
  {
    if !pc.Finished? && faults != [] {
      var (pc', fs') := Step(pc, fs, stamp, faults[0]);
      TailOneOrTheOther(pc', fs', c, stamp, faults[1..]);
    }
  }

  lemma {:induction false} DiscardedIsLost(fs: Fs, c: File, es: seq<Event>)
    requires c.sound && OneOrTheOther(fs, c) && Scrub(c) != EMPTY && NoStaging(es) && EverDiscards(fs, es)
    ensures Lost(Replay(fs, es), c)
    decreases |es|
  {
    var next := Happen(fs, es[0]);
    if es[0].Start? {
      StartConverges(fs, c, es[0].stamp, es[0].faults);
      TailOneOrTheOther(StatPending, fs, c, es[0].stamp, es[0].faults);
    }
    if es[0].Start? && Discards(fs, es[0].faults) {
      LostForever(next, c, es[1..]);
    } else {
      DiscardedIsLost(next, c, es[1..]);
    }
  }

  /** Enough operations for a whole start, none of them failing. */
  predicate Quiet(faults: seq<bool>) {
    |faults| >= 8 && forall i :: 0 <= i < |faults| ==> !faults[i]
  }

  /** From any point of the way, a start that runs to its end without errors finishes the restore. */
  lemma QuietStartFinishes(fs: Fs, c: File, stamp: string, faults: seq<bool>)
    requires OnTheWay(fs, c) && Quiet(faults)
    ensures var (pc, end) := Attempt(fs, stamp, faults);
            && pc.Finished? && (if Pending in fs then pc.result.Applied? else pc.result.NothingPending?)
            && Pending !in end && Db in end && end[Db] == Scrub(c)
  {
    if Pending in fs {
      var g := fs[Pending := Scrub(fs[Pending])];
      var f3 := faults[1..][1..][1..];
      assert RunFrom(StatPending, fs, stamp, faults) == RunFrom(VerifyPending, fs, stamp, faults[1..]);
      assert RunFrom(VerifyPending, fs, stamp, faults[1..]) == RunFrom(ScrubPending, fs, stamp, faults[1..][1..]);
      assert RunFrom(ScrubPending, fs, stamp, faults[1..][1..]) == RunFrom(StatDb, g, stamp, f3);
      QuietTail(g, stamp, f3);
    } else {
      assert RunFrom(StatPending, fs, stamp, faults) == RunFrom(Finished(NothingPending), fs, stamp, faults[1..]);
    }
  }

  lemma QuietTail(fs: Fs, stamp: string, faults: seq<bool>)
    requires Pending in fs && |faults| >= 5 && forall i :: 0 <= i < |faults| ==> !faults[i]
    ensures var (pc, end) := RunFrom(StatDb, fs, stamp, faults);
            pc.Finished? && pc.result.Applied? && Pending !in end && Db in end && end[Db] == fs[Pending]
  {
    if Db in fs {
      var g := Rename(fs, Db, PreRestore(stamp));
      assert RunFrom(StatDb, fs, stamp, faults) == RunFrom(MoveAside, fs, stamp, faults[1..]);
      assert RunFrom(MoveAside, fs, stamp, faults[1..]) == RunFrom(DropWal(true), g, stamp, faults[1..][1..]);
      QuietDrop(g, true, stamp, faults[1..][1..]);
    } else {
      assert RunFrom(StatDb, fs, stamp, faults) == RunFrom(DropWal(false), fs, stamp, faults[1..]);
      QuietDrop(fs, false, stamp, faults[1..]);
    }
  }

  lemma QuietDrop(fs: Fs, moved: bool, stamp: string, faults: seq<bool>)
    requires Pending in fs && |faults| >= 3 && forall i :: 0 <= i < |faults| ==> !faults[i]
    ensures var (pc, end) := RunFrom(DropWal(moved), fs, stamp, faults);
            pc == Finished(Applied(moved)) && Pending !in end && Db in end && end[Db] == fs[Pending]
  {
    var f1 := faults[1..];
    var f2 := f1[1..];
    var g := fs - {Wal};
    var h := g - {Shm};
    assert RunFrom(DropWal(moved), fs, stamp, faults) == RunFrom(DropShm(moved), g, stamp, f1);
    assert RunFrom(DropShm(moved), g, stamp, f1) == RunFrom(Promote(moved), h, stamp, f2);
    assert RunFrom(Promote(moved), h, stamp, f2) == RunFrom(Finished(Applied(moved)), Rename(h, Pending, Db), stamp, f2[1..]);
  }

  /**
   Any number of starts that die or fail at any operation, with the database opened after any of
   them, followed by one start that runs through: the staged content ends up live, with nothing
   pending, exactly if none of those starts discarded it.
   */
  lemma RerunsConvergeIff(fs: Fs, es: seq<Event>, stamp: string, faults: seq<bool>)
    requires Pending in fs && fs[Pending].sound && NotLive(fs, fs[Pending]) && Scrub(fs[Pending]) != EMPTY
    requires NoStaging(es) && Quiet(faults)
    ensures var end := Attempt(Replay(fs, es), stamp, faults).1;
            && Pending !in end
            && (Db in end && end[Db] == Scrub(fs[Pending]) <==> !EverDiscards(fs, es))
  {
    var c := fs[Pending];
    var before := Replay(fs, es);
    if EverDiscards(fs, es) {
      DiscardedIsLost(fs, c, es);
      ToStep(StatPending, before, stamp, faults);
    } else {
      HistoryConverging(fs, c, es);
      QuietStartFinishes(before, c, stamp, faults);
    }
  }

  // ----- What can be pending -----

  /** Whatever is pending was verified and holds no sessions. */
  predicate PendingGood(fs: Fs) {
    Pending in fs ==> fs[Pending].sound && fs[Pending].sessions == 0
  }

  lemma {:induction false} StageKeepsPendingGood(pc: StagePc, fs: Fs, src: File, faults: seq<bool>)
    requires PendingGood(fs)
    requires pc in {OpenTmp, CopyTmp, CloseTmp, ScrubTmp, RenameTmp} ==> src.sound
    requires pc in {CloseTmp, ScrubTmp} ==> PendingTmp in fs ==> fs[PendingTmp] == src
    requires pc == RenameTmp ==> PendingTmp in fs ==> fs[PendingTmp] == Scrub(src)
    ensures PendingGood(StageFrom(pc, fs, src, faults).1)
    decreases |faults|
  {
    if !pc.Staged? && faults != [] {
      var (pc', fs') := StageStep(pc, fs, src, faults[0]);
      StageKeepsPendingGood(pc', fs', src, faults[1..]);
    }
  }

  lemma {:induction false} StartKeepsPendingGood(pc: Pc, fs: Fs, stamp: string, faults: seq<bool>)
    requires PendingGood(fs)
    ensures PendingGood(RunFrom(pc, fs, stamp, faults).1)
    decreases |faults|
  {
    if !pc.Finished? && faults != [] {
      var (pc', fs') := Step(pc, fs, stamp, faults[0]);
      StartKeepsPendingGood(pc', fs', stamp, faults[1..]);
    }
  }

  /** No history of stagings and starts, with any crashes and errors, leaves anything else pending. */
  lemma {:induction false} PendingAlwaysGood(fs: Fs, es: seq<Event>)
    requires PendingGood(fs)
    ensures PendingGood(Replay(fs, es))
    decreases |es|
  {
    if es != [] {
      match es[0] {
        case Start(stamp, faults) => StartKeepsPendingGood(StatPending, fs, stamp, faults);
        case Open =>
        case Stage(src, faults) => StageKeepsPendingGood(VerifySource, fs, src, faults);
      }
      PendingAlwaysGood(Happen(fs, es[0]), es[1..]);
    }
  }

  // ----- Why the hypotheses are needed -----

  /**
   Two restores completed under the same one-second stamp: the second one's set-aside copy
   replaces the first one's, so the original database is no longer at either path.
   */
  lemma SameStampLoses(fs: Fs, b: File, c: File, stamp: string, quiet: seq<bool>)
    requires Db in fs && b.sound && c.sound && Quiet(quiet)
    ensures var first := Happen(Happen(fs, Stage(b, quiet)), Start(stamp, quiet));
            var end := Happen(Happen(first, Stage(c, quiet)), Start(stamp, quiet));
            && PreRestore(stamp) in first && first[PreRestore(stamp)] == fs[Db]
            && Db in end && end[Db] == Scrub(c)
            && PreRestore(stamp) in end && end[PreRestore(stamp)] == Scrub(b)
            && end.Keys <= fs.Keys + {Db, PreRestore(stamp)}
  {
    var first := QuietRestore(fs, b, stamp, quiet);
    var end := QuietRestore(first, c, stamp, quiet);
  }

  lemma QuietRestore(fs: Fs, src: File, stamp: string, quiet: seq<bool>) returns (end: Fs)
    requires Db in fs && src.sound && Quiet(quiet)
    ensures end == Happen(Happen(fs, Stage(src, quiet)), Start(stamp, quiet))
    ensures Db in end && end[Db] == Scrub(src)
    ensures PreRestore(stamp) in end && end[PreRestore(stamp)] == fs[Db]
    ensures end.Keys <= fs.Keys + {Db, PreRestore(stamp)}
  {
    var staged := QuietStage(fs, src, quiet);
    QuietStartFinishes(staged, src, stamp, quiet);
    AppliedIsStaged(staged, stamp, quiet);
    QuietIsHonest(StatPending, staged, stamp, quiet);
    end := Attempt(staged, stamp, quiet).1;
  }

  lemma QuietStage(fs: Fs, src: File, faults: seq<bool>) returns (end: Fs)
    requires src.sound && |faults| >= 6 && forall i :: 0 <= i < |faults| ==> !faults[i]
    ensures end == StageFrom(VerifySource, fs, src, faults).1
    ensures Pending in end && end[Pending] == Scrub(src) && end == (fs - {PendingTmp})[Pending := Scrub(src)]
  {
    StageOutcome(fs, src, faults);
    end := StageFrom(VerifySource, fs, src, faults).1;
  }

  lemma {:induction false} QuietIsHonest(pc: Pc, fs: Fs, stamp: string, faults: seq<bool>)
    requires forall i :: 0 <= i < |faults| ==> !faults[i]
    ensures HonestRun(pc, fs, stamp, faults)
    decreases |faults|
  {
    if !pc.Finished? && faults != [] {
      var (pc', fs') := Step(pc, fs, stamp, faults[0]);
      QuietIsHonest(pc', fs', stamp, faults[1..]);
    }
  }

  /** If the stat of the live database errs, the promoted file overwrites it. */
  lemma DishonestStatLoses(fs: Fs, stamp: string)
    requires Pending in fs && fs[Pending].sound && Db in fs
    ensures var end := Attempt(fs, stamp, [false, false, false, true, false, false, false]).1;
            Db in end && end[Db] == Scrub(fs[Pending]) && SameBut(fs, end, {Db, Wal, Shm, Pending})
  {
    var f := [false, false, false, true, false, false, false];
    var g := fs[Pending := Scrub(fs[Pending])];
    assert RunFrom(StatPending, fs, stamp, f) == RunFrom(VerifyPending, fs, stamp, f[1..]);
    assert RunFrom(VerifyPending, fs, stamp, f[1..]) == RunFrom(ScrubPending, fs, stamp, f[2..]) by { assert f[1..][1..] == f[2..]; }
    assert RunFrom(ScrubPending, fs, stamp, f[2..]) == RunFrom(StatDb, g, stamp, f[3..]) by { assert f[2..][1..] == f[3..]; }
    assert RunFrom(StatDb, g, stamp, f[3..]) == RunFrom(DropWal(false), g, stamp, f[4..]) by { assert f[3..][1..] == f[4..]; }
    QuietDrop(g, false, stamp, f[4..]);
    DropFrame(g, stamp, f[4..]);
  }

  lemma DropFrame(fs: Fs, stamp: string, faults: seq<bool>)
    requires Pending in fs && |faults| == 3 && forall i :: 0 <= i < |faults| ==> !faults[i]
    ensures SameBut(fs, RunFrom(DropWal(false), fs, stamp, faults).1, {Db, Wal, Shm, Pending})
  {
    var f1 := faults[1..];
    var f2 := f1[1..];
    assert RunFrom(DropWal(false), fs, stamp, faults) == RunFrom(DropShm(false), fs - {Wal}, stamp, f1);
    assert RunFrom(DropShm(false), fs - {Wal}, stamp, f1) == RunFrom(Promote(false), fs - {Wal} - {Shm}, stamp, f2);
    assert RunFrom(Promote(false), fs - {Wal} - {Shm}, stamp, f2)
        == RunFrom(Finished(Applied(false)), Rename(fs - {Wal} - {Shm}, Pending, Db), stamp, f2[1..]);
  }

  // ----- One start, exactly -----

  /** The start gets past the verification and the scrub of the staged file. */
  predicate Proceeds(fs: Fs, faults: seq<bool>) {
    Pending in fs && fs[Pending].sound && |faults| >= 3 && !faults[0] && !faults[1] && !faults[2]
  }

  /** It does, or it touches nothing but the staged file. */
  lemma AttemptHead(fs: Fs, stamp: string, faults: seq<bool>)
    ensures Proceeds(fs, faults) ==>
              Attempt(fs, stamp, faults) == RunFrom(StatDb, fs[Pending := Scrub(fs[Pending])], stamp, faults[3..])
    ensures !Proceeds(fs, faults) ==> SameBut(fs, Attempt(fs, stamp, faults).1, {Pending, Rejected})
  {
    if faults != [] {
      ToStep(StatPending, fs, stamp, faults);
      if !faults[0] && Pending in fs && |faults| > 1 {
        var f := faults[1..];
        ToStep(VerifyPending, fs, stamp, f);
        if f[0] || !fs[Pending].sound {
          RejectFrame(fs, stamp, f[1..]);
        } else if |f| > 1 {
          ToStep(ScrubPending, fs, stamp, f[1..]);
          if f[1] {
            RejectFrame(fs, stamp, f[1..][1..]);
          } else {
            assert f[1..][1..] == faults[3..];
          }
        }
      }
    }
  }

  lemma RejectFrame(fs: Fs, stamp: string, faults: seq<bool>)
    ensures SameBut(fs, RunFrom(Reject, fs, stamp, faults).1, {Pending, Rejected})
  {
    if faults != [] { ToStep(Reject, fs, stamp, faults); }
  }

  /** From the removal of the WAL on, only the promotion matters, and it is the third operation. */
  lemma DropOutcome(fs: Fs, moved: bool, stamp: string, faults: seq<bool>)
    requires Pending in fs
    ensures var end := RunFrom(DropWal(moved), fs, stamp, faults).1;
            && SameBut(fs, end, {Db, Wal, Shm, Pending})
            && (if |faults| >= 3 && !faults[2] then Db in end && end[Db] == fs[Pending]
                else SameBut(fs, end, {Wal, Shm}))
            && (Wal in end <==> Wal in fs && (faults == [] || faults[0]))
            && (Shm in end <==> Shm in fs && (|faults| < 2 || faults[1]))
    ensures var pc := RunFrom(DropWal(moved), fs, stamp, faults).0;
            if |faults| < 3 then !pc.Finished? else pc == Finished(if faults[2] then Failed else Applied(moved))
  {
    if |faults| >= 1 {
      ToStep(DropWal(moved), fs, stamp, faults);
      var g := if faults[0] then fs else fs - {Wal};
      if |faults| >= 2 {
        var f := faults[1..];
        ToStep(DropShm(moved), g, stamp, f);
        var h := if f[0] then g else g - {Shm};
        if |faults| >= 3 { ToStep(Promote(moved), h, stamp, f[1..]); }
      }
    }
  }

  /** The live database is moved aside exactly if the next two operations succeed. */
  predicate MovesAside(fs: Fs, faults: seq<bool>) { Db in fs && |faults| >= 2 && !faults[0] && !faults[1] }

  lemma TailOutcome(fs: Fs, stamp: string, faults: seq<bool>)
    requires Pending in fs
    ensures var end := RunFrom(StatDb, fs, stamp, faults).1;
            && (MovesAside(fs, faults) ==>
                  SameBut(Rename(fs, Db, PreRestore(stamp)), end, {Db, Wal, Shm, Pending}))
            && (!MovesAside(fs, faults) ==> SameBut(fs, end, {Db, Wal, Shm, Pending}))
            && (!MovesAside(fs, faults) && Db in fs && !(|faults| >= 4 && faults[0] && !faults[3]) ==>
                  SameBut(fs, end, {Wal, Shm}))
            && (Db in fs && |faults| >= 4 && faults[0] && !faults[3] ==> Db in end && end[Db] == fs[Pending])
  {
    if faults != [] {
      ToStep(StatDb, fs, stamp, faults);
      var f := faults[1..];
      if faults[0] || Db !in fs {
        DropOutcome(fs, false, stamp, f);
      } else if f != [] {
        ToStep(MoveAside, fs, stamp, f);
        if !f[0] { DropOutcome(Rename(fs, Db, PreRestore(stamp)), true, stamp, f[1..]); }
      }
    }
  }

  /** Where the tail leads: on to the removals, or to an error. */
  lemma TailSplits(fs: Fs, stamp: string, faults: seq<bool>)
    requires Pending in fs
    ensures var run := RunFrom(StatDb, fs, stamp, faults);
            && (faults == [] ==> run == (StatDb, fs))
            && (|faults| >= 1 && (faults[0] || Db !in fs) ==> run == RunFrom(DropWal(false), fs, stamp, faults[1..]))
            && (|faults| == 1 && !faults[0] && Db in fs ==> run == (MoveAside, fs))
            && (|faults| >= 2 && !faults[0] && Db in fs ==>
                  run == if faults[1] then (Finished(Failed), fs)
                         else RunFrom(DropWal(true), Rename(fs, Db, PreRestore(stamp)), stamp, faults[2..]))
  {
    if faults != [] {
      ToStep(StatDb, fs, stamp, faults);
      if !faults[0] && Db in fs && |faults| >= 2 {
        ToStep(MoveAside, fs, stamp, faults[1..]);
        assert faults[1..][1..] == faults[2..];
      }
    }
  }

  /** The staged file fails a check and the renaming is reached. */
  predicate Rejects(fs: Fs, faults: seq<bool>) {
    && Pending in fs && |faults| >= 3 && !faults[0]
    && (faults[1] || !fs[Pending].sound || (|faults| >= 4 && faults[2]))
  }

  /** The start that does not get past the checks. */
  lemma HeadResult(fs: Fs, stamp: string, faults: seq<bool>)
    requires !Proceeds(fs, faults)
    ensures var pc := Attempt(fs, stamp, faults).0;
            && (pc == Finished(NothingPending) <==> faults != [] && (faults[0] || Pending !in fs))
            && (pc == Finished(StageRejected) <==> Rejects(fs, faults))
            && (pc.Finished? ==> pc.result.NothingPending? || pc.result.StageRejected?)
  {
    if faults != [] {
      ToStep(StatPending, fs, stamp, faults);
      if !faults[0] && Pending in fs && |faults| > 1 {
        var f := faults[1..];
        ToStep(VerifyPending, fs, stamp, f);
        if f[0] || !fs[Pending].sound {
          RejectResult(fs, stamp, f[1..]);
        } else if |f| > 1 {
          ToStep(ScrubPending, fs, stamp, f[1..]);
          RejectResult(fs, stamp, f[1..][1..]);
        }
      }
    }
  }

  lemma RejectResult(fs: Fs, stamp: string, faults: seq<bool>)
    ensures RunFrom(Reject, fs, stamp, faults).0 == if faults == [] then Reject else Finished(StageRejected)
  {
    if faults != [] { ToStep(Reject, fs, stamp, faults); }
  }

  /** What a start reports, for every script of crashes and errors. */
  lemma ResultIs(fs: Fs, stamp: string, faults: seq<bool>)
    ensures var pc := Attempt(fs, stamp, faults).0;
            && (pc == Finished(NothingPending) <==> faults != [] && (faults[0] || Pending !in fs))
            && (pc == Finished(StageRejected) <==> Rejects(fs, faults))
            && (pc == Finished(Applied(true)) <==>
                  Proceeds(fs, faults) && Db in fs && |faults| >= 8 && !faults[3] && !faults[4] && !faults[7])
            && (pc == Finished(Applied(false)) <==>
                  Proceeds(fs, faults) && |faults| >= 7 && (faults[3] || Db !in fs) && !faults[6])
            && (pc == Finished(Failed) <==>
                  Proceeds(fs, faults) &&
                  if |faults| >= 4 && (faults[3] || Db !in fs) then |faults| >= 7 && faults[6]
                  else |faults| >= 5 && (faults[4] || (|faults| >= 8 && faults[7])))
  {
    AttemptHead(fs, stamp, faults);
    if !Proceeds(fs, faults) {
      HeadResult(fs, stamp, faults);
    } else {
      ToStep(StatPending, fs, stamp, faults);
      TailResult(fs[Pending := Scrub(fs[Pending])], stamp, faults[3..]);
    }
  }

  lemma TailResult(fs: Fs, stamp: string, faults: seq<bool>)
    requires Pending in fs
    ensures var pc := RunFrom(StatDb, fs, stamp, faults).0;
            && (pc == Finished(Applied(true)) <==> Db in fs && |faults| >= 5 && !faults[0] && !faults[1] && !faults[4])
            && (pc == Finished(Applied(false)) <==> |faults| >= 4 && (faults[0] || Db !in fs) && !faults[3])
            && (pc == Finished(Failed) <==>
                  if |faults| >= 1 && (faults[0] || Db !in fs) then |faults| >= 4 && faults[3]
                  else |faults| >= 2 && (faults[1] || (|faults| >= 5 && faults[4])))
            && (pc.Finished? ==> pc.result.Applied? || pc.result.Failed?)
  {
    TailSplits(fs, stamp, faults);
    if |faults| >= 1 && (faults[0] || Db !in fs) {
      DropOutcome(fs, false, stamp, faults[1..]);
    } else if |faults| >= 2 && !faults[1] {
      DropOutcome(Rename(fs, Db, PreRestore(stamp)), true, stamp, faults[2..]);
    }
  }

  /**
   After a start that reports success, each of the old database's companion files is there exactly
   if it was and its removal failed.
   */
  lemma CompanionsLeftIff(fs: Fs, stamp: string, faults: seq<bool>, moved: bool)
    requires Attempt(fs, stamp, faults).0 == Finished(Applied(moved))
    ensures var end := Attempt(fs, stamp, faults).1; var k := if moved then 5 else 4;
            && |faults| > k + 1
            && (Wal in end <==> Wal in fs && faults[k])
            && (Shm in end <==> Shm in fs && faults[k + 1])
  {
    ResultIs(fs, stamp, faults);
    AttemptHead(fs, stamp, faults);
    var g, f := fs[Pending := Scrub(fs[Pending])], faults[3..];
    TailSplits(g, stamp, f);
    if moved {
      DropOutcome(Rename(g, Db, PreRestore(stamp)), true, stamp, f[2..]);
    } else {
      DropOutcome(g, false, stamp, f[1..]);
    }
  }

  /** In particular, a start without errors leaves neither beside the restored database. */
  lemma QuietStartLeavesNoCompanions(fs: Fs, stamp: string, faults: seq<bool>)
    requires Pending in fs && fs[Pending].sound && Quiet(faults)
    ensures var (pc, end) := Attempt(fs, stamp, faults); pc == Finished(Applied(Db in fs)) && Wal !in end && Shm !in end
  {
    ResultIs(fs, stamp, faults);
    CompanionsLeftIff(fs, stamp, faults, Db in fs);
  }

  /** Staging succeeds exactly if the source is sound and all six operations do; otherwise only the temporary file may differ. */
  lemma StageOutcome(fs: Fs, src: File, faults: seq<bool>)
    ensures var (pc, end) := StageFrom(VerifySource, fs, src, faults);
            var done := src.sound && |faults| >= 6 && forall i :: 0 <= i < 6 ==> !faults[i];
            && (pc == Staged(true) <==> done)
            && (if done then end == (fs - {PendingTmp})[Pending := Scrub(src)] else SameBut(fs, end, {PendingTmp}))
            && (src.sound && |faults| >= 3 && !faults[0] && !faults[1] && faults[2] ==> pc == Staged(false) && PendingTmp !in end)
            && (src.sound && |faults| >= 5 && (forall i :: 0 <= i < 4 ==> !faults[i]) && faults[4] ==>
                  pc == Staged(false) && PendingTmp !in end)
  {
    if faults != [] {
      ToStageStep(VerifySource, fs, src, faults);
      if src.sound && !faults[0] { StageFromOpen(fs, src, faults[1..]); }
    }
  }

  lemma StageFromOpen(fs: Fs, src: File, faults: seq<bool>)
    requires src.sound
    ensures var (pc, end) := StageFrom(OpenTmp, fs, src, faults);
            var done := |faults| >= 5 && forall i :: 0 <= i < 5 ==> !faults[i];
            && (pc == Staged(true) <==> done)
            && (if done then end == (fs - {PendingTmp})[Pending := Scrub(src)] else SameBut(fs, end, {PendingTmp}))
            && (|faults| >= 2 && !faults[0] && faults[1] ==> pc == Staged(false) && PendingTmp !in end)
            && (|faults| >= 4 && (forall i :: 0 <= i < 3 ==> !faults[i]) && faults[3] ==> pc == Staged(false) && PendingTmp !in end)
  {
    if faults != [] {
      ToStageStep(OpenTmp, fs, src, faults);
      if !faults[0] && |faults| > 1 {
        var g, f := fs[PendingTmp := File(0, 0, false)], faults[1..];
        ToStageStep(CopyTmp, g, src, f);
        if !f[0] {
          StageFromClose(g[PendingTmp := src], src, f[1..]);
        }
      }
    }
  }

  lemma StageFromClose(fs: Fs, src: File, faults: seq<bool>)
    requires PendingTmp in fs && fs[PendingTmp] == src
    ensures var (pc, end) := StageFrom(CloseTmp, fs, src, faults);
            var done := |faults| >= 3 && forall i :: 0 <= i < 3 ==> !faults[i];
            && (pc == Staged(true) <==> done)
            && (if done then end == (fs - {PendingTmp})[Pending := Scrub(src)] else SameBut(fs, end, {PendingTmp}))
            && (|faults| >= 2 && !faults[0] && faults[1] ==> pc == Staged(false) && PendingTmp !in end)
  {
    if faults != [] {
      ToStageStep(CloseTmp, fs, src, faults);
      if !faults[0] && |faults| > 1 {
        var f := faults[1..];
        ToStageStep(ScrubTmp, fs, src, f);
        if !f[0] && |f| > 1 {
          ToStageStep(RenameTmp, fs[PendingTmp := Scrub(src)], src, f[1..]);
        }
      }
    }
  }

  predicate Kept(fs: Fs, former: File, stamp: string) {
    (Db in fs && fs[Db] == former) || (PreRestore(stamp) in fs && fs[PreRestore(stamp)] == former)
  }

  /**
   One start, with errors and crashes anywhere: the live database is lost exactly if a sound file
   is staged, its checks succeed, the stat of the live file fails although the file exists, and
   the promotion succeeds.
   */
  lemma StartKeepsDatabaseIff(fs: Fs, stamp: string, faults: seq<bool>)
    requires Db in fs && (PreRestore(stamp) in fs ==> fs[PreRestore(stamp)] != fs[Db])
    requires Pending in fs ==> fs[Pending].payload != fs[Db].payload
    ensures Kept(Attempt(fs, stamp, faults).1, fs[Db], stamp) <==>
            !(Pending in fs && fs[Pending].sound && |faults| >= 7
              && !faults[0] && !faults[1] && !faults[2] && faults[3] && !faults[6])
  {
    AttemptHead(fs, stamp, faults);
    if Proceeds(fs, faults) {
      TailOutcome(fs[Pending := Scrub(fs[Pending])], stamp, faults[3..]);
    }
  }

  /** The file set aside under `s` is as it was. */
  predicate AsideUnchanged(fs: Fs, end: Fs, s: string) {
    PreRestore(s) in fs && PreRestore(s) in end && end[PreRestore(s)] == fs[PreRestore(s)]
  }

  /**
   One start, with errors and crashes anywhere: a copy set aside earlier is replaced exactly if
   the start has the same stamp and gets as far as moving the live database aside.
   */
  lemma AsideSurvivesIff(fs: Fs, s: string, stamp: string, faults: seq<bool>)
    requires PreRestore(s) in fs && (Db in fs ==> fs[Db] != fs[PreRestore(s)])
    ensures AsideUnchanged(fs, Attempt(fs, stamp, faults).1, s) <==>
            !(s == stamp && Pending in fs && fs[Pending].sound && Db in fs && |faults| >= 5
              && !faults[0] && !faults[1] && !faults[2] && !faults[3] && !faults[4])
  {
    AttemptHead(fs, stamp, faults);
    if Proceeds(fs, faults) {
      TailOutcome(fs[Pending := Scrub(fs[Pending])], stamp, faults[3..]);
    }
  }

  // ----- The code -----

  class Disk {
    var files: Fs

    /**
     `ApplyPendingRestore`, line by line.  `faults` scripts the operating system: one entry per
     file operation, and the process dies when it runs out.
     */
    method ApplyPendingRestore(stamp: string, faults: seq<bool>) returns (died: bool, result: Result)
      modifies this
      ensures files == Attempt(old(files), stamp, faults).1
      ensures died <==> !Attempt(old(files), stamp, faults).0.Finished?
      ensures !died ==> Attempt(old(files), stamp, faults).0 == Finished(result)
    {
      ghost var goal := Attempt(files, stamp, faults);
      died, result := true, Failed;
      var f := faults;

      if f == [] { return; }  // os.Stat(pending)
      ToStep(StatPending, files, stamp, f);
      if f[0] || Pending !in files { return false, NothingPending; }
      f := f[1..];

      if f == [] { return; }  // verifySQLiteFile(pending)
      ToStep(VerifyPending, files, stamp, f);
      if f[0] || !files[Pending].sound {
        died, result := RejectStage(stamp, f[1..]);
        return;
      }
      f := f[1..];

      if f == [] { return; }  // scrubSnapshot(pending)
      ToStep(ScrubPending, files, stamp, f);
      if f[0] {
        died, result := RejectStage(stamp, f[1..]);
        return;
      }
      files := files[Pending := Scrub(files[Pending])];
      f := f[1..];
      assert RunFrom(StatDb, files, stamp, f) == goal;

      died, result := MoveAsideAndPromote(stamp, f);
    }

    /** `stageRestore`: nothing but the temporary file is written before the final rename. */
    method StageRestore(src: File, faults: seq<bool>) returns (died: bool, ok: bool)
      modifies this
      ensures var (pc, fs) := StageFrom(VerifySource, old(files), src, faults);
              files == fs && (died <==> !pc.Staged?) && (!died ==> pc == Staged(ok))
    {
      died, ok := true, false;
      var f := faults;

      if f == [] { return; }  // verifySQLiteFile(src)
      ToStageStep(VerifySource, files, src, f);
      if f[0] || !src.sound { return false, false; }
      f := f[1..];

      if f == [] { return; }  // os.OpenFile(tmp, O_CREATE|O_TRUNC)
      ToStageStep(OpenTmp, files, src, f);
      if f[0] { return false, false; }
      files := files[PendingTmp := File(0, 0, false)];
      f := f[1..];

      if f == [] { return; }  // io.Copy
      ToStageStep(CopyTmp, files, src, f);
      if f[0] { files := files - {PendingTmp}; return false, false; }
      files := files[PendingTmp := src];
      f := f[1..];

      if f == [] { return; }  // out.Close
      ToStageStep(CloseTmp, files, src, f);
      if f[0] { return false, false; }
      f := f[1..];

      if f == [] { return; }  // scrubSnapshot(tmp)
      ToStageStep(ScrubTmp, files, src, f);
      if f[0] { files := files - {PendingTmp}; return false, false; }
      files := files[PendingTmp := Scrub(files[PendingTmp])];
      f := f[1..];

      if f == [] { return; }  // os.Rename(tmp, pending)
      ToStageStep(RenameTmp, files, src, f);
      if f[0] { return false, false; }
      files := Rename(files, PendingTmp, Pending);
      return false, true;
    }

    method RejectStage(stamp: string, faults: seq<bool>) returns (died: bool, result: Result)
      modifies this
      ensures var (pc, fs) := RunFrom(Reject, old(files), stamp, faults);
              files == fs && (died <==> !pc.Finished?) && (!died ==> pc == Finished(result))
    {
      if faults == [] { return true, Failed; }
      ToStep(Reject, files, stamp, faults);
      if !faults[0] && Pending in files {
        files := Rename(files, Pending, Rejected);
      }
      return false, StageRejected;
    }

    method MoveAsideAndPromote(stamp: string, faults: seq<bool>) returns (died: bool, result: Result)
      requires Pending in files
      modifies this
      ensures var (pc, fs) := RunFrom(StatDb, old(files), stamp, faults);
              files == fs && (died <==> !pc.Finished?) && (!died ==> pc == Finished(result))
    {
      ghost var goal := RunFrom(StatDb, files, stamp, faults);
      died, result := true, Failed;
      var f := faults;
      var moved := false;

      if f == [] { return; }  // os.Stat(dbPath)
      ToStep(StatDb, files, stamp, f);
      if !f[0] && Db in files {
        f := f[1..];
        if f == [] { return; }  // os.Rename(dbPath, movedTo)
        ToStep(MoveAside, files, stamp, f);
        if f[0] { return false, Failed; }
        files := Rename(files, Db, PreRestore(stamp));
        moved := true;
      }
      f := f[1..];
      assert RunFrom(DropWal(moved), files, stamp, f) == goal;
      died, result := DropAndPromote(moved, stamp, f);
    }

    method DropAndPromote(moved: bool, stamp: string, faults: seq<bool>) returns (died: bool, result: Result)
      requires Pending in files
      modifies this
      ensures var (pc, fs) := RunFrom(DropWal(moved), old(files), stamp, faults);
              files == fs && (died <==> !pc.Finished?) && (!died ==> pc == Finished(result))
    {
      died, result := true, Failed;
      var f := faults;

      if f == [] { return; }  // os.Remove(dbPath + "-wal")
      ToStep(DropWal(moved), files, stamp, f);
      if !f[0] { files := files - {Wal}; }
      f := f[1..];

      if f == [] { return; }  // os.Remove(dbPath + "-shm")
      ToStep(DropShm(moved), files, stamp, f);
      if !f[0] { files := files - {Shm}; }
      f := f[1..];

      if f == [] { return; }  // os.Rename(pending, dbPath)
      ToStep(Promote(moved), files, stamp, f);
      if f[0] { return false, Failed; }
      files := Rename(files, Pending, Db);
      return false, Applied(moved);
    }
  }
}
