// Group commit as a transition system: any number of file-system operations run between
// begin_op and end_op, commit writes one block per step, and the machine may crash at any
// step. log.lock makes each of begin_op's passes, log_write and end_op's first half atomic.
module LogOps {
  import opened Blocks
  import opened Log

  // While committing, base is the disk at the start of the commit and done counts its writes.
  datatype Phase = Running | Committing(base: Disk, done: nat)

  // ops holds, for each operation in progress, how many log_write calls it has made.
  datatype State = State(start: nat, size: nat, disk: Disk, view: Disk,
                         sectors: seq<Word>, ops: seq<nat>, phase: Phase)

  datatype Event =
    | BeginOp
    | WriteOp(op: nat, sector: Word, data: Block)
    | EndOp(op: nat)
    | CommitStep
    | Crash(reboots: seq<nat>) // interrupted recoveries before the one that completes

  // ----- The steps -----

  // begin_op goes through; otherwise it sleeps.
  predicate Admits(s: State) {
    s.phase.Running? && |s.sectors| + (|s.ops| + 1) * MAXOPBLOCKS <= LOGSIZE
  }

  // The two panics of log_write.
  predicate WritePanics(s: State) {
    || |s.sectors| >= LOGSIZE || |s.sectors| >= s.size - 1 // no room in the log
    || |s.ops| < 1 // no operation in progress
  }

  // Log absorption: a sector already in the log is not entered twice.
  function Record(sectors: seq<Word>, sector: Word): (r: seq<Word>)
    ensures |r| <= |sectors| + 1 && sectors <= r && sector in r
    ensures forall x :: x in r <==> x in sectors || x == sector
    ensures Distinct(sectors) ==> Distinct(r)
  {
    if sector in sectors then sectors else sectors + [sector]
  }

  // Block writes of a commit: none if nothing was logged.
  function CommitLength(sectors: seq<Word>): nat {
    if sectors == [] then 0 else 2 * |sectors| + 2
  }

  // What the caller must respect: an operation logs at most MAXOPBLOCKS times, and only
  // home sectors.
  predicate WithinBudget(s: State, i: nat, sector: Word) {
    i < |s.ops| && s.ops[i] < MAXOPBLOCKS && sector < s.start
  }

  // Which steps can be taken; a panic would stop the machine.
  predicate Enabled(s: State, e: Event) {
    match e
    case BeginOp => Admits(s)
    case WriteOp(i, sector, _) => WithinBudget(s, i, sector) && !WritePanics(s)
    case EndOp(i) => i < |s.ops|
    case CommitStep => s.phase.Committing?
    case Crash(_) => true
  }

  function Begin(s: State): State {
    s.(ops := s.ops + [0])
  }

  function LogWrite(s: State, i: nat, sector: Word, data: Block): State
    requires i < |s.ops| && sector < |s.view|
  {
    s.(view := s.view[sector := data], sectors := Record(s.sectors, sector), ops := s.ops[i := s.ops[i] + 1])
  }

  // The last operation to end starts the commit.
  function End(s: State, i: nat): State
    requires i < |s.ops|
  {
    var ops := s.ops[..i] + s.ops[i + 1..];
    s.(ops := ops, phase := if ops == [] then Committing(s.disk, 0) else s.phase)
  }

  function Step(s: State, e: Event): (r: State)
    requires Inv(s) && Enabled(s, e)
    ensures r.start == s.start && r.size == s.size
  {
    match e
    case BeginOp => Begin(s)
    case WriteOp(i, sector, data) => LogWrite(s, i, sector, data)
    case EndOp(i) => End(s, i)
    case CommitStep =>
      var k := s.phase.done;
      if k < CommitLength(s.sectors) then
        s.(disk := CommitDisk(s.phase.base, s.view, s.start, s.size, s.sectors, k + 1),
           phase := s.phase.(done := k + 1))
      else s.(view := s.disk, sectors := [], phase := Running)
    case Crash(ks) =>
      DiskIsGood(s);
      var d := Recovered(Reboots(s.disk, s.start, s.size, ks), s.start, s.size);
      State(s.start, s.size, d, d, [], [], Running)
  }

  // ----- The invariant -----

  function Budget(ops: seq<nat>): int
    decreases |ops|
  {
    if ops == [] then 0 else Budget(ops[..|ops| - 1]) + MAXOPBLOCKS - ops[|ops| - 1]
  }

  ghost predicate Inv(s: State) {
    && (forall i :: 0 <= i < |s.ops| ==> s.ops[i] <= MAXOPBLOCKS)
    && |s.sectors| + Budget(s.ops) <= LOGSIZE
    && match s.phase
       case Running => Consistent(s.disk, s.view, s.start, s.size, s.sectors)
       case Committing(base, done) =>
         && s.ops == []
         && Consistent(base, s.view, s.start, s.size, s.sectors)
         && done <= CommitLength(s.sectors)
         && s.disk == CommitDisk(base, s.view, s.start, s.size, s.sectors, done)
  }

  lemma {:induction false} BudgetUpdate(ops: seq<nat>, i: nat)
    requires i < |ops|
    ensures Budget(ops[i := ops[i] + 1]) == Budget(ops) - 1
    decreases |ops|
  {
    var k := |ops| - 1;
    if i < k {
      BudgetUpdate(ops[..k], i);
      assert ops[i := ops[i] + 1][..k] == ops[..k][i := ops[i] + 1];
    } else {
      assert ops[i := ops[i] + 1][..k] == ops[..k];
    }
  }

  lemma {:induction false} BudgetPush(ops: seq<nat>, x: nat)
    ensures Budget(ops + [x]) == Budget(ops) + MAXOPBLOCKS - x
  {
    assert (ops + [x])[..|ops|] == ops;
  }

  lemma {:induction false} BudgetRemove(ops: seq<nat>, i: nat)
    requires i < |ops|
    ensures Budget(ops[..i] + ops[i + 1..]) == Budget(ops) - MAXOPBLOCKS + ops[i]
    decreases |ops|
  {
    var k := |ops| - 1;
    var init := ops[..k];
    if i < k {
      BudgetRemove(init, i);
      var rest := init[..i] + init[i + 1..];
      assert ops[..i] + ops[i + 1..] == rest + [ops[k]];
      BudgetPush(rest, ops[k]);
    } else {
      assert ops[..i] + ops[i + 1..] == init;
    }
  }

  lemma {:induction false} BudgetBounds(ops: seq<nat>)
    requires forall i :: 0 <= i < |ops| ==> ops[i] <= MAXOPBLOCKS
    ensures 0 <= Budget(ops) <= |ops| * MAXOPBLOCKS
    ensures forall i :: 0 <= i < |ops| ==> MAXOPBLOCKS - ops[i] <= Budget(ops)
    decreases |ops|
  {
    if ops != [] {
      BudgetBounds(ops[..|ops| - 1]);
    }
  }

  // Whatever the phase, the disk can be recovered, and this is the state it recovers to.
  lemma {:induction false} DiskIsGood(s: State)
    requires Inv(s)
    ensures GoodDisk(s.disk, s.start, s.size)
    ensures s.phase.Running? ==> Committed(s.disk, s.start, s.size) == Home(s.disk, s.start)
    ensures s.phase.Committing? ==>
              Committed(s.disk, s.start, s.size)
              == (if s.phase.done <= |s.sectors| then Home(s.phase.base, s.start) else Home(s.view, s.start))
  {
    match s.phase
    case Running => CommittedWhenClear(s.disk, s.start, s.size);
    case Committing(base, done) => CrashInCommit(base, s.view, s.start, s.size, s.sectors, done);
  }

  lemma {:induction false} RecordKeepsConsistent(s: State, i: nat, sector: Word, data: Block)
    requires Inv(s) && Enabled(s, WriteOp(i, sector, data))
    ensures s.phase.Running?
    ensures var r := LogWrite(s, i, sector, data);
            Consistent(r.disk, r.view, r.start, r.size, r.sectors)
  {
  }

  lemma {:induction false} NothingWritten(s: State)
    requires Consistent(s.disk, s.view, s.start, s.size, s.sectors)
    ensures CommitDisk(s.disk, s.view, s.start, s.size, s.sectors, 0) == s.disk
  {
    assert LogWrites(s.view, s.start, s.sectors)[..0] == [];
  }

  lemma {:induction false} EndKeepsInv(s: State, i: nat)
    requires Inv(s) && Enabled(s, EndOp(i))
    ensures Inv(End(s, i))
  {
    hide CommitDisk;
    BudgetRemove(s.ops, i);
    BudgetBounds(s.ops);
    NothingWritten(s);
  }

  lemma {:induction false} CommitStepKeepsInv(s: State)
    requires Inv(s) && s.phase.Committing?
    ensures Inv(Step(s, CommitStep))
  {
    hide Apply, Trace, FillHeader, GetWord, Overlay;
    var base := s.phase.base;
    if s.phase.done == CommitLength(s.sectors) {
      if s.sectors == [] {
        CrashInWriteLog(base, s.view, s.start, s.size, s.sectors, 0);
      } else {
        CommitCompletes(base, s.view, s.start, s.size, s.sectors);
      }
    }
  }

  // Every step keeps the log within its space and the cache in step with the disk.
  lemma {:induction false} StepKeepsInv(s: State, e: Event)
    requires Inv(s) && Enabled(s, e)
    ensures Inv(Step(s, e))
  {
    hide Apply, Trace, FillHeader, GetWord, Overlay, CommitDisk;
    match e
    case BeginOp =>
      BudgetBounds(s.ops);
      BudgetPush(s.ops, 0);
    case WriteOp(i, sector, data) =>
      RecordKeepsConsistent(s, i, sector, data);
      BudgetUpdate(s.ops, i);
    case EndOp(i) => EndKeepsInv(s, i);
    case CommitStep => CommitStepKeepsInv(s);
    case Crash(ks) =>
      DiskIsGood(s);
      RecoveryCompletes(Reboots(s.disk, s.start, s.size, ks), s.start, s.size);
  }

  // ----- Log space -----

  // With more log blocks than LOGSIZE, no log_write of an operation that is within its
  // budget panics.
  lemma {:induction false} NoLogPanic(s: State, i: nat, sector: Word)
    requires Inv(s) && WithinBudget(s, i, sector) && s.size > LOGSIZE
    ensures !WritePanics(s)
  {
    BudgetBounds(s.ops);
  }

  // Commit runs only when no operation is in progress, so end_op never finds it under way.
  lemma {:induction false} CommitRunsAlone(s: State)
    requires Inv(s) && s.phase.Committing?
    ensures s.ops == [] && !Admits(s)
    ensures forall e :: Enabled(s, e) ==> e.CommitStep? || e.Crash?
  {
  }

  // ----- Atomicity over whole runs -----

  // The step at which the transaction becomes durable: write_head of a non-empty log.
  ghost predicate IsCommitPoint(s: State, e: Event) {
    e == CommitStep && s.phase.Committing? && s.sectors != [] && s.phase.done == |s.sectors|
  }

  // One step changes what a crash would recover only at the commit point, and there it
  // changes it to the cached state, with no operation in progress.
  lemma {:induction false} StepIsAtomic(s: State, e: Event)
    requires Inv(s) && Enabled(s, e)
    ensures Inv(Step(s, e))
    ensures GoodDisk(s.disk, s.start, s.size) && GoodDisk(Step(s, e).disk, s.start, s.size)
    ensures Committed(Step(s, e).disk, s.start, s.size)
         == (if IsCommitPoint(s, e) then Home(s.view, s.start) else Committed(s.disk, s.start, s.size))
    ensures IsCommitPoint(s, e) ==> s.ops == []
    ensures e.Crash? ==> Home(Step(s, e).view, s.start) == Committed(s.disk, s.start, s.size)
  {
    hide Apply, Trace, FillHeader, GetWord, Overlay, CommitDisk;
    StepKeepsInv(s, e);
    DiskIsGood(s);
    DiskIsGood(Step(s, e));
    if e.Crash? {
      CrashesDuringRecovery(s.disk, s.start, s.size, e.reboots);
    }
    if e.CommitStep? && s.phase.done == CommitLength(s.sectors) && s.sectors == [] {
      ConsistentWhenEmpty(s);
    }
  }

  // An empty transaction leaves nothing to write.
  lemma {:induction false} ConsistentWhenEmpty(s: State)
    requires Inv(s) && s.phase.Committing? && s.sectors == []
    ensures s.disk == s.phase.base == s.view
  {
    NothingWritten(s.(disk := s.phase.base));
  }

  // A run is a list of steps, each enabled when its turn comes.
  ghost predicate IsRun(s: State, es: seq<Event>)
    requires Inv(s)
    decreases |es|, 0
  {
    es == [] || (
      && IsRun(s, es[..|es| - 1])
      && Enabled(After(s, es[..|es| - 1]), es[|es| - 1]))
  }

  ghost function After(s: State, es: seq<Event>): (r: State)
    requires Inv(s) && IsRun(s, es)
    ensures Inv(r) && r.start == s.start && r.size == s.size
    decreases |es|, 1
  {
    if es == [] then s
    else
      var t := After(s, es[..|es| - 1]);
      StepKeepsInv(t, es[|es| - 1]);
      Step(t, es[|es| - 1])
  }

  lemma {:induction false} RunPrefix(s: State, es: seq<Event>, k: nat)
    requires Inv(s) && IsRun(s, es) && k <= |es|
    ensures IsRun(s, es[..k])
    decreases |es|
  {
    hide Step, Enabled, Inv;
    if k < |es| {
      RunPrefix(s, es[..|es| - 1], k);
      assert es[..|es| - 1][..k] == es[..k];
    } else {
      assert es[..k] == es;
    }
  }

  // After k steps no operation is in progress, and home is the cached content at that moment.
  ghost predicate QuietAt(s: State, es: seq<Event>, k: nat, home: Disk)
    requires Inv(s) && IsRun(s, es)
  {
    && k <= |es| && IsRun(s, es[..k])
    && After(s, es[..k]).ops == []
    && home == Home(After(s, es[..k]).view, s.start)
  }

  // The number of steps before the last commit point; 0 if there was none.
  ghost function LastCommit(s: State, es: seq<Event>): (k: nat)
    requires Inv(s) && IsRun(s, es)
    ensures k <= |es| && IsRun(s, es[..k])
    decreases |es|
  {
    if es == [] then 0
    else if IsCommitPoint(After(s, es[..|es| - 1]), es[|es| - 1]) then |es| - 1
    else
      var k := LastCommit(s, es[..|es| - 1]);
      assert es[..|es| - 1][..k] == es[..k];
      k
  }

  // The main theorem. Take any interleaving of any number of operations, commits and crashes
  // that starts from an idle system. What a crash would recover now is the cached content at
  // the last commit point, when no operation was in progress: never part of an operation,
  // and never older than the last commit.
  lemma {:induction false} OperationsAreAtomic(s: State, es: seq<Event>)
    requires Inv(s) && IsRun(s, es) && s.phase.Running? && s.ops == [] && s.sectors == []
    ensures GoodDisk(After(s, es).disk, s.start, s.size)
    ensures QuietAt(s, es, LastCommit(s, es), Committed(After(s, es).disk, s.start, s.size))
    decreases |es|
  {
    hide Step, IsCommitPoint, Recovered, Committed, GoodDisk, Home, Inv, Enabled;
    if es == [] {
      IdleIsCommitted(s);
    } else {
      var n := |es| - 1;
      var t := After(s, es[..n]);
      OperationsAreAtomic(s, es[..n]);
      StepIsAtomic(t, es[n]);
      if !IsCommitPoint(t, es[n]) {
        assert es[..n][..LastCommit(s, es[..n])] == es[..LastCommit(s, es[..n])];
      }
    }
  }

  lemma {:induction false} IdleIsCommitted(s: State)
    requires Inv(s) && s.phase.Running? && s.sectors == []
    ensures GoodDisk(s.disk, s.start, s.size) && Committed(s.disk, s.start, s.size) == Home(s.view, s.start)
  {
    DiskIsGood(s);
    assert s.view == s.disk;
  }

  // ----- Durability -----

  // Step j is the end_op that starts a commit, which runs to its end, before step m.
  ghost predicate CommitsFrom(s: State, es: seq<Event>, j: nat, m: nat)
    requires Inv(s) && IsRun(s, es)
  {
    && j < m <= |es| && IsRun(s, es[..j + 1]) && IsRun(s, es[..m])
    && es[j].EndOp? && After(s, es[..j + 1]).phase.Committing?
    && (forall i :: j < i < m ==> es[i] == CommitStep)
    && After(s, es[..m]).phase.Running?
  }

  // While a commit runs the cache does not change.
  lemma {:induction false} CommitKeepsView(s: State, es: seq<Event>, j: nat, i: nat)
    requires Inv(s) && IsRun(s, es) && j < i <= |es|
    requires IsRun(s, es[..j + 1]) && After(s, es[..j + 1]).phase.Committing?
    requires IsRun(s, es[..i]) && After(s, es[..i]).phase.Committing?
    requires forall k :: j < k < i ==> es[k] == CommitStep
    ensures After(s, es[..i]).view == After(s, es[..j + 1]).view
    ensures After(s, es[..i]).sectors == After(s, es[..j + 1]).sectors
    decreases i
  {
    hide Inv, Step, Enabled;
    if j + 1 < i {
      RunStep(s, es, i - 1);
      CommitStepKeepsView(After(s, es[..i - 1]));
      CommitKeepsView(s, es, j, i - 1);
    }
  }

  lemma {:induction false} CommitStepKeepsView(t: State)
    requires Inv(t) && Enabled(t, CommitStep) && Step(t, CommitStep).phase.Committing?
    ensures t.phase.Committing? && Step(t, CommitStep).view == t.view && Step(t, CommitStep).sectors == t.sectors
  {
    hide CommitDisk, CommitLength;
  }

  // Step i of a run.
  lemma {:induction false} RunStep(s: State, es: seq<Event>, i: nat)
    requires Inv(s) && IsRun(s, es) && i < |es|
    ensures IsRun(s, es[..i]) && IsRun(s, es[..i + 1]) && Inv(After(s, es[..i])) && Enabled(After(s, es[..i]), es[i])
    ensures After(s, es[..i + 1]) == Step(After(s, es[..i]), es[i])
  {
    RunPrefix(s, es, i);
    RunPrefix(s, es, i + 1);
    assert es[..i + 1][..i] == es[..i];
  }

  // The last step of a commit leaves on disk what was in the cache.
  lemma {:induction false} LastStep(s: State)
    requires Inv(s) && s.phase.Committing? && Step(s, CommitStep).phase.Running?
    ensures Home(s.disk, s.start) == Home(s.view, s.start)
    ensures Step(s, CommitStep).disk == Step(s, CommitStep).view == s.disk
    ensures GoodDisk(Step(s, CommitStep).disk, s.start, s.size)
    ensures Committed(Step(s, CommitStep).disk, s.start, s.size) == Home(s.view, s.start)
  {
    hide CommitDisk;
    if s.sectors == [] {
      ConsistentWhenEmpty(s);
    } else {
      CommitCompletes(s.phase.base, s.view, s.start, s.size, s.sectors);
    }
    StepKeepsInv(s, CommitStep);
    DiskIsGood(Step(s, CommitStep));
  }

  // Once a commit has finished, a crash recovers the cached content at its start, with every
  // operation that had ended by then, until the next commit point; and no later crash goes
  // back behind it.
  lemma {:induction false} CommitIsDurable(s: State, es: seq<Event>, j: nat, m: nat)
    requires Inv(s) && IsRun(s, es) && s.phase.Running? && s.ops == [] && s.sectors == []
    requires CommitsFrom(s, es, j, m)
    ensures GoodDisk(After(s, es).disk, s.start, s.size) && LastCommit(s, es[..m]) <= LastCommit(s, es)
    ensures LastCommit(s, es) == LastCommit(s, es[..m]) ==>
              Committed(After(s, es).disk, s.start, s.size) == Home(After(s, es[..j + 1]).view, s.start)
  {
    hide CommitDisk, CommitLength, Committed, GoodDisk, Step, Home;
    OperationsAreAtomic(s, es);
    OperationsAreAtomic(s, es[..m]);
    LastCommitGrows(s, es, m);
    CommitEnds(s, es, j, m);
    assert es[..m][..LastCommit(s, es[..m])] == es[..LastCommit(s, es[..m])];
  }

  lemma {:induction false} CommitEnds(s: State, es: seq<Event>, j: nat, m: nat)
    requires Inv(s) && IsRun(s, es) && CommitsFrom(s, es, j, m)
    ensures GoodDisk(After(s, es[..m]).disk, s.start, s.size)
    ensures Committed(After(s, es[..m]).disk, s.start, s.size) == Home(After(s, es[..j + 1]).view, s.start)
  {
    hide CommitDisk, Committed, GoodDisk, Step, Inv, IsRun, Home;
    assert m > j + 1;
    RunStep(s, es, m - 1);
    var t := After(s, es[..m - 1]);
    CommitKeepsView(s, es, j, m - 1);
    LastStep(t);
  }

  lemma {:induction false} LastCommitGrows(s: State, es: seq<Event>, m: nat)
    requires Inv(s) && IsRun(s, es) && m <= |es| && IsRun(s, es[..m])
    ensures LastCommit(s, es[..m]) <= LastCommit(s, es)
    decreases |es|
  {
    hide Inv;
    if m < |es| {
      assert es[..|es| - 1][..m] == es[..m];
      LastCommitGrows(s, es[..|es| - 1], m);
    } else {
      assert es[..m] == es;
    }
  }

  // ----- Which data are in the cache, and which a crash recovers -----

  // Told from the events alone: the system keeps two copies of every home block. A log_write
  // changes the cached one, a commit point makes the cached one the durable one, and a crash
  // makes the durable one the cached one.
  ghost function Cached(s: State, es: seq<Event>, x: nat): Block
    requires Inv(s) && IsRun(s, es) && x < |s.view|
    decreases |es|
  {
    if es == [] then s.view[x]
    else
      var init := es[..|es| - 1];
      match es[|es| - 1]
      case WriteOp(_, sector, data) => if sector == x then data else Cached(s, init, x)
      case Crash(_) => Durable(s, init, x)
      case _ => Cached(s, init, x)
  }

  ghost function Durable(s: State, es: seq<Event>, x: nat): Block
    requires Inv(s) && IsRun(s, es) && x < |s.view|
    decreases |es|
  {
    if es == [] then s.view[x]
    else
      var init := es[..|es| - 1];
      if IsCommitPoint(After(s, init), es[|es| - 1]) then Cached(s, init, x) else Durable(s, init, x)
  }

  lemma {:induction false} ViewSize(s: State)
    requires Inv(s)
    ensures |s.view| == |s.disk| == s.start + s.size
  {
  }

  // One step, home block by home block.
  lemma {:induction false} StepView(t: State, e: Event, x: nat)
    requires Inv(t) && Enabled(t, e) && x < t.start
    ensures Inv(Step(t, e)) && x < |Step(t, e).view| && x < |t.view| && GoodDisk(t.disk, t.start, t.size)
    ensures Step(t, e).view[x] ==
              match e
              case WriteOp(_, sector, data) => if sector == x then data else t.view[x]
              case Crash(_) => Committed(t.disk, t.start, t.size)[x]
              case _ => t.view[x]
  {
    hide CommitDisk, CommitLength, Committed, Recovered, Reboots;
    StepIsAtomic(t, e);
    var r := Step(t, e);
    ViewSize(t);
    ViewSize(r);
    match e
    case Crash(_) => assert r.view[x] == Home(r.view, t.start)[x];
    case CommitStep =>
      if r.phase.Running? {
        LastStep(t);
        assert r.view[x] == Home(t.disk, t.start)[x] == Home(t.view, t.start)[x];
      }
    case _ =>
  }

  // Over every run from an idle state, cache and recoverable disk are those two copies.
  lemma {:induction false} RunKeepsTwoCopies(s: State, es: seq<Event>, x: nat)
    requires Inv(s) && IsRun(s, es) && s.phase.Running? && s.sectors == [] && x < s.start
    ensures x < |s.view| == |After(s, es).view| && GoodDisk(After(s, es).disk, s.start, s.size)
    ensures After(s, es).view[x] == Cached(s, es, x)
    ensures Committed(After(s, es).disk, s.start, s.size)[x] == Durable(s, es, x)
    decreases |es|
  {
    hide Inv, Step, Enabled, IsCommitPoint, Committed, GoodDisk;
    ViewSize(s);
    ViewSize(After(s, es));
    if es == [] {
      IdleIsCommitted(s);
    } else {
      var n := |es| - 1;
      var t := After(s, es[..n]);
      RunKeepsTwoCopies(s, es[..n], x);
      ViewSize(t);
      StepView(t, es[n], x);
      StepIsAtomic(t, es[n]);
    }
  }

  datatype Option<T> = None | Some(value: T)

  // The data of the last log_write of sector x since the last crash.
  function LastWrite(es: seq<Event>, x: nat): Option<Block>
    decreases |es|
  {
    if es == [] then None
    else
      match es[|es| - 1]
      case WriteOp(_, sector, data) => if sector == x then Some(data) else LastWrite(es[..|es| - 1], x)
      case Crash(_) => None
      case _ => LastWrite(es[..|es| - 1], x)
  }

  lemma {:induction false} LastWriteIsCached(s: State, es: seq<Event>, x: nat)
    requires Inv(s) && IsRun(s, es) && x < |s.view| && LastWrite(es, x).Some?
    ensures Cached(s, es, x) == LastWrite(es, x).value
    decreases |es|
  {
    hide Inv, Step, Enabled, Durable;
    var e := es[|es| - 1];
    if !e.Crash? && !(e.WriteOp? && e.sector == x) {
      LastWriteIsCached(s, es[..|es| - 1], x);
    }
  }

  // What is in the log has been written since the last crash.
  lemma {:induction false} LoggedWasWritten(s: State, es: seq<Event>, x: nat)
    requires Inv(s) && IsRun(s, es) && s.sectors == [] && x in After(s, es).sectors
    ensures LastWrite(es, x).Some?
    decreases |es|
  {
    hide Inv, Enabled, CommitDisk, CommitLength, Recovered, Reboots;
    var t, e := After(s, es[..|es| - 1]), es[|es| - 1];
    if !(e.WriteOp? && e.sector == x) {
      assert x in t.sectors;
      LoggedWasWritten(s, es[..|es| - 1], x);
    }
  }

  // At a commit point every sector in the log becomes durable with the data of its last
  // log_write, however often it was written, and every other block stays as it was.
  lemma {:induction false} CommitTakesLastWrites(s: State, es: seq<Event>, x: nat)
    requires Inv(s) && IsRun(s, es) && s.phase.Running? && s.sectors == [] && x < s.start
    requires es != [] && IsCommitPoint(After(s, es[..|es| - 1]), es[|es| - 1])
    ensures var t, r := After(s, es[..|es| - 1]), After(s, es);
            && GoodDisk(t.disk, s.start, s.size) && GoodDisk(r.disk, s.start, s.size)
            && if x in t.sectors then LastWrite(es, x) == Some(Committed(r.disk, s.start, s.size)[x])
               else Committed(r.disk, s.start, s.size)[x] == Committed(t.disk, s.start, s.size)[x]
  {
    hide Inv, Step, Enabled, Committed, GoodDisk, CommitDisk;
    var n := |es| - 1;
    var t := After(s, es[..n]);
    RunKeepsTwoCopies(s, es[..n], x);
    RunKeepsTwoCopies(s, es, x);
    StepIsAtomic(t, es[n]);
    if x in t.sectors {
      LoggedWasWritten(s, es[..n], x);
      LastWriteIsCached(s, es[..n], x);
    } else {
      NotLogged(t, x);
      ViewSize(t);
      assert Home(t.view, s.start)[x] == t.view[x];
    }
  }

  lemma {:induction false} NotLogged(t: State, x: nat)
    requires Inv(t) && t.phase.Committing? && t.phase.done <= |t.sectors| && x < t.start && x !in t.sectors
    ensures GoodDisk(t.disk, t.start, t.size) && x < |t.view| && Committed(t.disk, t.start, t.size)[x] == t.view[x]
  {
    hide CommitDisk, Committed, GoodDisk;
    DiskIsGood(t);
    assert Home(t.phase.base, t.start)[x] == t.phase.base[x];
  }

  // ----- The log size that mkfs chooses is too small -----

  // Log calls of operation i after j calls, when each operation makes ten in turn.
  function Used(j: nat, i: nat): nat {
    if j <= MAXOPBLOCKS * i then 0
    else if j >= MAXOPBLOCKS * (i + 1) then MAXOPBLOCKS
    else j - MAXOPBLOCKS * i
  }

  // Three operations begin and then log the sectors 0, 1, .., j - 1.
  function Fill(b: Block, j: nat): seq<Event>
    requires j <= LOGSIZE
  {
    if j == 0 then [BeginOp, BeginOp, BeginOp]
    else Fill(b, j - 1) + [WriteOp((j - 1) / MAXOPBLOCKS, j - 1, b)]
  }

  lemma {:induction false} RunAppend(s: State, es: seq<Event>, e: Event)
    requires Inv(s) && IsRun(s, es) && Enabled(After(s, es), e)
    ensures IsRun(s, es + [e]) && After(s, es + [e]) == Step(After(s, es), e)
  {
    assert (es + [e])[..|es|] == es;
  }

  lemma {:induction false} ThreeBegin(s: State, b: Block)
    requires Inv(s) && s.phase.Running? && s.ops == [] && s.sectors == []
    ensures IsRun(s, Fill(b, 0))
    ensures After(s, Fill(b, 0)) == s.(ops := [0, 0, 0])
  {
    RunAppend(s, [], BeginOp);
    assert [] + [BeginOp] == [BeginOp];
    RunAppend(s, [BeginOp], BeginOp);
    assert [BeginOp] + [BeginOp] == [BeginOp, BeginOp];
    RunAppend(s, [BeginOp, BeginOp], BeginOp);
    assert Fill(b, 0) == [BeginOp, BeginOp] + [BeginOp];
  }

  // Sectors 0 to j - 1 are in the log.
  ghost predicate Filled(t: State, j: nat) {
    && |t.sectors| == j && (forall x :: x in t.sectors ==> x < j)
    && t.ops == [Used(j, 0), Used(j, 1), Used(j, 2)]
  }

  lemma {:induction false} FillStep(t: State, b: Block, j: nat)
    requires Inv(t) && Filled(t, j) && j < t.size - 1 && j < LOGSIZE <= t.start
    ensures Enabled(t, WriteOp(j / MAXOPBLOCKS, j, b))
    ensures Filled(LogWrite(t, j / MAXOPBLOCKS, j, b), j + 1)
  {
    hide Inv;
    var i := j / MAXOPBLOCKS;
    assert i == 0 || i == 1 || i == 2;
  }

  lemma {:induction false} FillRuns(s: State, b: Block, j: nat)
    requires Inv(s) && s.phase.Running? && s.ops == [] && s.sectors == []
    requires j < s.size && j < LOGSIZE <= s.start
    ensures IsRun(s, Fill(b, j)) && Filled(After(s, Fill(b, j)), j)
  {
    hide Inv;
    if j == 0 {
      ThreeBegin(s, b);
    } else {
      FillRuns(s, b, j - 1);
      FillStep(After(s, Fill(b, j - 1)), b, j - 1);
      RunAppend(s, Fill(b, j - 1), WriteOp((j - 1) / MAXOPBLOCKS, j - 1, b));
    }
  }

  lemma {:induction false} FullPanics(t: State, j: nat)
    requires Filled(t, j) && t.size - 1 <= j < LOGSIZE <= t.start
    ensures WithinBudget(t, j / MAXOPBLOCKS, j) && WritePanics(t)
  {
    var i := j / MAXOPBLOCKS;
    assert i == 0 || i == 1 || i == 2;
  }

  // With a log of at most LOGSIZE blocks, the header included, three operations that keep
  // to their budgets can reach a log_write that panics. mkfs builds such an image.
  lemma {:induction false} SmallLogPanics(s: State, b: Block) returns (es: seq<Event>, i: nat, sector: Word)
    requires Inv(s) && s.phase.Running? && s.ops == [] && s.sectors == []
    requires s.size <= LOGSIZE <= s.start
    ensures IsRun(s, es) && WithinBudget(After(s, es), i, sector) && WritePanics(After(s, es))
  {
    assert s.size > 0;
    hide Inv, Fill, IsRun, After, Filled, WithinBudget, WritePanics;
    var j := s.size - 1;
    FillRuns(s, b, j);
    FullPanics(After(s, Fill(b, j)), j);
    es, i, sector := Fill(b, j), j / MAXOPBLOCKS, j;
  }
}
