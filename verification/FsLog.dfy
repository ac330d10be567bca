// The file system of fs.c over the log of log.c: after any crash the disk holds a whole file
// system, with the files of the last commit.
module FsLog {
  import opened Blocks
  import Log
  import LogOps
  import opened FsState
  import opened FsBlocks
  import opened FsFiles

  // The blocks hold a file system in which every file is in order and on disk.
  ghost predicate HoldsFiles(g: Super, view: seq<Block>) {
    |view| == g.size && exists inodes: seq<Inode>, owner: Owners :: Settled(g, State(view, inodes), owner)
  }

  // What is a file system on view is one on w, with the same files.
  ghost predicate SameImage(g: Super, view: seq<Block>, w: seq<Block>) {
    forall inodes: seq<Inode>, owner: Owners :: Settled(g, State(view, inodes), owner) ==>
      && Settled(g, State(w, inodes), owner)
      && forall i :: 0 <= i < |inodes| ==> inodes[i].size <= MAXFILE * BSIZE && Contents(State(w, inodes), i) == Contents(State(view, inodes), i)
  }

  // The blocks of the log are not part of the file system.
  lemma {:induction false} LogNotSeen(g: Super, view: seq<Block>, w: seq<Block>)
    requires |view| == |w| && g.nlog <= |view| && |view| == g.size
    requires view[..g.size - g.nlog] == w[..g.size - g.nlog]
    ensures SameImage(g, view, w)
  {
    forall inodes: seq<Inode>, owner: Owners | Settled(g, State(view, inodes), owner)
      ensures Settled(g, State(w, inodes), owner)
      ensures forall i :: 0 <= i < |inodes| ==>
                inodes[i].size <= MAXFILE * BSIZE && Contents(State(w, inodes), i) == Contents(State(view, inodes), i)
    {
      SettledByHome(g, view, w, inodes, owner);
    }
  }

  lemma {:induction false} SettledByHome(g: Super, view: seq<Block>, w: seq<Block>, inodes: seq<Inode>, owner: Owners)
    requires Settled(g, State(view, inodes), owner) && |w| == |view|
    requires g.nlog <= |view| && view[..g.size - g.nlog] == w[..g.size - g.nlog]
    ensures Settled(g, State(w, inodes), owner)
    ensures forall i :: 0 <= i < |inodes| ==>
              inodes[i].size <= MAXFILE * BSIZE && Contents(State(w, inodes), i) == Contents(State(view, inodes), i)
  {
    hide Addr, FileBlock, Contents, DiskInode;
    var s, t := State(view, inodes), State(w, inodes);
    SameHome(g, s, t, owner);
    SameGood(g, s, t, owner);
    forall i | 0 <= i < |inodes|
      ensures Shaped(t, i) && OnDisk(g, t, i) && inodes[i].size <= MAXFILE * BSIZE && Contents(t, i) == Contents(s, i)
    {
      assert Shaped(s, i) && OnDisk(g, s, i);
      MetaBlocks(g, i);
      SameInode(g, s, t, owner, i);
    }
  }

  // Blocks owned by files, bitmap blocks and inode blocks lie below the log.
  lemma {:induction false} SameHome(g: Super, s: State, t: State, owner: Owners)
    requires Good(g, s, owner) && |t.view| == |s.view| && t.inodes == s.inodes
    requires s.view[..g.size - g.nlog] == t.view[..g.size - g.nlog]
    ensures SameFiles(g, s, t, owner)
    ensures forall i :: 0 <= i < g.DataStart() ==> t.view[i] == s.view[i]
  {
    var n := g.size - g.nlog;
    forall a | 0 <= a < n ensures s.view[a] == t.view[a] {
      assert s.view[..n][a] == t.view[..n][a];
    }
    forall a | a in owner ensures a < n {
      assert !g.Reserved(a);
    }
  }

  lemma {:induction false} SameInode(g: Super, s: State, t: State, owner: Owners, i: nat)
    requires Good(g, s, owner) && SameFiles(g, s, t, owner) && t.inodes == s.inodes && i < |s.inodes|
    requires Shaped(s, i) && OnDisk(g, s, i)
    requires g.InodeBlock(i) < |t.view| && t.view[g.InodeBlock(i)] == s.view[g.InodeBlock(i)]
    ensures Shaped(t, i) && OnDisk(g, t, i) && Contents(t, i) == Contents(s, i)
  {
    hide Addr, FileBlock, Good, SameFiles;
    forall k | 0 <= k < SLOTS ensures Addr(t, i, k) == Addr(s, i, k) {
      SameAddr(g, s, t, owner, i, k);
    }
    forall bn | 0 <= bn < MAXFILE ensures FileBlock(t, i, bn) == FileBlock(s, i, bn) {
      SameFileBlock(g, s, t, owner, i, bn);
    }
    SameContents(s, t, i);
  }

  // ----- Runs of the log -----

  predicate IsOperation(e: LogOps.Event) {
    e.BeginOp? || e.WriteOp? || e.EndOp?
  }

  // Whatever operations run between two moments at which none is in progress, without a commit
  // or a crash among them, keep the cached blocks a file system.
  ghost predicate OperationsKeepFiles(g: Super, s: LogOps.State, es: seq<LogOps.Event>)
    requires LogOps.Inv(s) && LogOps.IsRun(s, es)
  {
    forall k: nat, m: nat ::
      k <= m <= |es| && LogOps.IsRun(s, es[..k]) && LogOps.IsRun(s, es[..m])
      && (forall i :: k <= i < m ==> IsOperation(es[i]))
      && LogOps.After(s, es[..k]).ops == [] && LogOps.After(s, es[..m]).ops == []
      && HoldsFiles(g, LogOps.After(s, es[..k]).view)
      ==> HoldsFiles(g, LogOps.After(s, es[..m]).view)
  }

  // The layout: the log is the end of the disk.
  predicate Layout(g: Super, s: LogOps.State) {
    s.start + s.size == g.size && s.size == g.nlog
  }

  ghost predicate Idle(s: LogOps.State) {
    s.phase.Running? && s.ops == [] && s.sectors == []
  }

  // The number of steps up to the last commit step or crash: no operation was in progress then.
  ghost function LastQuiet(es: seq<LogOps.Event>): (k: nat)
    ensures k <= |es| && forall i :: k <= i < |es| ==> IsOperation(es[i])
  {
    if es == [] || !IsOperation(es[|es| - 1]) then |es| else LastQuiet(es[..|es| - 1])
  }

  lemma {:induction false} QuietThere(s: LogOps.State, es: seq<LogOps.Event>)
    requires LogOps.Inv(s) && LogOps.IsRun(s, es) && Idle(s)
    ensures LogOps.IsRun(s, es[..LastQuiet(es)]) && LogOps.After(s, es[..LastQuiet(es)]).ops == []
    decreases |es|
  {
    var n := |es| - 1;
    if es == [] {
      assert es[..0] == es;
    } else if IsOperation(es[n]) {
      QuietThere(s, es[..n]);
      assert es[..n][..LastQuiet(es[..n])] == es[..LastQuiet(es[..n])];
    } else {
      assert es[..|es|] == es;
      NoOperationAfter(LogOps.After(s, es[..n]), es[n]);
    }
  }

  lemma {:induction false} NoOperationAfter(t: LogOps.State, e: LogOps.Event)
    requires LogOps.Inv(t) && LogOps.Enabled(t, e) && !IsOperation(e)
    ensures LogOps.Step(t, e).ops == []
    ensures e.CommitStep? ==> t.ops == []
  {
    hide Log.CommitDisk;
  }

  // A commit step leaves the file system in the cache alone.
  lemma {:induction false} CommitStepKeeps(g: Super, t: LogOps.State)
    requires LogOps.Inv(t) && t.phase.Committing? && Layout(g, t) && HoldsFiles(g, t.view)
    ensures HoldsFiles(g, LogOps.Step(t, LogOps.CommitStep).view)
  {
    hide Log.CommitDisk, HoldsFiles;
    var r := LogOps.Step(t, LogOps.CommitStep);
    LogOps.StepKeepsInv(t, LogOps.CommitStep);
    if r.phase.Running? {
      LogOps.LastStep(t);
      ViewSize(t);
      ViewSize(r);
      SameHomeHolds(g, t.view, r.view);
    }
  }

  lemma {:induction false} ViewSize(t: LogOps.State)
    requires LogOps.Inv(t)
    ensures |t.view| == |t.disk| == t.start + t.size
  {
  }

  lemma {:induction false} GoodSize(d: Log.Disk, start: nat, size: nat)
    requires Log.GoodDisk(d, start, size)
    ensures |d| == start + size
  {
  }

  lemma {:induction false} SameHomeHolds(g: Super, view: seq<Block>, w: seq<Block>)
    requires HoldsFiles(g, view) && |w| == g.size && g.nlog <= g.size
    requires view[..g.size - g.nlog] == w[..g.size - g.nlog]
    ensures HoldsFiles(g, w)
  {
    LogNotSeen(g, view, w);
    var inodes, owner :| Settled(g, State(view, inodes), owner);
    assert Settled(g, State(w, inodes), owner);
  }

  // Whenever no operation is in progress, the cached blocks are a file system.
  lemma {:induction false} QuietHoldsFiles(g: Super, s: LogOps.State, es: seq<LogOps.Event>)
    requires LogOps.Inv(s) && LogOps.IsRun(s, es) && Idle(s) && Layout(g, s)
    requires HoldsFiles(g, s.view) && OperationsKeepFiles(g, s, es)
    requires LogOps.After(s, es).ops == []
    ensures HoldsFiles(g, LogOps.After(s, es).view)
    decreases |es|
  {
    hide HoldsFiles, LogOps.Inv, LogOps.Step, Log.Home, Log.Committed, LogOps.LastCommit;
    if es != [] {
      var n := |es| - 1;
      LogOps.RunStep(s, es, n);
      assert es[..|es|] == es;
      var t := LogOps.After(s, es[..n]);
      if IsOperation(es[n]) {
        var k := LastQuiet(es);
        QuietThere(s, es);
        PrefixKeeps(g, s, es, k);
        QuietHoldsFiles(g, s, es[..k]);
      } else {
        NoOperationAfter(t, es[n]);
        PrefixKeeps(g, s, es, n);
        if es[n].CommitStep? {
          QuietHoldsFiles(g, s, es[..n]);
          CommitStepKeeps(g, t);
        } else {
          var c := LogOps.LastCommit(s, es[..n]);
          LogOps.OperationsAreAtomic(s, es[..n]);
          assert es[..n][..c] == es[..c];
          PrefixKeeps(g, s, es, c);
          QuietHoldsFiles(g, s, es[..c]);
          CrashRestores(g, s, es, n, c);
        }
      }
    }
  }

  lemma {:induction false} PrefixKeeps(g: Super, s: LogOps.State, es: seq<LogOps.Event>, n: nat)
    requires LogOps.Inv(s) && LogOps.IsRun(s, es) && n <= |es| && LogOps.IsRun(s, es[..n])
    requires OperationsKeepFiles(g, s, es)
    ensures OperationsKeepFiles(g, s, es[..n])
  {
    hide HoldsFiles, LogOps.Inv, LogOps.IsRun, LogOps.After, IsOperation;
    forall k: nat, m: nat |
      k <= m <= n && LogOps.IsRun(s, es[..n][..k]) && LogOps.IsRun(s, es[..n][..m])
      && (forall i :: k <= i < m ==> IsOperation(es[..n][i]))
      && LogOps.After(s, es[..n][..k]).ops == [] && LogOps.After(s, es[..n][..m]).ops == []
      && HoldsFiles(g, LogOps.After(s, es[..n][..k]).view)
      ensures HoldsFiles(g, LogOps.After(s, es[..n][..m]).view)
    {
      assert es[..n][..k] == es[..k] && es[..n][..m] == es[..m];
      assert forall i :: k <= i < m ==> es[i] == es[..n][i];
    }
  }

  // A crash at step n puts the home blocks of the last commit point c back.
  lemma {:induction false} CrashRestores(g: Super, s: LogOps.State, es: seq<LogOps.Event>, n: nat, c: nat)
    requires LogOps.Inv(s) && LogOps.IsRun(s, es) && Layout(g, s) && c <= n < |es| && es[n].Crash?
    requires LogOps.IsRun(s, es[..c]) && LogOps.IsRun(s, es[..n]) && LogOps.IsRun(s, es[..n + 1])
    requires LogOps.After(s, es[..n + 1]) == LogOps.Step(LogOps.After(s, es[..n]), es[n])
    requires LogOps.Enabled(LogOps.After(s, es[..n]), es[n])
    requires Log.GoodDisk(LogOps.After(s, es[..n]).disk, s.start, s.size)
    requires LogOps.QuietAt(s, es[..n], c, Log.Committed(LogOps.After(s, es[..n]).disk, s.start, s.size))
    requires HoldsFiles(g, LogOps.After(s, es[..c]).view)
    ensures HoldsFiles(g, LogOps.After(s, es[..n + 1]).view)
  {
    hide HoldsFiles, LogOps.Step, Log.Committed, Log.GoodDisk, LogOps.Inv;
    assert es[..n][..c] == es[..c];
    var t, v, r := LogOps.After(s, es[..n]), LogOps.After(s, es[..c]), LogOps.After(s, es[..n + 1]);
    LogOps.StepIsAtomic(t, es[n]);
    ViewSize(v);
    ViewSize(r);
    SameHomeHolds(g, v.view, r.view);
  }

  // Take any run that starts with a file system, whose operations keep one. At any moment, what
  // a crash and a recovery, however often interrupted, would leave on the disk is a file system
  // in order, with exactly the files of the last commit.
  lemma {:induction false} FilesSurviveCrashes(g: Super, s: LogOps.State, es: seq<LogOps.Event>, ks: seq<nat>)
    requires LogOps.Inv(s) && LogOps.IsRun(s, es) && Idle(s) && Layout(g, s)
    requires HoldsFiles(g, s.view) && OperationsKeepFiles(g, s, es)
    ensures Log.GoodDisk(LogOps.After(s, es).disk, s.start, s.size)
    ensures var d := Log.Recovered(Log.Reboots(LogOps.After(s, es).disk, s.start, s.size, ks), s.start, s.size);
            && HoldsFiles(g, d)
            && LogOps.After(s, es[..LogOps.LastCommit(s, es)]).ops == []
            && SameImage(g, LogOps.After(s, es[..LogOps.LastCommit(s, es)]).view, d)
  {
    hide HoldsFiles, SameImage, LogOps.Step, Log.Committed, Log.GoodDisk, LogOps.Inv, Log.Recovered, Log.Reboots, LogOps.LastCommit;
    var c := LogOps.LastCommit(s, es);
    var t, v := LogOps.After(s, es), LogOps.After(s, es[..c]);
    LogOps.OperationsAreAtomic(s, es);
    PrefixKeeps(g, s, es, c);
    QuietHoldsFiles(g, s, es[..c]);
    Log.CrashesDuringRecovery(t.disk, s.start, s.size, ks);
    var d := Log.Recovered(Log.Reboots(t.disk, s.start, s.size, ks), s.start, s.size);
    ViewSize(v);
    GoodSize(Log.Reboots(t.disk, s.start, s.size, ks), s.start, s.size);
    SameHomeHolds(g, v.view, d);
    LogNotSeen(g, v.view, d);
  }
}
