// log.c as it runs: the global `log` structure, the cached view of the disk and the disk
// itself are updated step by step. The ghost trace lists the disk after every block write,
// so that a crash between any two of them is one element of the trace.
module LogCode {
  import opened Blocks
  import opened Log
  import LogOps

  // Word 0 counts the sectors, the following words name them, and the rest is that of old_.
  ghost predicate IsHeader(b: Block, old_: Block, sectors: seq<Word>) {
    && |sectors| < WORDS && GetWord(b, 0) == |sectors|
    && (forall i :: 0 <= i < |sectors| ==> GetWord(b, i + 1) == sectors[i])
    && (forall k: nat :: |sectors| < k < WORDS ==> GetWord(b, k) == GetWord(old_, k))
  }

  class LogDevice {
    const start: nat // sector of the header block; also the number of home sectors
    const size: nat // log.size
    var disk: Disk
    var view: Disk // what bread returns for each sector
    var outstanding: nat
    var committing: bool
    var n: nat // log.lh.n
    const sector: array<Word> // log.lh.sector
    ghost var trace: seq<Disk>
    ghost var ops: seq<nat> // log_write calls of each operation in progress

    ghost predicate Shape()
      reads this, sector
    {
      && sector.Length == LOGSIZE && n <= LOGSIZE
      && start + size == |disk| == |view| && 0 < size
    }

    function Logged(): (r: seq<Word>)
      requires n <= sector.Length
      reads this`n, sector
      ensures |r| == n
    {
      sector[..n]
    }

    // Between commits: log and cache are in step.
    ghost predicate Valid()
      reads this, sector
    {
      Shape() && Consistent(disk, view, start, size, Logged())
    }

    // The same state in the terms of the transition system.
    ghost function Abs(): LogOps.State
      requires n <= sector.Length
      reads this, sector
    {
      LogOps.State(start, size, disk, view, Logged(), ops, LogOps.Running)
    }

    // initlog with the image d; the cache starts empty.
    constructor (d: Disk, start: nat, size: nat)
      requires GoodDisk(d, start, size)
      ensures this.start == start && this.size == size
      ensures Valid() && n == 0 && outstanding == |ops| == 0 && !committing
      ensures view == disk == Recovered(d, start, size)
      ensures Home(disk, start) == Committed(d, start, size)
      ensures trace == Trace(d, RecoverWrites(d, start))
    {
      hide Apply, Trace, GetWord, Overlay, FillHeader, RecoverWrites, Recovered;
      this.start, this.size := start, size;
      disk, view, trace, ops := d, d, [], [];
      outstanding, committing, n := 0, false, 0;
      sector := new Word[LOGSIZE](i => 0);
      new;
      RecoverFromLog();
    }

    // One pass through begin_op's loop: the caller enters, or sleeps and tries again.
    method BeginOp() returns (admitted: bool)
      requires Valid() && outstanding == |ops|
      modifies this`outstanding, this`ops
      ensures Valid() && outstanding == |ops|
      ensures admitted <==> !committing && n + (old(outstanding) + 1) * MAXOPBLOCKS <= LOGSIZE
      ensures ops == if admitted then old(ops) + [0] else old(ops)
      ensures admitted <==> !committing && LogOps.Admits(old(Abs()))
      ensures Abs() == (if admitted then LogOps.Begin(old(Abs())) else old(Abs()))
    {
      if committing {
        admitted := false;
      } else if n + (outstanding + 1) * MAXOPBLOCKS > LOGSIZE {
        admitted := false; // with one more full budget the log would not suffice
      } else {
        outstanding := outstanding + 1;
        ops := ops + [0];
        admitted := true;
      }
    }

    // log_write of a buffer for sector s that the caller has changed to b. op is the caller.
    method LogWrite(ghost op: nat, s: Word, b: Block) returns (panics: bool)
      requires Valid() && outstanding == |ops|
      requires s < start && (outstanding > 0 ==> op < |ops|)
      modifies this`n, this`view, this`ops, sector
      ensures Valid() && outstanding == |ops|
      ensures panics <==> old(n) >= LOGSIZE || old(n) >= size - 1 || outstanding < 1
      // the cache holds b, and the sector is in the log, once
      ensures !panics ==> view == old(view)[s := b] && s in Logged()
      ensures !panics ==> Logged() == if s in old(Logged()) then old(Logged()) else old(Logged()) + [s]
      ensures !panics ==> ops == old(ops)[op := old(ops)[op] + 1]
      ensures panics <==> LogOps.WritePanics(old(Abs()))
      ensures Abs() == (if panics then old(Abs()) else LogOps.LogWrite(old(Abs()), op, s, b))
    {
      if n >= LOGSIZE || n >= size - 1 {
        return true; // no room in the log
      }
      if outstanding < 1 {
        return true; // no operation in progress
      }
      var i := 0;
      while i < n
        invariant i <= n && s !in Logged()[..i]
      {
        if sector[i] == s { // logged already
          break;
        }
        assert Logged()[..i + 1] == Logged()[..i] + [sector[i]];
        i := i + 1;
      }
      assert Logged()[..n] == Logged();
      sector[i] := s;
      if i == n {
        n := n + 1;
      }
      view := view[s := b];
      ops := ops[op := ops[op] + 1];
      assert Logged() == LogOps.Record(old(Logged()), s);
      return false;
    }

    // end_op: the last operation out commits. The commit runs without the lock, but with
    // `committing` set no begin_op goes through.
    method EndOp(ghost op: nat)
      requires Valid() && outstanding == |ops| && op < |ops| && !committing
      modifies this`outstanding, this`committing, this`ops, this`disk, this`view, this`trace, this`n
      ensures Valid() && outstanding == |ops| == |old(ops)| - 1 && !committing
      ensures ops == old(ops)[..op] + old(ops)[op + 1..]
      ensures outstanding > 0 ==> disk == old(disk) && view == old(view) && Logged() == old(Logged())
      ensures outstanding > 0 ==> Abs() == LogOps.End(old(Abs()), op) && trace == old(trace)
      ensures outstanding == 0 ==> n == 0 && view == disk && Home(disk, start) == Home(old(view), start)
      ensures outstanding == 0 && old(n) > 0 ==>
                trace == old(trace) + CommitTrace(old(disk), old(view), start, size, old(Logged()))
      ensures outstanding == 0 && old(n) == 0 ==> disk == old(disk) && trace == old(trace)
    {
      hide Apply, Trace, GetWord, Overlay, FillHeader, CommitTrace;
      var doCommit := false;
      outstanding := outstanding - 1;
      ops := ops[..op] + ops[op + 1..];
      if outstanding == 0 {
        doCommit := true;
        committing := true;
      }
      if doCommit {
        Commit();
        committing := false;
      }
    }

    // bwrite of a buffer that holds b: cache and disk both change.
    method Bwrite(s: nat, b: Block)
      requires Shape() && s < |disk|
      modifies this`disk, this`view, this`trace
      ensures disk == old(disk)[s := b] && view == old(view)[s := b]
      ensures trace == old(trace) + [disk]
    {
      disk, view := disk[s := b], view[s := b];
      trace := trace + [disk];
    }

    // The cached content of the i-th logged sector goes to log block i.
    method WriteLog()
      requires Shape() && GoodSectors(Logged(), start, size)
      modifies this`disk, this`view, this`trace
      ensures Shape() && InRange(LogWrites(old(view), start, Logged()), |disk|)
      ensures disk == Apply(old(disk), LogWrites(old(view), start, Logged()))
      ensures view == Apply(old(view), LogWrites(old(view), start, Logged()))
      ensures trace == old(trace) + Trace(old(disk), LogWrites(old(view), start, Logged()))
      ensures forall i :: 0 <= i < n ==> disk[start + 1 + i] == old(view)[Logged()[i]]
      ensures forall x :: 0 <= x < |disk| && !(start < x <= start + n) ==> disk[x] == old(disk)[x]
    {
      hide FillHeader, GetWord, Apply, Trace;
      ghost var ws := LogWrites(view, start, Logged());
      LogWritesAt(disk, view, start, Logged());
      var tail := 0;
      while tail < n
        invariant tail <= n && Shape() && InRange(ws, |disk|)
        invariant disk == Apply(old(disk), ws[..tail]) && view == Apply(old(view), ws[..tail])
        invariant trace == old(trace) + Trace(old(disk), ws[..tail])
      {
        ApplyOther(old(view), ws[..tail], sector[tail]);
        NextWrite(old(disk), ws, tail);
        NextWrite(old(view), ws, tail);
        var from := view[sector[tail]];
        Bwrite(start + tail + 1, from);
        tail := tail + 1;
      }
      assert ws[..n] == ws;
    }

    // Log block i goes to the i-th logged sector.
    method InstallTrans()
      requires Shape() && GoodSectors(Logged(), start, size)
      modifies this`disk, this`view, this`trace
      ensures Shape() && InRange(InstallWrites(old(view), start, Logged()), |disk|)
      ensures disk == Apply(old(disk), InstallWrites(old(view), start, Logged()))
      ensures view == Apply(old(view), InstallWrites(old(view), start, Logged()))
      ensures trace == old(trace) + Trace(old(disk), InstallWrites(old(view), start, Logged()))
      ensures forall i :: 0 <= i < n ==> disk[Logged()[i]] == old(view)[start + 1 + i]
      ensures forall x :: 0 <= x < |disk| && x !in Logged() ==> disk[x] == old(disk)[x]
    {
      hide FillHeader, GetWord, Apply, Trace;
      ghost var ws := InstallWrites(view, start, Logged());
      InstallWritesAt(disk, view, start, Logged());
      var tail := 0;
      while tail < n
        invariant tail <= n && Shape() && InRange(ws, |disk|)
        invariant disk == Apply(old(disk), ws[..tail]) && view == Apply(old(view), ws[..tail])
        invariant trace == old(trace) + Trace(old(disk), ws[..tail])
      {
        ApplyOther(old(view), ws[..tail], start + tail + 1);
        NextWrite(old(disk), ws, tail);
        NextWrite(old(view), ws, tail);
        var lbuf := view[start + tail + 1];
        Bwrite(sector[tail], lbuf);
        tail := tail + 1;
      }
      assert ws[..n] == ws;
    }

    // n and sector become what the header block says.
    method ReadHead()
      requires Shape() && GetWord(view[start], 0) <= LOGSIZE && view[start] == disk[start]
      modifies this`n, sector
      ensures Shape() && Logged() == HeaderSectors(disk, start)
      ensures n == GetWord(disk[start], 0) && forall i :: 0 <= i < n ==> sector[i] == GetWord(disk[start], i + 1)
    {
      var buf := view[start];
      n := GetWord(buf, 0);
      var i := 0;
      while i < n
        invariant i <= n == GetWord(buf, 0) && Shape()
        invariant forall k :: 0 <= k < i ==> sector[k] == GetWord(buf, k + 1)
      {
        sector[i] := GetWord(buf, i + 1);
        i := i + 1;
      }
    }

    // Write in-memory log header to disk: the true point at which a transaction commits.
    method WriteHead()
      requires Shape()
      modifies this`disk, this`view, this`trace
      ensures Shape()
      ensures disk == old(disk)[start := HeaderBlock(old(view)[start], Logged())]
      ensures view == old(view)[start := disk[start]]
      ensures trace == old(trace) + [disk]
      ensures IsHeader(disk[start], old(view)[start], Logged())
    {
      var hb := SetWord(view[start], 0, n);
      var i := 0;
      while i < n
        invariant i <= n
        invariant FillHeader(hb, Logged(), i) == HeaderBlock(view[start], Logged())
      {
        hb := SetWord(hb, i + 1, sector[i]);
        i := i + 1;
      }
      Bwrite(start, hb);
    }

    // Finish the transaction that the on-disk header describes, if any.
    method RecoverFromLog()
      requires Shape() && GoodDisk(disk, start, size) && view == disk
      modifies this`disk, this`view, this`trace, this`n, sector
      ensures Valid() && n == 0 && view == disk
      ensures disk == Recovered(old(disk), start, size)
      ensures Home(disk, start) == Committed(old(disk), start, size)
      ensures trace == old(trace) + Trace(old(disk), RecoverWrites(old(disk), start))
    {
      hide FillHeader, Overlay, Apply, Trace, GetWord;
      ghost var ws := RecoverWrites(disk, start);
      ReadHead();
      ghost var k := n;
      assert ws[..k] == InstallWrites(disk, start, Logged());
      InstallTrans(); // a header with n > 0 is a transaction that was committed
      ApplyOther(old(disk), ws[..k], start);
      NextWrite(old(disk), ws, k);
      n := 0;
      WriteHead(); // clear the log
      assert Logged() == [];
      assert ws[..k + 1] == ws && ws[..k + 1][..k] == ws[..k];
      RecoveryCompletes(old(disk), start, size);
    }

    // Make the transaction durable.
    method Commit()
      requires Valid()
      modifies this`disk, this`view, this`trace, this`n
      ensures Valid() && n == 0 && view == disk
      ensures Home(disk, start) == Home(old(view), start)
      ensures old(n) == 0 ==> disk == old(disk) && trace == old(trace)
      ensures old(n) > 0 ==> disk == CommitDisk(old(disk), old(view), start, size, old(Logged()), 2 * old(n) + 2)
      ensures old(n) > 0 ==> trace == old(trace) + CommitTrace(old(disk), old(view), start, size, old(Logged()))
    {
      hide FillHeader, GetWord, Apply, Trace, CommitTrace, CommitDisk, AtCommitPoint, GoodDisk, Committed, IsHeader, HeaderBlock;
      if n > 0 {
        CommitSteps(disk, view, start, size, Logged());
        CommitCompletes(disk, view, start, size, Logged());
        WriteLog(); // log blocks first
        WriteHead(); // the commit point
        InstallTrans(); // home sectors after the header
        n := 0;
        WriteHead(); // the log is empty again
        assert Logged() == [];
      } else {
        assert Logged() == [] && view == disk;
      }
    }
  }
}
