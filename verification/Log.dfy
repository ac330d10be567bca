// The write-ahead redo log of log.c.
//
// The file system image ends with the log: `start` is the sector of the header block and
// also the number of home sectors before it. The disk is a sequence of blocks; every block
// write is one step, and the machine may crash between any two of them.
module Log {
  import opened Blocks

  const MAXOPBLOCKS: nat := 10
  const LOGSIZE: nat := 3 * MAXOPBLOCKS

  type Disk = seq<Block>

  // ----- Block writes and crashes -----

  datatype Write = Write(sector: nat, data: Block)

  ghost predicate InRange(ws: seq<Write>, n: nat) {
    forall i :: 0 <= i < |ws| ==> ws[i].sector < n
  }

  // The disk after the writes, in order.
  function Apply(d: Disk, ws: seq<Write>): (r: Disk)
    requires InRange(ws, |d|)
    ensures |r| == |d|
    ensures ws == [] ==> r == d
    decreases |ws|
  {
    if ws == [] then d
    else
      var k := |ws| - 1;
      Apply(d, ws[..k])[ws[k].sector := ws[k].data]
  }

  // The disks that a crash during these writes can leave, beyond d itself.
  ghost function Trace(d: Disk, ws: seq<Write>): (r: seq<Disk>)
    requires InRange(ws, |d|)
    ensures |r| == |ws|
    decreases |ws|
  {
    if ws == [] then [] else Trace(d, ws[..|ws| - 1]) + [Apply(d, ws)]
  }

  lemma {:induction false} NextWrite(d: Disk, ws: seq<Write>, k: nat)
    requires InRange(ws, |d|) && k < |ws|
    ensures Apply(d, ws[..k + 1]) == Apply(d, ws[..k])[ws[k].sector := ws[k].data]
    ensures Trace(d, ws[..k + 1]) == Trace(d, ws[..k]) + [Apply(d, ws[..k + 1])]
  {
    assert ws[..k + 1][..k] == ws[..k];
  }

  lemma {:induction false} TraceAt(d: Disk, ws: seq<Write>, i: nat)
    requires InRange(ws, |d|) && i < |ws|
    ensures Trace(d, ws)[i] == Apply(d, ws[..i + 1])
    decreases |ws|
  {
    var n := |ws| - 1;
    if i < n {
      TraceAt(d, ws[..n], i);
      assert ws[..n][..i + 1] == ws[..i + 1];
    } else {
      assert ws[..i + 1] == ws;
    }
  }

  // Two disks that agree on s, or get a write to it, agree on s afterwards.
  lemma {:induction false} ApplyAgree(d: Disk, e: Disk, ws: seq<Write>, s: nat)
    requires |d| == |e| && InRange(ws, |d|) && s < |d|
    requires d[s] == e[s] || exists k :: 0 <= k < |ws| && ws[k].sector == s
    ensures Apply(d, ws)[s] == Apply(e, ws)[s]
    decreases |ws|
  {
    var n := |ws| - 1;
    if ws != [] && ws[n].sector != s {
      if k :| 0 <= k < |ws| && ws[k].sector == s {
        assert ws[..n][k].sector == s;
      }
      ApplyAgree(d, e, ws[..n], s);
    }
  }

  // Writes to other sectors do not show.
  lemma {:induction false} ApplyOther(d: Disk, ws: seq<Write>, s: nat)
    requires InRange(ws, |d|) && s < |d|
    requires forall i :: 0 <= i < |ws| ==> ws[i].sector != s
    ensures Apply(d, ws)[s] == d[s]
    decreases |ws|
  {
    if ws != [] {
      ApplyOther(d, ws[..|ws| - 1], s);
    }
  }

  // Exactly one write goes to s.
  lemma {:induction false} ApplyHit(d: Disk, ws: seq<Write>, k: nat)
    requires InRange(ws, |d|) && k < |ws|
    requires forall i :: k < i < |ws| ==> ws[i].sector != ws[k].sector
    ensures Apply(d, ws)[ws[k].sector] == ws[k].data
    decreases |ws|
  {
    if k < |ws| - 1 {
      ApplyHit(d, ws[..|ws| - 1], k);
    }
  }

  // ----- The log header -----

  // write_head: word 0 is n, word i + 1 is sector[i]; the remaining words keep their old value.
  function HeaderBlock(old_: Block, sectors: seq<Word>): (r: Block)
    requires |sectors| <= LOGSIZE
    ensures GetWord(r, 0) == |sectors|
    ensures forall i :: 0 <= i < |sectors| ==> GetWord(r, i + 1) == sectors[i]
  {
    FillHeader(SetWord(old_, 0, |sectors|), sectors, 0)
  }

  function FillHeader(b: Block, sectors: seq<Word>, i: nat): (r: Block)
    requires i <= |sectors| <= LOGSIZE
    ensures forall k: nat :: k < WORDS && !(i < k <= |sectors|) ==> GetWord(r, k) == GetWord(b, k)
    ensures forall k :: i <= k < |sectors| ==> GetWord(r, k + 1) == sectors[k]
    decreases |sectors| - i
  {
    if i == |sectors| then b
    else FillHeader(SetWord(b, i + 1, sectors[i]), sectors, i + 1)
  }

  // What read_head finds on disk.
  function HeaderCount(d: Disk, start: nat): Word
    requires start < |d|
  {
    GetWord(d[start], 0)
  }

  function HeaderSectors(d: Disk, start: nat): (r: seq<Word>)
    requires start < |d| && HeaderCount(d, start) <= LOGSIZE
    ensures |r| == HeaderCount(d, start)
  {
    seq(HeaderCount(d, start), i requires 0 <= i < LOGSIZE => GetWord(d[start], i + 1))
  }

  // Logged sectors are distinct home sectors, and the log has a block for each.
  ghost predicate GoodSectors(sectors: seq<Word>, start: nat, size: nat) {
    && |sectors| <= LOGSIZE && |sectors| < size
    && (forall i :: 0 <= i < |sectors| ==> sectors[i] < start)
    && (forall i, j :: 0 <= i < j < |sectors| ==> sectors[i] != sectors[j])
  }

  // An image whose log occupies [start, start + size) at its end and whose header is readable.
  ghost predicate GoodDisk(d: Disk, start: nat, size: nat) {
    && start + size == |d| && 0 < size
    && HeaderCount(d, start) <= LOGSIZE
    && GoodSectors(HeaderSectors(d, start), start, size)
  }

  // Everything but the log.
  function Home(d: Disk, start: nat): (r: Disk)
    requires start <= |d|
  {
    d[..start]
  }

  // ----- The write sequences of recovery and commit -----

  // install_trans: log block i goes to its home location.
  function InstallWrites(log: Disk, start: nat, sectors: seq<Word>): (r: seq<Write>)
    requires start + |sectors| < |log|
    ensures |r| == |sectors|
    ensures forall i :: 0 <= i < |r| ==> r[i] == Write(sectors[i], log[start + 1 + i])
  {
    seq(|sectors|, i requires 0 <= i < |sectors| => Write(sectors[i], log[start + 1 + i]))
  }

  // write_log: the cached copy of the i-th logged sector goes to log block i.
  function LogWrites(view: Disk, start: nat, sectors: seq<Word>): (r: seq<Write>)
    requires forall i :: 0 <= i < |sectors| ==> sectors[i] < |view|
    ensures |r| == |sectors|
    ensures forall i :: 0 <= i < |r| ==> r[i] == Write(start + 1 + i, view[sectors[i]])
  {
    seq(|sectors|, i requires 0 <= i < |sectors| => Write(start + 1 + i, view[sectors[i]]))
  }

  // Block for block, what the two sequences do to a disk.
  lemma {:induction false} InstallWritesAt(d: Disk, log: Disk, start: nat, sectors: seq<Word>)
    requires start + |sectors| < |log| && Distinct(sectors) && forall i :: 0 <= i < |sectors| ==> sectors[i] < |d|
    ensures InRange(InstallWrites(log, start, sectors), |d|)
    ensures var r := Apply(d, InstallWrites(log, start, sectors));
            && (forall i :: 0 <= i < |sectors| ==> r[sectors[i]] == log[start + 1 + i])
            && (forall x :: 0 <= x < |d| && x !in sectors ==> r[x] == d[x])
  {
    hide Apply;
    var ws := InstallWrites(log, start, sectors);
    forall i | 0 <= i < |sectors| ensures Apply(d, ws)[sectors[i]] == log[start + 1 + i] {
      ApplyHit(d, ws, i);
    }
    forall x | 0 <= x < |d| && x !in sectors ensures Apply(d, ws)[x] == d[x] {
      ApplyOther(d, ws, x);
    }
  }

  lemma {:induction false} LogWritesAt(d: Disk, view: Disk, start: nat, sectors: seq<Word>)
    requires start + |sectors| < |d| && forall i :: 0 <= i < |sectors| ==> sectors[i] < |view|
    ensures InRange(LogWrites(view, start, sectors), |d|)
    ensures var r := Apply(d, LogWrites(view, start, sectors));
            && (forall i :: 0 <= i < |sectors| ==> r[start + 1 + i] == view[sectors[i]])
            && (forall x :: 0 <= x < |d| && !(start < x <= start + |sectors|) ==> r[x] == d[x])
  {
    hide Apply;
    var ws := LogWrites(view, start, sectors);
    forall i | 0 <= i < |sectors| ensures Apply(d, ws)[start + 1 + i] == view[sectors[i]] {
      ApplyHit(d, ws, i);
    }
    forall x | 0 <= x < |d| && !(start < x <= start + |sectors|) ensures Apply(d, ws)[x] == d[x] {
      ApplyOther(d, ws, x);
    }
  }

  function RecoverWrites(d: Disk, start: nat): (r: seq<Write>)
    requires start < |d| && HeaderCount(d, start) <= LOGSIZE
    requires start + HeaderCount(d, start) < |d|
    ensures |r| == HeaderCount(d, start) + 1
    ensures (forall i :: 0 <= i < HeaderCount(d, start) ==> HeaderSectors(d, start)[i] < |d|) ==> InRange(r, |d|)
  {
    InstallWrites(d, start, HeaderSectors(d, start)) + [Write(start, HeaderBlock(d[start], []))]
  }

  // ----- What recovery means -----

  // home, with the block of each listed sector replaced.
  function Overlay(home: Disk, sectors: seq<Word>, blocks: seq<Block>): (r: Disk)
    requires |sectors| == |blocks|
    requires forall i :: 0 <= i < |sectors| ==> sectors[i] < |home|
    ensures |r| == |home|
    ensures forall s :: 0 <= s < |home| && s !in sectors ==> r[s] == home[s]
    decreases |sectors|
  {
    if sectors == [] then home
    else
      var k := |sectors| - 1;
      Overlay(home, sectors[..k], blocks[..k])[sectors[k] := blocks[k]]
  }

  ghost predicate Distinct(sectors: seq<Word>) {
    forall i, j :: 0 <= i < j < |sectors| ==> sectors[i] != sectors[j]
  }

  lemma {:induction false} OverlayHit(home: Disk, sectors: seq<Word>, blocks: seq<Block>, i: nat)
    requires |sectors| == |blocks| && i < |sectors| && Distinct(sectors)
    requires forall i :: 0 <= i < |sectors| ==> sectors[i] < |home|
    ensures Overlay(home, sectors, blocks)[sectors[i]] == blocks[i]
    decreases |sectors|
  {
    var k := |sectors| - 1;
    if i < k {
      OverlayHit(home, sectors[..k], blocks[..k], i);
    }
  }

  // An overlay hides whatever stood at the listed sectors.
  lemma {:induction false} OverlayHides(home: Disk, other: Disk, sectors: seq<Word>, blocks: seq<Block>)
    requires |sectors| == |blocks| && |home| == |other| && Distinct(sectors)
    requires forall i :: 0 <= i < |sectors| ==> sectors[i] < |home|
    requires forall s :: 0 <= s < |home| && s !in sectors ==> home[s] == other[s]
    ensures Overlay(home, sectors, blocks) == Overlay(other, sectors, blocks)
  {
    forall s | 0 <= s < |home|
      ensures Overlay(home, sectors, blocks)[s] == Overlay(other, sectors, blocks)[s]
    {
      if s in sectors {
        var i :| 0 <= i < |sectors| && sectors[i] == s;
        OverlayHit(home, sectors, blocks, i);
        OverlayHit(other, sectors, blocks, i);
      }
    }
  }

  // If the blocks are those of target, and home agrees with target elsewhere, the overlay is target.
  lemma {:induction false} OverlayIs(home: Disk, sectors: seq<Word>, blocks: seq<Block>, target: Disk)
    requires |sectors| == |blocks| && |home| == |target| && Distinct(sectors)
    requires forall i :: 0 <= i < |sectors| ==> sectors[i] < |home| && blocks[i] == target[sectors[i]]
    requires forall s :: 0 <= s < |home| && s !in sectors ==> home[s] == target[s]
    ensures Overlay(home, sectors, blocks) == target
  {
    forall s | 0 <= s < |home|
      ensures Overlay(home, sectors, blocks)[s] == target[s]
    {
      if s in sectors {
        var i :| 0 <= i < |sectors| && sectors[i] == s;
        OverlayHit(home, sectors, blocks, i);
      }
    }
  }

  // The logged blocks, in log order.
  function LogArea(d: Disk, start: nat, n: nat): (r: Disk)
    requires start + n < |d|
    ensures |r| == n
  {
    d[start + 1..start + 1 + n]
  }

  // The home sectors that recovery must restore: those on disk, overlaid by the logged blocks.
  function Committed(d: Disk, start: nat, size: nat): (r: Disk)
    requires GoodDisk(d, start, size)
    ensures |r| == start
  {
    Overlay(Home(d, start), HeaderSectors(d, start),
            LogArea(d, start, HeaderCount(d, start)))
  }

  // Block for block: what the header names is restored from its place in the log.
  lemma {:induction false} CommittedAt(d: Disk, start: nat, size: nat, s: nat)
    requires GoodDisk(d, start, size) && s < start
    ensures forall w: nat :: 1 <= w <= GetWord(d[start], 0) && w < WORDS && GetWord(d[start], w) == s ==>
              start + w < |d| && Committed(d, start, size)[s] == d[start + w]
    ensures (forall w: nat :: 1 <= w <= GetWord(d[start], 0) && w < WORDS ==> GetWord(d[start], w) != s) ==>
              Committed(d, start, size)[s] == d[s]
  {
    hide GetWord, LogArea, Overlay;
    var sectors, n := HeaderSectors(d, start), HeaderCount(d, start);
    assert GoodSectors(sectors, start, size);
    forall w: nat | 1 <= w <= n && GetWord(d[start], w) == s
      ensures Committed(d, start, size)[s] == d[start + w]
    {
      assert sectors[w - 1] == s;
      LogAreaAt(d, start, n, w - 1);
      OverlayHit(Home(d, start), sectors, LogArea(d, start, n), w - 1);
    }
    if s in sectors {
      var i: nat :| i < n && sectors[i] == s;
      assert GetWord(d[start], i + 1) == s;
    }
  }

  // The disk once recover_from_log has run to completion.
  function Recovered(d: Disk, start: nat, size: nat): (r: Disk)
    requires GoodDisk(d, start, size)
    ensures |r| == |d|
  {
    Apply(d, RecoverWrites(d, start))
  }

  // Installing the first k logged blocks leaves the log as it was.
  lemma {:induction false} InstallPrefix(d: Disk, start: nat, sectors: seq<Word>, ws: seq<Write>, k: nat)
    requires start + |sectors| < |d| && k <= |sectors|
    requires forall i :: 0 <= i < |sectors| ==> sectors[i] < start
    requires ws == InstallWrites(d, start, sectors)
    ensures InRange(ws[..k], |d|)
    ensures Apply(d, ws[..k])[start..] == d[start..]
    ensures Home(Apply(d, ws[..k]), start)
         == Overlay(Home(d, start), sectors[..k], LogArea(d, start, |sectors|)[..k])
    decreases k
  {
    hide InstallWrites, LogArea;
    if k > 0 {
      InstallPrefix(d, start, sectors, ws, k - 1);
      assert ws[..k][..k - 1] == ws[..k - 1];
      ApplyLast(d, ws[..k]);
      LogAreaAt(d, start, |sectors|, k - 1);
      OverlayLast(Home(d, start), sectors, LogArea(d, start, |sectors|), k);
    }
  }

  lemma {:induction false} ApplyLast(d: Disk, ws: seq<Write>)
    requires ws != [] && InRange(ws[..|ws| - 1], |d|) && ws[|ws| - 1].sector < |d|
    ensures InRange(ws, |d|)
    ensures Apply(d, ws) == Apply(d, ws[..|ws| - 1])[ws[|ws| - 1].sector := ws[|ws| - 1].data]
  {
  }

  lemma {:induction false} LogAreaAt(d: Disk, start: nat, n: nat, i: nat)
    requires start + n < |d| && i < n
    ensures LogArea(d, start, n)[i] == d[start + 1 + i]
  {
  }

  lemma {:induction false} OverlayLast(home: Disk, sectors: seq<Word>, blocks: seq<Block>, k: nat)
    requires |sectors| == |blocks| && 0 < k <= |sectors| && forall i :: 0 <= i < |sectors| ==> sectors[i] < |home|
    ensures Overlay(home, sectors[..k], blocks[..k])
         == Overlay(home, sectors[..k - 1], blocks[..k - 1])[sectors[k - 1] := blocks[k - 1]]
  {
    assert sectors[..k][..k - 1] == sectors[..k - 1];
    assert blocks[..k][..k - 1] == blocks[..k - 1];
  }

  // ----- Crash safety of recovery -----

  // A disk with an empty header is its own committed state.
  lemma {:induction false} CommittedWhenClear(d: Disk, start: nat, size: nat)
    requires GoodDisk(d, start, size) && HeaderCount(d, start) == 0
    ensures Committed(d, start, size) == Home(d, start)
  {
  }

  // The committed state depends on the log and on the home sectors that the log does not cover.
  lemma {:induction false} CommittedAgree(d: Disk, e: Disk, start: nat, size: nat)
    requires GoodDisk(d, start, size) && |e| == |d| && e[start..] == d[start..]
    requires forall s :: 0 <= s < start && s !in HeaderSectors(d, start) ==> d[s] == e[s]
    ensures GoodDisk(e, start, size) && Committed(e, start, size) == Committed(d, start, size)
  {
    var n := HeaderCount(d, start);
    assert d[start] == d[start..][0] == e[start..][0] == e[start];
    assert HeaderSectors(e, start) == HeaderSectors(d, start);
    forall i | start <= i < |d| ensures d[i] == e[i] {
      assert d[i] == d[start..][i - start] == e[start..][i - start];
    }
    assert LogArea(d, start, n) == LogArea(e, start, n);
    OverlayHides(Home(d, start), Home(e, start), HeaderSectors(d, start), LogArea(d, start, n));
  }

  // After k installed blocks the committed state is unchanged.
  lemma {:induction false} CrashInInstall(d: Disk, start: nat, size: nat, k: nat)
    requires GoodDisk(d, start, size) && k <= HeaderCount(d, start)
    ensures var ws := InstallWrites(d, start, HeaderSectors(d, start))[..k];
            && InRange(ws, |d|)
            && GoodDisk(Apply(d, ws), start, size)
            && Committed(Apply(d, ws), start, size) == Committed(d, start, size)
  {
    var sectors := HeaderSectors(d, start);
    var ws := InstallWrites(d, start, sectors);
    InstallPrefix(d, start, sectors, ws, k);
    var e := Apply(d, ws[..k]);
    forall s | 0 <= s < start && s !in sectors ensures d[s] == e[s] {
      ApplyOther(d, ws[..k], s);
    }
    CommittedAgree(d, e, start, size);
  }

  // After all of them the home sectors are the committed state.
  lemma {:induction false} InstallCompletes(d: Disk, start: nat, size: nat)
    requires GoodDisk(d, start, size)
    ensures var ws := InstallWrites(d, start, HeaderSectors(d, start));
            InRange(ws, |d|) && Home(Apply(d, ws), start) == Committed(d, start, size)
  {
    hide FillHeader, GetWord, Apply, Trace;
    var sectors := HeaderSectors(d, start);
    var n := |sectors|;
    var ws := InstallWrites(d, start, sectors);
    InstallPrefix(d, start, sectors, ws, n);
    assert ws[..n] == ws && sectors[..n] == sectors;
    assert LogArea(d, start, n)[..n] == LogArea(d, start, n);
  }

  // Clearing the header turns the home sectors into the committed state.
  lemma {:induction false} ClearHeader(d: Disk, start: nat, size: nat, head: Block)
    requires start + size == |d| && 0 < size && GetWord(head, 0) == 0
    ensures GoodDisk(d[start := head], start, size)
    ensures HeaderCount(d[start := head], start) == 0
    ensures Committed(d[start := head], start, size) == Home(d, start)
  {
    assert Home(d[start := head], start) == Home(d, start);
  }

  // Stop recovery after any number of its block writes: the committed state is unchanged,
  // and the log can still be read.
  lemma {:induction false} CrashInRecovery(d: Disk, start: nat, size: nat, k: nat)
    requires GoodDisk(d, start, size) && k <= |RecoverWrites(d, start)|
    ensures GoodDisk(Apply(d, RecoverWrites(d, start)[..k]), start, size)
    ensures Committed(Apply(d, RecoverWrites(d, start)[..k]), start, size) == Committed(d, start, size)
    ensures k == |RecoverWrites(d, start)| ==> HeaderCount(Apply(d, RecoverWrites(d, start)[..k]), start) == 0
  {
    hide FillHeader, GetWord, Overlay, Trace;
    var ws := RecoverWrites(d, start);
    var install := InstallWrites(d, start, HeaderSectors(d, start));
    var n := |install|;
    if k <= n {
      CrashInInstall(d, start, size, k);
      assert ws[..k] == install[..k];
    } else {
      InstallCompletes(d, start, size);
      assert ws[..k] == ws && ws[..n] == install;
      ClearHeader(Apply(d, install), start, size, ws[n].data);
    }
  }

  // Running recovery to its end restores exactly the committed state and empties the log.
  lemma {:induction false} RecoveryCompletes(d: Disk, start: nat, size: nat)
    requires GoodDisk(d, start, size)
    ensures GoodDisk(Recovered(d, start, size), start, size)
    ensures HeaderCount(Recovered(d, start, size), start) == 0
    ensures Home(Recovered(d, start, size), start) == Committed(d, start, size)
  {
    var ws := RecoverWrites(d, start);
    CrashInRecovery(d, start, size, |ws|);
    assert ws[..|ws|] == ws;
    CommittedWhenClear(Recovered(d, start, size), start, size);
  }

  // Reboot once for each element of ks; the i-th reboot crashes after ks[i] block writes.
  function Reboots(d: Disk, start: nat, size: nat, ks: seq<nat>): (r: Disk)
    requires GoodDisk(d, start, size)
    ensures GoodDisk(r, start, size) && Committed(r, start, size) == Committed(d, start, size)
    decreases |ks|
  {
    if ks == [] then d
    else
      var e := Reboots(d, start, size, ks[1..]);
      var k := if ks[0] <= |RecoverWrites(e, start)| then ks[0] else |RecoverWrites(e, start)|;
      CrashInRecovery(e, start, size, k);
      Apply(e, RecoverWrites(e, start)[..k])
  }

  // However often recovery itself is interrupted, once it completes the home sectors are
  // the committed state of the disk at the first crash.
  lemma {:induction false} CrashesDuringRecovery(d: Disk, start: nat, size: nat, ks: seq<nat>)
    requires GoodDisk(d, start, size)
    ensures Home(Recovered(Reboots(d, start, size, ks), start, size), start) == Committed(d, start, size)
  {
    RecoveryCompletes(Reboots(d, start, size, ks), start, size);
  }

  // ----- Crash safety of commit -----

  // Between transactions the on-disk log is empty, and cache and disk differ only at the
  // sectors logged so far.
  ghost predicate Consistent(d: Disk, view: Disk, start: nat, size: nat, sectors: seq<Word>) {
    && start + size == |d| == |view| && 0 < size
    && HeaderCount(d, start) == 0
    && GoodSectors(sectors, start, size)
    && (forall s :: 0 <= s < |d| && s !in sectors ==> view[s] == d[s])
  }

  // write_log only touches the log's data blocks.
  lemma {:induction false} LogPrefix(d: Disk, view: Disk, start: nat, sectors: seq<Word>, ws: seq<Write>, k: nat)
    requires start < |d| == |view| && start + |sectors| < |d| && k <= |sectors|
    requires forall i :: 0 <= i < |sectors| ==> sectors[i] < |view|
    requires ws == LogWrites(view, start, sectors)
    ensures InRange(ws[..k], |d|)
    ensures forall s :: 0 <= s <= start ==> Apply(d, ws[..k])[s] == d[s]
    ensures forall i :: 0 <= i < k ==> Apply(d, ws[..k])[start + 1 + i] == view[sectors[i]]
    decreases k
  {
    if k > 0 {
      LogPrefix(d, view, start, sectors, ws, k - 1);
      assert ws[..k][..k - 1] == ws[..k - 1];
    }
  }

  // The disk right after the commit point: the header has just been written.
  function AtCommitPoint(d: Disk, view: Disk, start: nat, sectors: seq<Word>): (r: Disk)
    requires start < |d| == |view| && start + |sectors| < |d| && |sectors| <= LOGSIZE
    requires forall i :: 0 <= i < |sectors| ==> sectors[i] < |view|
    ensures |r| == |d|
  {
    Apply(d, LogWrites(view, start, sectors))[start := HeaderBlock(d[start], sectors)]
  }

  lemma {:induction false} CommitPointDisk(d: Disk, view: Disk, start: nat, size: nat, sectors: seq<Word>)
    requires Consistent(d, view, start, size, sectors)
    ensures var e := AtCommitPoint(d, view, start, sectors);
            && GoodDisk(e, start, size) && HeaderSectors(e, start) == sectors
            && Home(e, start) == Home(d, start)
            && forall i :: 0 <= i < |sectors| ==> LogArea(e, start, |sectors|)[i] == view[sectors[i]]
  {
    hide FillHeader, GetWord, Apply, Overlay, Committed;
    var n := |sectors|;
    var ws := LogWrites(view, start, sectors);
    LogPrefix(d, view, start, sectors, ws, n);
    assert ws[..n] == ws;
    var a := Apply(d, ws);
    var e := AtCommitPoint(d, view, start, sectors);
    assert e[start] == HeaderBlock(d[start], sectors);
    assert HeaderSectors(e, start) == sectors;
    assert Home(e, start) == Home(a, start) == Home(d, start);
    forall i | 0 <= i < n ensures LogArea(e, start, n)[i] == view[sectors[i]] {
      assert a[start + 1 + i] == view[sectors[i]];
    }
  }

  // At the commit point the committed state becomes the cached one.
  lemma {:induction false} CommitPoint(d: Disk, view: Disk, start: nat, size: nat, sectors: seq<Word>)
    requires Consistent(d, view, start, size, sectors)
    ensures var e := AtCommitPoint(d, view, start, sectors);
            && GoodDisk(e, start, size) && HeaderSectors(e, start) == sectors
            && Committed(e, start, size) == Home(view, start)
  {
    CommitPointDisk(d, view, start, size, sectors);
    var e := AtCommitPoint(d, view, start, sectors);
    OverlayIs(Home(d, start), sectors, LogArea(e, start, |sectors|), Home(view, start));
  }

  // The log writes of a commit, cut anywhere, leave the committed state alone.
  lemma {:induction false} CrashInWriteLog(d: Disk, view: Disk, start: nat, size: nat, sectors: seq<Word>, k: nat)
    requires Consistent(d, view, start, size, sectors) && k <= |sectors|
    ensures var ws := LogWrites(view, start, sectors)[..k];
            && InRange(ws, |d|)
            && GoodDisk(Apply(d, ws), start, size)
            && Committed(Apply(d, ws), start, size) == Home(d, start)
  {
    var ws := LogWrites(view, start, sectors);
    LogPrefix(d, view, start, sectors, ws, k);
    var e := Apply(d, ws[..k]);
    assert Home(e, start) == Home(d, start);
  }

  // Cache and disk agree again once every logged sector has been installed.
  lemma {:induction false} InstallCatchesUp(d: Disk, view: Disk, start: nat, sectors: seq<Word>)
    requires start + |sectors| < |d| == |view|
    requires forall i :: 0 <= i < |sectors| ==> sectors[i] < start
    requires forall s :: 0 <= s < |d| && s !in sectors ==> view[s] == d[s]
    ensures InstallWrites(view, start, sectors) == InstallWrites(d, start, sectors)
    ensures InRange(InstallWrites(d, start, sectors), |d|)
    ensures Apply(view, InstallWrites(d, start, sectors)) == Apply(d, InstallWrites(d, start, sectors))
  {
    var ws := InstallWrites(d, start, sectors);
    assert forall s :: start < s < |d| ==> view[s] == d[s];
    forall s | 0 <= s < |d| ensures Apply(view, ws)[s] == Apply(d, ws)[s] {
      if s in sectors {
        var k :| 0 <= k < |sectors| && sectors[k] == s;
        assert ws[k].sector == s;
      }
      ApplyAgree(view, d, ws, s);
    }
  }

  // Writing the log leaves cache and disk as far apart as they were.
  lemma {:induction false} LoggingKeepsGap(d: Disk, view: Disk, start: nat, size: nat, sectors: seq<Word>)
    requires Consistent(d, view, start, size, sectors)
    ensures var ws := LogWrites(view, start, sectors);
            && InRange(ws, |d|)
            && Apply(view, ws)[start] == d[start]
            && forall s :: 0 <= s < |d| && s !in sectors ==> Apply(view, ws)[s] == Apply(d, ws)[s]
  {
    var ws := LogWrites(view, start, sectors);
    ApplyOther(view, ws, start);
    forall s | 0 <= s < |d| && s !in sectors ensures Apply(view, ws)[s] == Apply(d, ws)[s] {
      ApplyAgree(view, d, ws, s);
    }
  }

  // The disk after the first k of commit's block writes: the log blocks, the header, the
  // home blocks, and the header again.
  function CommitDisk(d: Disk, view: Disk, start: nat, size: nat, sectors: seq<Word>, k: nat): (r: Disk)
    requires Consistent(d, view, start, size, sectors) && k <= 2 * |sectors| + 2
    ensures |r| == |d|
  {
    var n := |sectors|;
    if k <= n then
      CrashInWriteLog(d, view, start, size, sectors, k);
      Apply(d, LogWrites(view, start, sectors)[..k])
    else
      var e := AtCommitPoint(d, view, start, sectors);
      CommitPoint(d, view, start, size, sectors);
      var j := if k <= 2 * n + 1 then k - n - 1 else n;
      CrashInInstall(e, start, size, j);
      var f := Apply(e, InstallWrites(e, start, sectors)[..j]);
      if k <= 2 * n + 1 then f else f[start := HeaderBlock(f[start], [])]
  }

  // Stop commit after any number of its block writes: the committed state is the whole old
  // one up to and including write_log, and the whole new one from write_head on.
  lemma {:induction false} CrashInCommit(d: Disk, view: Disk, start: nat, size: nat, sectors: seq<Word>, k: nat)
    requires Consistent(d, view, start, size, sectors) && k <= 2 * |sectors| + 2
    ensures var e := CommitDisk(d, view, start, size, sectors, k);
            && GoodDisk(e, start, size)
            && Committed(e, start, size) == (if k <= |sectors| then Home(d, start) else Home(view, start))
  {
    hide FillHeader, GetWord, Apply, Overlay, Trace;
    var n := |sectors|;
    if k <= n {
      CrashInWriteLog(d, view, start, size, sectors, k);
    } else {
      var e := AtCommitPoint(d, view, start, sectors);
      CommitPoint(d, view, start, size, sectors);
      if k <= 2 * n + 1 {
        CrashInInstall(e, start, size, k - n - 1);
      } else {
        var ws := InstallWrites(e, start, sectors);
        assert ws[..n] == ws;
        InstallCompletes(e, start, size);
        ClearHeader(Apply(e, ws), start, size, HeaderBlock(Apply(e, ws)[start], []));
      }
    }
  }

  // When commit is done the log is empty and the disk has caught up with the cache.
  lemma {:induction false} CommitCompletes(d: Disk, view: Disk, start: nat, size: nat, sectors: seq<Word>)
    requires Consistent(d, view, start, size, sectors)
    ensures var e := CommitDisk(d, view, start, size, sectors, 2 * |sectors| + 2);
            HeaderCount(e, start) == 0 && Home(e, start) == Home(view, start)
  {
    CrashInCommit(d, view, start, size, sectors, 2 * |sectors| + 2);
    CommittedWhenClear(CommitDisk(d, view, start, size, sectors, 2 * |sectors| + 2), start, size);
  }

  // The disks that commit passes through, in order.
  ghost function CommitTrace(d: Disk, view: Disk, start: nat, size: nat, sectors: seq<Word>): (r: seq<Disk>)
    requires Consistent(d, view, start, size, sectors)
    ensures |r| == 2 * |sectors| + 2
  {
    CrashInWriteLog(d, view, start, size, sectors, |sectors|);
    CommitPoint(d, view, start, size, sectors);
    var logging := LogWrites(view, start, sectors);
    assert logging[..|sectors|] == logging;
    var e := AtCommitPoint(d, view, start, sectors);
    Trace(d, logging) + [e] + Trace(e, InstallWrites(e, start, sectors))
    + [CommitDisk(d, view, start, size, sectors, 2 * |sectors| + 2)]
  }

  lemma {:induction false} CommitTraceAt(d: Disk, view: Disk, start: nat, size: nat, sectors: seq<Word>, k: nat)
    requires Consistent(d, view, start, size, sectors) && 0 < k <= 2 * |sectors| + 2
    ensures CommitTrace(d, view, start, size, sectors)[k - 1] == CommitDisk(d, view, start, size, sectors, k)
  {
    hide FillHeader, GetWord, Apply, Overlay, Committed;
    var n := |sectors|;
    CrashInWriteLog(d, view, start, size, sectors, n);
    CommitPoint(d, view, start, size, sectors);
    var e := AtCommitPoint(d, view, start, sectors);
    var logging := LogWrites(view, start, sectors);
    var install := InstallWrites(e, start, sectors);
    assert logging[..n] == logging;
    if k <= n {
      TraceAt(d, logging, k - 1);
    } else if k == n + 1 {
      assert install[..0] == [];
    } else if k <= 2 * n + 1 {
      TraceAt(e, install, k - n - 2);
    }
  }

  // commit as a straight line of disk and cache states: write_log, write_head, install_trans,
  // write_head.
  lemma {:induction false} CommitSteps(d: Disk, view: Disk, start: nat, size: nat, sectors: seq<Word>)
    requires Consistent(d, view, start, size, sectors)
    ensures InRange(LogWrites(view, start, sectors), |d|)
    ensures var d1 := Apply(d, LogWrites(view, start, sectors));
            var v1 := Apply(view, LogWrites(view, start, sectors));
            var d2 := d1[start := HeaderBlock(v1[start], sectors)];
            var v2 := v1[start := d2[start]];
            var install := InstallWrites(v2, start, sectors);
            && d2 == AtCommitPoint(d, view, start, sectors) && InRange(install, |d|)
            && var d3 := Apply(d2, install);
               var d4 := d3[start := HeaderBlock(Apply(v2, install)[start], [])];
               && d4 == Apply(v2, install)[start := d4[start]]
               && d4 == CommitDisk(d, view, start, size, sectors, 2 * |sectors| + 2)
               && CommitTrace(d, view, start, size, sectors)
                  == Trace(d, LogWrites(view, start, sectors)) + [d2] + Trace(d2, install) + [d4]
  {
    hide FillHeader, GetWord, Apply, Overlay, Committed;
    var ws := LogWrites(view, start, sectors);
    LoggingKeepsGap(d, view, start, size, sectors);
    CommitPoint(d, view, start, size, sectors);
    var e := AtCommitPoint(d, view, start, sectors);
    InstallCatchesUp(e, Apply(view, ws)[start := e[start]], start, sectors);
    var install := InstallWrites(e, start, sectors);
    assert install[..|sectors|] == install;
  }

  // A crash at any block write of commit, and any number of crashes of the recoveries that
  // follow: the first completed recovery finds the whole old state (write_log had not
  // finished) or the whole new one (from the header write on).
  lemma {:induction false} CommitIsAtomic(d: Disk, view: Disk, start: nat, size: nat, sectors: seq<Word>, i: nat, ks: seq<nat>)
    requires Consistent(d, view, start, size, sectors) && i < 2 * |sectors| + 2
    ensures var e := CommitTrace(d, view, start, size, sectors)[i];
            && GoodDisk(e, start, size)
            && Home(Recovered(Reboots(e, start, size, ks), start, size), start)
               == (if i < |sectors| then Home(d, start) else Home(view, start))
  {
    CommitTraceAt(d, view, start, size, sectors, i + 1);
    CrashInCommit(d, view, start, size, sectors, i + 1);
    CrashesDuringRecovery(CommitTrace(d, view, start, size, sectors)[i], start, size, ks);
  }

  // The same for a recovery that starts from any image with a readable log.
  lemma {:induction false} RecoveryIsAtomic(d: Disk, start: nat, size: nat, i: nat, ks: seq<nat>)
    requires GoodDisk(d, start, size) && i < |RecoverWrites(d, start)|
    ensures var e := Trace(d, RecoverWrites(d, start))[i];
            && GoodDisk(e, start, size)
            && Home(Recovered(Reboots(e, start, size, ks), start, size), start) == Committed(d, start, size)
  {
    TraceAt(d, RecoverWrites(d, start), i);
    CrashInRecovery(d, start, size, i + 1);
    CrashesDuringRecovery(Trace(d, RecoverWrites(d, start))[i], start, size, ks);
  }
}
