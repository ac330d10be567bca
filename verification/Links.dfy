// Link counts against directory entries, across sys_link, sys_unlink and create (sysfile.c) and
// the directory functions they use (fs.c). A directory is the list of its entries.
module Links {
  const ROOTINO: nat := 1
  const MAXENTRIES: nat := 4480 // MAXFILE * BSIZE / sizeof(struct dirent)
  const MAXSHORT: int := 0x7FFF

  datatype Option<T> = None | Some(value: T)

  datatype FileType = FREE | DIR | FILE | DEV

  // inum 0 marks a free entry.
  datatype Entry = Entry(inum: nat, name: string)

  datatype Inode = Inode(typ: FileType, nlink: int, es: seq<Entry>)

  // pending holds, for every sys_link under way, the inode whose count it has raised.
  datatype State = State(ino: seq<Inode>, pending: multiset<nat>)

  const FreeEntry: Entry := Entry(0, "")

  // nlink is a 16-bit short.
  function Short(n: int): int {
    if n > MAXSHORT then n - 0x1_0000 else if n < -0x8000 then n + 0x1_0000 else n
  }

  // ----- Directories -----

  predicate IsEntry(e: Entry, name: string) {
    e.inum != 0 && e.name == name
  }

  // dirlookup: the first entry with that name from k on, or |es|.
  function Find(es: seq<Entry>, name: string, k: nat): (r: nat)
    requires k <= |es|
    ensures k <= r <= |es| && (r < |es| ==> IsEntry(es[r], name))
    ensures forall j :: k <= j < r ==> !IsEntry(es[j], name)
    decreases |es| - k
  {
    if k == |es| || IsEntry(es[k], name) then k else Find(es, name, k + 1)
  }

  // The first free entry from k on, or |es|.
  function FreeSlot(es: seq<Entry>, k: nat): (r: nat)
    requires k <= |es|
    ensures k <= r <= |es| && (r < |es| ==> es[r].inum == 0)
    ensures forall j :: k <= j < r ==> es[j].inum != 0
    decreases |es| - k
  {
    if k == |es| || es[k].inum == 0 then k else FreeSlot(es, k + 1)
  }

  predicate HasName(es: seq<Entry>, name: string) {
    Find(es, name, 0) < |es|
  }

  // A directory as large as a file can be has no room.
  predicate HasRoom(es: seq<Entry>) {
    FreeSlot(es, 0) < MAXENTRIES
  }

  // dirlink, when the name is new and there is room.
  function Linked(es: seq<Entry>, e: Entry): seq<Entry> {
    var off := FreeSlot(es, 0);
    if off < |es| then es[off := e] else es + [e]
  }

  predicate IsDirEmpty(es: seq<Entry>) {
    forall k :: 2 <= k < |es| ==> es[k].inum == 0
  }

  // Entry k is the first one in use with that name.
  predicate FirstNamed(es: seq<Entry>, k: nat, name: string) {
    && k < |es| && es[k].inum != 0 && es[k].name == name
    && forall j :: 0 <= j < k ==> es[j].inum == 0 || es[j].name != name
  }

  predicate NoneNamed(es: seq<Entry>, name: string) {
    forall j :: 0 <= j < |es| ==> es[j].inum == 0 || es[j].name != name
  }

  lemma {:induction false} FindIs(es: seq<Entry>, name: string)
    ensures HasName(es, name) <==> !NoneNamed(es, name)
    ensures forall k: nat :: FirstNamed(es, k, name) <==> HasName(es, name) && k == Find(es, name, 0)
  {
  }

  // The entry e is the one that a lookup of its name finds in r; it took the place of the
  // first free one or extends the directory, and the others are those of es.
  ghost predicate EntryMade(es: seq<Entry>, r: seq<Entry>, e: Entry) {
    && (exists k: nat :: FirstNamed(r, k, e.name) && r[k] == e && (k < |es| ==> es[k].inum == 0)
          && forall j :: 0 <= j < |r| && j != k ==> j < |es| && r[j] == es[j] && (j < k ==> es[j].inum != 0))
    && |es| <= |r|
  }

  lemma {:induction false} LinkedNames(es: seq<Entry>, e: Entry)
    requires NoneNamed(es, e.name) && e.inum != 0
    ensures EntryMade(es, Linked(es, e), e)
  {
    var off := FreeSlot(es, 0);
    assert FirstNamed(Linked(es, e), off, e.name);
  }

  // ----- System calls -----

  datatype Outcome = Done | Failed | Panic

  // sys_link until it gives up the lock on ip.
  function LinkBegin(s: State, ip: nat): State
    requires ip < |s.ino|
  {
    State(s.ino[ip := s.ino[ip].(nlink := Short(s.ino[ip].nlink + 1))], s.pending + multiset{ip})
  }

  // The rest of sys_link, for the name in the directory dp; None when the path has no parent.
  function LinkEnd(s: State, ip: nat, dp: Option<nat>, name: string): (State, Outcome)
    requires ip < |s.ino| && (dp.Some? ==> dp.value < |s.ino|)
  {
    if dp.None? || HasName(s.ino[dp.value].es, name) then
      (State(s.ino[ip := s.ino[ip].(nlink := Short(s.ino[ip].nlink - 1))], s.pending - multiset{ip}), Failed)
    else if !HasRoom(s.ino[dp.value].es) then (s, Panic)
    else
      var d := s.ino[dp.value];
      (State(s.ino[dp.value := d.(es := Linked(d.es, Entry(ip, name)))], s.pending - multiset{ip}), Done)
  }

  function Unlink(s: State, dp: nat, name: string): (State, Outcome)
    requires dp < |s.ino|
    requires forall k :: 0 <= k < |s.ino[dp].es| ==> s.ino[dp].es[k].inum < |s.ino|
  {
    var d := s.ino[dp];
    var off := Find(d.es, name, 0);
    if name == "." || name == ".." || off == |d.es| then (s, Failed)
    else
      var ip := d.es[off].inum;
      if s.ino[ip].nlink < 1 then (s, Panic)
      else if s.ino[ip].typ == DIR && !IsDirEmpty(s.ino[ip].es) then (s, Failed)
      else
        var d' := d.(es := d.es[off := FreeEntry], nlink := if s.ino[ip].typ == DIR then Short(d.nlink - 1) else d.nlink);
        var ino' := s.ino[dp := d'];
        (s.(ino := ino'[ip := ino'[ip].(nlink := Short(ino'[ip].nlink - 1))]), Done)
  }

  // ialloc: the first free inode from k on, or |ino|.
  function FirstFree(ino: seq<Inode>, k: nat): (r: nat)
    requires k <= |ino|
    ensures k <= r <= |ino| && (r < |ino| ==> ino[r].typ == FREE)
    ensures forall j :: k <= j < r ==> ino[j].typ != FREE
    decreases |ino| - k
  {
    if k == |ino| || ino[k].typ == FREE then k else FirstFree(ino, k + 1)
  }

  // create; ip is the inode it returns.
  function Create(s: State, dp: nat, name: string, typ: FileType): (State, Outcome)
    requires dp < |s.ino|
    requires forall k :: 0 <= k < |s.ino[dp].es| ==> s.ino[dp].es[k].inum < |s.ino|
  {
    var d := s.ino[dp];
    if HasName(d.es, name) then
      var ip := d.es[Find(d.es, name, 0)].inum;
      (s, if typ == FILE && s.ino[ip].typ == FILE then Done else Failed)
    else if |s.ino| == 0 || FirstFree(s.ino, 1) == |s.ino| || !HasRoom(d.es) then (s, Panic)
    else
      var ip := FirstFree(s.ino, 1);
      (s.(ino := Created(s.ino, dp, name, typ, ip)), Done)
  }

  function Created(ino: seq<Inode>, dp: nat, name: string, typ: FileType, ip: nat): seq<Inode>
    requires dp < |ino| && ip < |ino|
  {
    var es := if typ == DIR then [Entry(ip, "."), Entry(dp, "..")] else [];
    var ino' := ino[ip := Inode(typ, 1, es)];
    var d := ino'[dp];
    ino'[dp := d.(nlink := if typ == DIR then Short(d.nlink + 1) else d.nlink,
                  es := Linked(d.es, Entry(ip, name)))]
  }

  // What create does for a new name, inode by inode.
  lemma {:induction false} CreatedEffect(ino: seq<Inode>, dp: nat, name: string, typ: FileType, ip: nat)
    requires dp < |ino| && 0 < ip < |ino| && ip != dp && NoneNamed(ino[dp].es, name)
    ensures var r := Created(ino, dp, name, typ, ip);
            && |r| == |ino| && EntryMade(ino[dp].es, r[dp].es, Entry(ip, name))
            && r[ip] == Inode(typ, 1, if typ == DIR then [Entry(ip, "."), Entry(dp, "..")] else [])
            && r[dp].typ == ino[dp].typ
            && r[dp].nlink == (if typ == DIR then Short(ino[dp].nlink + 1) else ino[dp].nlink)
            && forall j :: 0 <= j < |ino| && j != ip && j != dp ==> r[j] == ino[j]
  {
    hide EntryMade, Linked, NoneNamed;
    LinkedNames(ino[dp].es, Entry(ip, name));
  }

  // The last iput of an inode without links.
  function Free(s: State, i: nat): State
    requires i < |s.ino|
  {
    s.(ino := s.ino[i := Inode(FREE, 0, [])])
  }

  // ----- Counting entries -----

  predicate IsLinked(d: Inode) {
    d.typ == DIR && d.nlink > 0
  }

  // The entries other than "." that name inode i.
  function CountIn(es: seq<Entry>, i: nat): nat {
    if es == [] then 0
    else
      CountIn(es[..|es| - 1], i) + One(es[|es| - 1], i)
  }

  function One(e: Entry, i: nat): nat {
    if e.inum == i && i != 0 && e.name != "." then 1 else 0
  }

  function From(d: Inode, i: nat): nat {
    if IsLinked(d) then CountIn(d.es, i) else 0
  }

  // ... over all linked directories.
  function Count(ino: seq<Inode>, i: nat): nat {
    if ino == [] then 0 else Count(ino[..|ino| - 1], i) + From(ino[|ino| - 1], i)
  }

  // ----- The invariant -----

  ghost predicate Counts(s: State) {
    forall i :: 0 <= i < |s.ino| ==> s.ino[i].nlink == Count(s.ino, i) + s.pending[i]
  }

  // "." and ".." come first; no name occurs twice; what is not linked has nothing else.
  ghost predicate DirOk(ino: seq<Inode>, d: nat)
    requires d < |ino|
  {
    var es := ino[d].es;
    && |es| >= 2 && es[0] == Entry(d, ".") && es[1].name == ".." && d != 0 && es[1].inum != 0
    && (d != ROOTINO ==> es[1].inum != d)
    && (forall k :: 0 <= k < |es| ==> es[k].inum < |ino|)
    && (forall j, k :: 0 <= j < k < |es| && es[j].inum != 0 && es[k].inum != 0 ==> es[j].name != es[k].name)
    && (ino[d].nlink <= 0 ==> IsDirEmpty(es))
  }

  // Entry k of directory d, not "." or "..", names the directory c.
  predicate Holds(ino: seq<Inode>, d: nat, k: nat, c: nat) {
    && d < |ino| && IsLinked(ino[d]) && 2 <= k < |ino[d].es| && ino[d].es[k].inum == c
    && 0 < c < |ino| && ino[c].typ == DIR
  }

  // A directory is held by one entry, in the directory that its ".." names.
  ghost predicate Tree(ino: seq<Inode>) {
    && ROOTINO < |ino| && IsLinked(ino[ROOTINO])
    && (forall d :: 0 <= d < |ino| && ino[d].typ == DIR ==> DirOk(ino, d))
    && (forall d :: 0 <= d < |ino| && ino[d].typ != DIR ==> ino[d].es == [])
    && (forall d: nat, k: nat, c: nat :: Holds(ino, d, k, c) ==> c != ROOTINO && c != d && ino[c].es[1].inum == d)
    && (forall d: nat, j: nat, k: nat, c: nat :: Holds(ino, d, j, c) && Holds(ino, d, k, c) ==> j == k)
    && (forall c :: 0 <= c < |ino| && IsLinked(ino[c]) ==> HasParent(ino, c))
  }

  ghost predicate HasParent(ino: seq<Inode>, c: nat)
    requires c < |ino|
  {
    |ino[c].es| >= 2 &&
    if c == ROOTINO then ino[c].es[1].inum == ROOTINO
    else exists k: nat :: Holds(ino, ino[c].es[1].inum, k, c)
  }

  // Inode 0 is never allocated, and a free inode has no links.
  ghost predicate Inv(s: State) {
    && Counts(s) && Tree(s.ino) && s.ino[0].typ == FREE
    && (forall i :: 0 <= i < |s.ino| ==> s.ino[i].nlink <= MAXSHORT)
    && (forall i :: 0 <= i < |s.ino| && s.ino[i].typ == FREE ==> s.ino[i].nlink == 0)
    && (forall i :: i in s.pending ==> i < |s.ino| && s.ino[i].typ != FREE && s.ino[i].typ != DIR)
  }

  // ----- Sums -----

  lemma {:induction false} CountInSet(es: seq<Entry>, k: nat, e: Entry, i: nat)
    requires k < |es|
    ensures CountIn(es[k := e], i) == CountIn(es, i) - One(es[k], i) + One(e, i)
  {
    if k == |es| - 1 {
      assert es[k := e][..k] == es[..k];
    } else {
      assert es[k := e][..|es| - 1] == es[..|es| - 1][k := e];
      CountInSet(es[..|es| - 1], k, e, i);
    }
  }

  lemma {:induction false} LinkedCounts(es: seq<Entry>, e: Entry, i: nat)
    ensures CountIn(Linked(es, e), i) == CountIn(es, i) + One(e, i)
  {
    var off := FreeSlot(es, 0);
    if off < |es| {
      CountInSet(es, off, e, i);
    } else {
      assert (es + [e])[..|es|] == es;
    }
  }

  // Where only one entry can name i.
  lemma {:induction false} CountInOnly(es: seq<Entry>, k: nat, i: nat)
    requires forall j :: 0 <= j < |es| && j != k ==> One(es[j], i) == 0
    ensures CountIn(es, i) == if k < |es| then One(es[k], i) else 0
  {
    if es != [] {
      CountInOnly(es[..|es| - 1], k, i);
    }
  }

  lemma {:induction false} CountInAtLeast(es: seq<Entry>, k: nat, i: nat)
    requires k < |es|
    ensures CountIn(es, i) >= One(es[k], i)
  {
    if k < |es| - 1 {
      CountInAtLeast(es[..|es| - 1], k, i);
    }
  }

  lemma {:induction false} CountSet(ino: seq<Inode>, d: nat, x: Inode, i: nat)
    requires d < |ino|
    ensures Count(ino[d := x], i) == Count(ino, i) - From(ino[d], i) + From(x, i)
  {
    hide From;
    if d == |ino| - 1 {
      assert ino[d := x][..d] == ino[..d];
    } else {
      assert ino[d := x][..|ino| - 1] == ino[..|ino| - 1][d := x];
      CountSet(ino[..|ino| - 1], d, x, i);
    }
  }

  lemma {:induction false} CountAtLeast(ino: seq<Inode>, d: nat, i: nat)
    requires d < |ino|
    ensures Count(ino, i) >= From(ino[d], i)
  {
    hide From;
    if d < |ino| - 1 {
      CountAtLeast(ino[..|ino| - 1], d, i);
    }
  }

  lemma {:induction false} CountAtLeastTwo(ino: seq<Inode>, d: nat, e: nat, i: nat)
    requires d < e < |ino|
    ensures Count(ino, i) >= From(ino[d], i) + From(ino[e], i)
  {
    hide From;
    if e < |ino| - 1 {
      CountAtLeastTwo(ino[..|ino| - 1], d, e, i);
    } else {
      CountAtLeast(ino[..|ino| - 1], d, i);
    }
  }

  lemma {:induction false} CountOnly(ino: seq<Inode>, d: nat, i: nat)
    requires forall e :: 0 <= e < |ino| && e != d ==> From(ino[e], i) == 0
    ensures Count(ino, i) == if d < |ino| then From(ino[d], i) else 0
  {
    hide From;
    if ino != [] {
      CountOnly(ino[..|ino| - 1], d, i);
    }
  }

  // ----- sys_link -----

  // Raising the count keeps the invariant as long as the short does not overflow.
  lemma {:induction false} LinkBeginKeeps(s: State, ip: nat)
    requires Inv(s) && ip < |s.ino| && s.ino[ip].typ != FREE && s.ino[ip].typ != DIR
    ensures Inv(LinkBegin(s, ip)) <==> s.ino[ip].nlink < MAXSHORT
  {
    hide Count, CountIn;
    var r := LinkBegin(s, ip);
    forall i | 0 <= i < |s.ino| ensures Count(r.ino, i) == Count(s.ino, i) {
      CountSet(s.ino, ip, r.ino[ip], i);
    }
    assert r.pending[ip] == s.pending[ip] + 1;
    if s.ino[ip].nlink < MAXSHORT {
      TreeSame(s.ino, ip, r.ino[ip]);
    } else {
      assert s.ino[ip].nlink == Count(s.ino, ip) + s.pending[ip];
    }
  }

  // An inode that is not a directory is not part of the tree.
  lemma {:induction false} TreeSame(ino: seq<Inode>, i: nat, x: Inode)
    requires Tree(ino) && i < |ino| && ino[i].typ != DIR && x.typ != DIR && x.es == ino[i].es
    ensures Tree(ino[i := x])
  {
    var r := ino[i := x];
    forall d: nat, k: nat, c: nat ensures Holds(r, d, k, c) <==> Holds(ino, d, k, c) {}
    forall d | 0 <= d < |r| && r[d].typ == DIR ensures DirOk(r, d) { assert DirOk(ino, d); }
    forall c | 0 <= c < |r| && IsLinked(r[c]) ensures HasParent(r, c) { assert HasParent(ino, c); }
  }

  // What Linked does to the entries: one that was free, or is new, becomes e.
  lemma {:induction false} LinkedShape(es: seq<Entry>, e: Entry) returns (off: nat)
    ensures off == FreeSlot(es, 0) && off <= |es| && |Linked(es, e)| == (if off < |es| then |es| else |es| + 1)
    ensures Linked(es, e)[off] == e && (off < |es| ==> es[off].inum == 0)
    ensures forall k :: 0 <= k < |es| && k != off ==> Linked(es, e)[k] == es[k]
  {
    off := FreeSlot(es, 0);
  }

  lemma {:induction false} DirOkLinked(ino: seq<Inode>, dp: nat, e: Entry, r: seq<Inode>)
    requires dp < |ino| && |r| == |ino| && DirOk(ino, dp) && !HasName(ino[dp].es, e.name)
    requires e.inum < |ino| && r[dp].es == Linked(ino[dp].es, e) && r[dp].nlink > 0
    ensures DirOk(r, dp)
  {
    hide Linked;
    var off := LinkedShape(ino[dp].es, e);
  }

  lemma {:induction false} DotsFirst(ino: seq<Inode>, d: nat)
    requires d < |ino| && DirOk(ino, d)
    ensures |ino[d].es| >= 2 && ino[d].es[0] == Entry(d, ".") && ino[d].es[1].inum != 0 && d != 0
  {
  }

  lemma {:induction false} TreeAddFile(ino: seq<Inode>, dp: nat, e: Entry)
    requires Tree(ino) && dp < |ino| && IsLinked(ino[dp]) && !HasName(ino[dp].es, e.name)
    requires e.inum < |ino| && ino[e.inum].typ != DIR
    ensures Tree(ino[dp := ino[dp].(es := Linked(ino[dp].es, e))])
  {
    hide Linked, HasName, Count, CountIn, DirOk;
    var r := ino[dp := ino[dp].(es := Linked(ino[dp].es, e))];
    var off := LinkedShape(ino[dp].es, e);
    forall d: nat, k: nat, c: nat ensures Holds(r, d, k, c) <==> Holds(ino, d, k, c) {}
    forall d | 0 <= d < |r| && r[d].typ == DIR ensures DirOk(r, d) {
      if d == dp { DirOkLinked(ino, dp, e, r); } else { DirOkSame(ino, d, r); }
    }
    DotsFirst(ino, dp);
    assert off >= 2;
    forall c | 0 <= c < |r| && IsLinked(r[c]) ensures HasParent(r, c) { assert HasParent(ino, c); }
  }

  // The end of sys_link restores the invariant for the counts when it fails, and when it
  // succeeds in a directory that is itself linked; in an unlinked one it breaks them.
  lemma {:induction false} LinkEndKeeps(s: State, ip: nat, dp: Option<nat>, name: string)
    requires Inv(s) && ip in s.pending && (dp.Some? ==> dp.value < |s.ino| && s.ino[dp.value].typ == DIR)
    ensures var (r, o) := LinkEnd(s, ip, dp, name);
            && (o == Failed ==> Inv(r))
            && (o == Done ==> (if IsLinked(s.ino[dp.value]) then Inv(r) else !Counts(r)))
  {
    hide Count, CountIn, HasName, HasRoom, Linked, Tree;
    var (r, o) := LinkEnd(s, ip, dp, name);
    assert s.ino[ip].nlink == Count(s.ino, ip) + s.pending[ip];
    if o == Failed {
      forall i | 0 <= i < |s.ino| ensures Count(r.ino, i) == Count(s.ino, i) {
        CountSet(s.ino, ip, r.ino[ip], i);
      }
      TreeSame(s.ino, ip, r.ino[ip]);
    } else if o == Done {
      LinkCounted(s.ino, dp.value, name, ip);
      if IsLinked(s.ino[dp.value]) {
        TreeAddFile(s.ino, dp.value, Entry(ip, name));
      }
    }
  }

  // A new entry counts for the inode that it names, if its directory is linked.
  lemma {:induction false} LinkCounted(ino: seq<Inode>, dp: nat, name: string, ip: nat)
    requires Tree(ino) && dp < |ino| && ino[dp].typ == DIR && !HasName(ino[dp].es, name) && 0 < ip < |ino|
    ensures var r := ino[dp := ino[dp].(es := Linked(ino[dp].es, Entry(ip, name)))];
            forall i :: 0 <= i < |ino| ==>
              Count(r, i) == Count(ino, i) + if i == ip && IsLinked(ino[dp]) then 1 else 0
  {
    hide Count, CountIn, HasName, Linked;
    NotDot(ino, dp, name);
    var x := ino[dp].(es := Linked(ino[dp].es, Entry(ip, name)));
    forall i | 0 <= i < |ino|
      ensures Count(ino[dp := x], i) == Count(ino, i) + if i == ip && IsLinked(ino[dp]) then 1 else 0
    {
      CountSet(ino, dp, x, i);
      LinkedCounts(ino[dp].es, Entry(ip, name), i);
    }
  }

  // A directory has a ".", so no new entry is called that.
  lemma {:induction false} NotDot(ino: seq<Inode>, d: nat, name: string)
    requires d < |ino| && DirOk(ino, d) && !HasName(ino[d].es, name)
    ensures name != "." && name != ".."
  {
  }

  // When the new name cannot be made, sys_link leaves no trace, even if the count overflowed.
  lemma {:induction false} FailedLinkUndone(s: State, ip: nat, dp: Option<nat>, name: string)
    requires ip < |s.ino| && -0x8000 <= s.ino[ip].nlink <= MAXSHORT && (dp.Some? ==> dp.value < |s.ino|)
    ensures var (r, o) := LinkEnd(LinkBegin(s, ip), ip, dp, name);
            o == Failed ==> r == s
  {
    var m := LinkBegin(s, ip);
    assert m.pending - multiset{ip} == s.pending;
    var (r, o) := LinkEnd(m, ip, dp, name);
    assert o == Failed ==> r.ino == s.ino;
  }

  // ----- sys_unlink -----

  // An empty directory is named by the entry that holds it and by nothing else.
  lemma {:induction false} EmptyDirCount(ino: seq<Inode>, dp: nat, off: nat, ip: nat)
    requires Tree(ino) && Holds(ino, dp, off, ip) && IsDirEmpty(ino[ip].es)
    ensures Count(ino, ip) == 1
  {
    hide Count;
    assert DirOk(ino, dp) && DirOk(ino, ip);
    forall e | 0 <= e < |ino| && e != dp ensures From(ino[e], ip) == 0 {
      if IsLinked(ino[e]) {
        OthersDoNotName(ino, dp, off, ip, e);
        CountInOnly(ino[e].es, |ino[e].es|, ip);
      }
    }
    CountOnly(ino, dp, ip);
    forall j | 0 <= j < |ino[dp].es| && j != off ensures One(ino[dp].es[j], ip) == 0 {
      HolderNamesOnce(ino, dp, off, ip, j);
    }
    CountInOnly(ino[dp].es, off, ip);
    assert ino[dp].es[0].inum != 0 && ino[dp].es[off].name != ".";
  }

  lemma {:induction false} OthersDoNotName(ino: seq<Inode>, dp: nat, off: nat, ip: nat, e: nat)
    requires Tree(ino) && Holds(ino, dp, off, ip) && IsDirEmpty(ino[ip].es)
    requires e < |ino| && e != dp && IsLinked(ino[e])
    ensures forall j :: 0 <= j < |ino[e].es| ==> One(ino[e].es[j], ip) == 0
  {
    hide Count, CountIn, DirOk, HasParent, IsDirEmpty;
    EmptyIsNoParent(ino, ip, e);
    DotsFirst(ino, e);
    forall j | 0 <= j < |ino[e].es| ensures One(ino[e].es[j], ip) == 0 {
      assert Holds(ino, e, j, ip) ==> e == dp;
    }
  }

  lemma {:induction false} HolderNamesOnce(ino: seq<Inode>, dp: nat, off: nat, ip: nat, j: nat)
    requires Tree(ino) && Holds(ino, dp, off, ip) && IsDirEmpty(ino[ip].es)
    requires j < |ino[dp].es| && j != off
    ensures One(ino[dp].es[j], ip) == 0
  {
    hide Count, CountIn, DirOk, HasParent, IsDirEmpty;
    EmptyIsNoParent(ino, ip, dp);
    DotsFirst(ino, dp);
    assert Holds(ino, dp, j, ip) ==> j == off;
  }

  // The ".." of a linked directory does not name an empty one.
  lemma {:induction false} EmptyIsNoParent(ino: seq<Inode>, ip: nat, e: nat)
    requires e < |ino| && HasParent(ino, e) && ip < |ino| && IsDirEmpty(ino[ip].es) && ip != ROOTINO
    ensures ino[e].es[1].inum != ip
  {
    forall k: nat, c: nat ensures !Holds(ino, ip, k, c) {}
  }

  // The directory that holds another one is named by its ".." and by its own parent.
  lemma {:induction false} HolderCount(ino: seq<Inode>, dp: nat, off: nat, ip: nat)
    requires Tree(ino) && Holds(ino, dp, off, ip) && IsDirEmpty(ino[ip].es) && IsLinked(ino[ip])
    ensures Count(ino, dp) >= 2
  {
    hide Count;
    assert DirOk(ino, dp) && DirOk(ino, ip) && HasParent(ino, dp);
    CountInAtLeast(ino[ip].es, 1, dp);
    var p := ino[dp].es[1].inum;
    if dp == ROOTINO {
      CountInAtLeast(ino[dp].es, 1, dp);
    } else {
      var k: nat :| Holds(ino, p, k, dp);
      assert DirOk(ino, p) && ino[p].es[k].name != ".";
      CountInAtLeast(ino[p].es, k, dp);
    }
    assert p != ip;
    if p < ip { CountAtLeastTwo(ino, p, ip, dp); } else { CountAtLeastTwo(ino, ip, p, dp); }
  }

  lemma {:induction false} DirOkErased(ino: seq<Inode>, dp: nat, off: nat, r: seq<Inode>)
    requires dp < |ino| && |r| == |ino| && DirOk(ino, dp) && 2 <= off < |ino[dp].es|
    requires r[dp].es == ino[dp].es[off := FreeEntry] && (r[dp].nlink <= 0 ==> ino[dp].nlink <= 0)
    ensures DirOk(r, dp)
  {
  }

  // Taking away an entry that names no directory.
  lemma {:induction false} TreeDropFile(ino: seq<Inode>, dp: nat, off: nat)
    requires Tree(ino) && dp < |ino| && ino[dp].typ == DIR && 2 <= off < |ino[dp].es|
    requires ino[dp].es[off].inum < |ino| && ino[ino[dp].es[off].inum].typ != DIR
    ensures Tree(ino[dp := ino[dp].(es := ino[dp].es[off := FreeEntry])])
  {
    hide Count, CountIn, DirOk;
    var r := ino[dp := ino[dp].(es := ino[dp].es[off := FreeEntry])];
    forall d: nat, k: nat, c: nat ensures Holds(r, d, k, c) <==> Holds(ino, d, k, c) {}
    forall d | 0 <= d < |r| && r[d].typ == DIR ensures DirOk(r, d) {
      if d == dp { DirOkErased(ino, dp, off, r); } else { DirOkSame(ino, d, r); }
    }
    forall c | 0 <= c < |r| && IsLinked(r[c]) ensures HasParent(r, c) { assert HasParent(ino, c); }
  }

  lemma {:induction false} DirOkSame(ino: seq<Inode>, d: nat, r: seq<Inode>)
    requires d < |ino| && |r| == |ino| && DirOk(ino, d) && r[d] == ino[d]
    ensures DirOk(r, d)
  {
  }

  // Taking an empty directory away from the one that holds it.
  lemma {:induction false} TreeDropDir(ino: seq<Inode>, dp: nat, off: nat, ip: nat)
    requires Tree(ino) && Holds(ino, dp, off, ip) && IsDirEmpty(ino[ip].es) && ino[dp].nlink >= 2
    ensures Tree(WithoutDir(ino, dp, off, ip))
  {
    hide Count, CountIn, DirOk, HasParent, IsDirEmpty;
    var r := WithoutDir(ino, dp, off, ip);
    DropDirHolds(ino, dp, off, ip);
    forall d | 0 <= d < |r| && r[d].typ == DIR ensures DirOk(r, d) {
      if d == dp {
        DirOkErased(ino, dp, off, r);
      } else if d == ip {
        DirOkUnlinked(ino, ip, r);
      } else {
        DirOkSame(ino, d, r);
      }
    }
    forall c | 0 <= c < |r| && IsLinked(r[c]) ensures HasParent(r, c) {
      DropDirParent(ino, dp, off, ip, c);
    }
  }

  lemma {:induction false} DirOkUnlinked(ino: seq<Inode>, d: nat, r: seq<Inode>)
    requires d < |ino| && |r| == |ino| && DirOk(ino, d) && IsDirEmpty(ino[d].es) && r[d].es == ino[d].es
    ensures DirOk(r, d)
  {
  }

  lemma {:induction false} DropDirHolds(ino: seq<Inode>, dp: nat, off: nat, ip: nat)
    requires Tree(ino) && Holds(ino, dp, off, ip) && IsDirEmpty(ino[ip].es) && ino[dp].nlink >= 2
    ensures var r := WithoutDir(ino, dp, off, ip);
            forall d: nat, k: nat, c: nat :: Holds(r, d, k, c) <==> Holds(ino, d, k, c) && c != ip
  {
    hide Count, CountIn, DirOk, HasParent;
    assert DirOk(ino, ip);
    DotsFirst(ino, ip);
    assert dp != ip && ino[ip].es[1].inum == dp;
    var r := WithoutDir(ino, dp, off, ip);
    forall d: nat, k: nat, c: nat
      ensures Holds(r, d, k, c) <==> Holds(ino, d, k, c) && c != ip
    {
      if Holds(ino, d, k, ip) {
        assert d == dp && k == off;
      }
      if Holds(ino, d, k, c) && c != ip {
        assert d != ip && (d == dp ==> k != off);
        assert Holds(r, d, k, c);
      }
    }
  }

  lemma {:induction false} DropDirParent(ino: seq<Inode>, dp: nat, off: nat, ip: nat, c: nat)
    requires Tree(ino) && Holds(ino, dp, off, ip) && IsDirEmpty(ino[ip].es) && ino[dp].nlink >= 2
    requires c < |ino| && IsLinked(WithoutDir(ino, dp, off, ip)[c])
    ensures HasParent(WithoutDir(ino, dp, off, ip), c)
  {
    hide Count, CountIn, DirOk;
    DropDirHolds(ino, dp, off, ip);
    var r := WithoutDir(ino, dp, off, ip);
    assert DirOk(ino, c) && DirOk(ino, dp);
    DotsFirst(ino, dp);
    assert HasParent(ino, c) && c != ip;
    if c != ROOTINO {
      var k: nat :| Holds(ino, ino[c].es[1].inum, k, c);
      assert Holds(r, r[c].es[1].inum, k, c);
    }
  }

  function WithoutDir(ino: seq<Inode>, dp: nat, off: nat, ip: nat): (r: seq<Inode>)
    requires dp < |ino| && ip < |ino| && off < |ino[dp].es|
    ensures |r| == |ino|
  {
    var m := ino[dp := ino[dp].(es := ino[dp].es[off := FreeEntry], nlink := ino[dp].nlink - 1)];
    m[ip := m[ip].(nlink := 0)]
  }

  function WithoutFile(ino: seq<Inode>, dp: nat, off: nat, ip: nat): (r: seq<Inode>)
    requires dp < |ino| && ip < |ino| && off < |ino[dp].es|
    ensures |r| == |ino|
  {
    var m := ino[dp := ino[dp].(es := ino[dp].es[off := FreeEntry])];
    m[ip := m[ip].(nlink := m[ip].nlink - 1)]
  }

  lemma {:induction false} CountWithoutDir(ino: seq<Inode>, dp: nat, off: nat, ip: nat, i: nat)
    requires Tree(ino) && Holds(ino, dp, off, ip) && IsDirEmpty(ino[ip].es)
    requires ino[dp].nlink >= 2 && IsLinked(ino[ip])
    ensures Count(WithoutDir(ino, dp, off, ip), i)
         == Count(ino, i) - (if i == ip then 1 else 0) - (if i == dp then 1 else 0)
  {
    hide Count;
    assert DirOk(ino, dp) && DirOk(ino, ip) && dp != ip;
    var d := ino[dp].(es := ino[dp].es[off := FreeEntry], nlink := ino[dp].nlink - 1);
    CountSet(ino, dp, d, i);
    CountSet(ino[dp := d], ip, ino[ip].(nlink := 0), i);
    CountInSet(ino[dp].es, off, FreeEntry, i);
    CountInOnly(ino[ip].es, 1, i);
    assert ino[dp].es[off].name != ".";
  }

  lemma {:induction false} CountWithoutFile(ino: seq<Inode>, dp: nat, off: nat, ip: nat, i: nat)
    requires Tree(ino) && dp < |ino| && IsLinked(ino[dp]) && 2 <= off < |ino[dp].es| && ino[dp].es[off].inum == ip
    requires 0 < ip < |ino| && ino[ip].typ != DIR
    ensures Count(WithoutFile(ino, dp, off, ip), i) == Count(ino, i) - (if i == ip then 1 else 0)
  {
    hide Count, CountIn, HasParent, IsDirEmpty;
    assert DirOk(ino, dp);
    var d := ino[dp].(es := ino[dp].es[off := FreeEntry]);
    CountSet(ino, dp, d, i);
    CountSet(ino[dp := d], ip, ino[ip].(nlink := ino[ip].nlink - 1), i);
    CountInSet(ino[dp].es, off, FreeEntry, i);
    assert ino[dp].es[off].name != ".";
  }

  lemma {:induction false} EntriesInRange(s: State, dp: nat)
    requires Tree(s.ino) && dp < |s.ino| && s.ino[dp].typ == DIR
    ensures forall k :: 0 <= k < |s.ino[dp].es| ==> s.ino[dp].es[k].inum < |s.ino|
  {
    assert DirOk(s.ino, dp);
  }

  // sys_unlink needs no condition: it keeps the counts and never finds one below 1.
  lemma {:induction false} UnlinkKeeps(s: State, dp: nat, name: string)
    requires Inv(s) && dp < |s.ino| && s.ino[dp].typ == DIR
    ensures forall k :: 0 <= k < |s.ino[dp].es| ==> s.ino[dp].es[k].inum < |s.ino|
    ensures Inv(Unlink(s, dp, name).0) && Unlink(s, dp, name).1 != Panic
  {
    hide Count, CountIn;
    EntriesInRange(s, dp);
    var off := Find(s.ino[dp].es, name, 0);
    if name != "." && name != ".." && off < |s.ino[dp].es| {
      assert DirOk(s.ino, dp);
      var ip := s.ino[dp].es[off].inum;
      if s.ino[ip].typ == DIR {
        if IsDirEmpty(s.ino[ip].es) {
          UnlinkDirKeeps(s, dp, name, off, ip);
        } else {
          assert DirOk(s.ino, ip);
        }
      } else {
        UnlinkFileKeeps(s, dp, name, off, ip);
      }
    }
  }

  // What sys_unlink does, told from the entry that has the name.
  lemma {:induction false} UnlinkNamed(s: State, dp: nat, k: nat, name: string)
    requires Inv(s) && dp < |s.ino| && s.ino[dp].typ == DIR && name != "." && name != ".."
    requires FirstNamed(s.ino[dp].es, k, name)
    ensures forall k :: 0 <= k < |s.ino[dp].es| ==> s.ino[dp].es[k].inum < |s.ino|
    ensures var (r, o) := Unlink(s, dp, name);
            var ip := s.ino[dp].es[k].inum;
            && ip < |s.ino| && ip != dp
            && o == (if s.ino[ip].typ == DIR && !IsDirEmpty(s.ino[ip].es) then Failed else Done)
            && (o == Done ==>
                  && |r.ino| == |s.ino|
                  && r.ino[dp] == s.ino[dp].(es := s.ino[dp].es[k := Entry(0, "")],
                                             nlink := s.ino[dp].nlink - (if s.ino[ip].typ == DIR then 1 else 0))
                  && r.ino[ip] == s.ino[ip].(nlink := s.ino[ip].nlink - 1)
                  && forall j :: 0 <= j < |s.ino| && j != ip && j != dp ==> r.ino[j] == s.ino[j])
  {
    hide Count, CountIn;
    UnlinkKeeps(s, dp, name);
    FindIs(s.ino[dp].es, name);
    assert DirOk(s.ino, dp);
    var ip := s.ino[dp].es[k].inum;
    if s.ino[ip].typ == DIR {
      assert Holds(s.ino, dp, k, ip);
      HolderDiffers(s.ino, dp, k, ip);
    }
    assert 1 <= s.ino[ip].nlink <= MAXSHORT && 0 < s.ino[dp].nlink <= MAXSHORT;
    hide Inv, Tree, DirOk, FirstNamed, Find;
  }

  lemma {:induction false} UnlinkDirKeeps(s: State, dp: nat, name: string, off: nat, ip: nat)
    requires Inv(s) && Holds(s.ino, dp, off, ip) && off == Find(s.ino[dp].es, name, 0)
    requires name != "." && name != ".." && IsDirEmpty(s.ino[ip].es)
    requires forall k :: 0 <= k < |s.ino[dp].es| ==> s.ino[dp].es[k].inum < |s.ino|
    ensures Inv(Unlink(s, dp, name).0) && Unlink(s, dp, name).1 == Done
  {
    hide Tree, Count, CountIn, HasParent, DirOk;
    EmptyDirCount(s.ino, dp, off, ip);
    assert s.ino[ip].nlink == 1;
    HolderCount(s.ino, dp, off, ip);
    assert s.ino[dp].nlink >= 2;
    TreeDropDir(s.ino, dp, off, ip);
    assert dp != ip by { HolderDiffers(s.ino, dp, off, ip); }
    var r := Unlink(s, dp, name).0;
    assert r.ino == WithoutDir(s.ino, dp, off, ip);
    forall i | 0 <= i < |s.ino| ensures r.ino[i].nlink == Count(r.ino, i) + r.pending[i] {
      CountWithoutDir(s.ino, dp, off, ip, i);
    }
  }

  lemma {:induction false} HolderDiffers(ino: seq<Inode>, dp: nat, off: nat, ip: nat)
    requires Tree(ino) && Holds(ino, dp, off, ip)
    ensures dp != ip && ip != ROOTINO
  {
  }

  lemma {:induction false} UnlinkFileKeeps(s: State, dp: nat, name: string, off: nat, ip: nat)
    requires Inv(s) && dp < |s.ino| && IsLinked(s.ino[dp]) && 2 <= off < |s.ino[dp].es|
    requires off == Find(s.ino[dp].es, name, 0) && s.ino[dp].es[off].inum == ip
    requires name != "." && name != ".." && 0 < ip < |s.ino| && s.ino[ip].typ != DIR
    requires forall k :: 0 <= k < |s.ino[dp].es| ==> s.ino[dp].es[k].inum < |s.ino|
    ensures Inv(Unlink(s, dp, name).0) && Unlink(s, dp, name).1 == Done
  {
    hide Tree, Count, CountIn, HasParent, DirOk, Holds;
    FileNamed(s.ino, dp, off, ip);
    assert 1 <= s.ino[ip].nlink <= MAXSHORT;
    var r := Unlink(s, dp, name).0;
    assert r.ino == WithoutFile(s.ino, dp, off, ip);
    TreeDropFile(s.ino, dp, off);
    TreeSame(s.ino[dp := s.ino[dp].(es := s.ino[dp].es[off := FreeEntry])], ip, r.ino[ip]);
    forall i | 0 <= i < |s.ino| ensures r.ino[i].nlink == Count(r.ino, i) + r.pending[i] {
      CountWithoutFile(s.ino, dp, off, ip, i);
    }
  }

  // What an entry of a linked directory names has a link.
  lemma {:induction false} FileNamed(ino: seq<Inode>, dp: nat, off: nat, ip: nat)
    requires Tree(ino) && dp < |ino| && IsLinked(ino[dp]) && 2 <= off < |ino[dp].es| && ino[dp].es[off].inum == ip
    requires 0 < ip
    ensures Count(ino, ip) >= 1
  {
    assert DirOk(ino, dp) && ino[dp].es[off].name != ".";
    CountInAtLeast(ino[dp].es, off, ip);
    CountAtLeast(ino, dp, ip);
  }

  // ----- iput -----

  // The inode that loses its last link and reference is freed.
  lemma {:induction false} FreeKeeps(s: State, i: nat)
    requires Inv(s) && i < |s.ino| && s.ino[i].nlink == 0
    ensures Inv(Free(s, i))
  {
    hide CountIn, Count;
    var r := Free(s, i);
    assert 0 == Count(s.ino, i) + s.pending[i];
    forall j | 0 <= j < |s.ino| ensures Count(r.ino, j) == Count(s.ino, j) {
      CountSet(s.ino, i, r.ino[i], j);
    }
    forall d: nat, k: nat, c: nat ensures Holds(r.ino, d, k, c) <==> Holds(s.ino, d, k, c) {
      if Holds(s.ino, d, k, c) && c == i {
        FileNamed(s.ino, d, k, c);
      }
    }
    forall d | 0 <= d < |r.ino| && r.ino[d].typ == DIR ensures DirOk(r.ino, d) { assert DirOk(s.ino, d); }
    forall c | 0 <= c < |r.ino| && IsLinked(r.ino[c]) ensures HasParent(r.ino, c) { assert HasParent(s.ino, c); }
  }

  // ----- create -----

  // A free inode becomes a directory that only `dp` will name.
  lemma {:induction false} TreeAddDir(ino: seq<Inode>, dp: nat, name: string, ip: nat)
    requires Tree(ino) && dp < |ino| && IsLinked(ino[dp]) && !HasName(ino[dp].es, name)
    requires 0 < ip < |ino| && ino[ip].typ == FREE && ino[dp].nlink < MAXSHORT
    requires Count(ino, ip) == 0
    ensures Tree(Created(ino, dp, name, DIR, ip))
  {
    hide Linked, HasName, Count, CountIn, DirOk, HasParent;
    var r := Created(ino, dp, name, DIR, ip);
    AddDirHolds(ino, dp, name, ip);
    var off := LinkedShape(ino[dp].es, Entry(ip, name));
    DotsFirst(ino, dp);
    assert forall c :: 0 <= c < |ino| && c != ip && ino[c].typ == DIR ==> |r[c].es| >= 2 && r[c].es[1] == ino[c].es[1] by {
      forall c | 0 <= c < |ino| && c != ip && ino[c].typ == DIR ensures |r[c].es| >= 2 && r[c].es[1] == ino[c].es[1] {
        DotsFirst(ino, c);
      }
    }
    forall d | 0 <= d < |r| && r[d].typ == DIR ensures DirOk(r, d) {
      if d == dp {
        DirOkLinked(ino, dp, Entry(ip, name), r);
      } else if d == ip {
        NewDirOk(r, ip, dp);
      } else {
        DirOkSame(ino, d, r);
      }
    }
    forall c | 0 <= c < |r| && IsLinked(r[c]) ensures HasParent(r, c) {
      AddDirParent(ino, dp, name, ip, c);
    }
  }

  lemma {:induction false} NewDirOk(ino: seq<Inode>, ip: nat, dp: nat)
    requires 0 < ip < |ino| && 0 < dp < |ino| && ip != dp && ino[ip] == Inode(DIR, 1, [Entry(ip, "."), Entry(dp, "..")])
    ensures DirOk(ino, ip)
  {
  }

  lemma {:induction false} AddDirHolds(ino: seq<Inode>, dp: nat, name: string, ip: nat)
    requires Tree(ino) && dp < |ino| && IsLinked(ino[dp]) && ino[dp].nlink < MAXSHORT
    requires 0 < ip < |ino| && ino[ip].typ == FREE && Count(ino, ip) == 0
    ensures var r := Created(ino, dp, name, DIR, ip);
            forall d: nat, k: nat, c: nat :: Holds(r, d, k, c) <==>
              Holds(ino, d, k, c) || (d == dp && k == FreeSlot(ino[dp].es, 0) && c == ip)
  {
    hide Linked, Count, CountIn, DirOk, HasParent;
    var r := Created(ino, dp, name, DIR, ip);
    var off := LinkedShape(ino[dp].es, Entry(ip, name));
    DotsFirst(ino, dp);
    forall d: nat, k: nat, c: nat
      ensures Holds(r, d, k, c) <==> Holds(ino, d, k, c) || (d == dp && k == off && c == ip)
    {
      if Holds(r, d, k, c) && !Holds(ino, d, k, c) && !(d == dp && k == off && c == ip) {
        assert c == ip && ino[d].es[k].inum == ip;
        FileNamed(ino, d, k, ip);
      }
    }
  }

  lemma {:induction false} AddDirParent(ino: seq<Inode>, dp: nat, name: string, ip: nat, c: nat)
    requires Tree(ino) && dp < |ino| && IsLinked(ino[dp]) && ino[dp].nlink < MAXSHORT
    requires 0 < ip < |ino| && ino[ip].typ == FREE && Count(ino, ip) == 0
    requires c < |ino| && IsLinked(Created(ino, dp, name, DIR, ip)[c])
    ensures HasParent(Created(ino, dp, name, DIR, ip), c)
  {
    hide Linked, Count, CountIn, DirOk;
    var r := Created(ino, dp, name, DIR, ip);
    AddDirHolds(ino, dp, name, ip);
    var off := LinkedShape(ino[dp].es, Entry(ip, name));
    DotsFirst(ino, dp);
    if c == ip {
      assert Holds(r, dp, off, ip) && ip != ROOTINO && r[ip].es[1].inum == dp;
    } else {
      assert HasParent(ino, c);
      assert |r[c].es| >= 2 && r[c].es[1] == ino[c].es[1];
      if c != ROOTINO {
        var k: nat :| Holds(ino, ino[c].es[1].inum, k, c);
        assert Holds(r, r[c].es[1].inum, k, c);
      }
    }
  }

  lemma {:induction false} CountCreated(ino: seq<Inode>, dp: nat, name: string, typ: FileType, ip: nat, i: nat)
    requires Tree(ino) && dp < |ino| && ino[dp].typ == DIR && !HasName(ino[dp].es, name)
    requires 0 < ip < |ino| && ino[ip].typ == FREE && typ != FREE && i < |ino|
    ensures var r := Created(ino, dp, name, typ, ip);
            Count(r, i) == Count(ino, i)
              - From(ino[dp], i)
              + (if IsLinked(r[dp]) then CountIn(ino[dp].es, i) + (if i == ip then 1 else 0) else 0)
              + (if typ == DIR && i == dp then 1 else 0)
  {
    hide Count, CountIn, HasName, Linked;
    NotDot(ino, dp, name);
    var r := Created(ino, dp, name, typ, ip);
    CountSet(ino, ip, r[ip], i);
    CountSet(ino[ip := r[ip]], dp, r[dp], i);
    LinkedCounts(ino[dp].es, Entry(ip, name), i);
    if typ == DIR {
      CountInOnly(r[ip].es, 1, i);
    } else {
      CountInOnly(r[ip].es, 0, i);
    }
  }

  lemma {:induction false} FreeFacts(s: State, dp: nat, ip: nat)
    requires Inv(s) && dp < |s.ino| && s.ino[dp].typ == DIR && ip < |s.ino| && s.ino[ip].typ == FREE
    ensures Count(s.ino, ip) == 0 && s.pending[ip] == 0 && s.ino[ip].es == [] && dp != 0
    ensures s.pending[dp] == 0 && s.ino[dp].nlink == Count(s.ino, dp) && s.ino[dp].nlink <= MAXSHORT
    ensures IsLinked(s.ino[ROOTINO])
  {
    hide Count, CountIn;
    assert s.ino[ip].nlink == Count(s.ino, ip) + s.pending[ip];
    assert DirOk(s.ino, dp);
  }

  lemma {:induction false} CreateTree(s: State, dp: nat, name: string, typ: FileType, ip: nat)
    requires Inv(s) && dp < |s.ino| && IsLinked(s.ino[dp]) && typ != FREE && (typ == DIR ==> s.ino[dp].nlink < MAXSHORT)
    requires 0 < ip < |s.ino| && s.ino[ip].typ == FREE && !HasName(s.ino[dp].es, name)
    ensures Tree(Created(s.ino, dp, name, typ, ip))
  {
    hide Count, CountIn, HasName, Linked, Tree, DirOk;
    FreeFacts(s, dp, ip);
    if typ == DIR {
      TreeAddDir(s.ino, dp, name, ip);
    } else {
      var x := Inode(typ, 1, []);
      TreeSame(s.ino, ip, x);
      TreeAddFile(s.ino[ip := x], dp, Entry(ip, name));
    }
  }

  lemma {:induction false} CreateLinkedKeeps(s: State, dp: nat, name: string, typ: FileType, ip: nat)
    requires Inv(s) && dp < |s.ino| && IsLinked(s.ino[dp]) && typ != FREE && (typ == DIR ==> s.ino[dp].nlink < MAXSHORT)
    requires 0 < ip < |s.ino| && s.ino[ip].typ == FREE && !HasName(s.ino[dp].es, name)
    ensures Inv(s.(ino := Created(s.ino, dp, name, typ, ip)))
  {
    hide Count, CountIn, HasName, Linked, Tree, DirOk;
    FreeFacts(s, dp, ip);
    CreateTree(s, dp, name, typ, ip);
    var r := s.(ino := Created(s.ino, dp, name, typ, ip));
    forall i | 0 <= i < |s.ino| ensures r.ino[i].nlink == Count(r.ino, i) + r.pending[i] {
      CountCreated(s.ino, dp, name, typ, ip, i);
    }
  }

  lemma {:induction false} CreateUnlinkedBreaks(s: State, dp: nat, name: string, typ: FileType, ip: nat)
    requires Inv(s) && dp < |s.ino| && s.ino[dp].typ == DIR && !IsLinked(s.ino[dp]) && typ != FREE
    requires 0 < ip < |s.ino| && s.ino[ip].typ == FREE && !HasName(s.ino[dp].es, name)
    ensures !Counts(s.(ino := Created(s.ino, dp, name, typ, ip)))
  {
    hide Count, CountIn, HasName, Linked, Tree, DirOk;
    FreeFacts(s, dp, ip);
    var r := s.(ino := Created(s.ino, dp, name, typ, ip));
    if typ == DIR {
      // dp is linked again, so that its ".." counts for its former parent p
      var p := DotDot(s.ino, dp);
      assert s.ino[p].nlink == Count(s.ino, p) + s.pending[p];
      CountCreated(s.ino, dp, name, typ, ip, p);
      CountInAtLeast(s.ino[dp].es, 1, p);
      assert r.ino[p].nlink != Count(r.ino, p) + r.pending[p];
    } else {
      CountCreated(s.ino, dp, name, typ, ip, ip);
      assert r.ino[ip].nlink != Count(r.ino, ip) + r.pending[ip];
    }
  }

  lemma {:induction false} DotDot(ino: seq<Inode>, d: nat) returns (p: nat)
    requires Tree(ino) && d < |ino| && ino[d].typ == DIR
    ensures |ino[d].es| >= 2 && 0 < p < |ino| && ino[d].es[1] == Entry(p, "..") && (d != ROOTINO ==> p != d)
  {
    assert DirOk(ino, d);
    p := ino[d].es[1].inum;
  }

  // create keeps the invariant when it makes nothing; when it makes an inode, exactly if the
  // parent is linked and the new ".." does not overflow its count.
  lemma {:induction false} CreateKeeps(s: State, dp: nat, name: string, typ: FileType)
    requires Inv(s) && dp < |s.ino| && s.ino[dp].typ == DIR && typ != FREE
    ensures forall k :: 0 <= k < |s.ino[dp].es| ==> s.ino[dp].es[k].inum < |s.ino|
    ensures var (r, o) := Create(s, dp, name, typ);
            if HasName(s.ino[dp].es, name) then r == s && o != Panic
            else if FirstFree(s.ino, 1) == |s.ino| || !HasRoom(s.ino[dp].es) then r == s && o == Panic
            else
              && o == Done
              && if IsLinked(s.ino[dp]) && (typ == DIR ==> s.ino[dp].nlink < MAXSHORT) then Inv(r)
                 else !Counts(r)
  {
    hide Count, CountIn, HasName, HasRoom, Linked, Tree, DirOk;
    EntriesInRange(s, dp);
    var (r, o) := Create(s, dp, name, typ);
    if !HasName(s.ino[dp].es, name) && o == Done {
      var ip := FirstFree(s.ino, 1);
      FreeFacts(s, dp, ip);
      if IsLinked(s.ino[dp]) {
        if typ == DIR && s.ino[dp].nlink == MAXSHORT {
          assert r.ino[dp].nlink < 0;
        } else {
          CreateLinkedKeeps(s, dp, name, typ, ip);
        }
      } else {
        CreateUnlinkedBreaks(s, dp, name, typ, ip);
      }
    }
  }

  // ----- Whole runs -----

  // Any interleaving of system calls; of these only sys_link lets others in between its steps.
  datatype Event =
    | DoLinkBegin(ip: nat)
    | DoLinkEnd(ip: nat, to: Option<nat>, name: string)
    | DoUnlink(dp: nat, name: string)
    | DoCreate(dp: nat, name: string, typ: FileType)
    | DoFree(i: nat)

  // What the code checks or its callers guarantee before the step.
  ghost predicate Enabled(s: State, e: Event) {
    match e
    case DoLinkBegin(ip) => ip < |s.ino| && s.ino[ip].typ != FREE && s.ino[ip].typ != DIR
    case DoLinkEnd(ip, dp, _) => ip in s.pending && (dp.Some? ==> dp.value < |s.ino| && s.ino[dp.value].typ == DIR)
    case DoUnlink(dp, _) => dp < |s.ino| && s.ino[dp].typ == DIR
    case DoCreate(dp, _, typ) => dp < |s.ino| && s.ino[dp].typ == DIR && typ != FREE
    case DoFree(i) => i < |s.ino| && s.ino[i].nlink == 0
  }

  ghost function Step(s: State, e: Event): (State, Outcome)
    requires Inv(s) && Enabled(s, e)
  {
    match e
    case DoLinkBegin(ip) => (LinkBegin(s, ip), Done)
    case DoLinkEnd(ip, dp, name) => LinkEnd(s, ip, dp, name)
    case DoUnlink(dp, name) => (EntriesInRange(s, dp); Unlink(s, dp, name))
    case DoCreate(dp, name, typ) => (EntriesInRange(s, dp); Create(s, dp, name, typ))
    case DoFree(i) => (Free(s, i), Done)
  }

  // An entry is made only in a directory that is itself linked, and no count overflows.
  ghost predicate Safe(s: State, e: Event)
    requires Inv(s) && Enabled(s, e)
  {
    match e
    case DoLinkBegin(ip) => s.ino[ip].nlink < MAXSHORT
    case DoLinkEnd(ip, dp, name) => dp.Some? && !HasName(s.ino[dp.value].es, name) ==> IsLinked(s.ino[dp.value])
    case DoUnlink(_, _) => true
    case DoCreate(dp, name, typ) =>
      !HasName(s.ino[dp].es, name) ==> IsLinked(s.ino[dp]) && (typ == DIR ==> s.ino[dp].nlink < MAXSHORT)
    case DoFree(_) => true
  }

  // The panics: no room in the directory for a new entry, or no free inode.
  ghost predicate Panics(s: State, e: Event)
    requires Inv(s) && Enabled(s, e)
  {
    match e
    case DoLinkEnd(ip, dp, name) => dp.Some? && !HasName(s.ino[dp.value].es, name) && !HasRoom(s.ino[dp.value].es)
    case DoCreate(dp, name, typ) =>
      !HasName(s.ino[dp].es, name) && (FirstFree(s.ino, 1) == |s.ino| || !HasRoom(s.ino[dp].es))
    case _ => false
  }

  // The counts stay right after exactly the safe steps.
  lemma {:induction false} SafeStepsAreExact(s: State, e: Event)
    requires Inv(s) && Enabled(s, e)
    ensures Step(s, e).1 == Panic <==> Panics(s, e)
    ensures !Panics(s, e) ==> (Counts(Step(s, e).0) <==> Safe(s, e))
    ensures !Panics(s, e) && Safe(s, e) ==> Inv(Step(s, e).0)
  {
    hide Count, CountIn, HasName, HasRoom, Linked, Tree, DirOk, Unlink, Create, Free;
    match e {
      case DoLinkBegin(ip) =>
        LinkBeginKeeps(s, ip);
        if s.ino[ip].nlink == MAXSHORT {
          LinkOverflowBreaks(s, ip);
        }
      case DoLinkEnd(ip, dp, name) => LinkEndKeeps(s, ip, dp, name);
      case DoUnlink(dp, name) => UnlinkKeeps(s, dp, name);
      case DoCreate(dp, name, typ) => CreateKeeps(s, dp, name, typ);
      case DoFree(i) => FreeKeeps(s, i);
    }
  }

  lemma {:induction false} LinkOverflowBreaks(s: State, ip: nat)
    requires ip < |s.ino| && s.ino[ip].nlink == MAXSHORT
    ensures !Counts(LinkBegin(s, ip))
  {
    assert LinkBegin(s, ip).ino[ip].nlink < 0;
  }

  ghost predicate IsRun(s: State, es: seq<Event>)
    requires Inv(s)
    decreases |es|, 0
  {
    es == [] || (
      && IsRun(s, es[..|es| - 1])
      && Enabled(After(s, es[..|es| - 1]), es[|es| - 1])
      && !Panics(After(s, es[..|es| - 1]), es[|es| - 1])
      && Safe(After(s, es[..|es| - 1]), es[|es| - 1]))
  }

  ghost function After(s: State, es: seq<Event>): (r: State)
    requires Inv(s) && IsRun(s, es)
    ensures Inv(r)
    decreases |es|, 1
  {
    if es == [] then s
    else
      var t := After(s, es[..|es| - 1]);
      SafeStepsAreExact(t, es[|es| - 1]);
      Step(t, es[|es| - 1]).0
  }

  // The file system that mkfs makes, as far as the root directory.
  function Initial(n: nat): State
    requires n > 1
  {
    State(seq(n, i => if i == ROOTINO then Inode(DIR, 1, [Entry(ROOTINO, "."), Entry(ROOTINO, "..")]) else Inode(FREE, 0, [])),
          multiset{})
  }

  lemma {:induction false} InitialInv(n: nat)
    requires n > 1
    ensures Inv(Initial(n))
  {
    hide Count, CountIn;
    var ino := Initial(n).ino;
    forall i | 0 <= i < n ensures ino[i].nlink == Count(ino, i) {
      CountOnly(ino, ROOTINO, i);
      CountInOnly(ino[ROOTINO].es, 1, i);
    }
    assert DirOk(ino, ROOTINO);
    assert forall d: nat, k: nat, c: nat :: !Holds(ino, d, k, c);
  }

  // At every system call boundary of every such run, the link count of an inode is the number
  // of entries other than "." that name it in linked directories.
  lemma {:induction false} LinkCountsAreExact(n: nat, es: seq<Event>, i: nat)
    requires n > 1 && Inv(Initial(n)) && IsRun(Initial(n), es) && After(Initial(n), es).pending == multiset{}
    requires i < |After(Initial(n), es).ino|
    ensures var ino := After(Initial(n), es).ino; ino[i].nlink == Count(ino, i)
  {
    hide Count, Step, Tree;
    assert Counts(After(Initial(n), es));
  }

  // A process that stays in a directory which has been removed can still create a file there.
  // From the fresh file system on this is the shortest way to a wrong count.
  lemma {:induction false} CreateInRemovedDirectory(n: nat)
    requires n > 3
    ensures var s, es := Initial(n), [DoCreate(ROOTINO, "d", DIR), DoUnlink(ROOTINO, "d")];
            && Inv(s) && IsRun(s, es)
            && var t, e := After(s, es), DoCreate(2, "f", FILE);
               && Enabled(t, e) && !Panics(t, e) && !Safe(t, e)
               && Step(t, e).0.pending == multiset{} && !Counts(Step(t, e).0)
  {
    hide Count, CountIn, Inv, IsRun, After, Counts;
    var s := Initial(n);
    InitialInv(n);
    EmptyRun(s);
    FreshCreate(n);
    var c, u := DoCreate(ROOTINO, "d", DIR), DoUnlink(ROOTINO, "d");
    Extend(s, [], c);
    assert [] + [c] == [c];
    FreshUnlink(n, After(s, [c]));
    Extend(s, [c], u);
    assert [c] + [u] == [c, u];
    var t := After(s, [c, u]);
    SafeStepsAreExact(t, DoCreate(2, "f", FILE));
  }

  // What the file system looks like after mkdir("/d") ...
  ghost predicate HasD(n: nat, t: State) {
    && |t.ino| == n > 3 && t.pending == multiset{}
    && t.ino[1] == Inode(DIR, 2, [Entry(1, "."), Entry(1, ".."), Entry(2, "d")])
    && t.ino[2] == Inode(DIR, 1, [Entry(2, "."), Entry(1, "..")])
    && t.ino[3] == Inode(FREE, 0, [])
  }

  lemma {:induction false} FreshCreate(n: nat)
    requires n > 3 && Inv(Initial(n))
    ensures var e := DoCreate(ROOTINO, "d", DIR);
            Enabled(Initial(n), e) && !Panics(Initial(n), e) && Safe(Initial(n), e) && HasD(n, Step(Initial(n), e).0)
  {
    hide Inv;
    var s := Initial(n);
    var es := s.ino[1].es;
    assert Find(es, "d", 0) == 2 && FreeSlot(es, 0) == 2 && FirstFree(s.ino, 1) == 2;
  }

  // ... and after unlink("/d").
  lemma {:induction false} FreshUnlink(n: nat, t: State)
    requires HasD(n, t) && Inv(t)
    ensures var e := DoUnlink(ROOTINO, "d");
            && Enabled(t, e) && !Panics(t, e) && Safe(t, e)
            && var r := Step(t, e).0;
               && |r.ino| == n && r.pending == multiset{} && r.ino[3].typ == FREE
               && r.ino[2] == Inode(DIR, 0, [Entry(2, "."), Entry(1, "..")])
               && !HasName(r.ino[2].es, "f") && HasRoom(r.ino[2].es) && FirstFree(r.ino, 1) == 3
  {
    hide Inv;
    assert Find(t.ino[1].es, "d", 0) == 2;
    var r := Step(t, DoUnlink(ROOTINO, "d")).0;
    assert Find(r.ino[2].es, "f", 0) == 2 && FreeSlot(r.ino[2].es, 0) == 2;
    assert FirstFree(r.ino, 1) == FirstFree(r.ino, 2) == FirstFree(r.ino, 3) == 3;
  }

  lemma {:induction false} EmptyRun(s: State)
    requires Inv(s)
    ensures IsRun(s, []) && After(s, []) == s
  {
  }

  lemma {:induction false} Extend(s: State, es: seq<Event>, e: Event)
    requires Inv(s) && IsRun(s, es) && Enabled(After(s, es), e)
    requires !Panics(After(s, es), e) && Safe(After(s, es), e)
    ensures IsRun(s, es + [e]) && After(s, es + [e]) == Step(After(s, es), e).0
  {
    assert (es + [e])[..|es|] == es;
  }
}
