// sysfile.c and the directory functions of fs.c as they run, on the inodes in place. Reading
// and writing a directory entry stands for readi and writei of its bytes.
module LinksCode {
  import opened Links

  class FileSystem {
    const ino: array<Inode>
    ghost var pending: multiset<nat>

    ghost function S(): State
      reads this, ino
    {
      State(ino[..], pending)
    }

    // No file is larger than MAXFILE blocks.
    ghost predicate SizesOk()
      reads this, ino
    {
      forall i :: 0 <= i < ino.Length ==> |ino[i].es| <= MAXENTRIES
    }

    // mkfs
    constructor (n: nat)
      requires n > 1
      ensures S() == Initial(n) && SizesOk() && fresh(ino)
    {
      ino := new Inode[n](i => if i == ROOTINO then Inode(DIR, 1, [Entry(ROOTINO, "."), Entry(ROOTINO, "..")]) else Inode(FREE, 0, []));
      pending := multiset{};
      new;
      assert ino[..] == Initial(n).ino;
    }

    // dirlookup; the number of entries when there is none.
    method DirLookup(dp: nat, name: string) returns (off: nat)
      requires dp < ino.Length
      ensures off == Find(ino[dp].es, name, 0)
      ensures if off < |ino[dp].es| then FirstNamed(ino[dp].es, off, name)
              else off == |ino[dp].es| && NoneNamed(ino[dp].es, name)
    {
      off := 0;
      while off < |ino[dp].es|
        invariant off <= |ino[dp].es| && Find(ino[dp].es, name, off) == Find(ino[dp].es, name, 0)
      {
        if ino[dp].es[off].inum == 0 {
          off := off + 1;
          continue;
        }
        if name == ino[dp].es[off].name {
          return;
        }
        off := off + 1;
      }
    }

    method DirLink(dp: nat, name: string, inum: nat) returns (o: Outcome)
      requires SizesOk() && dp < ino.Length
      modifies ino
      ensures SizesOk()
      ensures o == if HasName(old(ino[dp]).es, name) then Failed else if HasRoom(old(ino[dp]).es) then Done else Panic
      ensures ino[..] == if o != Done then old(ino[..]) else
                           old(ino[..])[dp := old(ino[dp]).(es := Linked(old(ino[dp]).es, Entry(inum, name)))]
      ensures o == Failed <==> !NoneNamed(old(ino[dp]).es, name)
      ensures o == Done && inum != 0 ==> EntryMade(old(ino[dp]).es, ino[dp].es, Entry(inum, name))
    {
      FindIs(ino[dp].es, name);
      // a name occurs once
      var at := DirLookup(dp, name);
      if at < |ino[dp].es| {
        return Failed;
      }
      // the first entry not in use, or the end
      ghost var es := ino[dp].es;
      var off := 0;
      while off < |ino[dp].es|
        invariant off <= |es| && FreeSlot(es, off) == FreeSlot(es, 0)
      {
        if ino[dp].es[off].inum == 0 {
          break;
        }
        off := off + 1;
      }
      var ok := WriteEntry(dp, off, Entry(inum, name));
      o := if ok then Done else Panic;
      if ok && inum != 0 {
        LinkedNames(es, Entry(inum, name));
      }
    }

    // writei of one entry, which may extend the directory up to the largest file.
    method WriteEntry(dp: nat, off: nat, e: Entry) returns (ok: bool)
      requires SizesOk() && dp < ino.Length && off <= |ino[dp].es|
      modifies ino
      ensures SizesOk()
      ensures ok == (off < MAXENTRIES)
      ensures var es := old(ino[dp]).es;
              ino[..] == if !ok then old(ino[..])
                         else old(ino[..])[dp := old(ino[dp]).(es := if off < |es| then es[off := e] else es + [e])]
    {
      if off >= MAXENTRIES {
        return false;
      }
      var es := ino[dp].es;
      ino[dp] := ino[dp].(es := if off < |es| then es[off := e] else es + [e]);
      return true;
    }

    method IsDirEmpty(dp: nat) returns (r: bool)
      requires dp < ino.Length
      ensures r <==> Links.IsDirEmpty(ino[dp].es)
    {
      var off := 2;
      while off < |ino[dp].es|
        invariant off >= 2 && forall k :: 2 <= k < off && k < |ino[dp].es| ==> ino[dp].es[k].inum == 0
      {
        if ino[dp].es[off].inum != 0 {
          return false;
        }
        off := off + 1;
      }
      return true;
    }

    // sys_link up to the point where it unlocks ip.
    method SysLinkBegin(ip: nat) returns (o: Outcome)
      requires SizesOk() && ip < ino.Length
      modifies ino, this`pending
      ensures SizesOk()
      ensures o == if old(ino[ip]).typ == DIR then Failed else Done
      ensures S() == if o == Done then LinkBegin(old(S()), ip) else old(S())
      ensures o == Done && 0 <= old(ino[ip]).nlink < MAXSHORT ==>
                ino[..] == old(ino[..])[ip := old(ino[ip]).(nlink := old(ino[ip]).nlink + 1)]
    {
      if ino[ip].typ == DIR {
        return Failed;
      }
      ino[ip] := ino[ip].(nlink := Short(ino[ip].nlink + 1));
      pending := pending + multiset{ip};
      return Done;
    }

    // The rest; dp is what nameiparent found.
    method SysLinkEnd(ip: nat, dp: Option<nat>, name: string) returns (o: Outcome)
      requires SizesOk() && ip < ino.Length && (dp.Some? ==> dp.value < ino.Length)
      modifies ino, this`pending
      ensures SizesOk()
      ensures (S(), o) == LinkEnd(old(S()), ip, dp, name)
      ensures o == Failed <==> dp.None? || !NoneNamed(old(ino[dp.value]).es, name)
      ensures o == Failed ==> ino[..] == old(ino[..])[ip := old(ino[ip]).(nlink := Short(old(ino[ip]).nlink - 1))]
      ensures o == Done ==> dp.Some? && ino[..] == old(ino[..])[dp.value := old(ino[dp.value]).(es := ino[dp.value].es)]
      ensures o == Done && ip != 0 ==> EntryMade(old(ino[dp.value]).es, ino[dp.value].es, Entry(ip, name))
    {
      ghost var s := S();
      if dp.Some? {
        o := DirLink(dp.value, name, ip);
        if o == Panic {
          return;
        }
        if o == Done {
          pending := pending - multiset{ip};
          return;
        }
      }
      // bad
      ino[ip] := ino[ip].(nlink := Short(ino[ip].nlink - 1));
      pending := pending - multiset{ip};
      return Failed;
    }

    method SysUnlink(dp: nat, name: string) returns (o: Outcome)
      requires SizesOk() && Inv(S()) && dp < ino.Length && ino[dp].typ == DIR
      modifies ino
      ensures SizesOk()
      ensures forall k :: 0 <= k < |old(ino[dp]).es| ==> old(ino[dp]).es[k].inum < ino.Length
      ensures (S(), o) == Unlink(old(S()), dp, name)
      ensures o != Done ==> ino[..] == old(ino[..])
      ensures name == "." || name == ".." || NoneNamed(old(ino[dp]).es, name) ==> o == Failed
      // otherwise the entry goes, unless it names a directory with entries of its own, and the
      // counts of the inode and, for a "..", of the parent go down by one
      ensures forall k: nat :: FirstNamed(old(ino[dp]).es, k, name) && name != "." && name != ".." ==>
                var ip := old(ino[dp]).es[k].inum;
                && ip < ino.Length && ip != dp
                && o == (if old(ino[ip]).typ == DIR && !Links.IsDirEmpty(old(ino[ip]).es) then Failed else Done)
                && (o == Done ==>
                      && ino[dp] == old(ino[dp]).(es := old(ino[dp]).es[k := Entry(0, "")],
                                                  nlink := old(ino[dp]).nlink - (if old(ino[ip]).typ == DIR then 1 else 0))
                      && ino[ip] == old(ino[ip]).(nlink := old(ino[ip]).nlink - 1)
                      && forall j :: 0 <= j < ino.Length && j != ip && j != dp ==> ino[j] == old(ino[j]))
    {
      hide Inv, Tree, DirOk;
      hide FirstNamed, NoneNamed;
      ghost var s := S();
      UnlinkKeeps(s, dp, name);
      FindIs(ino[dp].es, name);
      forall k: nat | FirstNamed(s.ino[dp].es, k, name) && name != "." && name != ".." {
        UnlinkNamed(s, dp, k, name);
      }
      // cannot unlink "." or ".."
      if name == "." || name == ".." {
        return Failed;
      }
      var off := DirLookup(dp, name);
      if off == |ino[dp].es| {
        return Failed;
      }
      var ip := ino[dp].es[off].inum;
      assert ip < ino.Length;
      if ino[ip].nlink < 1 {
        return Panic;
      }
      if ino[ip].typ == DIR {
        var empty := IsDirEmpty(ip);
        if !empty {
          return Failed;
        }
      }
      var ok := WriteEntry(dp, off, FreeEntry);
      assert ok;
      if ino[ip].typ == DIR {
        ino[dp] := ino[dp].(nlink := Short(ino[dp].nlink - 1));
      }
      ino[ip] := ino[ip].(nlink := Short(ino[ip].nlink - 1));
      assert ino[..] == Unlink(s, dp, name).0.ino;
      return Done;
    }

    // ialloc; the number of inodes when none is free. The new inode has no links yet.
    method Ialloc(typ: FileType) returns (inum: nat)
      requires ino.Length > 0
      modifies ino
      ensures inum == FirstFree(old(ino[..]), 1)
      ensures ino[..] == if inum == ino.Length then old(ino[..]) else old(ino[..])[inum := Inode(typ, 0, [])]
      ensures 1 <= inum <= ino.Length && forall j :: 1 <= j < inum ==> old(ino[j]).typ != FREE
      ensures inum < ino.Length ==> old(ino[inum]).typ == FREE
    {
      ghost var all := ino[..];
      inum := 1;
      while inum < ino.Length
        invariant inum <= ino.Length && FirstFree(all, inum) == FirstFree(all, 1) && ino[..] == all
      {
        if ino[inum].typ == FREE {
          ino[inum] := Inode(typ, 0, []);
          return;
        }
        inum := inum + 1;
      }
    }

    // The "." and ".." of a new directory.
    method MakeDots(dp: nat, ip: nat)
      requires SizesOk() && dp < ino.Length && ip < ino.Length && dp != ip && ip != 0 && ino[ip].es == []
      modifies ino
      ensures SizesOk()
      ensures ino[..] == old(ino[..])[dp := old(ino[dp]).(nlink := Short(old(ino[dp]).nlink + 1))]
                                     [ip := old(ino[ip]).(es := [Entry(ip, "."), Entry(dp, "..")])]
    {
      hide EntryMade, NoneNamed;
      ino[dp] := ino[dp].(nlink := Short(ino[dp].nlink + 1)); // for ".."
      // no nlink++ for ".": avoid a cyclic count
      var o := DirLink(ip, ".", ip);
      assert ino[ip].es == [Entry(ip, ".")];
      o := DirLink(ip, "..", dp);
      assert ino[ip].es == [Entry(ip, "."), Entry(dp, "..")];
    }

    // create; the state after a panic is not described.
    method Create(dp: nat, name: string, typ: FileType) returns (o: Outcome, ip: nat)
      requires SizesOk() && Inv(S()) && dp < ino.Length && ino[dp].typ == DIR && typ != FREE
      modifies ino
      ensures forall k :: 0 <= k < |old(ino[dp]).es| ==> old(ino[dp]).es[k].inum < ino.Length
      ensures o == Links.Create(old(S()), dp, name, typ).1
      ensures o != Panic ==> SizesOk() && S() == Links.Create(old(S()), dp, name, typ).0
      ensures o == Done ==> ip < ino.Length && ino[ip].typ == typ && ip != 0
      // if it was there before, nothing changes, and only a file may be created again
      ensures forall k: nat :: FirstNamed(old(ino[dp]).es, k, name) ==>
                && ip == old(ino[dp]).es[k].inum && ino[..] == old(ino[..])
                && o == (if typ == FILE && old(ino[ip]).typ == FILE then Done else Failed)
      // if it was not, it has an entry now that names the inode returned; this was free and
      // has one link and, as a directory, its dots
      ensures NoneNamed(old(ino[dp]).es, name) ==> o != Failed
      ensures NoneNamed(old(ino[dp]).es, name) && o == Done ==>
                && EntryMade(old(ino[dp]).es, ino[dp].es, Entry(ip, name))
                && old(ino[ip]).typ == FREE && (forall j :: 1 <= j < ip ==> old(ino[j]).typ != FREE)
                && ino[ip] == Inode(typ, 1, if typ == DIR then [Entry(ip, "."), Entry(dp, "..")] else [])
                && ino[dp].typ == DIR && (typ != DIR ==> ino[dp].nlink == old(ino[dp]).nlink)
                && (typ == DIR && 0 <= old(ino[dp]).nlink < MAXSHORT ==> ino[dp].nlink == old(ino[dp]).nlink + 1)
                && forall j :: 0 <= j < ino.Length && j != ip && j != dp ==> ino[j] == old(ino[j])
    {
      hide Inv, Tree, DirOk, EntryMade, FirstNamed, NoneNamed, Linked;
      ghost var s := S();
      CreateKeeps(s, dp, name, typ);
      FindIs(ino[dp].es, name);
      var off := DirLookup(dp, name);
      if off < |ino[dp].es| {
        ip := ino[dp].es[off].inum;
        return if typ == FILE && ino[ip].typ == FILE then Done else Failed, ip;
      }
      ip := Ialloc(typ);
      if ip == ino.Length {
        return Panic, ip;
      }
      ino[ip] := ino[ip].(nlink := 1);
      assert ino[..] == s.ino[ip := Inode(typ, 1, [])];
      if typ == DIR {
        MakeDots(dp, ip);
      }
      assert ino[dp].es == s.ino[dp].es;
      o := DirLink(dp, name, ip);
      if o == Done {
        assert ino[..] == Created(s.ino, dp, name, typ, ip);
        CreatedEffect(s.ino, dp, name, typ, ip);
      }
      hide Created, Links.Create;
    }
  }
}
