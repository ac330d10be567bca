// Buffers (buf.h) and the synchronous disk of memide.c, which is also the specification of
// the interrupt-driven driver.
module MemIde {
  import opened Blocks

  const NODEV: nat := 0xFFFF_FFFF // the dev of a buffer never used, (uint)-1

  datatype Buf = Buf(dev: nat, sector: nat, busy: bool, valid: bool, dirty: bool, data: Block)

  datatype Key = Key(dev: nat, sector: nat)

  type DiskMap = map<Key, Block>

  function KeyOf(b: Buf): Key {
    Key(b.dev, b.sector)
  }

  // What iderw demands: it panics on a buffer that is not busy, on one with nothing to do,
  // and on a sector that does not exist.
  predicate CanSync(b: Buf, disk: DiskMap) {
    b.busy && (b.dirty || !b.valid) && KeyOf(b) in disk
  }

  // Sync buf with disk: a dirty buffer is written, an invalid one is read.
  function Sync(b: Buf, disk: DiskMap): (r: (Buf, DiskMap))
    requires CanSync(b, disk)
  {
    if b.dirty then (b.(dirty := false, valid := true), disk[KeyOf(b) := b.data])
    else (b.(data := disk[KeyOf(b)], valid := true), disk)
  }

  // Afterwards buffer and disk agree, whichever way the data went, and no other sector changed.
  lemma {:induction false} SyncAgrees(b: Buf, disk: DiskMap)
    requires CanSync(b, disk)
    ensures var (c, disk') := Sync(b, disk);
            && c.valid && !c.dirty && KeyOf(c) == KeyOf(b) && c.busy
            && disk'.Keys == disk.Keys && disk'[KeyOf(b)] == c.data
            && c.data == (if b.dirty then b.data else disk[KeyOf(b)])
            && forall k :: k in disk && k != KeyOf(b) ==> disk'[k] == disk[k]
  {
  }
}
