/** The three copies of an NV partition and the operations that move data between them. */
module NvBuffer {
  import opened Words

  const SECTOR: nat := 512
  const MAX_SECTORS: nat := 1024

  /** An image and the sectors marked dirty in it. */
  datatype Buf = Buf(image: seq<u8>, dirty: set<nat>)

  datatype Part = Part(partId: u32, sctNum: nat, fromChannel: Buf, backup: Buf, toDisk: Buf) {
    predicate Valid() {
      && sctNum <= MAX_SECTORS
      && |fromChannel.image| == |backup.image| == |toDisk.image| == SECTOR * sctNum
    }
  }

  /** A partition right after start-up has read `image` from the disk. */
  function Loaded(partId: u32, sctNum: nat, image: seq<u8>): Part {
    Part(partId, sctNum, Buf(image, {}), Buf(image, {}), Buf(image, {}))
  }

  function Sectors(start: nat, num: nat): (s: set<nat>)
    ensures forall k :: k in s <==> start <= k < start + num
  {
    if num == 0 then {} else Sectors(start, num - 1) + {start + num - 1}
  }

  /** `image` with `data` stored at byte `pos`. */
  function Store(image: seq<u8>, pos: nat, data: seq<u8>): (r: seq<u8>)
    requires pos + |data| <= |image|
    ensures |r| == |image|
  {
    image[..pos] + data + image[pos + |data|..]
  }

  /** `_markDirtyInfo` */
  function MarkDirty(p: Part, start: nat, num: nat): Part {
    p.(fromChannel := p.fromChannel.(dirty := p.fromChannel.dirty + Sectors(start, num)))
  }

  /** `writeData` */
  function WriteData(p: Part, pos: nat, data: seq<u8>): Part
    requires pos + |data| <= |p.fromChannel.image|
  {
    p.(fromChannel := p.fromChannel.(image := Store(p.fromChannel.image, pos, data)))
  }

  /** `backupData`: commit what came over the channel. */
  function Backup(p: Part): Part {
    p.(backup := Buf(p.fromChannel.image, p.backup.dirty + p.fromChannel.dirty))
  }

  /** `restoreData`: roll back to the last commit. */
  function Restore(p: Part): Part {
    p.(fromChannel := p.backup)
  }

  /** `__getData`: stage the committed image for the disk. */
  function GetData(p: Part): Part {
    p.(toDisk := Buf(p.backup.image, p.toDisk.dirty + p.backup.dirty), backup := p.backup.(dirty := {}))
  }

  /** The end of `saveToDisk` for one partition, once the write has been reported done. */
  function Saved(p: Part): Part {
    p.(toDisk := p.toDisk.(dirty := {}))
  }

  /** `a` and `b` agree on every sector outside `dirty`. */
  ghost predicate DiffersWithin(a: seq<u8>, b: seq<u8>, dirty: set<nat>) {
    |a| == |b| && forall x :: 0 <= x < |a| && a[x] != b[x] ==> x / SECTOR in dirty
  }

  /** What every operation keeps: a sector that differs from the next copy down the line is marked. */
  ghost predicate Tracked(p: Part) {
    && DiffersWithin(p.fromChannel.image, p.backup.image, p.fromChannel.dirty)
    && DiffersWithin(p.backup.image, p.toDisk.image, p.backup.dirty)
  }

  lemma BackupTracked(p: Part)
    requires Tracked(p)
    ensures Tracked(Backup(p))
  {
    var q := Backup(p);
    forall x | 0 <= x < |q.backup.image| && q.backup.image[x] != q.toDisk.image[x]
      ensures x / SECTOR in q.backup.dirty
    {
      assert p.fromChannel.image[x] == p.backup.image[x] || x / SECTOR in p.fromChannel.dirty;
    }
  }

  /** Every sector that meets the bytes `pos..pos+len` is marked. */
  ghost predicate Marked(dirty: set<nat>, pos: nat, len: nat) {
    forall k: nat :: pos / SECTOR <= k && k * SECTOR < pos + len ==> k in dirty
  }

  lemma WriteTracked(p: Part, pos: nat, data: seq<u8>)
    requires Tracked(p) && pos + |data| <= |p.fromChannel.image| && Marked(p.fromChannel.dirty, pos, |data|)
    ensures Tracked(WriteData(p, pos, data))
  {
    var q := WriteData(p, pos, data);
    forall x | 0 <= x < |q.fromChannel.image| && q.fromChannel.image[x] != q.backup.image[x]
      ensures x / SECTOR in q.fromChannel.dirty
    {
      if pos <= x < pos + |data| {
        assert pos / SECTOR <= x / SECTOR && (x / SECTOR) * SECTOR < pos + |data|;
      }
    }
  }

  /** Two adjacent stores are one. */
  lemma StoreStore(image: seq<u8>, pos: nat, d1: seq<u8>, d2: seq<u8>)
    requires pos + |d1| + |d2| <= |image|
    ensures Store(Store(image, pos, d1), pos + |d1|, d2) == Store(image, pos, d1 + d2)
  {
  }
}
