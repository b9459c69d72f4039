/**
 Byte streams over the sectors of a disk: src/disk/disk_stream.c. The disk is an immutable
 sequence of bytes; disk_read_block looks one sector of it up.
 */
module DiskStreams {
  import opened Status

  newtype byte = x: int | 0 <= x < 256

  const SECTOR_SIZE: nat := 512

  /** `registered` says whether this is the one disk the driver knows (disks[0]). */
  datatype Disk = Disk(registered: bool, bytes: seq<byte>)

  ghost predicate WholeSectors(disk: Disk) {
    |disk.bytes| % SECTOR_SIZE == 0
  }

  /** disk_read_block for one block: None is -ENOMEDIUM. */
  function ReadBlock(disk: Disk, lba: nat): Option<seq<byte>>
    requires (lba + 1) * SECTOR_SIZE <= |disk.bytes|
  {
    if disk.registered then Some(disk.bytes[lba * SECTOR_SIZE..(lba + 1) * SECTOR_SIZE]) else None
  }

  /** `s` with `src` written over it from position `at` on. */
  function Overwrite<A>(s: seq<A>, at: nat, src: seq<A>): (r: seq<A>)
    requires at + |src| <= |s|
    ensures |r| == |s|
  {
    seq(|s|, i requires 0 <= i < |s| => if at <= i < at + |src| then src[i - at] else s[i])
  }

  lemma OverwriteMore<A>(s: seq<A>, at: nat, a: seq<A>, b: seq<A>)
    requires at + |a| + |b| <= |s|
    ensures Overwrite(Overwrite(s, at, a), at + |a|, b) == Overwrite(s, at, a + b)
  {}

  /** Each position is written or kept. */
  lemma OverwriteAt<A>(s: seq<A>, at: nat, src: seq<A>)
    requires at + |src| <= |s|
    ensures forall i | at <= i < at + |src| :: Overwrite(s, at, src)[i] == src[i - at]
    ensures forall i | 0 <= i < |s| && !(at <= i < at + |src|) :: Overwrite(s, at, src)[i] == s[i]
  {}

  lemma OverwriteNone<A>(s: seq<A>, at: nat)
    requires at <= |s|
    ensures Overwrite(s, at, []) == s
  {}

  lemma OverwriteAll<A>(s: seq<A>, src: seq<A>)
    requires |src| == |s|
    ensures Overwrite(s, 0, src) == src
  {}

  /** Writing two adjacent slices one after the other writes the joint slice. */
  lemma OverwriteSlices<A>(s: seq<A>, at: nat, src: seq<A>, start: nat, done: nat, n: nat)
    requires at + done + n <= |s| && start + done + n <= |src|
    ensures Overwrite(Overwrite(s, at, src[start..start + done]), at + done, src[start + done..start + done + n])
         == Overwrite(s, at, src[start..start + (done + n)])
  {
    OverwriteMore(s, at, src[start..start + done], src[start + done..start + done + n]);
    assert src[start..start + done] + src[start + done..start + done + n] == src[start..start + (done + n)];
  }

  /** Appending part of the sector that holds byte start + done extends what was read. */
  lemma NextChunk(disk: Disk, was: seq<byte>, at: nat, start: nat, done: nat, sector: nat, offset: nat, n: nat)
    requires disk.registered && at + done + n <= |was|
    requires sector * SECTOR_SIZE + offset == start + done && offset + n <= SECTOR_SIZE
    requires (sector + 1) * SECTOR_SIZE <= |disk.bytes|
    ensures Overwrite(Overwrite(was, at, disk.bytes[start..start + done]), at + done,
                      ReadBlock(disk, sector).value[offset..offset + n])
         == Overwrite(was, at, disk.bytes[start..start + (done + n)])
  {
    assert ReadBlock(disk, sector).value[offset..offset + n] == disk.bytes[start + done..start + done + n];
    OverwriteSlices(was, at, disk.bytes, start, done, n);
  }

  method Memcpy(dst: array<byte>, at: nat, src: seq<byte>)
    requires at + |src| <= dst.Length
    modifies dst
    ensures dst[..] == Overwrite(old(dst[..]), at, src)
  {
    forall i | 0 <= i < |src| {
      dst[at + i] := src[i];
    }
  }

  class DiskStream {
    var ppos: nat
    const disk: Disk

    constructor (disk: Disk)
      ensures ppos == 0 && this.disk == disk
    {
      this.disk, ppos := disk, 0;
    }

    /** diskstream_seek. */
    method Seek(ppos: nat) returns (r: nat)
      modifies this`ppos
      ensures this.ppos == ppos && r == ppos
    {
      this.ppos := ppos;
      return ppos;
    }

    /** diskstream_read: the bytes from ppos on, whatever sectors they lie in, written into
        `buffer` from position `at` on. An unknown disk is an error and moves nothing. */
    method Read(buffer: array<byte>, at: nat, len: int) returns (ret: int)
      requires WholeSectors(disk)
      requires len > 0 ==> at + len <= buffer.Length && ppos + len <= |disk.bytes|
      modifies this`ppos, buffer
      ensures len <= 0 ==> ret == 0 && ppos == old(ppos) && buffer[..] == old(buffer[..])
      ensures len > 0 && !disk.registered ==> ret == -ENOMEDIUM && ppos == old(ppos) && buffer[..] == old(buffer[..])
      ensures len > 0 && disk.registered ==>
                && ret == len && ppos == old(ppos) + len
                && buffer[..] == Overwrite(old(buffer[..]), at, disk.bytes[old(ppos)..old(ppos) + len])
      ensures len > 0 && disk.registered ==>
                forall j | at <= j < at + len :: buffer[j] == disk.bytes[old(ppos) + (j - at)]
      ensures forall j | 0 <= j < buffer.Length && !(disk.registered && at <= j < at + len) :: buffer[j] == old(buffer[j])
    {
      hide Overwrite;
      var offset := ppos % SECTOR_SIZE;
      var sector := ppos / SECTOR_SIZE;
      var readSoFar := 0;
      ghost var was, start := buffer[..], ppos;
      if len > 0 {
        OverwriteNone(buffer[..], at);
        assert disk.bytes[ppos..ppos + 0] == [];
      }
      while readSoFar < len
        invariant 0 <= readSoFar && (len > 0 ==> readSoFar <= len)
        invariant len <= 0 ==> readSoFar == 0 && buffer[..] == was
        invariant ppos == start && 0 <= offset < SECTOR_SIZE && 0 <= sector
        invariant readSoFar < len ==> sector * SECTOR_SIZE + offset == ppos + readSoFar
        invariant len > 0 ==> buffer[..] == Overwrite(was, at, disk.bytes[start..start + readSoFar])
        invariant !disk.registered ==> readSoFar == 0 && buffer[..] == was
        decreases len - readSoFar
      {
        var block := ReadBlock(disk, sector);
        if block.None? {
          return -ENOMEDIUM;
        }
        var remaining := len - readSoFar;
        var toCopy := if remaining < SECTOR_SIZE - offset then remaining else SECTOR_SIZE - offset;
        NextChunk(disk, was, at, start, readSoFar, sector, offset, toCopy);
        Memcpy(buffer, at + readSoFar, block.value[offset..offset + toCopy]);
        readSoFar := readSoFar + toCopy;
        offset := 0;
        sector := sector + 1;
      }
      ppos := ppos + readSoFar;
      if len > 0 {
        OverwriteAt(was, at, disk.bytes[start..start + readSoFar]);
      }
      assert forall j | 0 <= j < buffer.Length :: buffer[j] == buffer[..][j];
      return readSoFar;
    }
  }
}
