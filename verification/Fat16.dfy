/**
 Open FAT16 files: the descriptors of src/fs/fat16.c. A descriptor finds its place again by
 walking the allocation table from its first cluster; the results below say that reading it
 is nevertheless reading a flat sequence of bytes.

 The root directory, which has no chain, is not a descriptor of this module.
 */
module Fat16 {
  import opened Status
  import opened DiskStreams
  import opened FatVolume

  const DIRECTORY_FLAG := 0
  const FILE_FLAG := 1
  const ROOT_DIRECTORY_FLAG := 255

  const ATTRIBUTE_VOLUME_LABEL: bv8 := 0x08
  const ATTRIBUTE_SUBDIRECTORY: bv8 := 0x10
  const ATTRIBUTE_LFN: bv8 := 0x0F

  const ENTRY_SIZE: nat := 32

  /** The fields of struct fat_entry_t that are used. */
  datatype Entry = Entry(name: seq<byte>, extension: seq<byte>, attributes: byte, firstCluster: nat, size: nat)

  function Little(b: seq<byte>): (n: nat) {
    if b == [] then 0 else b[0] as nat + 256 * Little(b[1..])
  }

  /** A directory entry as it lies on disk. */
  function DecodeEntry(b: seq<byte>): Entry
    requires |b| == ENTRY_SIZE
  {
    Entry(b[0..8], b[8..11], b[11], Little(b[26..28]), Little(b[28..32]))
  }

  datatype Item = Item(kind: nat, entry: Entry, firstSector: nat, parentFirstSector: nat, parentPosition: nat)

  /** fat16_item_is_root_dir. */
  predicate IsRootDir(fs: FatPrivate, item: Item) {
    item.kind == ROOT_DIRECTORY_FLAG && item.firstSector == fs.rootFirstSector
  }

  /** The chain an item stands for; an item without a first cluster has none, and its first
      sector is 0. */
  ghost predicate HasChain(fs: FatPrivate, item: Item, chain: seq<nat>, end: nat) {
    && fs.Valid() && !IsRootDir(fs, item)
    && item.firstSector == fs.DataSector(item.entry.firstCluster)
    && if item.entry.firstCluster == 0 then chain == [] else fs.IsChain(item.entry.firstCluster, chain, end)
  }

  /** An item whose chain ends properly, with its 32-bit size. */
  ghost predicate IsFile(fs: FatPrivate, item: Item, chain: seq<nat>, end: nat) {
    HasChain(fs, item, chain, end) && end >= CHAIN_END && item.entry.size < WORD32
  }

  /** Where a file ends: at its size, or where its chain ends if that comes first. */
  ghost function Limit(fs: FatPrivate, item: Item, chain: seq<nat>): nat {
    if item.entry.size < |chain| * fs.bytesPerCluster then item.entry.size else |chain| * fs.bytesPerCluster
  }

  /** A non-empty chain that ends properly. */
  ghost predicate IsReadable(fs: FatPrivate, item: Item, chain: seq<nat>, end: nat) {
    HasChain(fs, item, chain, end) && chain != [] && end >= CHAIN_END
  }

  lemma ReadableFacts(fs: FatPrivate, item: Item, chain: seq<nat>, end: nat)
    requires IsReadable(fs, item, chain, end)
    ensures fs.bytesPerCluster > 0 && chain != [] && fs.DataClusters(chain)
  {
    assert fs.bytesPerCluster > 0 by {
      MulMonotone(1, fs.header.bytesPerSector, fs.header.sectorsPerCluster);
    }
  }

  // ==================== cursors as values ====================

  /** The fields of a descriptor that move. */
  datatype Cursor = Cursor(pos: nat, relativePos: nat, sector: nat, eof: bool, error: int)

  /** A cursor that reading has brought to `pos`. */
  ghost function AtPos(fs: FatPrivate, chain: seq<nat>, pos: nat, error: int): Cursor
    requires fs.bytesPerCluster > 0 && chain != []
  {
    var q := pos / fs.bytesPerCluster;
    Cursor(pos, pos % fs.bytesPerCluster, fs.DataSector(chain[if q < |chain| then q else |chain| - 1]),
           pos == |chain| * fs.bytesPerCluster, error)
  }

  /** Either the end was reached, or the cursor points where the chain says. */
  ghost predicate Coherent(fs: FatPrivate, chain: seq<nat>, st: Cursor)
    requires fs.bytesPerCluster > 0
  {
    st.eof
    || (&& st.pos < |chain| * fs.bytesPerCluster
        && st.pos / fs.bytesPerCluster < |chain|
        && st.relativePos == st.pos % fs.bytesPerCluster
        && st.sector == fs.DataSector(chain[st.pos / fs.bytesPerCluster]))
  }

  /** The 32-bit product the caller asks for. */
  function Requested(size: nat, nmemb: nat): nat {
    size * nmemb % WORD32
  }

  /** How many bytes a read of n bytes gives. */
  function Delivered(limit: nat, pos: nat, n: nat): nat {
    if pos >= limit then 0 else if n < limit - pos then n else limit - pos
  }

  /** The bytes it gives: a slice of the flat content. */
  ghost function DeliveredBytes(fs: FatPrivate, item: Item, chain: seq<nat>, end: nat, pos: nat, n: nat): (b: seq<byte>)
    requires IsFile(fs, item, chain, end)
    ensures |b| == Delivered(Limit(fs, item, chain), pos, n)
  {
    ContentLength(fs, chain);
    var k := Delivered(Limit(fs, item, chain), pos, n);
    if k == 0 then [] else fs.Content(chain)[pos..pos + k]
  }

  /** The cursor after it. */
  ghost function AfterRead(fs: FatPrivate, item: Item, chain: seq<nat>, st: Cursor, n: nat): Cursor
    requires fs.bytesPerCluster > 0
  {
    if chain == [] then st.(eof := true)
    else if st.pos >= |chain| * fs.bytesPerCluster then
      st.(relativePos := st.pos % fs.bytesPerCluster, eof := true)
    else
      var p := st.pos + Delivered(Limit(fs, item, chain), st.pos, n);
      AtPos(fs, chain, p, st.error).(eof := st.eof || p >= Limit(fs, item, chain))
  }

  /** A descriptor marked as ended really is at or past the end of its file. */
  ghost predicate EofIsHonest(fs: FatPrivate, item: Item, chain: seq<nat>, st: Cursor) {
    st.eof ==> st.pos >= Limit(fs, item, chain)
  }

  const SEEK_SET := 0
  const SEEK_CUR := 1
  const SEEK_END := 2

  /** fat16_seek: positions are 32-bit and wrap; nothing else is recomputed. */
  function AfterSeek(item: Item, st: Cursor, offset: int, whence: int): Cursor {
    if whence == SEEK_SET then st.(pos := offset % WORD32, eof := false)
    else if whence == SEEK_CUR then st.(pos := (st.pos + offset) % WORD32, eof := false)
    else if whence == SEEK_END then st.(pos := item.entry.size, eof := false)
    else st
  }

  lemma Locate(pos: nat, count: nat, b: nat)
    requires b > 0
    ensures pos == pos / b * b + pos % b && pos % b < b
    ensures 0 <= pos / b && (pos < count * b <==> pos / b < count)
    ensures pos == count * b ==> pos / b == count && pos % b == 0
  {
    var q := pos / b;
    if q < count {
      MulMonotone(q + 1, count, b);
      MulStep(q, b);
    } else {
      MulMonotone(count, q, b);
    }
    if pos == count * b {
      DivMod(count, 0, b);
    }
  }

  /** After any read, whatever was seeked before it, the cursor is coherent. */
  lemma ReadIsCoherent(fs: FatPrivate, item: Item, chain: seq<nat>, end: nat, st: Cursor, n: nat)
    requires IsFile(fs, item, chain, end) && EofIsHonest(fs, item, chain, st)
    ensures Coherent(fs, chain, AfterRead(fs, item, chain, st, n))
    ensures EofIsHonest(fs, item, chain, AfterRead(fs, item, chain, st, n))
  {
    var p := st.pos + Delivered(Limit(fs, item, chain), st.pos, n);
    if chain != [] {
      Locate(p, |chain|, fs.bytesPerCluster);
    }
  }

  /** So is a cursor freshly opened or reset, unless there is nothing to point at. */
  lemma ResetIsCoherent(fs: FatPrivate, item: Item, chain: seq<nat>, end: nat, error: int)
    requires HasChain(fs, item, chain, end) && fs.bytesPerCluster > 0
    ensures var st := Cursor(0, 0, item.firstSector, false, error);
            EofIsHonest(fs, item, chain, st) && (Coherent(fs, chain, st) <==> chain != [])
  {
    if chain != [] {
      DivMod(0, 0, fs.bytesPerCluster);
      MulMonotone(1, |chain|, fs.bytesPerCluster);
    }
  }

  /** Reading a and then b is reading a + b: the same bytes, the same final cursor. */
  lemma ReadSplit(fs: FatPrivate, item: Item, chain: seq<nat>, end: nat, st: Cursor, a: nat, b: nat)
    requires IsFile(fs, item, chain, end) && EofIsHonest(fs, item, chain, st)
    ensures var mid := AfterRead(fs, item, chain, st, a);
            && AfterRead(fs, item, chain, mid, b) == AfterRead(fs, item, chain, st, a + b)
            && DeliveredBytes(fs, item, chain, end, st.pos, a) + DeliveredBytes(fs, item, chain, end, mid.pos, b)
               == DeliveredBytes(fs, item, chain, end, st.pos, a + b)
  {
    hide AfterRead, AtPos, Delivered, DeliveredBytes, Limit, EofIsHonest, FatPrivate.Content;
    CursorSplit(fs, item, chain, st, a, b);
    BytesSplit(fs, item, chain, end, st.pos, a, b);
  }

  lemma CursorSplit(fs: FatPrivate, item: Item, chain: seq<nat>, st: Cursor, a: nat, b: nat)
    requires fs.bytesPerCluster > 0 && EofIsHonest(fs, item, chain, st)
    ensures var mid := AfterRead(fs, item, chain, st, a);
            && mid.pos == st.pos + Delivered(Limit(fs, item, chain), st.pos, a)
            && AfterRead(fs, item, chain, mid, b) == AfterRead(fs, item, chain, st, a + b)
  {}

  lemma BytesSplit(fs: FatPrivate, item: Item, chain: seq<nat>, end: nat, pos: nat, a: nat, b: nat)
    requires IsFile(fs, item, chain, end)
    ensures DeliveredBytes(fs, item, chain, end, pos, a)
            + DeliveredBytes(fs, item, chain, end, pos + Delivered(Limit(fs, item, chain), pos, a), b)
         == DeliveredBytes(fs, item, chain, end, pos, a + b)
  {
    hide FatPrivate.Content, Limit, HasChain;
    LimitInContent(fs, item, chain, end);
    SlicesJoin(fs.Content(chain), Limit(fs, item, chain), pos, a, b);
  }

  lemma LimitInContent(fs: FatPrivate, item: Item, chain: seq<nat>, end: nat)
    requires IsFile(fs, item, chain, end)
    ensures fs.DataClusters(chain) && Limit(fs, item, chain) <= |fs.Content(chain)|
  {
    ContentLength(fs, chain);
  }

  lemma SlicesJoin<A>(c: seq<A>, limit: nat, pos: nat, a: nat, b: nat)
    requires limit <= |c|
    ensures var k := Delivered(limit, pos, a);
            var l, m := Delivered(limit, pos + k, b), Delivered(limit, pos, a + b);
            && m == k + l && (m > 0 ==> pos + m <= |c|)
            && (k > 0 && l > 0 ==> c[pos..pos + k] + c[pos + k..pos + k + l] == c[pos..pos + m])
  {}

  // ==================== the allocation table ====================

  /** fat16_read_fat. */
  method ReadFat(fs: FatPrivate, cluster: nat) returns (next: nat)
    requires fs.Valid()
    requires cluster < CHAIN_END ==> fs.FatAddress(cluster) + 2 <= |fs.Bytes()|
    modifies fs.dev`ppos
    ensures next == if cluster >= CHAIN_END then CHAIN_END else fs.FatEntry(cluster)
    ensures cluster >= 0xFFF8 ==> next == 0xFFF8
    ensures cluster < 0xFFF8 ==>
              var at := fs.header.reservedSectors * fs.header.bytesPerSector + cluster * 2;
              at + 1 < |fs.dev.disk.bytes|
              && next == fs.dev.disk.bytes[at] as nat + 0x100 * fs.dev.disk.bytes[at + 1] as nat
  {
    if cluster >= CHAIN_END {
      return CHAIN_END;
    }
    var buffer := new byte[2];
    var _ := fs.dev.Seek(fs.FatAddress(cluster));
    var _ := fs.dev.Read(buffer, 0, 2);
    assert buffer[0] == buffer[..][0] && buffer[1] == buffer[..][1];
    return buffer[0] as nat + 256 * buffer[1] as nat;
  }

  /** fat16_follow_cluster_chain. */
  method FollowChain(fs: FatPrivate, cluster: nat, steps: nat, ghost chain: seq<nat>, ghost end: nat)
    returns (next: nat)
    requires fs.Valid() && fs.IsChain(cluster, chain, end)
    modifies fs.dev`ppos
    ensures next == if steps < |chain| then chain[steps] else end
  {
    next := cluster;
    var i := 0;
    while i < steps && next < CHAIN_END
      invariant 0 <= i <= steps && i <= |chain|
      invariant next == if i < |chain| then chain[i] else end
      invariant i == |chain| ==> end >= CHAIN_END
      decreases steps - i
    {
      assert fs.DataCluster(chain[i]);
      next := ReadFat(fs, next);
      if next == 0 || next == CLUSTER_RESERVED || next == CLUSTER_BAD {
        assert i + 1 < |chain| ==> fs.DataCluster(chain[i + 1]);
        break;
      }
      i := i + 1;
    }
    assert i < |chain| ==> fs.DataCluster(chain[i]);
  }

  // ==================== descriptors ====================

  /** A chunk that stays inside one cluster is a slice of the content. */
  lemma ChunkAt(fs: FatPrivate, chain: seq<nat>, pos: nat, n: nat)
    requires fs.Valid() && fs.DataClusters(chain)
    requires pos < |fs.Content(chain)| && n <= fs.bytesPerCluster - pos % fs.bytesPerCluster
    ensures |fs.Content(chain)| == |chain| * fs.bytesPerCluster
    ensures 0 <= pos / fs.bytesPerCluster < |chain| && 0 <= pos % fs.bytesPerCluster < fs.bytesPerCluster
    ensures pos + n <= |fs.Content(chain)|
    ensures var from := fs.DataAddress(chain[pos / fs.bytesPerCluster]) + pos % fs.bytesPerCluster;
            from + n <= |fs.Bytes()| && fs.Bytes()[from..from + n] == fs.Content(chain)[pos..pos + n]
  {
    hide FatPrivate.Content, FatPrivate.DataAddress;
    ContentLength(fs, chain);
    Locate(pos, |chain|, fs.bytesPerCluster);
    var q, r := pos / fs.bytesPerCluster, pos % fs.bytesPerCluster;
    assert fs.DataCluster(chain[q]);
    ContentSlice(fs, chain, q, r, r + n);
    SliceOfSlice(fs.Bytes(), fs.DataAddress(chain[q]), fs.bytesPerCluster, r, n);
  }

  /** Byte p of the content, where it lies on the disk. */
  lemma ContentAt(fs: FatPrivate, chain: seq<nat>, p: nat)
    requires fs.Valid() && fs.DataClusters(chain) && fs.bytesPerCluster > 0 && p < |chain| * fs.bytesPerCluster
    ensures p < |fs.Content(chain)| && 0 <= p / fs.bytesPerCluster < |chain|
    ensures var cluster := chain[p / fs.bytesPerCluster];
            var sector := fs.dataSector + (cluster - 2) * fs.header.sectorsPerCluster;
            var address := sector * fs.header.bytesPerSector + p % fs.bytesPerCluster;
            cluster >= 2 && 0 <= address < |fs.dev.disk.bytes| && fs.Content(chain)[p] == fs.dev.disk.bytes[address]
  {
    hide FatPrivate.Content;
    ContentLength(fs, chain);
    Locate(p, |chain|, fs.bytesPerCluster);
    ChunkAt(fs, chain, p, 1);
    assert fs.DataCluster(chain[p / fs.bytesPerCluster]);
    assert fs.Content(chain)[p..p + 1][0] == fs.Content(chain)[p];
  }

  lemma SliceOfSlice<A>(s: seq<A>, at: nat, len: nat, r: nat, n: nat)
    requires at + len <= |s| && r + n <= len
    ensures s[at..at + len][r..r + n] == s[at + r..at + r + n]
  {
    var t := s[at..at + len];
    var u := t[r..r + n];
    assert forall i | 0 <= i < n :: u[i] == t[r + i];
  }

  /** Moving on by such a chunk leads from one coherent cursor to the next. */
  lemma AdvanceAt(fs: FatPrivate, chain: seq<nat>, end: nat, pos: nat, n: nat, error: int)
    requires fs.Valid() && chain != [] && fs.DataClusters(chain)
    requires pos < |chain| * fs.bytesPerCluster && 0 < n <= fs.bytesPerCluster - pos % fs.bytesPerCluster
    requires end >= CHAIN_END
    ensures !Descriptor.TableError(fs, chain, end, pos + n)
    ensures Descriptor.Adjusted(fs, chain, end, AtPos(fs, chain, pos, error).(pos := pos + n))
         == AtPos(fs, chain, pos + n, error)
  {
    var bpc := fs.bytesPerCluster;
    var q := pos / bpc;
    Locate(pos, |chain|, bpc);
    MulMonotone(q + 1, |chain|, bpc);
    MulStep(q, bpc);
    Locate(pos + n, |chain|, bpc);
    if q + 1 < |chain| {
      MulMonotone(q + 2, |chain|, bpc);
      MulStep(q + 1, bpc);
    }
    if pos + n < |chain| * bpc {
      assert fs.DataCluster(chain[(pos + n) / bpc]);
    }
  }

  /** What a cursor in place tells about its position. */
  lemma InPlace(d: Descriptor, chain: seq<nat>, end: nat)
    requires IsReadable(d.fs, d.item, chain, end)
    requires d.pos <= |d.fs.Content(chain)| && d.State() == AtPos(d.fs, chain, d.pos, d.error)
    ensures d.eof <==> d.pos == |d.fs.Content(chain)|
    ensures 0 <= d.relativePos < d.fs.bytesPerCluster
    ensures !d.eof ==> d.pos + (d.fs.bytesPerCluster - d.relativePos) <= |d.fs.Content(chain)|
  {
    var fs, pos := d.fs, d.pos;
    ContentLength(fs, chain);
    Locate(pos, |chain|, fs.bytesPerCluster);
    if pos < |fs.Content(chain)| {
      ChunkAt(fs, chain, pos, fs.bytesPerCluster - pos % fs.bytesPerCluster);
    }
  }

  lemma InPlaceFields(fs: FatPrivate, chain: seq<nat>, pos: nat, error: int)
    requires fs.bytesPerCluster > 0 && chain != []
    ensures AtPos(fs, chain, pos, error).pos == pos && AtPos(fs, chain, pos, error).error == error
  {}

  /** Where fat16_read stands once it has adjusted the cursor to its position. */
  lemma AdjustedForRead(fs: FatPrivate, item: Item, chain: seq<nat>, end: nat, st: Cursor, n: nat)
    requires IsFile(fs, item, chain, end) && EofIsHonest(fs, item, chain, st)
    ensures fs.DataClusters(chain) && !Descriptor.TableError(fs, chain, end, st.pos)
    ensures var st' := Descriptor.Adjusted(fs, chain, end, st);
            var k := Delivered(Limit(fs, item, chain), st.pos, n);
            var goal := AfterRead(fs, item, chain, st, n);
            && st'.pos == st.pos && st'.error == st.error
            && (st'.eof ==> k == 0 && goal == st')
            && (!st'.eof && st.pos >= item.entry.size ==> k == 0 && goal == st'.(eof := true))
            && (!st'.eof && st.pos < item.entry.size ==>
                  && IsReadable(fs, item, chain, end) && st.pos < |fs.Content(chain)|
                  && st' == AtPos(fs, chain, st.pos, st.error)
                  && goal == AtPos(fs, chain, st.pos + k, st.error).(eof := st.pos + k >= Limit(fs, item, chain)))
  {
    ContentLength(fs, chain);
    Locate(st.pos, |chain|, fs.bytesPerCluster);
    if st.pos / fs.bytesPerCluster < |chain| {
      assert fs.DataCluster(chain[st.pos / fs.bytesPerCluster]);
    }
  }

  lemma DeliveredIs(fs: FatPrivate, item: Item, chain: seq<nat>, end: nat, pos: nat, n: nat)
    requires IsFile(fs, item, chain, end)
    ensures fs.DataClusters(chain) && HasChain(fs, item, chain, end)
    ensures var size, rest := item.entry.size, |fs.Content(chain)| - pos;
            var len := if n < size - pos then n else size - pos;
            Limit(fs, item, chain) == (if size < |fs.Content(chain)| then size else |fs.Content(chain)|)
            && Delivered(Limit(fs, item, chain), pos, n)
               == if pos >= size || rest <= 0 then 0 else if len < rest then len else rest
    ensures var k := Delivered(Limit(fs, item, chain), pos, n);
            DeliveredBytes(fs, item, chain, end, pos, n) == if k == 0 then [] else fs.Content(chain)[pos..pos + k]
  {
    ContentLength(fs, chain);
  }

  /** What the state of a descriptor consists of, for where State is hidden. */
  lemma StateFields(d: Descriptor)
    ensures d.State() == Cursor(d.pos, d.relativePos, d.sector, d.eof, d.error)
  {}

  // ---------- what __fat16_read gives ----------

  /** The cursor is where __fat16_read can start: in place on its chain, or anywhere in a
      cluster for an item without a chain. */
  ghost predicate Readable(fs: FatPrivate, item: Item, chain: seq<nat>, end: nat, st: Cursor) {
    && HasChain(fs, item, chain, end) && fs.DataClusters(chain) && fs.bytesPerCluster > 0
    && if chain == [] then
         st.relativePos < fs.bytesPerCluster && st.pos < ADDRESS_LIMIT
       else
         IsReadable(fs, item, chain, end) && st.pos <= |fs.Content(chain)| && st == AtPos(fs, chain, st.pos, st.error)
  }

  /** How many bytes it can still give: those left of the chain. Without a chain it is one
      chunk of whatever lies at the cursor's sector, because the cursor is adjusted only
      after a chunk has been read. */
  ghost function Rest(fs: FatPrivate, chain: seq<nat>, st: Cursor): int
    requires fs.DataClusters(chain)
  {
    if chain != [] then |fs.Content(chain)| - st.pos
    else if st.eof then 0
    else fs.bytesPerCluster - st.relativePos
  }

  /** What it gives them from, and from where. */
  ghost function Seen(fs: FatPrivate, chain: seq<nat>): seq<byte>
    requires fs.DataClusters(chain)
  {
    if chain == [] then fs.Bytes() else fs.Content(chain)
  }

  ghost function Origin(fs: FatPrivate, chain: seq<nat>, st: Cursor): nat {
    if chain == [] then st.sector * fs.header.bytesPerSector + st.relativePos else st.pos
  }

  /** The cursor once it has given n bytes. */
  ghost function Moved(fs: FatPrivate, chain: seq<nat>, st: Cursor, n: nat): Cursor
    requires fs.bytesPerCluster > 0
  {
    if chain != [] then AtPos(fs, chain, st.pos + n, st.error)
    else if n == 0 then st
    else st.(pos := st.pos + n, eof := true)
  }

  /** On a chain: the content from the position on. */
  lemma ReadOnChain(fs: FatPrivate, item: Item, chain: seq<nat>, end: nat, pos: nat, error: int)
    requires IsReadable(fs, item, chain, end) && fs.bytesPerCluster > 0 && fs.DataClusters(chain)
    requires pos <= |fs.Content(chain)| && chain != []
    ensures var st := AtPos(fs, chain, pos, error);
            && Readable(fs, item, chain, end, st) && Seen(fs, chain) == fs.Content(chain)
            && Origin(fs, chain, st) == pos && Rest(fs, chain, st) == |fs.Content(chain)| - pos
            && forall n: nat :: Moved(fs, chain, st, n) == AtPos(fs, chain, pos + n, error)
  {}

  lemma ReadStart(fs: FatPrivate, item: Item, chain: seq<nat>, end: nat, st: Cursor)
    requires Readable(fs, item, chain, end, st)
    ensures fs.bytesPerCluster > 0 && fs.DataClusters(chain)
    ensures 0 <= Rest(fs, chain, st)
    ensures st.eof ==> Rest(fs, chain, st) == 0
    ensures Moved(fs, chain, st, 0) == st
  {
    ContentLength(fs, chain);
  }

  /** Before a chunk: the rest of the cluster is part of what is left. */
  lemma ReadStep(fs: FatPrivate, item: Item, chain: seq<nat>, end: nat, st: Cursor, read: nat)
    requires fs.bytesPerCluster > 0 && fs.DataClusters(chain)
    requires var mid := Moved(fs, chain, st, read); Readable(fs, item, chain, end, mid) && !mid.eof
    ensures var mid := Moved(fs, chain, st, read);
            0 < fs.bytesPerCluster - mid.relativePos <= Rest(fs, chain, mid)
  {
    var mid := Moved(fs, chain, st, read);
    if chain != [] {
      ContentLength(fs, chain);
      Locate(mid.pos, |chain|, fs.bytesPerCluster);
      ChunkAt(fs, chain, mid.pos, fs.bytesPerCluster - mid.pos % fs.bytesPerCluster);
    }
  }

  /** After a chunk of n bytes: n bytes less are left; none, if that ended the item. */
  lemma ReadOn(fs: FatPrivate, item: Item, chain: seq<nat>, end: nat, st: Cursor, read: nat, n: nat)
    requires Readable(fs, item, chain, end, st) && fs.bytesPerCluster > 0 && fs.DataClusters(chain)
    requires var mid := Moved(fs, chain, st, read); Readable(fs, item, chain, end, mid) && !mid.eof
    requires 0 < n <= fs.bytesPerCluster - Moved(fs, chain, st, read).relativePos <= Rest(fs, chain, st) - read
    ensures var mid, next := Moved(fs, chain, st, read), Moved(fs, chain, st, read + n);
            && Moved(fs, chain, mid, n) == next
            && (next.eof ==> read + n == Rest(fs, chain, st) || chain == [])
            && (chain == [] ==> Rest(fs, chain, st) == fs.bytesPerCluster - mid.relativePos)
            && (!next.eof ==>
                  && Readable(fs, item, chain, end, next)
                  && Origin(fs, chain, next) == Origin(fs, chain, st) + read + n
                  && Rest(fs, chain, next) == Rest(fs, chain, st) - read - n)
  {
    ContentLength(fs, chain);
  }

  lemma ReadableFile(fs: FatPrivate, item: Item, chain: seq<nat>, end: nat)
    requires IsFile(fs, item, chain, end)
    ensures HasChain(fs, item, chain, end) && fs.DataClusters(chain) && fs.bytesPerCluster > 0
  {
    MulMonotone(1, fs.header.bytesPerSector, fs.header.sectorsPerCluster);
  }

  /** How many bytes fat16_read gives: the least of those asked for, those left of the file
      and those left of its chain. */
  lemma ReadCount(fs: FatPrivate, item: Item, chain: seq<nat>, pos: nat, size: nat, nmemb: nat)
    ensures var asked := if size * nmemb < 0x1_0000_0000 then size * nmemb else size * nmemb % 0x1_0000_0000;
            var rest, left := item.entry.size - pos, |chain| * fs.bytesPerCluster - pos;
            Delivered(Limit(fs, item, chain), pos, Requested(size, nmemb))
            == if rest <= 0 || left <= 0 then 0
               else if asked <= rest && asked <= left then asked
               else if rest <= left then rest else left
  {
    WrapsOrNot(size * nmemb);
  }

  lemma WrapsOrNot(n: nat)
    ensures n % 0x1_0000_0000 == if n < 0x1_0000_0000 then n else n % 0x1_0000_0000
  {}

  /** Which bytes. */
  lemma ReadGives(fs: FatPrivate, item: Item, chain: seq<nat>, end: nat, pos: nat, n: nat)
    requires IsFile(fs, item, chain, end)
    ensures var k, bytes := Delivered(Limit(fs, item, chain), pos, n), DeliveredBytes(fs, item, chain, end, pos, n);
            && |bytes| == k && (k > 0 ==> pos + k <= |fs.Content(chain)|)
            && forall i | 0 <= i < k :: bytes[i] == fs.Content(chain)[pos + i]
  {
    hide FatPrivate.Content;
    LimitInContent(fs, item, chain, end);
  }

  /** Where it leaves the cursor. */
  lemma ReadLeaves(fs: FatPrivate, item: Item, chain: seq<nat>, end: nat, st: Cursor, n: nat)
    requires IsFile(fs, item, chain, end) && EofIsHonest(fs, item, chain, st) && fs.bytesPerCluster > 0
    ensures var next := AfterRead(fs, item, chain, st, n);
            && next.pos == st.pos + Delivered(Limit(fs, item, chain), st.pos, n) && next.error == st.error
            && (next.eof <==> next.pos >= item.entry.size || next.pos >= |chain| * fs.bytesPerCluster)
            && (!next.eof ==>
                  && 0 <= next.pos / fs.bytesPerCluster < |chain| && next.relativePos == next.pos % fs.bytesPerCluster
                  && chain[next.pos / fs.bytesPerCluster] >= 2
                  && next.sector == fs.dataSector + (chain[next.pos / fs.bytesPerCluster] - 2) * fs.header.sectorsPerCluster)
  {
    hide *;
    ReadableFile(fs, item, chain, end);
    ReadEnds(fs, item, chain, end, st, n);
    ReadIsCoherent(fs, item, chain, end, st, n);
    var next := AfterRead(fs, item, chain, st, n);
    CoherentIs(fs, chain, next);
    if !next.eof {
      SectorIs(fs, chain, next.pos / fs.bytesPerCluster);
    }
  }

  lemma ReadEnds(fs: FatPrivate, item: Item, chain: seq<nat>, end: nat, st: Cursor, n: nat)
    requires IsFile(fs, item, chain, end) && EofIsHonest(fs, item, chain, st) && fs.bytesPerCluster > 0
    ensures var next := AfterRead(fs, item, chain, st, n);
            && next.pos == st.pos + Delivered(Limit(fs, item, chain), st.pos, n) && next.error == st.error
            && (next.eof <==> next.pos >= item.entry.size || next.pos >= |chain| * fs.bytesPerCluster)
  {
    hide HasChain, FatPrivate.DataSector;
    ReadableFile(fs, item, chain, end);
  }

  lemma CoherentIs(fs: FatPrivate, chain: seq<nat>, st: Cursor)
    requires fs.bytesPerCluster > 0 && Coherent(fs, chain, st)
    ensures st.eof
            || (&& 0 <= st.pos / fs.bytesPerCluster < |chain| && st.relativePos == st.pos % fs.bytesPerCluster
                && st.sector == fs.DataSector(chain[st.pos / fs.bytesPerCluster]))
  {}

  lemma SectorIs(fs: FatPrivate, chain: seq<nat>, q: nat)
    requires fs.DataClusters(chain) && q < |chain|
    ensures chain[q] >= 2 && fs.DataSector(chain[q]) == fs.dataSector + (chain[q] - 2) * fs.header.sectorsPerCluster
  {
    assert fs.DataCluster(chain[q]);
  }

  class Descriptor {
    const fs: FatPrivate
    const item: Item
    var pos: nat
    var relativePos: nat
    var sector: nat
    var eof: bool
    var error: int

    function State(): Cursor
      reads this
    {
      Cursor(pos, relativePos, sector, eof, error)
    }

    /** __fat16_open. */
    constructor (fs: FatPrivate, item: Item)
      ensures this.fs == fs && this.item == item.(kind := this.item.kind)
      ensures this.item.kind ==
                if item.kind == 255 && item.firstSector == fs.rootFirstSector then 255
                else if item.entry.attributes as bv8 & 0x10 != 0 then 0
                else 1
      ensures State() == Cursor(0, 0, item.firstSector, false, 0)
    {
      this.fs := fs;
      this.item := item.(kind :=
        if IsRootDir(fs, item) then ROOT_DIRECTORY_FLAG
        else if item.entry.attributes as bv8 & ATTRIBUTE_SUBDIRECTORY != 0 then DIRECTORY_FLAG
        else FILE_FLAG);
      pos, relativePos, sector, eof, error := 0, 0, item.firstSector, false, 0;
    }

    /** __fat16_reset_cursors. */
    method ResetCursors()
      modifies this
      ensures State() == Cursor(0, 0, item.firstSector, false, old(error))
    {
      pos := 0;
      relativePos := 0;
      sector := item.firstSector;
      eof := false;
    }

    /** The position lies past a chain that runs into a reserved or bad entry. */
    static ghost predicate TableError(fs: FatPrivate, chain: seq<nat>, end: nat, pos: nat)
      requires fs.bytesPerCluster > 0
    {
      chain != [] && pos / fs.bytesPerCluster >= |chain| && (end == CLUSTER_RESERVED || end == CLUSTER_BAD)
    }

    /** What adjusting the cursor to a new position comes to, table errors included. */
    static ghost function Adjusted(fs: FatPrivate, chain: seq<nat>, end: nat, st: Cursor): Cursor
      requires fs.bytesPerCluster > 0
    {
      if chain == [] then st.(eof := true)
      else
        var q := st.pos / fs.bytesPerCluster;
        var cluster := if q < |chain| then chain[q] else end;
        var st' := st.(relativePos := st.pos % fs.bytesPerCluster);
        if TableError(fs, chain, end, st.pos) then st'.(error := -EIO)
        else if cluster < CHAIN_END then st'.(sector := fs.DataSector(cluster))
        else st'.(eof := true)
    }

    /** __fat16_adjust_cursors_non_root. */
    method AdjustCursorsNonRoot(ghost chain: seq<nat>, ghost end: nat) returns (res: int)
      requires HasChain(fs, item, chain, end)
      modifies this, fs.dev`ppos
      ensures State() == Adjusted(fs, chain, end, old(State()))
      ensures res == if TableError(fs, chain, end, pos) then -EIO else 0
      ensures pos == old(pos)
      ensures chain == [] ==> eof && res == 0 && relativePos == old(relativePos)
      ensures chain != [] ==> relativePos == pos % fs.bytesPerCluster && 0 <= pos / fs.bytesPerCluster
      ensures chain != [] && pos / fs.bytesPerCluster < |chain| ==>
                && chain[pos / fs.bytesPerCluster] >= 2
                && sector == fs.dataSector + (chain[pos / fs.bytesPerCluster] - 2) * fs.header.sectorsPerCluster
                && eof == old(eof) && error == old(error) && res == 0
      ensures chain != [] && pos / fs.bytesPerCluster >= |chain| ==>
                && sector == (if end == 0 then 0 else old(sector))
                && eof == (old(eof) || end >= 0xFFF8)
                && (if end in {0xFFF6, 0xFFF7} then error == -5 && res == -5 else error == old(error) && res == 0)
    {
      if item.entry.firstCluster == 0 {
        eof := true;
        return 0;
      }
      assert fs.DataCluster(chain[0]);
      SectorRoundTrip(fs, chain[0]);
      Locate(pos, |chain|, fs.bytesPerCluster);
      var clusterCount := pos / fs.bytesPerCluster;
      var firstCluster := fs.SectorToCluster(item.firstSector);
      var current := FollowChain(fs, firstCluster, clusterCount, chain, end);
      relativePos := pos % fs.bytesPerCluster;
      assert clusterCount < |chain| ==> fs.DataCluster(chain[clusterCount]);
      if current == CLUSTER_RESERVED || current == CLUSTER_BAD {
        error := -EIO;
        return -EIO;
      }
      if current < CHAIN_END {
        sector := fs.DataSector(current);
      } else {
        eof := true;
      }
      return 0;
    }

    /** __fat16_adjust_cursors, for a descriptor that is not the root directory. */
    method AdjustCursors(offset: nat, ghost chain: seq<nat>, ghost end: nat) returns (res: int)
      requires HasChain(fs, item, chain, end)
      modifies this, fs.dev`ppos
      ensures State() == Adjusted(fs, chain, end, old(State()).(pos := (old(pos) + offset) % WORD32))
      ensures res == if TableError(fs, chain, end, pos) then -EIO else 0
      ensures pos == (old(pos) + offset) % 0x1_0000_0000
    {
      pos := (pos + offset) % WORD32;
      res := AdjustCursorsNonRoot(chain, end);
    }

    /** Where the cursor points on the disk: __fat16_descriptor_to_absolute_address. */
    function AbsoluteAddress(): nat
      reads this
    {
      sector * fs.header.bytesPerSector + relativePos
    }

    /** The bytes the cursor points at. */
    method Fetch(out: array<byte>, at: nat, n: nat) returns (ret: int)
      requires fs.Valid() && AbsoluteAddress() + n <= |fs.Bytes()| && 0 < n && at + n <= out.Length
      modifies fs.dev`ppos, out
      ensures ret == n
      ensures out[..] == Overwrite(old(out[..]), at, fs.Bytes()[AbsoluteAddress()..AbsoluteAddress() + n])
    {
      hide Overwrite, Descriptor.AbsoluteAddress;
      var _ := fs.dev.Seek(AbsoluteAddress());
      ret := fs.dev.Read(out, at, n);
    }

    /** One iteration of __fat16_read: a chunk that stays inside the current cluster. */
    method ReadChunk(out: array<byte>, at: nat, n: nat, ghost chain: seq<nat>, ghost end: nat) returns (ret: int)
      requires Readable(fs, item, chain, end, State()) && !eof
      requires 0 < n <= fs.bytesPerCluster - relativePos && at + n <= out.Length
      requires Origin(fs, chain, State()) + n <= |Seen(fs, chain)|
      modifies this, fs.dev`ppos, out
      ensures ret == n && State() == Moved(fs, chain, old(State()), n)
      ensures var from := Origin(fs, chain, old(State()));
              out[..] == Overwrite(old(out[..]), at, Seen(fs, chain)[from..from + n])
    {
      hide FatPrivate.Content, FatPrivate.DataClusters, Descriptor.TableError, Overwrite;
      if chain != [] {
        InPlace(this, chain, end);
        ChunkAt(fs, chain, pos, n);
        AdvanceAt(fs, chain, end, pos, n, error);
        ContentFits(fs, chain[0], chain, end);
        assert AbsoluteAddress() == fs.DataAddress(chain[pos / fs.bytesPerCluster]) + pos % fs.bytesPerCluster;
      }
      assert (pos + n) % WORD32 == pos + n;
      ret := Fetch(out, at, n);
      var res := AdjustCursors(ret, chain, end);
    }

    /** __fat16_read: up to `len` bytes of the chain's content, whatever clusters they lie in,
        written into `out` from position `at` on. */
    method ReadBytes(out: array<byte>, at: nat, len: nat, ghost chain: seq<nat>, ghost end: nat) returns (ret: int)
      requires Readable(fs, item, chain, end, State())
      requires var k := if len < Rest(fs, chain, State()) then len else Rest(fs, chain, State());
               at + k <= out.Length && Origin(fs, chain, State()) + k <= |Seen(fs, chain)|
      modifies this, fs.dev`ppos, out
      ensures ret == if len < Rest(fs, chain, old(State())) then len else Rest(fs, chain, old(State()))
      ensures State() == Moved(fs, chain, old(State()), ret)
      ensures ret >= 0
      ensures var from := Origin(fs, chain, old(State()));
              out[..] == Overwrite(old(out[..]), at, Seen(fs, chain)[from..from + ret])
    {
      hide Overwrite, Descriptor.State, Readable, Moved, Rest, Seen, Origin, FatPrivate.DataClusters;
      ghost var st, was := State(), out[..];
      StateFields(this);
      ReadStart(fs, item, chain, end, st);
      ghost var seen, from, rest := Seen(fs, chain), Origin(fs, chain, st), Rest(fs, chain, st);
      OverwriteNone(was, at);
      assert seen[from..from + 0] == [];
      var read := 0;
      while read < len && !eof
        invariant 0 <= read <= len && read <= rest && (eof ==> read == len || read == rest)
        invariant State() == Moved(fs, chain, st, read) && eof == State().eof && relativePos == State().relativePos
        invariant !eof ==> Readable(fs, item, chain, end, State())
        invariant !eof ==> Origin(fs, chain, State()) == from + read && Rest(fs, chain, State()) == rest - read
        invariant out[..] == Overwrite(was, at, seen[from..from + read])
        decreases len - read
      {
        ReadStep(fs, item, chain, end, st, read);
        var left := fs.bytesPerCluster - relativePos;
        var toRead := if len - read < left then len - read else left;
        OverwriteSlices(was, at, seen, from, read, toRead);
        ReadOn(fs, item, chain, end, st, read, toRead);
        var chunkRead := ReadChunk(out, at + read, toRead, chain, end);
        StateFields(this);
        read := read + chunkRead;
      }
      return read;
    }

    /** fat16_read, against the functions that specify it: reading a file is reading the slice
        of its flat content that starts at the position, cut at the file's size and at the
        end of its chain. */
    method ReadSlice(size: nat, nmemb: nat, out: array<byte>, at: nat, ghost chain: seq<nat>, ghost end: nat)
      returns (ret: int)
      requires IsFile(fs, item, chain, end) && EofIsHonest(fs, item, chain, State()) && pos < WORD32
      requires at + Delivered(Limit(fs, item, chain), pos, Requested(size, nmemb)) <= out.Length
      modifies this, fs.dev`ppos, out
      ensures ret == Delivered(Limit(fs, item, chain), old(pos), Requested(size, nmemb))
      ensures out[..] == Overwrite(old(out[..]), at, DeliveredBytes(fs, item, chain, end, old(pos), Requested(size, nmemb)))
      ensures State() == AfterRead(fs, item, chain, old(State()), Requested(size, nmemb))
    {
      hide AtPos, AfterRead, Delivered, DeliveredBytes, Limit, IsFile, HasChain, IsReadable, EofIsHonest, Requested, Overwrite;
      hide FatPrivate.Content, FatPrivate.DataClusters, Descriptor.Adjusted, Descriptor.TableError;
      ghost var st := State();
      var n := Requested(size, nmemb);
      StateFields(this);
      AdjustedForRead(fs, item, chain, end, st, n);
      DeliveredIs(fs, item, chain, end, pos, n);
      OverwriteNone(out[..], at);
      assert st.(pos := (pos + 0) % WORD32) == st;
      var res := AdjustCursors(0, chain, end);
      StateFields(this);
      if eof {
        return 0;
      }
      if pos >= item.entry.size {
        eof := true;
        StateFields(this);
        return 0;
      }
      var len := if n < item.entry.size - pos then n else item.entry.size - pos;
      ReadableFacts(fs, item, chain, end);
      ReadOnChain(fs, item, chain, end, st.pos, st.error);
      assert fs.Content(chain)[st.pos..st.pos + 0] == [];
      ret := ReadBytes(out, at, len, chain, end);
      assert ret == Delivered(Limit(fs, item, chain), st.pos, n);
      assert out[..] == Overwrite(old(out[..]), at, DeliveredBytes(fs, item, chain, end, st.pos, n));
      StateFields(this);
      InPlaceFields(fs, chain, st.pos + ret, st.error);
      InPlace(this, chain, end);
      if pos >= item.entry.size {
        eof := true;
        StateFields(this);
      }
    }

    /** fat16_read: size * nmemb is a 32-bit product. The bytes given, where they are put, and
        the cursor afterwards, each by itself. */
    method Read(size: nat, nmemb: nat, out: array<byte>, at: nat, ghost chain: seq<nat>, ghost end: nat)
      returns (ret: int)
      requires IsFile(fs, item, chain, end) && EofIsHonest(fs, item, chain, State()) && pos < WORD32
      requires at + Delivered(Limit(fs, item, chain), pos, Requested(size, nmemb)) <= out.Length
      modifies this, fs.dev`ppos, out
      ensures ret == Delivered(Limit(fs, item, chain), old(pos), Requested(size, nmemb))
      ensures out[..] == Overwrite(old(out[..]), at, DeliveredBytes(fs, item, chain, end, old(pos), Requested(size, nmemb)))
      ensures State() == AfterRead(fs, item, chain, old(State()), Requested(size, nmemb))
      ensures var asked := if size * nmemb < 0x1_0000_0000 then size * nmemb else size * nmemb % 0x1_0000_0000;
              var rest, left := item.entry.size - old(pos), |chain| * fs.bytesPerCluster - old(pos);
              ret == if rest <= 0 || left <= 0 then 0
                     else if asked <= rest && asked <= left then asked
                     else if rest <= left then rest else left
      ensures pos == old(pos) + ret && error == old(error)
      ensures eof <==> pos >= item.entry.size || pos >= |chain| * fs.bytesPerCluster
      ensures !eof ==>
                && 0 <= pos / fs.bytesPerCluster < |chain| && relativePos == pos % fs.bytesPerCluster
                && var cluster := chain[pos / fs.bytesPerCluster];
                   sector == fs.dataSector + (cluster - 2) * fs.header.sectorsPerCluster
      ensures ret > 0 ==> old(pos) + ret <= |fs.Content(chain)|
      ensures forall j | at <= j < at + ret :: out[j] == fs.Content(chain)[old(pos) + (j - at)]
      ensures forall j | 0 <= j < out.Length && !(at <= j < at + ret) :: out[j] == old(out[j])
    {
      hide *;
      ghost var st, was := State(), out[..];
      ghost var n := Requested(size, nmemb);
      ReadableFile(fs, item, chain, end);
      ReadCount(fs, item, chain, st.pos, size, nmemb);
      ReadGives(fs, item, chain, end, st.pos, n);
      ReadLeaves(fs, item, chain, end, st, n);
      StateFields(this);
      ret := ReadSlice(size, nmemb, out, at, chain, end);
      StateFields(this);
      OverwriteAt(was, at, DeliveredBytes(fs, item, chain, end, st.pos, n));
      assert forall j | 0 <= j < out.Length :: out[j] == out[..][j] && old(out[j]) == was[j];
    }

    /** fat16_seek. */
    method Seek(offset: int, whence: int) returns (ret: int)
      modifies this
      ensures State() == AfterSeek(item, old(State()), offset, whence)
      ensures pos == if whence == 0 then offset % 0x1_0000_0000
                     else if whence == 1 then (old(pos) + offset) % 0x1_0000_0000
                     else if whence == 2 then item.entry.size
                     else old(pos)
      ensures eof == (old(eof) && whence !in {0, 1, 2})
      ensures relativePos == old(relativePos) && sector == old(sector) && error == old(error)
      ensures ret == if whence in {0, 1, 2} then 0 else 1
    {
      if whence == SEEK_SET {
        pos := offset % WORD32;
        eof := false;
        return 0;
      } else if whence == SEEK_CUR {
        pos := (pos + offset) % WORD32;
        eof := false;
        return 0;
      } else if whence == SEEK_END {
        pos := item.entry.size;
        eof := false;
        return 0;
      }
      return 1;
    }
  }
}
