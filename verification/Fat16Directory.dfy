/**
 Looking a name up in a subdirectory: fat16_find_entry_in_dir (src/fs/fat16.c:325-391). The
 search reads entry by entry through the cluster chain; the result is about the flat list
 of entries, in which cluster boundaries do not show.
 */
module Fat16Directory {
  import opened Status
  import opened DiskStreams
  import opened FatVolume
  import opened Fat16

  // ---------- the string helpers of the search ----------

  /** strnlen on a name held in at most `max` characters. */
  function Strnlen(s: seq<byte>, max: nat): (n: nat)
    ensures n <= max && n <= |s|
    ensures forall i | 0 <= i < n :: s[i] != 0
    ensures n < max && n < |s| ==> s[n] == 0
  {
    if max == 0 || s == [] || s[0] == 0 then 0 else 1 + Strnlen(s[1..], max - 1)
  }

  /** The name, cut at its terminator and padded with spaces to n characters. */
  function Padded(s: seq<byte>, n: nat): (p: seq<byte>)
    ensures |p| == n && forall i | 0 <= i < n :: p[i] != 0
  {
    s[..Strnlen(s, n)] + seq(n - Strnlen(s, n), _ => 32 as byte)
  }

  /** The strncmp of src/string/string.c from character i on. */
  function Strncmp(s1: seq<byte>, s2: seq<byte>, n: nat, i: nat): int
    requires i < n <= |s1| && n <= |s2|
    decreases n - i
  {
    if s1[i] != 0 && s2[i] != 0 && s1[i] == s2[i] && i + 1 < n then Strncmp(s1, s2, n, i + 1)
    else s1[i] as int - s2[i] as int
  }

  /** Against a string without terminator it is zero exactly on equal characters. */
  lemma {:induction false} StrncmpIsEquality(s1: seq<byte>, s2: seq<byte>, n: nat, i: nat)
    requires i < n <= |s1| && n <= |s2|
    requires forall j | 0 <= j < n :: s1[j] != 0
    ensures Strncmp(s1, s2, n, i) == 0 <==> s1[i..n] == s2[i..n]
    decreases n - i
  {
    if s1[i] == s2[i] && i + 1 < n {
      StrncmpIsEquality(s1, s2, n, i + 1);
      assert s1[i..n] == [s1[i]] + s1[i + 1..n] && s2[i..n] == [s2[i]] + s2[i + 1..n];
    } else {
      assert s1[i..n][0] == s1[i] && s2[i..n][0] == s2[i];
    }
  }

  // ---------- the flat list of entries ----------

  function EntryAt(content: seq<byte>, i: nat): Entry
    requires (i + 1) * ENTRY_SIZE <= |content|
  {
    DecodeEntry(content[i * ENTRY_SIZE..(i + 1) * ENTRY_SIZE])
  }

  /** Long-name and volume-label entries are passed over, even as terminators. */
  predicate Ignored(e: Entry) {
    e.attributes as bv8 == ATTRIBUTE_LFN || e.attributes as bv8 & ATTRIBUTE_VOLUME_LABEL != 0
  }

  predicate Terminator(e: Entry)
    requires |e.name| == 8
  {
    !Ignored(e) && e.name[0] == 0
  }

  predicate Matches(e: Entry, name: seq<byte>, extension: seq<byte>) {
    !Ignored(e) && e.name == Padded(name, 8) && e.extension == Padded(extension, 3)
  }

  /** Entry i is the first match, and the list does not end before it. */
  ghost predicate FirstMatch(content: seq<byte>, name: seq<byte>, extension: seq<byte>, i: nat) {
    && (i + 1) * ENTRY_SIZE <= |content|
    && Matches(EntryAt(content, i), name, extension)
    && forall j | 0 <= j < i :: !Stops(content, name, extension, j)
  }

  ghost predicate Stops(content: seq<byte>, name: seq<byte>, extension: seq<byte>, j: nat)
    requires (j + 1) * ENTRY_SIZE <= |content|
  {
    Terminator(EntryAt(content, j)) || Matches(EntryAt(content, j), name, extension)
  }

  /** The item made of directory entry i. */
  function ItemOf(fs: FatPrivate, dir: Item, e: Entry, i: nat): Item {
    Item(if e.attributes as bv8 & ATTRIBUTE_SUBDIRECTORY != 0 then DIRECTORY_FLAG else FILE_FLAG,
         e, fs.DataSector(e.firstCluster), dir.firstSector, i + 1)
  }

  /** What the tests on entry i tell about the search, the entries before it having been
      passed over. */
  lemma Verdict(content: seq<byte>, name: seq<byte>, extension: seq<byte>, i: nat)
    requires (i + 1) * ENTRY_SIZE <= |content|
    requires forall j | 0 <= j < i :: !Stops(content, name, extension, j)
    ensures var e := EntryAt(content, i);
            var same := Strncmp(Padded(name, 8), e.name, 8, 0) == 0 && Strncmp(Padded(extension, 3), e.extension, 3, 0) == 0;
            if Ignored(e) then !Stops(content, name, extension, i)
            else if e.name[0] == 0 then forall k: nat :: !FirstMatch(content, name, extension, k)
            else if same then FirstMatch(content, name, extension, i)
            else !Stops(content, name, extension, i)
  {
    var e := EntryAt(content, i);
    var p, q := Padded(name, 8), Padded(extension, 3);
    StrncmpIsEquality(p, e.name, 8, 0);
    StrncmpIsEquality(q, e.extension, 3, 0);
    assert p[0..8] == p && e.name[0..8] == e.name && q[0..3] == q && e.extension[0..3] == e.extension;
    if !Ignored(e) && e.name[0] == 0 {
      assert Stops(content, name, extension, i);
      assert !Matches(e, name, extension) by {
        assert p[0] != 0;
      }
      forall k: nat
        ensures !FirstMatch(content, name, extension, k)
      {
        assert k < i ==> !Stops(content, name, extension, k);
      }
    }
  }

  lemma NothingLeft(content: seq<byte>, name: seq<byte>, extension: seq<byte>, n: nat)
    requires |content| == n * ENTRY_SIZE
    requires forall j | 0 <= j < n :: !Stops(content, name, extension, j)
    ensures forall k: nat :: !FirstMatch(content, name, extension, k)
  {
    forall k: nat
      ensures !FirstMatch(content, name, extension, k)
    {
      assert k < n ==> !Stops(content, name, extension, k);
    }
  }

  /** The result of a lookup: the item of the first match, or nothing when there is none. */
  ghost predicate IsLookup(fs: FatPrivate, dir: Item, content: seq<byte>, name: seq<byte>, extension: seq<byte>, r: Option<Item>) {
    match r
    case None => forall i: nat :: !FirstMatch(content, name, extension, i)
    case Some(item) =>
      && item.parentPosition > 0
      && var i := item.parentPosition - 1;
      && FirstMatch(content, name, extension, i)
      && item == ItemOf(fs, dir, EntryAt(content, i), i)
  }

  predicate IsDirectory(item: Item) {
    item.kind == DIRECTORY_FLAG || item.kind == ROOT_DIRECTORY_FLAG
  }

  /** What fat16_find_entry_in_dir can look through: a subdirectory that has clusters, or one
      without, for which its first sector must lie on the disk. */
  ghost predicate InDirectory(fs: FatPrivate, dir: Item, chain: seq<nat>, end: nat) {
    && HasChain(fs, dir, chain, end) && fs.DataClusters(chain)
    && fs.bytesPerCluster > 0 && fs.bytesPerCluster % ENTRY_SIZE == 0
    && if chain == [] then FirstSectorAddress(fs, dir) + ENTRY_SIZE <= |fs.Bytes()| else end >= CHAIN_END
  }

  function FirstSectorAddress(fs: FatPrivate, dir: Item): nat {
    dir.firstSector * fs.header.bytesPerSector
  }

  /** The bytes the search takes for the list of entries: the content of the chain. Without a
      chain there is no content, but the search reads before it adjusts the cursor: it takes
      one entry's worth of bytes from the item's first sector. */
  ghost function Listed(fs: FatPrivate, dir: Item, chain: seq<nat>, end: nat): seq<byte>
    requires InDirectory(fs, dir, chain, end)
  {
    if chain != [] then fs.Content(chain)
    else fs.Bytes()[FirstSectorAddress(fs, dir)..FirstSectorAddress(fs, dir) + ENTRY_SIZE]
  }

  /** The one result of a lookup. */
  ghost function Lookup(fs: FatPrivate, dir: Item, content: seq<byte>, name: seq<byte>, extension: seq<byte>): (r: Option<Item>)
    ensures IsLookup(fs, dir, content, name, extension, r)
  {
    if exists i: nat :: FirstMatch(content, name, extension, i) then
      var i: nat :| FirstMatch(content, name, extension, i);
      Some(ItemOf(fs, dir, EntryAt(content, i), i))
    else None
  }

  lemma LookupIsUnique(fs: FatPrivate, dir: Item, content: seq<byte>, name: seq<byte>, extension: seq<byte>, r: Option<Item>)
    requires IsLookup(fs, dir, content, name, extension, r)
    ensures r == Lookup(fs, dir, content, name, extension)
  {
    var q := Lookup(fs, dir, content, name, extension);
    if r.Some? && q.Some? {
      OneFirstMatch(content, name, extension, r.value.parentPosition - 1, q.value.parentPosition - 1);
    }
  }

  lemma OneFirstMatch(content: seq<byte>, name: seq<byte>, extension: seq<byte>, i: nat, j: nat)
    requires FirstMatch(content, name, extension, i) && FirstMatch(content, name, extension, j)
    ensures i == j
  {
    assert Stops(content, name, extension, i) && Stops(content, name, extension, j);
  }

  lemma WholeEntries(fs: FatPrivate, dir: Item, chain: seq<nat>, end: nat)
    requires InDirectory(fs, dir, chain, end)
    ensures |Listed(fs, dir, chain, end)| % ENTRY_SIZE == 0 && |Listed(fs, dir, chain, end)| > 0
  {
    hide FatPrivate.Content, FatPrivate.DataClusters, HasChain;
    if chain != [] {
      ContentLength(fs, chain);
      WholeMultiple(|chain|, fs.bytesPerCluster);
    }
  }

  lemma WholeMultiple(count: nat, size: nat)
    requires count > 0 && size > 0 && size % ENTRY_SIZE == 0
    ensures count * size > 0 && count * size % ENTRY_SIZE == 0
  {
    var m := size / ENTRY_SIZE;
    assert count * size == (count * m) * ENTRY_SIZE by {
      MulAssociative(count, m, ENTRY_SIZE);
    }
    DivMod(count * m, 0, ENTRY_SIZE);
    MulMonotone(1, count, size);
  }

  /** The cursor is in place before entry i. */
  ghost predicate BeforeEntry(d: Descriptor, chain: seq<nat>, end: nat, i: nat)
    reads d
  {
    && InDirectory(d.fs, d.item, chain, end)
    && d.pos == i * ENTRY_SIZE <= |Listed(d.fs, d.item, chain, end)|
    && (d.eof <==> d.pos == |Listed(d.fs, d.item, chain, end)|)
    && if chain != [] then d.State() == AtPos(d.fs, chain, d.pos, d.error)
       else d.relativePos == 0 && d.sector == d.item.firstSector
  }

  /** A reset cursor stands before the first entry. */
  lemma InPlaceAtStart(d: Descriptor, chain: seq<nat>, end: nat)
    requires InDirectory(d.fs, d.item, chain, end)
    requires d.State() == Cursor(0, 0, d.item.firstSector, false, d.error)
    ensures BeforeEntry(d, chain, end, 0)
  {
    WholeEntries(d.fs, d.item, chain, end);
    DivMod(0, 0, d.fs.bytesPerCluster);
    if chain != [] {
      ContentLength(d.fs, chain);
    }
  }

  /** Reading the next entry's bytes is possible and gives entry i. */
  lemma EntryRead(d: Descriptor, chain: seq<nat>, end: nat, i: nat)
    requires BeforeEntry(d, chain, end, i) && !d.eof
    ensures InDirectory(d.fs, d.item, chain, end) && (i + 1) * ENTRY_SIZE <= |Listed(d.fs, d.item, chain, end)|
    ensures d.fs.DataClusters(chain) && d.fs.bytesPerCluster > 0
    ensures var from := Origin(d.fs, chain, d.State());
            && Readable(d.fs, d.item, chain, end, d.State()) && Rest(d.fs, chain, d.State()) >= ENTRY_SIZE
            && from + ENTRY_SIZE <= |Seen(d.fs, chain)|
            && Seen(d.fs, chain)[from..from + ENTRY_SIZE]
               == Listed(d.fs, d.item, chain, end)[i * ENTRY_SIZE..(i + 1) * ENTRY_SIZE]
  {
    hide AtPos, FatPrivate.Content, FatPrivate.DataCluster, FatPrivate.IsChain, FirstSectorAddress;
    WholeEntries(d.fs, d.item, chain, end);
    if chain != [] {
      ReadOnChain(d.fs, d.item, chain, end, d.pos, d.error);
    } else {
      EntryReadUnchained(d, end);
    }
  }

  lemma EntryReadUnchained(d: Descriptor, end: nat)
    requires BeforeEntry(d, [], end, 0) && !d.eof
    ensures Readable(d.fs, d.item, [], end, d.State()) && Rest(d.fs, [], d.State()) >= ENTRY_SIZE
    ensures Origin(d.fs, [], d.State()) == FirstSectorAddress(d.fs, d.item)
    ensures Seen(d.fs, []) == d.fs.Bytes()
  {}

  /** Reads one entry. */
  method ReadEntry(d: Descriptor, ghost i: nat, ghost chain: seq<nat>, ghost end: nat) returns (entry: Entry)
    requires BeforeEntry(d, chain, end, i) && !d.eof
    modifies d, d.fs.dev`ppos
    ensures (i + 1) * ENTRY_SIZE <= |Listed(d.fs, d.item, chain, end)|
    ensures entry == EntryAt(Listed(d.fs, d.item, chain, end), i)
    ensures |entry.name| == 8 && |entry.extension| == 3
    ensures BeforeEntry(d, chain, end, i + 1) && d.error == old(d.error)
  {
    hide AtPos, Overwrite, FatPrivate.Content, FatPrivate.DataCluster, HasChain, Listed, Readable, Rest, Seen, Origin;
    ghost var st, listed := d.State(), Listed(d.fs, d.item, chain, end);
    EntryRead(d, chain, end, i);
    var buffer := new byte[ENTRY_SIZE];
    OverwriteAll(buffer[..], listed[i * ENTRY_SIZE..(i + 1) * ENTRY_SIZE]);
    var _ := d.ReadBytes(buffer, 0, ENTRY_SIZE, chain, end);
    MovedToNext(d, chain, end, st, i);
    entry := DecodeEntry(buffer[..]);
  }

  /** Entry i having been read, the cursor is before the next one. */
  lemma MovedToNext(d: Descriptor, chain: seq<nat>, end: nat, st: Cursor, i: nat)
    requires InDirectory(d.fs, d.item, chain, end) && d.fs.bytesPerCluster > 0
    requires (i + 1) * ENTRY_SIZE <= |Listed(d.fs, d.item, chain, end)|
    requires st.pos == i * ENTRY_SIZE && d.State() == Moved(d.fs, chain, st, ENTRY_SIZE)
    requires chain == [] ==> st.relativePos == 0 && st.sector == d.item.firstSector
    ensures BeforeEntry(d, chain, end, i + 1) && d.error == st.error
  {
    if chain != [] {
      InPlaceFields(d.fs, chain, (i + 1) * ENTRY_SIZE, st.error);
      InPlace(d, chain, end);
    }
  }

  /** The search, against the functions that specify it. Allocating the result is taken to
      succeed. */
  method Search(d: Descriptor, name: seq<byte>, extension: seq<byte>, ghost chain: seq<nat>, ghost end: nat)
    returns (r: Option<Item>)
    requires IsDirectory(d.item) ==> InDirectory(d.fs, d.item, chain, end)
    modifies d, d.fs.dev`ppos
    ensures !IsDirectory(d.item) ==> r == None && d.State() == old(d.State())
    ensures IsDirectory(d.item) ==>
              && d.State() == Cursor(0, 0, d.item.firstSector, false, old(d.error))
              && IsLookup(d.fs, d.item, Listed(d.fs, d.item, chain, end), name, extension, r)
  {
    hide AtPos, EntryAt, DecodeEntry, Stops, Strncmp, FirstMatch, HasChain, FatPrivate.Content, FatPrivate.DataCluster, Listed;
    if !IsDirectory(d.item) {
      return None;
    }
    ghost var content := Listed(d.fs, d.item, chain, end);
    var paddedName, paddedExtension := Padded(name, 8), Padded(extension, 3);
    var dirPos: nat := 0;
    d.ResetCursors();
    InPlaceAtStart(d, chain, end);
    r := None;
    ghost var stopped := false;
    while !d.eof
      invariant d.error == old(d.error) && dirPos * ENTRY_SIZE <= |content|
      invariant BeforeEntry(d, chain, end, dirPos)
      invariant forall j | 0 <= j < dirPos :: !Stops(content, name, extension, j)
      decreases |content| - dirPos * ENTRY_SIZE
    {
      var entry := ReadEntry(d, dirPos, chain, end);
      Verdict(content, name, extension, dirPos);
      dirPos := dirPos + 1;
      if Ignored(entry) {
        continue;
      }
      if entry.name[0] == 0 {
        d.eof := true;
        stopped := true;
        break;
      }
      if Strncmp(paddedName, entry.name, 8, 0) != 0 || Strncmp(paddedExtension, entry.extension, 3, 0) != 0 {
        continue;
      }
      r := Some(ItemOf(d.fs, d.item, entry, dirPos - 1));
      stopped := true;
      break;
    }
    if !stopped {
      NothingLeft(content, name, extension, dirPos);
    }
    d.ResetCursors();
  }

  // ---------- the search in terms of bytes ----------

  /** The 32 bytes at `at` are a long-name or a volume-label entry. */
  ghost predicate SkippedAt(b: seq<byte>, at: nat) {
    at + 32 <= |b| && (b[at + 11] == 0x0F || b[at + 11] as bv8 & 0x08 != 0)
  }

  /** The 32 bytes at `at` are an entry of that name and extension: their characters up to
      the terminator, and then spaces. */
  ghost predicate Named(b: seq<byte>, at: nat, name: seq<byte>, extension: seq<byte>) {
    && at + 32 <= |b| && !SkippedAt(b, at)
    && var n, m := Strnlen(name, 8), Strnlen(extension, 3);
    && b[at..at + n] == name[..n] && (forall k | at + n <= k < at + 8 :: b[k] == 0x20)
    && b[at + 8..at + 8 + m] == extension[..m] && (forall k | at + 8 + m <= k < at + 11 :: b[k] == 0x20)
  }

  lemma EntryBytes(b: seq<byte>, i: nat)
    requires 32 * i + 32 <= |b|
    ensures var e, at := EntryAt(b, i), 32 * i;
            && e.name == b[at..at + 8] && e.extension == b[at + 8..at + 11] && e.attributes == b[at + 11]
            && e.firstCluster == b[at + 26] as nat + 0x100 * b[at + 27] as nat
            && e.size == b[at + 28] as nat + 0x100 * b[at + 29] as nat
                         + 0x1_0000 * b[at + 30] as nat + 0x100_0000 * b[at + 31] as nat
  {
    hide Little;
    var at := 32 * i;
    var s := b[at..at + 32];
    SliceOfSlice(b, at, 32, 0, 8);
    SliceOfSlice(b, at, 32, 8, 3);
    var cluster, size := s[26..28], s[28..32];
    LittleTwo(cluster);
    LittleFour(size);
    assert cluster[0] == b[at + 26] && cluster[1] == b[at + 27];
    assert size[0] == b[at + 28] && size[1] == b[at + 29] && size[2] == b[at + 30] && size[3] == b[at + 31];
    assert EntryAt(b, i) == Entry(s[0..8], s[8..11], s[11], Little(cluster), Little(size));
  }

  lemma LittleTwo(b: seq<byte>)
    requires |b| == 2
    ensures Little(b) == b[0] as nat + 0x100 * b[1] as nat
  {
    assert b[1..] == [b[1]] && b[1..][1..] == [];
    assert Little(b[1..]) == b[1] as nat;
  }

  lemma LittleFour(b: seq<byte>)
    requires |b| == 4
    ensures Little(b) == b[0] as nat + 0x100 * b[1] as nat + 0x1_0000 * b[2] as nat + 0x100_0000 * b[3] as nat
  {
    LittleTwo(b[2..]);
    assert b[1..][1..] == b[2..];
    assert Little(b[1..]) == b[1] as nat + 0x100 * Little(b[2..]);
  }

  lemma MatchesBytes(b: seq<byte>, i: nat, name: seq<byte>, extension: seq<byte>)
    requires 32 * i + 32 <= |b|
    ensures Ignored(EntryAt(b, i)) <==> SkippedAt(b, 32 * i)
    ensures Matches(EntryAt(b, i), name, extension) <==> Named(b, 32 * i, name, extension)
    ensures Terminator(EntryAt(b, i)) <==> !SkippedAt(b, 32 * i) && b[32 * i] == 0
  {
    hide EntryAt;
    EntryBytes(b, i);
    var at := 32 * i;
    PaddedAt(b, at, 8, name);
    PaddedAt(b, at + 8, 3, extension);
  }

  lemma PaddedAt(b: seq<byte>, at: nat, size: nat, s: seq<byte>)
    requires at + size <= |b|
    ensures b[at..at + size] == Padded(s, size)
            <==> b[at..at + Strnlen(s, size)] == s[..Strnlen(s, size)]
                 && forall k | at + Strnlen(s, size) <= k < at + size :: b[k] == 0x20
  {
    hide Strnlen;
    var n, p := Strnlen(s, size), Padded(s, size);
    var f := b[at..at + size];
    assert f == b[at..at + n] + b[at + n..at + size];
    assert p[..n] == s[..n] && forall i | n <= i < size :: p[i] == 0x20;
    assert f[..n] == b[at..at + n];
    if f == p {
      forall k | at + n <= k < at + size
        ensures b[k] == 0x20
      {
        assert b[k] == f[k - at];
      }
    }
  }

  lemma DirectoryKinds(item: Item)
    ensures IsDirectory(item) <==> item.kind in {0, 255}
  {}

  lemma ListedIs(fs: FatPrivate, dir: Item, chain: seq<nat>, end: nat)
    requires InDirectory(fs, dir, chain, end)
    ensures fs.DataClusters(chain)
    ensures chain == [] ==> |fs.dev.disk.bytes| >= 32 && Listed(fs, dir, chain, end) == fs.dev.disk.bytes[..32]
    ensures chain != [] ==> Listed(fs, dir, chain, end) == fs.Content(chain)
  {}

  lemma LookupBytes(fs: FatPrivate, dir: Item, b: seq<byte>, name: seq<byte>, extension: seq<byte>, r: Option<Item>)
    requires IsLookup(fs, dir, b, name, extension, r)
    ensures r.Some? ==>
              var item := r.value;
              && item.parentPosition > 0 && item.parentFirstSector == dir.firstSector
              && var at := 32 * (item.parentPosition - 1);
              && at + 32 <= |b|
              && item.entry.name == b[at..at + 8] && item.entry.extension == b[at + 8..at + 11]
              && item.entry.attributes == b[at + 11]
              && item.entry.firstCluster == b[at + 26] as nat + 0x100 * b[at + 27] as nat
              && item.entry.size == b[at + 28] as nat + 0x100 * b[at + 29] as nat
                                    + 0x1_0000 * b[at + 30] as nat + 0x100_0000 * b[at + 31] as nat
              && item.kind == (if b[at + 11] as bv8 & 0x10 != 0 then 0 else 1)
              && item.firstSector == (if item.entry.firstCluster < 2 then 0
                                      else fs.dataSector + (item.entry.firstCluster - 2) * fs.header.sectorsPerCluster)
              && Named(b, at, name, extension)
              && forall j | 0 <= j < item.parentPosition - 1 ::
                   SkippedAt(b, 32 * j) || (b[32 * j] != 0 && !Named(b, 32 * j, name, extension))
    ensures r.None? ==>
              forall i | 0 <= i && 32 * i + 32 <= |b| && Named(b, 32 * i, name, extension) ::
                exists j :: 0 <= j < i && !SkippedAt(b, 32 * j) && b[32 * j] == 0
  {
    hide EntryAt, Named, SkippedAt, Matches, Ignored;
    if r.Some? {
      var i := r.value.parentPosition - 1;
      EntryBytes(b, i);
      MatchesBytes(b, i, name, extension);
      forall j | 0 <= j < i
        ensures SkippedAt(b, 32 * j) || (b[32 * j] != 0 && !Named(b, 32 * j, name, extension))
      {
        assert !Stops(b, name, extension, j);
        MatchesBytes(b, j, name, extension);
      }
    } else {
      forall i | 0 <= i && 32 * i + 32 <= |b| && Named(b, 32 * i, name, extension)
        ensures exists j :: 0 <= j < i && !SkippedAt(b, 32 * j) && b[32 * j] == 0
      {
        EarlierTerminator(b, name, extension, i);
      }
    }
  }

  /** A match that is not the first comes after a terminator or after a match. */
  lemma {:induction false} EarlierTerminator(b: seq<byte>, name: seq<byte>, extension: seq<byte>, i: nat)
    requires 32 * i + 32 <= |b| && Named(b, 32 * i, name, extension)
    requires forall k: nat :: !FirstMatch(b, name, extension, k)
    ensures exists j :: 0 <= j < i && !SkippedAt(b, 32 * j) && b[32 * j] == 0
  {
    hide EntryAt, Named, SkippedAt, Matches, Ignored;
    MatchesBytes(b, i, name, extension);
    assert !FirstMatch(b, name, extension, i);
    var j :| 0 <= j < i && Stops(b, name, extension, j);
    MatchesBytes(b, j, name, extension);
    if Named(b, 32 * j, name, extension) {
      EarlierTerminator(b, name, extension, j);
    }
  }

  /** fat16_find_entry_in_dir. Where the item found lies in the list, which bytes it is made of,
      and why it is the one. */
  method FindEntry(d: Descriptor, name: seq<byte>, extension: seq<byte>, ghost chain: seq<nat>, ghost end: nat)
    returns (r: Option<Item>)
    requires IsDirectory(d.item) ==> InDirectory(d.fs, d.item, chain, end)
    modifies d, d.fs.dev`ppos
    ensures IsDirectory(d.item) <==> d.item.kind in {0, 255}
    ensures !IsDirectory(d.item) ==> r == None && d.State() == old(d.State())
    ensures IsDirectory(d.item) ==>
              && d.State() == Cursor(0, 0, d.item.firstSector, false, old(d.error))
              && IsLookup(d.fs, d.item, Listed(d.fs, d.item, chain, end), name, extension, r)
    ensures IsDirectory(d.item) && chain == [] ==> Listed(d.fs, d.item, chain, end) == d.fs.dev.disk.bytes[..32]
    ensures IsDirectory(d.item) && chain != [] ==> Listed(d.fs, d.item, chain, end) == d.fs.Content(chain)
    ensures IsDirectory(d.item) && r.Some? ==>
              var listed, item := Listed(d.fs, d.item, chain, end), r.value;
              && item.parentPosition > 0 && item.parentFirstSector == d.item.firstSector
              && var at := 32 * (item.parentPosition - 1);
              && at + 32 <= |listed|
              && item.entry.name == listed[at..at + 8] && item.entry.extension == listed[at + 8..at + 11]
              && item.entry.attributes == listed[at + 11]
              && item.entry.firstCluster == listed[at + 26] as nat + 0x100 * listed[at + 27] as nat
              && item.entry.size == listed[at + 28] as nat + 0x100 * listed[at + 29] as nat
                                    + 0x1_0000 * listed[at + 30] as nat + 0x100_0000 * listed[at + 31] as nat
              && item.kind == (if listed[at + 11] as bv8 & 0x10 != 0 then 0 else 1)
              && item.firstSector == (if item.entry.firstCluster < 2 then 0
                                      else d.fs.dataSector + (item.entry.firstCluster - 2) * d.fs.header.sectorsPerCluster)
              && Named(listed, at, name, extension)
              && forall j | 0 <= j < item.parentPosition - 1 ::
                   SkippedAt(listed, 32 * j) || (listed[32 * j] != 0 && !Named(listed, 32 * j, name, extension))
    ensures IsDirectory(d.item) && r.None? ==>
              var listed := Listed(d.fs, d.item, chain, end);
              forall i | 0 <= i && 32 * i + 32 <= |listed| && Named(listed, 32 * i, name, extension) ::
                exists j :: 0 <= j < i && !SkippedAt(listed, 32 * j) && listed[32 * j] == 0
  {
    hide *;
    DirectoryKinds(d.item);
    r := Search(d, name, extension, chain, end);
    if IsDirectory(d.item) {
      ListedIs(d.fs, d.item, chain, end);
      LookupBytes(d.fs, d.item, Listed(d.fs, d.item, chain, end), name, extension, r);
    }
  }

  // ---------- directories without clusters ----------

  /** A lookup finds only what the directory's clusters hold if and only if the directory has
      clusters or the entry at its first sector does not match by chance. */
  lemma LookupIsInContent(fs: FatPrivate, dir: Item, chain: seq<nat>, end: nat, name: seq<byte>, extension: seq<byte>, r: Option<Item>)
    requires InDirectory(fs, dir, chain, end)
    requires IsLookup(fs, dir, Listed(fs, dir, chain, end), name, extension, r)
    ensures IsLookup(fs, dir, fs.Content(chain), name, extension, r)
            <==> chain != [] || !Matches(EntryAt(Listed(fs, dir, chain, end), 0), name, extension)
  {
    if chain == [] {
      var listed := Listed(fs, dir, chain, end);
      assert FirstMatch(listed, name, extension, 0) <==> Matches(EntryAt(listed, 0), name, extension);
      assert forall i: nat :: !FirstMatch(fs.Content(chain), name, extension, i);
      if r.Some? {
        assert r.value.parentPosition - 1 == 0;
      }
    }
  }

  /** The start of a volume header that is taken for a file "A": 512 bytes per sector, at
      least one sector per cluster, and a boot jump and a system name to match. */
  predicate PhantomHeader(b: seq<byte>) {
    && |b| >= ENTRY_SIZE
    && b[0] == 65 && (forall i | 1 <= i < 11 :: b[i] == 32)
    && b[11] == 0 && b[12] == 2 && b[13] != 0
  }

  lemma PhantomMatches(b: seq<byte>)
    requires PhantomHeader(b) && |b| == ENTRY_SIZE
    ensures Matches(EntryAt(b, 0), [65], [])
  {
    hide Little;
    assert b[0..32] == b;
    assert [65 as byte][1..] == [];
    assert Strnlen([65 as byte], 8) == 1;
    var e := EntryAt(b, 0);
    assert e.name == Padded([65], 8);
    assert e.extension == Padded([], 3);
    assert e.attributes as bv8 == 0;
  }

  /** On a volume with such a header every directory without clusters seems to hold a file
      "A", which is not in its content. */
  lemma PhantomEntry(fs: FatPrivate, dir: Item, end: nat, r: Option<Item>)
    requires InDirectory(fs, dir, [], end) && PhantomHeader(fs.Bytes())
    requires IsLookup(fs, dir, Listed(fs, dir, [], end), [65], [], r)
    ensures !IsLookup(fs, dir, fs.Content([]), [65], [], r) && r.Some?
  {
    hide EntryAt, Padded;
    EmptyStartsAtZero(fs, dir, end);
    PhantomMatches(Listed(fs, dir, [], end));
    LookupIsInContent(fs, dir, [], end, [65], [], r);
  }

  lemma EmptyStartsAtZero(fs: FatPrivate, dir: Item, end: nat)
    requires InDirectory(fs, dir, [], end)
    ensures FirstSectorAddress(fs, dir) == 0 && Listed(fs, dir, [], end) == fs.Bytes()[..ENTRY_SIZE]
  {}

  function PhantomSector(): (b: seq<byte>)
    ensures |b| == SECTOR_SIZE && PhantomHeader(b)
  {
    seq(SECTOR_SIZE, i => if i == 0 then 65 else if i < 11 then 32 else if i == 12 then 2 else if i == 13 then 1 else 0)
  }

  /** A directory entry that has lost its first cluster. */
  function LostDirectory(): Item {
    var blank := seq(8, _ => 32 as byte);
    Item(DIRECTORY_FLAG, Entry(blank, blank[..3], 16, 0, 0), 0, 1, 1)
  }

  lemma PhantomVolume(fs: FatPrivate, dev: DiskStream)
    requires fs == FatPrivate(Header(SECTOR_SIZE, 1, 1), SECTOR_SIZE, 1, 1, dev) && dev.disk == Disk(true, PhantomSector())
    ensures InDirectory(fs, LostDirectory(), [], CHAIN_END) && PhantomHeader(fs.Bytes())
    ensures IsDirectory(LostDirectory()) && !IsRootDir(fs, LostDirectory())
    ensures LostDirectory().kind == 0 && LostDirectory().entry.attributes as bv8 & 0x10 != 0
  {
    hide PhantomHeader, PhantomSector;
  }

  /** Such a lookup, on the smallest such volume: the directory seems to hold a file made of
      the volume's header. */
  method PhantomLookup() returns (fs: FatPrivate, r: Option<Item>)
    ensures InDirectory(fs, LostDirectory(), [], CHAIN_END) && IsDirectory(LostDirectory())
    ensures r.Some? && IsLookup(fs, LostDirectory(), Listed(fs, LostDirectory(), [], CHAIN_END), [65], [], r)
    ensures !IsLookup(fs, LostDirectory(), fs.Content([]), [65], [], r)
  {
    hide PhantomHeader, PhantomSector, InDirectory, IsRootDir, IsLookup, Listed, LostDirectory;
    var dev := new DiskStream(Disk(true, PhantomSector()));
    fs := FatPrivate(Header(SECTOR_SIZE, 1, 1), SECTOR_SIZE, 1, 1, dev);
    PhantomVolume(fs, dev);
    var d := new Descriptor(fs, LostDirectory());
    SameItem(d.item, LostDirectory());
    r := FindEntry(d, [65], [], [], CHAIN_END);
    PhantomEntry(fs, LostDirectory(), CHAIN_END, r);
  }

  /** Opening a directory entry leaves it the item it is. */
  lemma SameItem(found: Item, item: Item)
    requires found == item.(kind := found.kind) && found.kind == DIRECTORY_FLAG && item == LostDirectory()
    ensures found == item
  {}
}
