/**
 A FAT16 volume as a value: where its clusters lie, how the allocation table chains them,
 and the flat content a chain stands for. Layout and field offsets are those of Microsoft's
 "FAT: General Overview of On-Disk Format", sections "FAT Data Structure" and "FAT Directory
 Structure"; the formulas are those of src/fs/fat16.c.
 */
module FatVolume {
  import opened DiskStreams
  import opened Rings

  const WORD16: nat := 0x1_0000
  const WORD32: nat := 0x1_0000_0000
  const ADDRESS_LIMIT: nat := 0x8000_0000

  const CLUSTER_RESERVED: nat := 0xFFF6
  const CLUSTER_BAD: nat := 0xFFF7
  const CHAIN_END: nat := 0xFFF8

  datatype Header = Header(bytesPerSector: nat, sectorsPerCluster: nat, reservedSectors: nat)

  /** struct fat_private_data_t, filled in by fat16_probe and constant afterwards; the stream
      `dev` is shared by every open descriptor. */
  datatype FatPrivate = FatPrivate(
    header: Header, bytesPerCluster: nat, dataSector: nat, rootFirstSector: nat, dev: DiskStream)
  {
    ghost predicate Valid() {
      && header.bytesPerSector > 0 && header.sectorsPerCluster > 0
      && bytesPerCluster == header.bytesPerSector * header.sectorsPerCluster
      && dev.disk.registered && WholeSectors(dev.disk) && |dev.disk.bytes| < ADDRESS_LIMIT
    }

    function Bytes(): seq<byte> {
      dev.disk.bytes
    }

    /** fat16_cluster_number_to_data_sector. */
    function DataSector(cluster: nat): nat {
      if cluster < 2 then 0 else dataSector + (cluster - 2) * header.sectorsPerCluster
    }

    /** fat16_cluster_number_to_data_address. */
    function DataAddress(cluster: nat): nat {
      DataSector(cluster) * header.bytesPerSector
    }

    /** fat16_sector_to_cluster_number, in its 32-bit and then 16-bit arithmetic. */
    function SectorToCluster(sector: nat): nat
      requires header.sectorsPerCluster > 0
    {
      (2 + (sector - dataSector) % WORD32 / header.sectorsPerCluster) % WORD16
    }

    /** Where the table entry of a cluster lies. */
    function FatAddress(cluster: nat): nat {
      header.reservedSectors * header.bytesPerSector + cluster * 2
    }

    /** The little-endian table entry of a cluster. */
    function FatEntry(cluster: nat): (n: nat)
      requires FatAddress(cluster) + 2 <= |Bytes()|
      ensures n < WORD16
    {
      Bytes()[FatAddress(cluster)] as nat + 256 * Bytes()[FatAddress(cluster) + 1] as nat
    }

    /** A data cluster whose table entry and whose bytes are on the disk. */
    ghost predicate DataCluster(cluster: nat) {
      && 2 <= cluster < CLUSTER_RESERVED
      && FatAddress(cluster) + 2 <= |Bytes()|
      && DataAddress(cluster) + bytesPerCluster <= |Bytes()|
    }

    ghost predicate DataClusters(chain: seq<nat>) {
      forall i | 0 <= i < |chain| :: DataCluster(chain[i])
    }

    /** The entries that stop fat16_follow_cluster_chain. */
    predicate StopsWalk(entry: nat) {
      entry == 0 || entry >= CLUSTER_RESERVED
    }

    /** `chain` is the list of clusters that the table links from `first` on, and `end` the
        entry that ends it. */
    ghost predicate IsChain(first: nat, chain: seq<nat>, end: nat) {
      && chain != [] && chain[0] == first
      && DataClusters(chain)
      && (forall i | 0 <= i < |chain| - 1 :: FatEntry(chain[i]) == chain[i + 1])
      && FatEntry(chain[|chain| - 1]) == end && StopsWalk(end)
    }

    ghost function ClusterBytes(cluster: nat): (b: seq<byte>)
      requires DataCluster(cluster)
      ensures |b| == bytesPerCluster
    {
      Bytes()[DataAddress(cluster)..DataAddress(cluster) + bytesPerCluster]
    }

    /** The clusters of a chain, concatenated. */
    ghost function Content(chain: seq<nat>): seq<byte>
      requires DataClusters(chain)
    {
      if chain == [] then [] else ClusterBytes(chain[0]) + Content(chain[1..])
    }
  }

  // ---------- arithmetic ----------

  lemma MulStep(q: nat, b: nat)
    ensures (q + 1) * b == q * b + b && q * b >= 0
  {}

  lemma MulMonotone(p: nat, q: nat, b: nat)
    requires p <= q
    ensures p * b <= q * b
  {
    assert (q - p) * b >= 0;
    assert (q - p) * b == q * b - p * b;
  }

  lemma DivMod(q: nat, r: nat, b: nat)
    requires r < b
    ensures (q * b + r) / b == q && (q * b + r) % b == r
  {
    var n := q * b + r;
    assert n == (n / b) * b + n % b;
    if n / b < q {
      MulMonotone(n / b + 1, q, b);
      MulStep(n / b, b);
    } else if n / b > q {
      MulMonotone(q + 1, n / b, b);
      MulStep(q, b);
    }
  }

  // ---------- chains ----------

  lemma {:induction false} ContentLength(v: FatPrivate, chain: seq<nat>)
    requires v.DataClusters(chain)
    ensures |v.Content(chain)| == |chain| * v.bytesPerCluster
  {
    if chain != [] {
      ContentLength(v, chain[1..]);
      MulStep(|chain| - 1, v.bytesPerCluster);
    }
  }

  lemma {:induction false} ContentConcat(v: FatPrivate, a: seq<nat>, b: seq<nat>)
    requires v.DataClusters(a)
    requires v.DataClusters(b)
    ensures v.Content(a + b) == v.Content(a) + v.Content(b)
  {
    if a == [] {
      assert a + b == b;
    } else {
      assert (a + b)[1..] == a[1..] + b;
      ContentConcat(v, a[1..], b);
    }
  }

  /** Within cluster q of a chain the content is what the disk holds there. */
  lemma ContentSlice(v: FatPrivate, chain: seq<nat>, q: nat, lo: nat, hi: nat)
    requires v.DataClusters(chain)
    requires q < |chain| && lo <= hi <= v.bytesPerCluster
    ensures q * v.bytesPerCluster + hi <= |v.Content(chain)|
    ensures v.Content(chain)[q * v.bytesPerCluster + lo..q * v.bytesPerCluster + hi]
         == v.ClusterBytes(chain[q])[lo..hi]
  {
    assert chain == chain[..q] + chain[q..];
    ContentConcat(v, chain[..q], chain[q..]);
    ContentLength(v, chain[..q]);
    SliceOfThree(v.Content(chain[..q]), v.ClusterBytes(chain[q]), v.Content(chain[q..][1..]), lo, hi);
  }

  lemma SliceOfThree<A>(a: seq<A>, b: seq<A>, c: seq<A>, lo: nat, hi: nat)
    requires lo <= hi <= |b|
    ensures (a + (b + c))[|a| + lo..|a| + hi] == b[lo..hi]
  {}

  /** A chain is determined by where it starts. */
  lemma {:induction false} ChainIsUnique(v: FatPrivate, first: nat, c: seq<nat>, d: seq<nat>, e: nat, f: nat)
    requires v.IsChain(first, c, e) && v.IsChain(first, d, f)
    ensures c == d && e == f
    decreases |c|
  {
    if |c| > 1 && |d| > 1 {
      assert c[1] == v.FatEntry(first) == d[1];
      ChainIsUnique(v, c[1], c[1..], d[1..], e, f);
      assert c == [first] + c[1..] && d == [first] + d[1..];
    } else {
      assert v.DataCluster(c[|c| - 1]) && v.DataCluster(d[|d| - 1]);
      assert |c| > 1 ==> v.DataCluster(c[1]);
      assert |d| > 1 ==> v.DataCluster(d[1]);
    }
  }

  /** A chain that reaches an end has no repeated cluster. */
  lemma {:induction false} ChainIsDistinct(v: FatPrivate, first: nat, chain: seq<nat>, end: nat)
    requires v.IsChain(first, chain, end)
    ensures Distinct(chain)
  {
    forall i, j | 0 <= i < j < |chain|
      ensures chain[i] != chain[j]
    {
      if chain[i] == chain[j] {
        ChainIsUnique(v, chain[i], chain[i..], chain[j..], end, end);
      }
    }
  }

  /** Distinct clusters occupy disjoint byte ranges. */
  lemma ClustersDisjoint(v: FatPrivate, c: nat, d: nat)
    requires v.Valid() && 2 <= c < d
    ensures v.DataAddress(c) + v.bytesPerCluster <= v.DataAddress(d)
  {
    var spc, bps := v.header.sectorsPerCluster, v.header.bytesPerSector;
    MulMonotone(c - 2 + 1, d - 2, spc);
    MulStep(c - 2, spc);
    MulMonotone(v.DataSector(c) + spc, v.DataSector(d), bps);
    assert (v.DataSector(c) + spc) * bps == v.DataSector(c) * bps + spc * bps;
  }

  ghost function NumbersFrom2(bound: nat): (r: set<nat>)
    ensures |r| == bound
    ensures forall x: nat :: x in r <==> 2 <= x < bound + 2
  {
    if bound == 0 then {} else NumbersFrom2(bound - 1) + {bound + 1}
  }

  lemma DistinctBelow(s: seq<nat>, bound: nat)
    requires Distinct(s) && forall i | 0 <= i < |s| :: 2 <= s[i] < bound + 2
    ensures |s| <= bound
  {
    SetOfDistinct(s);
    SubsetSize(set i | 0 <= i < |s| :: s[i], NumbersFrom2(bound));
  }

  lemma {:induction false} SetOfDistinct(s: seq<nat>)
    requires Distinct(s)
    ensures |set i | 0 <= i < |s| :: s[i]| == |s|
  {
    if s != [] {
      var t := s[..|s| - 1];
      SetOfDistinct(t);
      assert (set i | 0 <= i < |s| :: s[i]) == (set i | 0 <= i < |t| :: t[i]) + {s[|s| - 1]};
    }
  }

  lemma SubsetSize<A>(a: set<A>, b: set<A>)
    requires a <= b
    ensures |a| <= |b|
  {
    assert b == a + (b - a);
  }

  /** A chain's content is never longer than the disk, so positions in it do not wrap. */
  lemma ContentFits(v: FatPrivate, first: nat, chain: seq<nat>, end: nat)
    requires v.Valid() && v.IsChain(first, chain, end)
    ensures |v.Content(chain)| <= |v.Bytes()|
  {
    hide FatPrivate.Content, FatPrivate.FatEntry, FatPrivate.StopsWalk;
    ChainIsDistinct(v, first, chain, end);
    ContentLength(v, chain);
    var top := Top(chain);
    assert v.DataCluster(top);
    assert forall i | 0 <= i < |chain| :: v.DataCluster(chain[i]) && chain[i] <= top;
    DistinctBelow(chain, top - 1);
    ClustersBefore(|chain|, top - 1, v.header.sectorsPerCluster, v.header.bytesPerSector, v.dataSector);
  }

  lemma ClustersBefore(count: nat, n: nat, spc: nat, bps: nat, first: nat)
    requires count <= n && n > 0
    ensures count * (bps * spc) <= (first + (n - 1) * spc) * bps + bps * spc
  {
    MulMonotone(count, n, bps * spc);
    MulStep(n - 1, bps * spc);
    MulMonotone((n - 1) * spc, first + (n - 1) * spc, bps);
    MulAssociative(n - 1, spc, bps);
  }

  lemma MulAssociative(a: nat, b: nat, c: nat)
    ensures a * b * c == a * (c * b)
  {}

  ghost function Top(s: seq<nat>): (t: nat)
    requires s != []
    ensures t in s && forall i | 0 <= i < |s| :: s[i] <= t
  {
    if |s| == 1 then s[0]
    else
      var t := Top(s[1..]);
      if s[0] > t then s[0] else t
  }

  /** Converting a cluster to its sector and back is the identity. */
  lemma SectorRoundTrip(v: FatPrivate, c: nat)
    requires v.Valid() && v.DataCluster(c)
    ensures v.SectorToCluster(v.DataSector(c)) == c
  {
    var spc, bps := v.header.sectorsPerCluster, v.header.bytesPerSector;
    var d := (c - 2) * spc;
    DivMod(c - 2, 0, spc);
    assert d <= v.DataSector(c) <= v.DataAddress(c) by {
      MulMonotone(1, bps, v.DataSector(c));
    }
    assert (v.DataSector(c) - v.dataSector) % WORD32 == d;
  }
}
