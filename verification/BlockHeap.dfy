/**
 The kernel's block heap: src/memory/heap.c. Its table is an array updated in place; the
 heap hands out regions of whole blocks by address and takes them back by address.
 */
module BlockHeap {
  import opened BlockTable
  import opened BlockScan
  import opened Status

  const BLOCK_SIZE: nat := 4096
  const SIZE_LIMIT: nat := 0x1_0000_0000

  /** size_to_nblocks. */
  function SizeToBlocks(size: nat): (n: nat)
    ensures n * BLOCK_SIZE >= size
    ensures n > 0 ==> (n - 1) * BLOCK_SIZE < size
  {
    size / BLOCK_SIZE + if size % BLOCK_SIZE != 0 then 1 else 0
  }

  /** What find_first_block does to a table with n > 0: the block it gives, and its cursor. */
  ghost predicate FindResult(e: Table, c: nat, n: nat, block: int, cursor: nat)
    requires c < |e|
  {
    if RunAfter(e, c, n) then
      FirstRunAfter(e, c, n, block) && cursor == block + n - 1
    else if Taken(e[|e| - 1]) then
      block == -ENOMEM && cursor == 0
    else
      cursor == block + n - 1 && exists p: nat :: FirstTaken(e, p) && FirstRunAfter(e, p, n, block)
  }

  /** Taking a region of n blocks at s: it was free, it is the one the search gives, it is
      tagged as one run, and it is the only change to the live regions. */
  ghost predicate TookRegion(e: Table, c: nat, n: nat, s: nat, e': Table, cursor': nat)
    requires c < |e| && n > 0 && Tagged(e) && Tagged(e')
  {
    && FindResult(e, c, n, s, cursor')
    && FreeRun(e, s, n)
    && e' == Reserved(e, s, n)
    && Live(e') == Live(e)[s := n]
  }

  /** Giving back the region at s: its blocks are cleared, and no other region changes. */
  ghost predicate GaveRegion(e: Table, s: nat, e': Table)
    requires Tagged(e) && Tagged(e')
  {
    && s in Live(e)
    && e' == Cleared(e, s, RegionEnd(e, s))
    && Live(e') == Live(e) - {s}
  }

  /** What an allocation of n blocks makes of a table and a cursor. NULL means that n was 0,
      or that no run lay after the cursor and the table's end was taken. */
  ghost predicate Malloced(base: nat, e: Table, c: nat, n: nat, addr: nat, e': Table, cursor': nat)
    requires Tagged(e) && Tagged(e')
  {
    if n == 0 then addr == 0 && e' == e && cursor' == c
    else if addr == 0 then
      e' == e && cursor' == 0 && c < |e| && !RunAfter(e, c, n) && Taken(e[|e| - 1])
    else
      && base <= addr && addr == base + (addr - base) / BLOCK_SIZE * BLOCK_SIZE
      && c < |e| && TookRegion(e, c, n, (addr - base) / BLOCK_SIZE, e', cursor')
  }

  /** What freeing in block s makes of a table. */
  ghost predicate Freed(e: Table, s: nat, e': Table)
    requires Tagged(e) && Tagged(e')
  {
    if Heads(e, s) then GaveRegion(e, s, e') else e' == e
  }

  class Heap {
    const entries: array<bv8>
    const base: nat
    var inUse: nat
    var cursor: nat

    ghost predicate Valid()
      reads this, entries
    {
      && Tagged(entries[..])
      && inUse == CountTaken(entries[..])
      && base > 0 && base % BLOCK_SIZE == 0
    }

    /** heap_create, once its alignment and length checks have passed. */
    constructor (base: nat, len: nat)
      requires base > 0 && base % BLOCK_SIZE == 0
      ensures Valid() && fresh(entries) && entries.Length == len && this.base == base
      ensures entries[..] == FreeCells(len) && Live(entries[..]) == map[] && cursor == 0
    {
      this.base := base;
      entries := new bv8[len](_ => 0);
      inUse := 0;
      cursor := 0;
      new;
      CountUniform(entries[..], false);
    }

    /** find_first_block. The loop is the step function of BlockScan. */
    method FindFirstBlock(n: nat) returns (block: int)
      requires n > 0 ==> SafeScan(entries[..], cursor, n)
      modifies this`cursor
      ensures n == 0 ==> block == -1 && cursor == old(cursor)
      ensures n > 0 ==> FindResult(entries[..], old(cursor), n, block, cursor)
    {
      var remaining := n;
      block := -1;
      var i := cursor + 1;
      ghost var e, start := entries[..], Start(cursor, n);
      ghost var total: nat := 0;
      if n > 0 {
        total := SafeOutcome(e, cursor, n);
      }
      ghost var k: nat := 0;
      while i != cursor && remaining != 0
        invariant 0 <= i && 0 <= remaining && k <= total
        invariant n == 0 ==> remaining == 0 && block == -1 && cursor == old(cursor)
        invariant n > 0 ==> i < entries.Length && Scan(i, block, remaining, cursor) == After(e, n, start, k)
        decreases total - k
      {
        ghost var st := After(e, n, start, k);
        OneMore(e, n, start, k);
        NextIndex(i, entries.Length);
        if Taken(entries[i]) {
          block := -1;
          remaining := n;
          cursor := 0;
        } else {
          if block == -1 {
            block := i;
          }
          remaining := remaining - 1;
          cursor := i;
        }
        i := (i + 1) % entries.Length;
        k := k + 1;
        assert Scan(i, block, remaining, cursor) == Step(e, n, st);
      }
      if n > 0 {
        DoneOnce(e, n, start, total, k);
      }
      if remaining != 0 {
        return -ENOMEM;
      }
    }

    /** heap_reserve_blocks. */
    method ReserveBlocks(first: nat, n: nat)
      requires n > 0 && first + n <= entries.Length
      requires forall j | first <= j < first + n :: entries[j] == 0
      modifies entries
      ensures entries[..] == Reserved(old(entries[..]), first, n)
    {
      var end := first + n;
      var j := first;
      while j < end
        invariant first <= j <= end
        invariant forall k | first <= k < j :: entries[k] == TAKEN | HAS_NEXT
        invariant forall k | 0 <= k < entries.Length && !(first <= k < j) :: entries[k] == old(entries[k])
      {
        entries[j] := entries[j] | TAKEN;
        entries[j] := entries[j] & !IS_FIRST;
        entries[j] := entries[j] | HAS_NEXT;
        j := j + 1;
      }
      entries[first] := entries[first] | IS_FIRST;
      entries[end - 1] := entries[end - 1] & !HAS_NEXT;
      assert entries[..] == Reserved(old(entries[..]), first, n);
    }

    function BlockToAddr(block: nat): nat {
      base + block * BLOCK_SIZE
    }

    function AddrToBlock(ptr: nat): (block: nat)
      requires base <= ptr
      ensures BlockToAddr(block) <= ptr < BlockToAddr(block) + BLOCK_SIZE
    {
      (ptr - base) / BLOCK_SIZE
    }

    /** heap_malloc_blocks: 0 is NULL. */
    method MallocBlocks(n: nat) returns (addr: nat)
      requires Valid() && (n > 0 ==> SafeScan(entries[..], cursor, n))
      modifies this, entries
      ensures Valid()
      ensures Malloced(base, old(entries[..]), old(cursor), n, addr, entries[..], cursor)
      ensures inUse == old(inUse) + if addr == 0 then 0 else n
    {
      hide FindResult, TookRegion, Tagged, Closed, Reserved, CountTaken, RunAfter, FreeRun, SafeScan, Taken;
      var s := FindFirstBlock(n);
      ghost var e := entries[..];
      if n > 0 {
        SafeCursor(e, old(cursor), n);
        TakingRegion(e, old(cursor), n, s, cursor);
      }
      if s < 0 {
        return 0;
      }
      ReserveBlocks(s, n);
      inUse := inUse + n;
      BlockOfAddr(base, s);
      return BlockToAddr(s);
    }

    /** heap_malloc. From a closed table the table stays closed and the next search is safe. */
    method Malloc(size: nat) returns (addr: nat)
      requires Valid() && size < SIZE_LIMIT
      requires size > 0 ==> SafeScan(entries[..], cursor, SizeToBlocks(size))
      modifies this, entries
      ensures Valid()
      ensures Malloced(base, old(entries[..]), old(cursor), SizeToBlocks(size), addr, entries[..], cursor)
      ensures addr % BLOCK_SIZE == 0
      ensures addr == 0 ==>
                && entries[..] == old(entries[..]) && inUse == old(inUse)
                && cursor == (if size == 0 then old(cursor) else 0)
      ensures addr != 0 ==>
                var s, n := (addr - base) / 4096, (size + 4095) / 4096;
                && size > 0 && base <= addr == base + s * 4096 && s + n <= entries.Length
                && (forall j | s <= j < s + n ::
                      && old(entries[j]) == 0
                      && entries[j] == 0x01 | (if j == s then 0x40 else 0) | (if j + 1 < s + n then 0x80 else 0))
                && (forall j | 0 <= j < entries.Length && !(s <= j < s + n) :: entries[j] == old(entries[j]))
                && inUse == old(inUse) + n && cursor == s + n - 1
                && forall t | old(cursor) < t < s :: Blocked(old(entries[..]), t, n)
      ensures size > 0 && (addr == 0 || (addr - base) / 4096 <= old(cursor)) ==>
                var n := (size + 4095) / 4096;
                forall t | old(cursor) < t && t + n <= entries.Length :: Blocked(old(entries[..]), t, n)
      ensures old(Closed(entries[..]) && cursor + 1 < entries.Length) ==> Closed(entries[..]) && cursor + 1 < entries.Length
    {
      hide Tagged, SafeScan, TookRegion, Closed, CountTaken, Malloced;
      ghost var e, c := entries[..], cursor;
      var n := SizeToBlocks(size);
      if n == 0 {
        NothingMalloced(base, e, c);
        return 0;
      }
      addr := MallocBlocks(n);
      MallocedIs(base, e, c, size, addr, entries[..], cursor);
      StaysClosed(base, e, c, n, addr, entries[..], cursor);
    }

    /** heap_free, against the functions that specify it. */
    method FreeRegion(ptr: nat)
      requires Valid() && base <= ptr && FreeInTable(entries[..], AddrToBlock(ptr))
      modifies this, entries
      ensures Valid() && cursor == old(cursor)
      ensures Freed(old(entries[..]), AddrToBlock(ptr), entries[..])
      ensures var e, s := old(entries[..]), AddrToBlock(ptr);
              inUse == old(inUse) - if Heads(e, s) then Live(e)[s] else 0
      ensures old(Closed(entries[..])) ==> Closed(entries[..])
    {
      hide Live, CountTaken, Cleared, Tagged;
      var block := AddrToBlock(ptr);
      HeadIsTagged(entries[..], block);
      if !First(entries[block]) {
        return;
      }
      ghost var e, s := entries[..], block;
      ghost var end := RegionEnd(e, s);
      RegionInUse(e, s);
      entries[block] := 0;
      block := block + 1;
      inUse := inUse - 1;
      while entries[block] != 0 && !First(entries[block])
        invariant s < block <= end < entries.Length
        invariant forall j | s <= j < block :: entries[j] == 0
        invariant forall j | 0 <= j < entries.Length && !(s <= j < block) :: entries[j] == old(entries[j])
        invariant inUse == old(inUse) - (block - s) && cursor == old(cursor)
        decreases end - block
      {
        assert entries[block] == e[block];
        entries[block] := 0;
        block := block + 1;
        inUse := inUse - 1;
      }
      assert block == end by {
        assert entries[block] == e[block];
      }
      ClearedIs(e, s, end, entries[..]);
      ClearingRegion(e, s);
    }

    /** heap_free. A pointer that is not into the first block of a region frees nothing. The
        loop stays in the table exactly for the pointers allowed here (FreeLeavesTable). */
    method Free(ptr: nat)
      requires Valid() && base <= ptr && FreeInTable(entries[..], AddrToBlock(ptr))
      modifies this, entries
      ensures Valid() && cursor == old(cursor)
      ensures Freed(old(entries[..]), AddrToBlock(ptr), entries[..])
      ensures var e, s := old(entries[..]), AddrToBlock(ptr);
              inUse == old(inUse) - if Heads(e, s) then Live(e)[s] else 0
      ensures old(Closed(entries[..])) ==> Closed(entries[..])
      ensures var s := (ptr - base) / 4096;
              if old(entries[s]) & 0x40 == 0 then entries[..] == old(entries[..]) && inUse == old(inUse)
              else
                exists end ::
                  && s < end < entries.Length
                  && (forall j | s < j < end :: old(entries[j]) != 0 && old(entries[j]) & 0x40 == 0)
                  && (old(entries[end]) == 0 || old(entries[end]) & 0x40 != 0)
                  && (forall j | s <= j < end :: entries[j] == 0)
                  && (forall j | 0 <= j < entries.Length && !(s <= j < end) :: entries[j] == old(entries[j]))
                  && inUse == old(inUse) - (end - s)
    {
      hide Tagged, CountTaken, Freed, Closed;
      ghost var e := entries[..];
      FreeRegion(ptr);
      ghost var s, e' := AddrToBlock(ptr), entries[..];
      FreedIs(e, s, e');
      assert forall j | 0 <= j < entries.Length :: old(entries[j]) == e[j] && entries[j] == e'[j];
    }

    /** count_used_blocks: the counter is right. */
    method CountUsedBlocks() returns (count: nat)
      requires Valid()
      ensures count == inUse
    {
      count := 0;
      for i := 0 to entries.Length
        invariant count == CountTaken(entries[..i])
      {
        assert entries[..i + 1][..i] == entries[..i];
        if Taken(entries[i]) {
          count := count + 1;
        }
      }
      assert entries[..entries.Length] == entries[..];
    }
  }

  lemma NextIndex(i: nat, len: nat)
    requires i < len
    ensures (i + 1) % len == if i + 1 == len then 0 else i + 1
  {}

  lemma OneMore(e: Table, n: nat, st: Scan, k: nat)
    requires st.i < |e| && !Done(After(e, n, st, k))
    ensures After(e, n, st, k + 1) == Step(e, n, After(e, n, st, k))
  {
    AfterAdd(e, n, st, k, 1);
    assert After(e, n, Step(e, n, After(e, n, st, k)), 0) == Step(e, n, After(e, n, st, k));
  }

  lemma BlockOfAddr(base: nat, block: nat)
    ensures (base + block * BLOCK_SIZE - base) / BLOCK_SIZE == block
  {}

  // ---------- what the tables look like afterwards ----------

  /** Among the n blocks from t on one is taken. */
  ghost predicate Blocked(e: Table, t: nat, n: nat) {
    exists j :: t <= j < t + n && j < |e| && e[j] != 0
  }

  lemma MallocedIs(base: nat, e: Table, c: nat, size: nat, addr: nat, e': Table, c': nat)
    requires Tagged(e) && Tagged(e') && Malloced(base, e, c, SizeToBlocks(size), addr, e', c')
    ensures |e'| == |e|
    ensures addr == 0 ==> e' == e && c' == if size == 0 then c else 0
    ensures addr != 0 ==>
              var s, n := (addr - base) / 4096, (size + 4095) / 4096;
              && size > 0 && base <= addr == base + s * 4096 && s + n <= |e|
              && (forall j | s <= j < s + n ::
                    && e[j] == 0
                    && e'[j] == 0x01 | (if j == s then 0x40 else 0) | (if j + 1 < s + n then 0x80 else 0))
              && (forall j | 0 <= j < |e| && !(s <= j < s + n) :: e'[j] == e[j])
              && c' == s + n - 1
              && forall t | c < t < s :: Blocked(e, t, n)
    ensures size > 0 && (addr == 0 || (addr - base) / 4096 <= c) ==>
              var n := (size + 4095) / 4096;
              forall t | c < t && t + n <= |e| :: Blocked(e, t, n)
  {
    hide Tagged, Taken;
    var n := SizeToBlocks(size);
    assert n == (size + 4095) / 4096;
    forall t: nat | t + n <= |e| && !FreeRun(e, t, n)
      ensures Blocked(e, t, n)
    {
      NotFree(e, t, n);
    }
    if addr != 0 {
      var s := (addr - base) / BLOCK_SIZE;
      FreeMeansZero(e, s, n);
      TagsOf(n);
    }
  }

  lemma NothingMalloced(base: nat, e: Table, c: nat)
    requires Tagged(e)
    ensures Malloced(base, e, c, 0, 0, e, c)
  {}

  lemma NotFree(e: Table, t: nat, m: nat)
    requires t + m <= |e| && !FreeRun(e, t, m)
    ensures Blocked(e, t, m)
  {
    var j :| t <= j < t + m && Taken(e[j]);
    assert e[j] != 0;
  }

  lemma TagsOf(n: nat)
    ensures forall i | 0 <= i < n :: RunTag(n, i) == 0x01 | (if i == 0 then 0x40 else 0) | (if i + 1 < n then 0x80 else 0)
  {}

  lemma FreedIs(e: Table, s: nat, e': Table)
    requires Tagged(e) && Tagged(e') && FreeInTable(e, s) && Freed(e, s, e')
    ensures if e[s] & 0x40 == 0 then e' == e
            else
              var end := RegionEndOf(e, s);
              && s < end < |e| == |e'|
              && (forall j | s < j < end :: e[j] != 0 && e[j] & 0x40 == 0)
              && (e[end] == 0 || e[end] & 0x40 != 0)
              && (forall j | s <= j < end :: e'[j] == 0)
              && (forall j | 0 <= j < |e| && !(s <= j < end) :: e'[j] == e[j])
              && s in Live(e) && Live(e)[s] == end - s
  {
    HeadIsTagged(e, s);
    HeadIs(e, s);
  }

  ghost function RegionEndOf(e: Table, s: nat): nat
    requires Tagged(e)
  {
    if Heads(e, s) then RegionEnd(e, s) else s
  }

  lemma StaysClosed(base: nat, e: Table, c: nat, n: nat, addr: nat, e': Table, c': nat)
    requires Tagged(e) && Tagged(e') && Malloced(base, e, c, n, addr, e', c')
    ensures Closed(e) && c + 1 < |e| ==> Closed(e') && c' + 1 < |e'|
  {
    hide Tagged, Live;
  }

  // ---------- freeing ----------

  /** heap_free's loop from block i reads past the table. */
  ghost predicate ReadsPast(e: Table, i: nat)
    decreases |e| - i
  {
    i >= |e| || (e[i] != 0 && !First(e[i]) && ReadsPast(e, i + 1))
  }

  /** Freeing in block s stays in the table: s is in it, and so is the block after the region
      that s is the head of. */
  ghost predicate FreeInTable(e: Table, s: nat)
    requires Tagged(e)
  {
    s < |e| && (Heads(e, s) ==> RegionEnd(e, s) < |e|)
  }

  /** The loop that frees the region at s reads past the table exactly when the region ends
      with the table. */
  lemma FreeLeavesTable(e: Table, s: nat)
    requires Tagged(e) && Heads(e, s)
    ensures ReadsPast(e, s + 1) <==> !FreeInTable(e, s)
  {
    ReadsToRegionEnd(e, s);
  }

  lemma {:induction false} ReadsToRegionEnd(e: Table, i: nat)
    requires Tagged(e) && i < |e| && Taken(e[i])
    ensures ReadsPast(e, i + 1) <==> RegionEnd(e, i) == |e|
    decreases |e| - i
  {
    assert CellOk(e, i);
    assert i + 1 < |e| ==> CellOk(e, i + 1);
    if HasNext(e[i]) {
      ReadsToRegionEnd(e, i + 1);
    }
  }

  /** A two-block table: freeing its last block, taken alone, reads entry 2. */
  lemma FreeOfLastBlock()
    ensures var e: Table := [0, TAKEN | IS_FIRST];
            Tagged(e) && Heads(e, 1) && ReadsPast(e, 2) && !FreeInTable(e, 1)
  {
    var e: Table := [0, TAKEN | IS_FIRST];
    assert CellOk(e, 0) && CellOk(e, 1);
    FreeLeavesTable(e, 1);
  }

  lemma HeadIsTagged(e: Table, s: nat)
    requires Tagged(e) && s < |e|
    ensures First(e[s]) <==> Heads(e, s)
  {
    assert CellOk(e, s);
  }

  lemma RegionInUse(e: Table, s: nat)
    requires Tagged(e) && s < |e| && Taken(e[s])
    ensures RegionEnd(e, s) - s <= CountTaken(e)
  {
    ClearedCount(e, s, RegionEnd(e, s));
  }

  lemma ClearedIs(e: Table, s: nat, end: nat, r: Table)
    requires s <= end <= |e| == |r|
    requires forall j | 0 <= j < |e| :: r[j] == if s <= j < end then 0 else e[j]
    ensures r == Cleared(e, s, end)
  {}

  lemma ClearingRegion(e: Table, s: nat)
    requires Tagged(e) && Heads(e, s) && RegionEnd(e, s) < |e|
    ensures s in Live(e) && Live(e)[s] == RegionEnd(e, s) - s
    ensures var e' := Cleared(e, s, RegionEnd(e, s));
            && Tagged(e') && GaveRegion(e, s, e')
            && CountTaken(e') == CountTaken(e) - (RegionEnd(e, s) - s)
            && (Closed(e) ==> Closed(e'))
  {
    hide Taken, First, Tagged, RegionEnd, CountTaken;
    HeadIs(e, s);
    ClearedCount(e, s, RegionEnd(e, s));
    ClearedLive(e, s);
  }

  // ---------- allocating ----------

  lemma SafeCursor(e: Table, c: nat, n: nat)
    requires SafeScan(e, c, n)
    ensures c + 1 < |e|
  {}

  lemma TakingRegion(e: Table, c: nat, n: nat, s: int, cursor: nat)
    requires Tagged(e) && c < |e| && n > 0 && FindResult(e, c, n, s, cursor)
    ensures s < 0 ==> cursor == 0 && !RunAfter(e, c, n) && Taken(e[|e| - 1])
    ensures s >= 0 ==> s + n <= |e| && forall j | s <= j < s + n :: e[j] == 0
    ensures s >= 0 ==>
              var e' := Reserved(e, s, n);
              Tagged(e') && TookRegion(e, c, n, s, e', cursor) && CountTaken(e') == CountTaken(e) + n
  {
    if s >= 0 {
      ReservedLive(e, s, n);
      ReservedCount(e, s, n);
      FreeMeansZero(e, s, n);
    }
  }

  lemma FreeMeansZero(e: Table, s: nat, n: nat)
    requires Tagged(e) && FreeRun(e, s, n)
    ensures forall j | s <= j < s + n :: e[j] == 0
  {
    forall j | s <= j < s + n
      ensures e[j] == 0
    {
      assert CellOk(e, j);
    }
  }

  // ---------- with the last block held ----------

  /** Failure leaves the cursor at 0; a retry then succeeds exactly when some run of n blocks
      lies between the first block and the held last one. */
  lemma RetryLaw(e: Table, n: nat, block: int, cursor: nat)
    requires Closed(e) && n > 0 && FindResult(e, 0, n, block, cursor)
    ensures block >= 0 <==> exists s: nat :: 0 < s && s + n <= |e| - 1 && FreeRun(e, s, n)
  {
    assert Taken(e[|e| - 1]);
    if RunAfter(e, 0, n) {
      assert FreeRun(e, block, n);
      assert block + n <= |e| - 1;
    }
  }

  /** In a closed table every search from a cursor below the last block is safe. */
  lemma ClosedIsSafe(e: Table, c: nat, n: nat)
    requires Closed(e) && c + 1 < |e|
    ensures SafeScan(e, c, n)
  {
    assert Taken(e[|e| - 1]);
  }
}
