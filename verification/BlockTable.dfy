/**
 The block table of the kernel heap: the tags of src/memory/heap.h and what a well-formed
 table means. Values only; the heap object that updates a table is in BlockHeap.
 */
module BlockTable {

  const TAKEN: bv8 := 0x01
  const IS_FIRST: bv8 := 0x40
  const HAS_NEXT: bv8 := 0x80

  predicate Taken(b: bv8) { b & TAKEN != 0 }

  predicate First(b: bv8) { b & IS_FIRST != 0 }

  predicate HasNext(b: bv8) { b & HAS_NEXT != 0 }

  type Table = seq<bv8>

  // ---------- well-formed tables ----------

  /** A cell is free, or taken with no tag beyond FIRST and HAS_NEXT; a cell has a next one
      exactly where the following cell continues its region. */
  ghost predicate CellOk(e: Table, i: nat)
    requires i < |e|
  {
    && (e[i] == 0 || e[i] & !(IS_FIRST | HAS_NEXT) == TAKEN)
    && (HasNext(e[i]) ==> i + 1 < |e| && Taken(e[i + 1]) && !First(e[i + 1]))
    && (Taken(e[i]) && !First(e[i]) ==> i > 0 && HasNext(e[i - 1]))
  }

  ghost predicate Tagged(e: Table) {
    forall i | 0 <= i < |e| :: CellOk(e, i)
  }

  /** The last block is held as a one-block region of its own. */
  ghost predicate Closed(e: Table) {
    Tagged(e) && |e| >= 2 && e[|e| - 1] == TAKEN | IS_FIRST
  }

  /** The block after the region that cell i belongs to. */
  ghost function RegionEnd(e: Table, i: nat): (end: nat)
    requires Tagged(e) && i < |e| && Taken(e[i])
    ensures i < end <= |e|
    ensures forall j | i < j < end :: Taken(e[j]) && !First(e[j])
    ensures end < |e| ==> e[end] == 0 || First(e[end])
    decreases |e| - i
  {
    assert CellOk(e, i);
    assert i + 1 < |e| ==> CellOk(e, i + 1);
    if HasNext(e[i]) then RegionEnd(e, i + 1) else i + 1
  }

  /** The tag of block j of an n-block region. */
  function RunTag(n: nat, j: nat): bv8 {
    TAKEN | (if j == 0 then IS_FIRST else 0) | (if j + 1 < n then HAS_NEXT else 0)
  }

  function RunTags(n: nat): (t: Table)
    ensures |t| == n
  {
    seq(n, (j: nat) => RunTag(n, j))
  }

  function FreeCells(n: nat): (t: Table)
    ensures |t| == n
  {
    seq(n, _ => 0 as bv8)
  }

  lemma {:induction false} RegionShape(e: Table, s: nat, i: nat)
    requires Tagged(e) && s <= i < |e| && First(e[s])
    requires Taken(e[i]) && (i > s ==> !First(e[i]))
    ensures forall j | i <= j < RegionEnd(e, i) :: e[j] == RunTag(RegionEnd(e, i) - s, j - s)
    decreases |e| - i
  {
    assert CellOk(e, i);
    if HasNext(e[i]) {
      RegionShape(e, s, i + 1);
    }
  }

  /** Every taken cell lies in the region of some head. */
  lemma {:induction false} HasHead(e: Table, i: nat) returns (s: nat)
    requires Tagged(e) && i < |e| && Taken(e[i])
    ensures s <= i && Taken(e[s]) && First(e[s]) && i < RegionEnd(e, s) == RegionEnd(e, i)
  {
    assert CellOk(e, i);
    if First(e[i]) {
      s := i;
    } else {
      assert CellOk(e, i - 1);
      s := HasHead(e, i - 1);
    }
  }

  // ---------- the regions of a table ----------

  ghost predicate Heads(e: Table, t: nat) {
    t < |e| && Taken(e[t]) && First(e[t])
  }

  ghost function RegionSize(e: Table, s: nat): nat
    requires Tagged(e)
  {
    if Heads(e, s) then RegionEnd(e, s) - s else 0
  }

  /** The live regions: first block to number of blocks. */
  ghost function Live(e: Table): map<nat, nat>
    requires Tagged(e)
  {
    map s: nat | s < |e| && Heads(e, s) :: RegionSize(e, s)
  }

  lemma HeadIs(e: Table, s: nat)
    requires Tagged(e)
    ensures Heads(e, s) <==> s < |e| && Taken(e[s]) && First(e[s])
    ensures Heads(e, s) ==> RegionSize(e, s) == RegionEnd(e, s) - s
  {}

  /** Distinct live regions are disjoint and inside the table. */
  lemma LiveDisjoint(e: Table, s: nat, t: nat)
    requires Tagged(e) && s in Live(e) && t in Live(e) && s < t
    ensures s + Live(e)[s] <= t && t + Live(e)[t] <= |e|
  {}

  function CountTaken(e: Table): nat {
    if e == [] then 0 else CountTaken(e[..|e| - 1]) + if Taken(e[|e| - 1]) then 1 else 0
  }

  lemma {:induction false} CountConcat(a: Table, b: Table)
    ensures CountTaken(a + b) == CountTaken(a) + CountTaken(b)
  {
    if b == [] {
      assert a + b == a;
    } else {
      assert (a + b)[..|a + b| - 1] == a + b[..|b| - 1];
      CountConcat(a, b[..|b| - 1]);
    }
  }

  lemma {:induction false} CountUniform(e: Table, taken: bool)
    requires forall i | 0 <= i < |e| :: Taken(e[i]) == taken
    ensures CountTaken(e) == if taken then |e| else 0
  {
    if e != [] {
      CountUniform(e[..|e| - 1], taken);
    }
  }

  /** A table read as free cells and runs. */
  datatype Cell = Free | Region(size: nat)

  ghost function Layout(e: Table, i: nat): seq<Cell>
    requires Tagged(e) && i <= |e|
    decreases |e| - i
  {
    if i == |e| then []
    else if !Taken(e[i]) then [Free] + Layout(e, i + 1)
    else [Region(RegionEnd(e, i) - i)] + Layout(e, RegionEnd(e, i))
  }

  ghost function Render(cells: seq<Cell>): Table {
    if cells == [] then []
    else RenderCell(cells[0]) + Render(cells[1..])
  }

  ghost function LiveBlocks(cells: seq<Cell>): nat {
    if cells == [] then 0
    else CellBlocks(cells[0]) + LiveBlocks(cells[1..])
  }

  /** A tagged table is exactly free cells plus tagged runs, and the blocks in use are the
      sizes of the runs added up. */
  lemma {:induction false} TableIsLayout(e: Table, i: nat)
    requires Tagged(e) && i <= |e|
    requires i < |e| ==> e[i] == 0 || First(e[i])
    ensures Render(Layout(e, i)) == e[i..]
    ensures LiveBlocks(Layout(e, i)) == CountTaken(e[i..])
    decreases |e| - i
  {
    hide Taken, First, HasNext, CellOk, RunTags, FreeCells, RegionEnd;
    if i < |e| {
      var cell, end := FirstCell(e, i);
      TableIsLayout(e, end);
      assert e[i..] == e[i..end] + e[end..];
      CountConcat(e[i..end], e[end..]);
      assert Layout(e, i)[1..] == Layout(e, end);
    } else {
      assert e[i..] == [];
    }
  }

  function RenderCell(cell: Cell): Table {
    match cell
    case Free => FreeCells(1)
    case Region(n) => RunTags(n)
  }

  function CellBlocks(cell: Cell): nat {
    match cell
    case Free => 0
    case Region(n) => n
  }

  lemma FirstCell(e: Table, i: nat) returns (cell: Cell, end: nat)
    requires Tagged(e) && i < |e| && (e[i] == 0 || First(e[i]))
    ensures i < end <= |e| && (end < |e| ==> e[end] == 0 || First(e[end]))
    ensures Layout(e, i) == [cell] + Layout(e, end)
    ensures e[i..end] == RenderCell(cell) && CountTaken(e[i..end]) == CellBlocks(cell)
  {
    hide First, HasNext, RunTag, Tagged;
    if Taken(e[i]) {
      end := RegionEnd(e, i);
      cell := Region(end - i);
      FirstRegion(e, i);
    } else {
      end := i + 1;
      cell := Free;
      FreeCell(e, i);
    }
  }

  lemma FreeCell(e: Table, i: nat)
    requires Tagged(e) && i < |e| && !Taken(e[i])
    ensures e[i..i + 1] == FreeCells(1) && CountTaken(e[i..i + 1]) == 0
    ensures i + 1 < |e| ==> e[i + 1] == 0 || First(e[i + 1])
  {
    assert CellOk(e, i);
    assert i + 1 < |e| ==> CellOk(e, i + 1);
    CountUniform(e[i..i + 1], false);
  }

  lemma FirstRegion(e: Table, i: nat)
    requires Tagged(e) && i < |e| && Taken(e[i]) && (e[i] == 0 || First(e[i]))
    ensures var end := RegionEnd(e, i); e[i..end] == RunTags(end - i) && CountTaken(e[i..end]) == end - i
  {
    var end := RegionEnd(e, i);
    RegionShape(e, i, i);
    CountUniform(e[i..end], true);
  }

  // ---------- taking and giving back a region ----------

  ghost predicate FreeRun(e: Table, s: nat, n: nat) {
    s + n <= |e| && forall j | s <= j < s + n :: !Taken(e[j])
  }

  function Reserved(e: Table, s: nat, n: nat): (r: Table)
    requires s + n <= |e|
    ensures |r| == |e| && forall j | 0 <= j < |e| :: r[j] == if s <= j < s + n then RunTag(n, j - s) else e[j]
  {
    e[..s] + RunTags(n) + e[s + n..]
  }

  function Cleared(e: Table, s: nat, end: nat): (r: Table)
    requires s <= end <= |e|
    ensures |r| == |e| && forall j | 0 <= j < |e| :: r[j] == if s <= j < end then 0 else e[j]
  {
    e[..s] + FreeCells(end - s) + e[end..]
  }

  lemma ReservedTagged(e: Table, s: nat, n: nat)
    requires Tagged(e) && n > 0 && FreeRun(e, s, n)
    ensures Tagged(Reserved(e, s, n))
  {
    var r := Reserved(e, s, n);
    forall i | 0 <= i < |r|
      ensures CellOk(r, i)
    {
      assert CellOk(e, i);
      assert i > 0 ==> CellOk(e, i - 1);
      assert i + 1 < |e| ==> CellOk(e, i + 1);
    }
  }

  lemma CountTags(n: nat)
    ensures CountTaken(RunTags(n)) == n && CountTaken(FreeCells(n)) == 0
  {
    CountUniform(RunTags(n), true);
    CountUniform(FreeCells(n), false);
  }

  lemma ReservedCount(e: Table, s: nat, n: nat)
    requires FreeRun(e, s, n)
    ensures CountTaken(Reserved(e, s, n)) == CountTaken(e) + n
  {
    hide Taken, CountTaken, RunTags;
    CountSplice(e, s, s + n, RunTags(n));
    CountUniform(e[s..s + n], false);
    CountTags(n);
  }

  lemma CountSplice(e: Table, s: nat, end: nat, mid: Table)
    requires s <= end <= |e|
    ensures CountTaken(e[..s] + mid + e[end..]) == CountTaken(e) - CountTaken(e[s..end]) + CountTaken(mid)
  {
    assert e == e[..s] + e[s..end] + e[end..];
    CountConcat(e[..s] + e[s..end], e[end..]);
    CountConcat(e[..s], e[s..end]);
    CountConcat(e[..s] + mid, e[end..]);
    CountConcat(e[..s], mid);
  }

  lemma ClearedTagged(e: Table, s: nat)
    requires Tagged(e) && s < |e| && Taken(e[s]) && First(e[s])
    ensures Tagged(Cleared(e, s, RegionEnd(e, s)))
  {
    var end := RegionEnd(e, s);
    var r := Cleared(e, s, end);
    RegionShape(e, s, s);
    forall i | 0 <= i < |r|
      ensures CellOk(r, i)
    {
      assert CellOk(e, i);
      assert i > 0 ==> CellOk(e, i - 1);
      assert i + 1 < |e| ==> CellOk(e, i + 1);
    }
  }

  lemma ClearedCount(e: Table, s: nat, end: nat)
    requires s <= end <= |e| && forall j | s <= j < end :: Taken(e[j])
    ensures CountTaken(Cleared(e, s, end)) == CountTaken(e) - (end - s)
  {
    hide Taken, CountTaken, FreeCells;
    CountSplice(e, s, end, FreeCells(end - s));
    CountUniform(e[s..end], true);
    CountTags(end - s);
  }

  /** Two tables that agree from i to the end of the region at i have the same region end. */
  lemma {:induction false} SameRegionEnd(e: Table, r: Table, i: nat)
    requires Tagged(e) && Tagged(r) && |e| == |r| && i < |e| && Taken(e[i])
    requires r[i] == e[i] && forall j | i < j < RegionEnd(e, i) :: r[j] == e[j]
    ensures RegionEnd(r, i) == RegionEnd(e, i)
    decreases |e| - i
  {
    if HasNext(e[i]) {
      assert CellOk(e, i);
      SameRegionEnd(e, r, i + 1);
    }
  }

  /** Reserving a free run adds that one live region. */
  lemma ReservedLive(e: Table, s: nat, n: nat)
    requires Tagged(e) && n > 0 && FreeRun(e, s, n)
    ensures Tagged(Reserved(e, s, n)) && s !in Live(e)
    ensures Live(Reserved(e, s, n)) == Live(e)[s := n]
  {
    hide Reserved, Tagged, Heads, RegionSize, FreeRun;
    ReservedTagged(e, s, n);
    ReservedEnd(e, s, n);
    HeadIs(Reserved(e, s, n), s);
    forall t: nat
      ensures Heads(Reserved(e, s, n), t) <==> Heads(e, t) || t == s
      ensures !Heads(e, s)
      ensures Heads(e, t) ==> RegionSize(Reserved(e, s, n), t) == RegionSize(e, t)
    {
      ReservedHeads(e, s, n, t);
    }
    SameMap(Live(Reserved(e, s, n)), Live(e)[s := n]);
  }

  lemma ReservedHeads(e: Table, s: nat, n: nat, t: nat)
    requires Tagged(e) && n > 0 && FreeRun(e, s, n) && Tagged(Reserved(e, s, n))
    ensures Heads(Reserved(e, s, n), t) <==> Heads(e, t) || t == s
    ensures !Heads(e, s)
    ensures Heads(e, t) ==> RegionSize(Reserved(e, s, n), t) == RegionSize(e, t)
  {
    if Heads(e, t) {
      assert !Taken(e[s]);
      KeptRegion(e, Reserved(e, s, n), t, s, s + n);
    }
  }

  lemma SameMap<K, V>(a: map<K, V>, b: map<K, V>)
    requires forall k :: k in a <==> k in b
    requires forall k | k in a :: a[k] == b[k]
    ensures a == b
  {}

  lemma ReservedEnd(e: Table, s: nat, n: nat)
    requires Tagged(e) && n > 0 && FreeRun(e, s, n)
    requires Tagged(Reserved(e, s, n))
    ensures RegionEnd(Reserved(e, s, n), s) == s + n
  {
    var r := Reserved(e, s, n);
    var end := RegionEnd(r, s);
    RegionShape(r, s, s);
    var j := (if end < s + n then end else s + n) - 1;
    assert r[j] == RunTag(n, j - s) && r[j] == RunTag(end - s, j - s);
    assert HasNext(r[j]) <==> j + 1 - s < n;
    assert HasNext(r[j]) <==> j + 1 - s < end - s;
  }

  /** A region outside [lo, hi) survives a change inside it. */
  lemma KeptRegion(e: Table, r: Table, t: nat, lo: nat, hi: nat)
    requires Tagged(e) && Tagged(r) && |e| == |r| && t < |e| && Taken(e[t])
    requires forall j | 0 <= j < |e| && !(lo <= j < hi) :: r[j] == e[j]
    requires RegionEnd(e, t) <= lo || hi <= t
    ensures r[t] == e[t] && RegionEnd(r, t) == RegionEnd(e, t)
  {
    SameRegionEnd(e, r, t);
  }

  /** Clearing a region removes that one live region and touches no other. */
  lemma ClearedLive(e: Table, s: nat)
    requires Tagged(e) && s in Live(e)
    ensures Tagged(Cleared(e, s, RegionEnd(e, s)))
    ensures Live(Cleared(e, s, RegionEnd(e, s))) == Live(e) - {s}
  {
    hide Cleared, Tagged, Heads, RegionSize;
    HeadIs(e, s);
    ClearedTagged(e, s);
    forall t: nat
      ensures Heads(Cleared(e, s, RegionEnd(e, s)), t) <==> Heads(e, t) && t != s
      ensures Heads(e, t) && t != s ==> RegionSize(Cleared(e, s, RegionEnd(e, s)), t) == RegionSize(e, t)
    {
      ClearedHeads(e, s, t);
    }
    SameMap(Live(Cleared(e, s, RegionEnd(e, s))), Live(e) - {s});
  }

  lemma ClearedHeads(e: Table, s: nat, t: nat)
    requires Tagged(e) && Heads(e, s) && Tagged(Cleared(e, s, RegionEnd(e, s)))
    ensures Heads(Cleared(e, s, RegionEnd(e, s)), t) <==> Heads(e, t) && t != s
    ensures Heads(e, t) && t != s ==> RegionSize(Cleared(e, s, RegionEnd(e, s)), t) == RegionSize(e, t)
  {
    if Heads(e, t) && t != s {
      KeptRegion(e, Cleared(e, s, RegionEnd(e, s)), t, s, RegionEnd(e, s));
    }
  }

  /** Giving a region back right after taking it restores the table. */
  lemma ClearUndoesReserve(e: Table, s: nat, n: nat)
    requires Tagged(e) && n > 0 && FreeRun(e, s, n)
    ensures Tagged(Reserved(e, s, n)) && s in Live(Reserved(e, s, n))
    ensures Cleared(Reserved(e, s, n), s, RegionEnd(Reserved(e, s, n), s)) == e
  {
    ReservedTagged(e, s, n);
    ReservedEnd(e, s, n);
    forall j | s <= j < s + n
      ensures e[j] == 0
    {
      assert CellOk(e, j);
    }
  }
}
