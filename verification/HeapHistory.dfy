/**
 Histories of the kernel heap: first of regions taken and given back, on tables alone, then
 of calls of heap_malloc and heap_free (src/memory/heap.c:113-161) on a heap. They start
 from any well-formed table, the empty one of heap_create included.
 */
module HeapHistory {
  import opened BlockTable
  import opened BlockScan
  import opened BlockHeap

  // ---------- regions taken and given back ----------

  datatype Op = Took(block: nat, n: nat) | Gave(block: nat)

  /** A region may be taken where it fits and given back while it is live. */
  ghost predicate Legal(e: Table, op: Op)
    requires Tagged(e)
  {
    match op
    case Took(s, n) => n > 0 && FreeRun(e, s, n)
    case Gave(s) => s in Live(e)
  }

  ghost function Apply(e: Table, op: Op): (r: Table)
    requires Tagged(e) && Legal(e, op)
    ensures |r| == |e|
  {
    match op
    case Took(s, n) => Reserved(e, s, n)
    case Gave(s) => Cleared(e, s, RegionEnd(e, s))
  }

  ghost function ApplyLive(live: map<nat, nat>, op: Op): map<nat, nat> {
    match op
    case Took(s, n) => live[s := n]
    case Gave(s) => live - {s}
  }

  /** A history from table e: each operation is legal when it happens and gives the next table. */
  ghost predicate History(e: Table, ops: seq<Op>, final: Table)
    decreases |ops|
  {
    Tagged(e)
    && if ops == [] then final == e
       else Legal(e, ops[0]) && History(Apply(e, ops[0]), ops[1..], final)
  }

  ghost function ReplayLive(live: map<nat, nat>, ops: seq<Op>): map<nat, nat>
    decreases |ops|
  {
    if ops == [] then live else ReplayLive(ApplyLive(live, ops[0]), ops[1..])
  }

  /** The sizes of the regions that start in blocks i to n - 1, added up. */
  ghost function SizesFrom(live: map<nat, nat>, i: nat, n: nat): nat
    decreases n - i
  {
    if i >= n then 0 else (if i in live then live[i] else 0) + SizesFrom(live, i + 1, n)
  }

  lemma {:induction false} NoneStarts(live: map<nat, nat>, i: nat, j: nat, n: nat)
    requires i <= j <= n && forall k | i <= k < j :: k !in live
    ensures SizesFrom(live, i, n) == SizesFrom(live, j, n)
    decreases j - i
  {
    if i < j {
      NoneStarts(live, i + 1, j, n);
    }
  }

  /** The runs of the layout are the live regions. */
  lemma {:induction false} LayoutIsLive(e: Table, i: nat)
    requires Tagged(e) && i <= |e|
    requires i < |e| ==> e[i] == 0 || First(e[i])
    ensures LiveBlocks(Layout(e, i)) == SizesFrom(Live(e), i, |e|)
    decreases |e| - i
  {
    if i < |e| {
      hide CellOk, HasNext, Live;
      var cell, end := FirstCell(e, i);
      LayoutIsLive(e, end);
      assert Layout(e, i)[1..] == Layout(e, end);
      LiveAt(e, i, end);
      NoneStarts(Live(e), i + 1, end, |e|);
    }
  }

  /** Of the cells from i up to the next boundary only i can start a region. */
  lemma LiveAt(e: Table, i: nat, end: nat)
    requires Tagged(e) && i < |e|
    requires end == if Taken(e[i]) then RegionEnd(e, i) else i + 1
    ensures forall k | i < k < end :: k !in Live(e)
    ensures Taken(e[i]) && First(e[i]) ==> i in Live(e) && Live(e)[i] == end - i
    ensures !Taken(e[i]) ==> i !in Live(e)
  {}

  lemma StepLaw(e: Table, op: Op)
    requires Tagged(e) && Legal(e, op)
    ensures Tagged(Apply(e, op)) && Live(Apply(e, op)) == ApplyLive(Live(e), op)
    ensures Closed(e) && op != Gave(|e| - 1) ==> Closed(Apply(e, op))
  {
    match op
    case Took(s, n) => ReservedLive(e, s, n);
    case Gave(s) => ClearedLive(e, s);
  }

  /** The law of a single table. */
  lemma TableLaw(e: Table)
    requires Tagged(e)
    ensures Render(Layout(e, 0)) == e
    ensures CountTaken(e) == LiveBlocks(Layout(e, 0)) == SizesFrom(Live(e), 0, |e|)
  {
    assert |e| > 0 ==> CellOk(e, 0);
    assert e[0..] == e;
    TableIsLayout(e, 0);
    LayoutIsLive(e, 0);
  }

  /** Over every history: the table is exactly free cells and tagged runs, its live regions
      are those taken and not given back, and the blocks in use are their sizes added up. A
      held last block stays held unless it is given back. */
  lemma {:induction false} HistoryLaw(e: Table, ops: seq<Op>, final: Table)
    requires History(e, ops, final)
    ensures Tagged(final) && |final| == |e|
    ensures Live(final) == ReplayLive(Live(e), ops)
    ensures Render(Layout(final, 0)) == final
    ensures CountTaken(final) == LiveBlocks(Layout(final, 0)) == SizesFrom(Live(final), 0, |final|)
    ensures Closed(e) && Gave(|e| - 1) !in ops ==> Closed(final)
    decreases |ops|
  {
    hide Tagged, Legal, Apply, Live, Layout, Closed, CountTaken, Render, LiveBlocks, SizesFrom;
    if ops == [] {
      TableLaw(e);
    } else {
      StepLaw(e, ops[0]);
      HistoryLaw(Apply(e, ops[0]), ops[1..], final);
    }
  }

  lemma {:induction false} HistoryAppend(e: Table, ops: seq<Op>, mid: Table, op: Op)
    requires Tagged(mid) && History(e, ops, mid) && Legal(mid, op) && Tagged(Apply(mid, op))
    ensures History(e, ops + [op], Apply(mid, op))
    decreases |ops|
  {
    hide Tagged, Legal, Apply;
    if ops == [] {
      assert [op][1..] == [];
    } else {
      assert (ops + [op])[1..] == ops[1..] + [op];
      HistoryAppend(Apply(e, ops[0]), ops[1..], mid, op);
    }
  }

  // ---------- calls ----------

  datatype Call = MallocCall(size: nat) | FreeCall(ptr: nat)

  /** A heap's table and cursor between two calls. */
  datatype Moment = Moment(table: Table, cursor: nat)

  /** The source's code answers this call with no read past the table. */
  ghost predicate SafeCall(base: nat, m: Moment, call: Call)
    requires Tagged(m.table)
  {
    match call
    case MallocCall(size) => size < SIZE_LIMIT && (size > 0 ==> SafeScan(m.table, m.cursor, SizeToBlocks(size)))
    case FreeCall(ptr) => base <= ptr && FreeInTable(m.table, (ptr - base) / BLOCK_SIZE)
  }

  /** The one way a call can go: the address it gives (0 for a free) and the moment after. */
  ghost predicate CallResult(base: nat, m: Moment, call: Call, addr: nat, m': Moment) {
    && Tagged(m.table) && Tagged(m'.table)
    && match call
       case MallocCall(size) =>
         Malloced(base, m.table, m.cursor, SizeToBlocks(size), addr, m'.table, m'.cursor)
       case FreeCall(ptr) =>
         base <= ptr && addr == 0 && m'.cursor == m.cursor && Freed(m.table, (ptr - base) / BLOCK_SIZE, m'.table)
  }

  /** What a call means for the regions: an allocation that gives an address takes the blocks
      from that address on, as many as its size needs; a free of a head gives that region
      back; any other call is nothing. */
  ghost function Meaning(base: nat, m: Moment, call: Call, addr: nat): seq<Op> {
    match call
    case MallocCall(size) => if addr != 0 && base <= addr then [Took((addr - base) / BLOCK_SIZE, SizeToBlocks(size))] else []
    case FreeCall(ptr) =>
      if base <= ptr && Heads(m.table, (ptr - base) / BLOCK_SIZE) then [Gave((ptr - base) / BLOCK_SIZE)] else []
  }

  /** Each call is safe when it happens, whatever the calls before it have given. */
  ghost predicate AllSafe(base: nat, m: Moment, calls: seq<Call>)
    decreases |calls|
  {
    && Tagged(m.table)
    && (calls != [] ==>
          && SafeCall(base, m, calls[0])
          && forall addr: nat, m': Moment | CallResult(base, m, calls[0], addr, m') :: AllSafe(base, m', calls[1..]))
  }

  /** The moments of a run and the addresses its calls gave. */
  ghost predicate IsRun(base: nat, calls: seq<Call>, addrs: seq<nat>, ms: seq<Moment>) {
    && |addrs| == |calls| && |ms| == |calls| + 1
    && forall i | 0 <= i < |calls| :: CallResult(base, ms[i], calls[i], addrs[i], ms[i + 1])
  }

  ghost function Meanings(base: nat, calls: seq<Call>, addrs: seq<nat>, ms: seq<Moment>): seq<Op>
    requires |addrs| == |calls| && |ms| == |calls| + 1
  {
    if calls == [] then []
    else
      var last := |calls| - 1;
      Meanings(base, calls[..last], addrs[..last], ms[..last + 1]) + Meaning(base, ms[last], calls[last], addrs[last])
  }

  /** A call changes the table by what it means. */
  lemma CallIsMeaning(base: nat, m: Moment, call: Call, addr: nat, m': Moment, e: Table, ops: seq<Op>)
    requires CallResult(base, m, call, addr, m') && History(e, ops, m.table)
    ensures History(e, ops + Meaning(base, m, call, addr), m'.table)
  {
    hide Tagged, FreeRun, Reserved, Cleared, FindResult, History, RegionEnd, Live;
    assert ops + [] == ops;
    match call
    case MallocCall(size) =>
      if addr != 0 {
        HistoryAppend(e, ops, m.table, Took((addr - base) / BLOCK_SIZE, SizeToBlocks(size)));
      }
    case FreeCall(ptr) =>
      if Heads(m.table, (ptr - base) / BLOCK_SIZE) {
        HistoryAppend(e, ops, m.table, Gave((ptr - base) / BLOCK_SIZE));
      }
  }

  /** A run of calls is the history of what its calls mean. */
  lemma {:induction false} RunIsHistory(base: nat, calls: seq<Call>, addrs: seq<nat>, ms: seq<Moment>)
    requires IsRun(base, calls, addrs, ms) && Tagged(ms[0].table)
    ensures History(ms[0].table, Meanings(base, calls, addrs, ms), ms[|calls|].table)
  {
    hide CallResult, Meaning, History, Tagged;
    if calls == [] {
      EmptyHistory(ms[0].table);
    } else {
      var last := |calls| - 1;
      var pre := ms[..last + 1];
      forall i | 0 <= i < last
        ensures CallResult(base, pre[i], calls[..last][i], addrs[..last][i], pre[i + 1])
      {
        assert CallResult(base, ms[i], calls[i], addrs[i], ms[i + 1]);
      }
      RunIsHistory(base, calls[..last], addrs[..last], pre);
      CallIsMeaning(base, ms[last], calls[last], addrs[last], ms[last + 1], ms[0].table,
                    Meanings(base, calls[..last], addrs[..last], pre));
    }
  }

  lemma EmptyHistory(e: Table)
    requires Tagged(e)
    ensures History(e, [], e)
  {}

  /** One call on a heap. */
  method Perform(heap: Heap, call: Call) returns (addr: nat)
    requires heap.Valid() && SafeCall(heap.base, Moment(heap.entries[..], heap.cursor), call)
    modifies heap, heap.entries
    ensures heap.Valid()
    ensures CallResult(heap.base, Moment(old(heap.entries[..]), old(heap.cursor)), call, addr,
                       Moment(heap.entries[..], heap.cursor))
  {
    match call
    case MallocCall(size) =>
      addr := heap.Malloc(size);
    case FreeCall(ptr) =>
      heap.Free(ptr);
      addr := 0;
  }

  /** Any calls of malloc and free, in any order, from any table on which each is safe when it
      happens. `ms` records the moments between the calls. */
  method PerformAll(heap: Heap, calls: seq<Call>) returns (addrs: seq<nat>, ghost ms: seq<Moment>)
    requires heap.Valid() && AllSafe(heap.base, Moment(heap.entries[..], heap.cursor), calls)
    modifies heap, heap.entries
    ensures heap.Valid()
    ensures IsRun(heap.base, calls, addrs, ms)
    ensures ms[0] == Moment(old(heap.entries[..]), old(heap.cursor))
    ensures ms[|calls|] == Moment(heap.entries[..], heap.cursor)
    ensures var ops := Meanings(heap.base, calls, addrs, ms);
            && History(old(heap.entries[..]), ops, heap.entries[..])
            && Live(heap.entries[..]) == ReplayLive(old(Live(heap.entries[..])), ops)
    ensures Render(Layout(heap.entries[..], 0)) == heap.entries[..]
    ensures heap.inUse == LiveBlocks(Layout(heap.entries[..], 0)) == SizesFrom(Live(heap.entries[..]), 0, heap.entries.Length)
  {
    hide Tagged, Live, Layout, CountTaken, CallResult, History, SafeCall;
    addrs := [];
    ms := [Moment(heap.entries[..], heap.cursor)];
    assert calls[0..] == calls && calls[..0] == [];
    for i := 0 to |calls|
      invariant heap.Valid() && AllSafe(heap.base, Moment(heap.entries[..], heap.cursor), calls[i..])
      invariant IsRun(heap.base, calls[..i], addrs, ms)
      invariant ms[0] == Moment(old(heap.entries[..]), old(heap.cursor))
      invariant ms[i] == Moment(heap.entries[..], heap.cursor)
    {
      assert calls[i..][0] == calls[i] && calls[i..][1..] == calls[i + 1..];
      var addr := Perform(heap, calls[i]);
      addrs := addrs + [addr];
      ms := ms + [Moment(heap.entries[..], heap.cursor)];
      assert forall j | 0 <= j < i :: calls[..i + 1][j] == calls[..i][j];
    }
    assert calls[..|calls|] == calls;
    RunIsHistory(heap.base, calls, addrs, ms);
    HistoryLaw(ms[0].table, Meanings(heap.base, calls, addrs, ms), heap.entries[..]);
  }

  // ---------- when all calls of a run are safe ----------

  /** A size of the machine's width; an address in one of the first `blocks` blocks. */
  predicate Proper(base: nat, blocks: int, call: Call) {
    match call
    case MallocCall(size) => size < SIZE_LIMIT
    case FreeCall(ptr) => base <= ptr && (ptr - base) / BLOCK_SIZE < blocks
  }

  /** The last block is held and the cursor is before it. */
  ghost predicate Held(m: Moment) {
    Closed(m.table) && m.cursor + 1 < |m.table|
  }

  lemma StaysHeld(base: nat, m: Moment, call: Call, addr: nat, m': Moment)
    requires Held(m) && Proper(base, |m.table| - 1, call) && CallResult(base, m, call, addr, m')
    ensures Held(m') && |m'.table| == |m.table|
  {
    if call.FreeCall? && Heads(m.table, (call.ptr - base) / BLOCK_SIZE) {
      ClearedLast(m.table, (call.ptr - base) / BLOCK_SIZE);
    }
  }

  lemma ClearedLast(e: Table, s: nat)
    requires Closed(e) && Heads(e, s) && s + 1 < |e|
    ensures RegionEnd(e, s) < |e|
  {
    assert First(e[|e| - 1]);
  }

  /** With the last block held every run of calls is safe, the held block not being freed. */
  lemma {:induction false} HeldRunIsSafe(base: nat, m: Moment, calls: seq<Call>)
    requires Held(m) && forall i | 0 <= i < |calls| :: Proper(base, |m.table| - 1, calls[i])
    ensures AllSafe(base, m, calls)
    decreases |calls|
  {
    hide CallResult, Proper, Tagged;
    if calls != [] {
      HeldCallIsSafe(base, m, calls[0]);
      forall addr: nat, m': Moment | CallResult(base, m, calls[0], addr, m')
        ensures AllSafe(base, m', calls[1..])
      {
        StaysHeld(base, m, calls[0], addr, m');
        HeldRunIsSafe(base, m', calls[1..]);
      }
    }
  }

  lemma HeldCallIsSafe(base: nat, m: Moment, call: Call)
    requires Held(m) && Proper(base, |m.table| - 1, call)
    ensures SafeCall(base, m, call) && Tagged(m.table)
  {
    match call
    case MallocCall(size) =>
      ClosedIsSafe(m.table, m.cursor, SizeToBlocks(size));
    case FreeCall(ptr) =>
      if Heads(m.table, (ptr - base) / BLOCK_SIZE) {
        ClearedLast(m.table, (ptr - base) / BLOCK_SIZE);
      }
  }

  /** The blocks that a list of calls asks for. */
  function Asked(calls: seq<Call>): nat {
    if calls == [] then 0
    else (if calls[0].MallocCall? then SizeToBlocks(calls[0].size) else 0) + Asked(calls[1..])
  }

  /** All blocks after the cursor are free. */
  ghost predicate FreshAfter(m: Moment) {
    Tagged(m.table) && forall j | m.cursor < j < |m.table| :: !Taken(m.table[j])
  }

  lemma StaysFresh(base: nat, m: Moment, call: Call, addr: nat, m': Moment)
    requires FreshAfter(m) && m.cursor + Asked([call]) + 1 < |m.table|
    requires CallResult(base, m, call, addr, m')
    ensures FreshAfter(m') && |m'.table| == |m.table| && m'.cursor == m.cursor + Asked([call])
  {
    assert [call][1..] == [];
    match call
    case MallocCall(size) =>
      var n := SizeToBlocks(size);
      if n > 0 {
        assert FreeRun(m.table, m.cursor + 1, n);
        assert RunAfter(m.table, m.cursor, n);
        assert FirstRunAfter(m.table, m.cursor, n, (addr - base) / BLOCK_SIZE);
      }
    case FreeCall(ptr) =>
  }

  lemma FreshCallIsSafe(base: nat, m: Moment, call: Call)
    requires FreshAfter(m) && m.cursor + Asked([call]) + 1 < |m.table| && Proper(base, |m.table|, call)
    ensures SafeCall(base, m, call)
  {
    assert [call][1..] == [];
    match call
    case MallocCall(size) =>
      assert FreeRun(m.table, m.cursor + 1, SizeToBlocks(size));
    case FreeCall(ptr) =>
      assert !Taken(m.table[|m.table| - 1]);
  }

  /** From a fresh table, every run of calls that asks in all for fewer blocks than lie after
      the cursor is safe, whatever it frees in between. */
  lemma {:induction false} FreshRunIsSafe(base: nat, m: Moment, calls: seq<Call>)
    requires FreshAfter(m) && m.cursor + Asked(calls) + 1 < |m.table|
    requires forall i | 0 <= i < |calls| :: Proper(base, |m.table|, calls[i])
    ensures AllSafe(base, m, calls)
    decreases |calls|
  {
    hide CallResult, Proper, Tagged, SizeToBlocks;
    if calls != [] {
      assert [calls[0]][1..] == [];
      FreshCallIsSafe(base, m, calls[0]);
      forall addr: nat, m': Moment | CallResult(base, m, calls[0], addr, m')
        ensures AllSafe(base, m', calls[1..])
      {
        StaysFresh(base, m, calls[0], addr, m');
        FreshRunIsSafe(base, m', calls[1..]);
      }
    }
  }

  /** The bound cannot be met with equality: one safe allocation of all the blocks after the
      first leaves the cursor on the last block, and no later allocation is safe. */
  lemma FillsTable(base: nat, len: nat, addr: nat, m': Moment, size: nat)
    requires len >= 2 && SizeToBlocks(size) == len - 1
    requires CallResult(base, Moment(FreeCells(len), 0), MallocCall(size), addr, m')
    ensures SafeScan(FreeCells(len), 0, len - 1)
    ensures addr == base + BLOCK_SIZE && m'.cursor + 1 == |m'.table|
    ensures forall n: nat :: !SafeScan(m'.table, m'.cursor, n)
  {
    var e := FreeCells(len);
    assert FreeRun(e, 1, len - 1);
    assert FirstRunAfter(e, 0, len - 1, (addr - base) / BLOCK_SIZE);
  }

  /** Calls alone never lead to a held last block with the cursor before it. */
  lemma NeverBecomesHeld(base: nat, m: Moment, call: Call, addr: nat, m': Moment)
    requires Tagged(m.table) && SafeCall(base, m, call) && CallResult(base, m, call, addr, m')
    ensures Held(m') ==> Held(m)
  {}
}
