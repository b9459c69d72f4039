/**
 The search for free blocks, find_first_block (src/memory/heap.c:55-84), step by step.

 The loop walks the table circularly from the block after the cursor and moves the cursor
 as it goes, although the cursor is also its stopping point. It therefore has three ways to
 end and one not to end at all. The main result says exactly when it ends with an answer
 that can be used.
 */
module BlockScan {
  import opened BlockTable

  /** The loop's variables: `last` is heap->last_allocated_block. */
  datatype Scan = Scan(i: nat, found: int, remaining: nat, last: nat)

  predicate Done(st: Scan) {
    st.i == st.last || st.remaining == 0
  }

  /** One iteration of the loop. */
  function Step(e: Table, n: nat, st: Scan): (r: Scan)
    requires st.i < |e|
    ensures r.i < |e|
  {
    var i := if st.i + 1 == |e| then 0 else st.i + 1;
    if Taken(e[st.i]) then Scan(i, -1, n, 0)
    else Scan(i, if st.found == -1 then st.i else st.found, if st.remaining == 0 then 0 else st.remaining - 1, st.i)
  }

  /** At most k iterations. */
  function After(e: Table, n: nat, st: Scan, k: nat): (r: Scan)
    requires st.i < |e|
    ensures r.i < |e|
    decreases k
  {
    if k == 0 || Done(st) then st else After(e, n, Step(e, n, st), k - 1)
  }

  function Start(cursor: nat, n: nat): Scan {
    Scan(cursor + 1, -1, n, cursor)
  }

  /** The answer can be used: a block index it gives starts n free blocks of the table. */
  ghost predicate Sound(e: Table, n: nat, st: Scan) {
    st.remaining == 0 ==> st.found >= 0 && FreeRun(e, st.found, n)
  }

  // ---------- when the search is safe ----------

  ghost predicate RunAfter(e: Table, c: nat, n: nat) {
    exists s: nat :: c < s && FreeRun(e, s, n)
  }

  /** s is where the first such run starts. */
  ghost predicate FirstRunAfter(e: Table, c: nat, n: nat, s: int) {
    && c < s && FreeRun(e, s, n)
    && forall t: nat | c < t < s :: !FreeRun(e, t, n)
  }

  ghost predicate FirstTaken(e: Table, p: nat) {
    p < |e| && Taken(e[p]) && forall j | 0 <= j < p :: !Taken(e[j])
  }

  /** Where the free blocks that end the table begin, looking back no further than c. */
  ghost function TailStart(e: Table, c: nat, j: nat): (t: nat)
    requires c < j <= |e|
    ensures c < t <= j
    ensures forall k | t <= k < j :: !Taken(e[k])
    ensures t == c + 1 || Taken(e[t - 1])
  {
    if j > c + 1 && !Taken(e[j - 1]) then TailStart(e, c, j - 1) else j
  }

  /** The cells between the table's end and the first taken block fall short of n by enough
      for the search to restart after that block and succeed there. */
  ghost predicate Recovers(e: Table, c: nat, n: nat, p: nat)
    requires c < |e|
  {
    FirstTaken(e, p) && p + (|e| - TailStart(e, c, |e|)) < n && RunAfter(e, p, n)
  }

  /** When a search for n > 0 blocks from cursor c ends, inside the table, with an answer that
      can be used. A cursor on the last block is out: the search would start past the table. */
  ghost predicate SafeScan(e: Table, c: nat, n: nat) {
    && c + 1 < |e|
    && (|| RunAfter(e, c, n)
        || Taken(e[|e| - 1])
        || exists p: nat :: Recovers(e, c, n, p))
  }

  // ---------- iterating ----------

  lemma {:induction false} AfterAdd(e: Table, n: nat, st: Scan, j: nat, k: nat)
    requires st.i < |e|
    ensures After(e, n, st, j + k) == After(e, n, After(e, n, st, j), k)
    decreases j
  {
    if j > 0 && !Done(st) {
      AfterAdd(e, n, Step(e, n, st), j - 1, k);
    }
  }

  /** Once the loop has ended it has ended: any two ended states are the same. */
  lemma DoneOnce(e: Table, n: nat, st: Scan, j: nat, k: nat)
    requires st.i < |e| && Done(After(e, n, st, j))
    ensures j <= k ==> After(e, n, st, k) == After(e, n, st, j)
    ensures Done(After(e, n, st, k)) ==> After(e, n, st, k) == After(e, n, st, j)
  {
    AfterAdd(e, n, st, j, k);
    AfterAdd(e, n, st, k, j);
    if j <= k {
      AfterAdd(e, n, st, j, k - j);
    }
  }

  lemma {:induction false} NeverDone(e: Table, n: nat, st: Scan, period: nat, k: nat)
    requires st.i < |e| && !Done(st)
    requires period > 0 && After(e, n, st, period) == st
    ensures !Done(After(e, n, st, k))
    decreases k
  {
    if k >= period {
      AfterAdd(e, n, st, period, k - period);
      NeverDone(e, n, st, period, k - period);
    } else if Done(After(e, n, st, k)) {
      DoneOnce(e, n, st, k, period);
    }
  }

  // ---------- one pass to the end of the table ----------

  /** Scanning forward from `base`, which the search has no interest in: the current run is
      the last n - remaining blocks before i, and no run fits before it. */
  ghost predicate InPass(e: Table, n: nat, base: nat, st: Scan) {
    && st.remaining <= n
    && base + (n - st.remaining) < st.i < |e|
    && var from := st.i - (n - st.remaining);
    && (forall j | from <= j < st.i :: !Taken(e[j]))
    && (from == base + 1 || Taken(e[from - 1]))
    && (forall s: nat | base < s < from :: !FreeRun(e, s, n))
    && st.found == (if from == st.i then -1 else from)
    && st.last < st.i && (from < st.i ==> st.last == st.i - 1)
  }

  /** What one pass comes to: the first run, or the table's end with what is left over. */
  ghost predicate PassResult(e: Table, n: nat, base: nat, out: Scan)
    requires base < |e|
  {
    var tail := TailStart(e, base, |e|);
    if RunAfter(e, base, n) then
      out.remaining == 0 && FirstRunAfter(e, base, n, out.found) && out.last == out.found + n - 1
    else if Taken(e[|e| - 1]) then
      out == Scan(0, -1, n, 0)
    else
      |e| - tail < n && out == Scan(0, tail, n - (|e| - tail), |e| - 1)
  }

  lemma {:induction false} Pass(e: Table, n: nat, base: nat, st: Scan) returns (k: nat)
    requires InPass(e, n, base, st) && st.remaining > 0
    ensures k > 0 && PassResult(e, n, base, After(e, n, st, k))
    decreases |e| - st.i
  {
    hide Taken, TailStart;
    var next := Step(e, n, st);
    var from := st.i - (n - st.remaining);
    if Taken(e[st.i]) {
      NoRunOver(e, n, base, from, st.i);
    }
    if next.remaining == 0 {
      assert FreeRun(e, from, n);
      k := 1;
    } else if st.i + 1 < |e| {
      k := Pass(e, n, base, next);
      k := k + 1;
    } else {
      NoRunOver(e, n, base, if Taken(e[st.i]) then st.i + 1 else from, |e|);
      TailIs(e, base, if Taken(e[st.i]) then st.i + 1 else from, |e|);
      assert !RunAfter(e, base, n);
      k := 1;
    }
  }

  /** A taken block, or the table's end, at `stop` rules out the runs that would reach it. */
  lemma NoRunOver(e: Table, n: nat, base: nat, from: nat, stop: nat)
    requires stop <= |e| && (stop < |e| ==> Taken(e[stop]))
    requires from <= stop < from + n
    requires forall s: nat | base < s < from :: !FreeRun(e, s, n)
    ensures forall s: nat | base < s <= stop :: !FreeRun(e, s, n)
    ensures stop == |e| ==> !RunAfter(e, base, n)
  {}

  lemma {:induction false} TailIs(e: Table, c: nat, t: nat, j: nat)
    requires c < t <= j <= |e|
    requires forall k | t <= k < j :: !Taken(e[k])
    requires t == c + 1 || Taken(e[t - 1])
    ensures TailStart(e, c, j) == t
  {
    if t < j {
      TailIs(e, c, t, j - 1);
    }
  }

  // ---------- past the end of the table ----------

  /** With nothing taken on the way, the leftover run is completed at the table's start. */
  lemma {:induction false} WrapFree(e: Table, n: nat, st: Scan)
    requires |e| >= 2 && st.i < |e| && st.last != st.i && st.found >= 0
    requires || (forall j | 0 <= j < |e| :: !Taken(e[j]))
             || (st.i + st.remaining <= |e| && forall j | st.i <= j < st.i + st.remaining :: !Taken(e[j]))
    ensures After(e, n, st, st.remaining).remaining == 0
    ensures After(e, n, st, st.remaining).found == st.found
    decreases st.remaining
  {
    if st.remaining == 1 {
      assert After(e, n, Step(e, n, st), 0) == Step(e, n, st);
    } else if st.remaining > 1 {
      WrapFree(e, n, Step(e, n, st));
    }
  }

  /** With block p taken on the way, the search starts afresh after block p. */
  lemma {:induction false} WrapBlocked(e: Table, n: nat, st: Scan, p: nat)
    requires st.i <= p && p + 1 < |e| && st.last != st.i && st.found >= 0
    requires st.remaining > p - st.i
    requires Taken(e[p]) && forall j | st.i <= j < p :: !Taken(e[j])
    ensures After(e, n, st, p + 1 - st.i) == Scan(p + 1, -1, n, 0)
    decreases p - st.i
  {
    if st.i < p {
      WrapBlocked(e, n, Step(e, n, st), p);
    } else {
      assert After(e, n, Step(e, n, st), 0) == Step(e, n, st);
    }
  }

  // ---------- the whole search ----------

  /** How a safe search ends: the first run after the cursor; or, when there is none and the
      last block is taken, failure with the cursor at 0; or else the first run after the
      first taken block. */
  ghost predicate SafeResult(e: Table, c: nat, n: nat, out: Scan)
    requires c < |e|
  {
    && Done(out)
    && if RunAfter(e, c, n) then
         out.remaining == 0 && FirstRunAfter(e, c, n, out.found) && out.last == out.found + n - 1
       else if Taken(e[|e| - 1]) then
         out.remaining > 0 && out.last == 0
       else
         out.remaining == 0 && out.last == out.found + n - 1
         && exists p: nat :: FirstTaken(e, p) && FirstRunAfter(e, p, n, out.found)
  }

  lemma StartInPass(e: Table, n: nat, c: nat)
    requires c + 1 < |e|
    ensures InPass(e, n, c, Start(c, n))
  {}

  lemma AgainInPass(e: Table, n: nat, p: nat)
    requires p + 1 < |e|
    ensures InPass(e, n, p, Scan(p + 1, -1, n, 0))
  {}

  lemma SafeOutcome(e: Table, c: nat, n: nat) returns (k: nat)
    requires n > 0 && SafeScan(e, c, n)
    ensures SafeResult(e, c, n, After(e, n, Start(c, n), k))
    ensures Sound(e, n, After(e, n, Start(c, n), k))
  {
    hide Taken, TailStart, Step, FreeRun;
    var st := Start(c, n);
    StartInPass(e, n, c);
    k := Pass(e, n, c, st);
    if !RunAfter(e, c, n) && !Taken(e[|e| - 1]) {
      var p: nat :| Recovers(e, c, n, p);
      var out := After(e, n, st, k);
      WrapBlocked(e, n, out, p);
      AfterAdd(e, n, st, k, p + 1);
      var again := Scan(p + 1, -1, n, 0);
      AgainInPass(e, n, p);
      var k' := Pass(e, n, p, again);
      AfterAdd(e, n, st, k + p + 1, k');
      k := k + p + 1 + k';
    }
  }

  /** From a state left over at the table's end: either the leftover run wraps, or the
      search starts afresh after the first taken block. */
  lemma Leftover(e: Table, n: nat, base: nat, out: Scan) returns (k: nat)
    requires base < |e| && |e| >= 2 && PassResult(e, n, base, out)
    requires !RunAfter(e, base, n) && !Taken(e[|e| - 1])
    ensures var end := After(e, n, out, k);
            if exists p: nat :: FirstTaken(e, p) && p < out.remaining
            then exists p: nat :: FirstTaken(e, p) && p < out.remaining && end == Scan(p + 1, -1, n, 0) && k > 0
            else Done(end) && !Sound(e, n, end)
  {
    if p: nat :| FirstTaken(e, p) && p < out.remaining {
      WrapBlocked(e, n, out, p);
      k := p + 1;
    } else {
      forall j | 0 <= j < |e| && j < out.remaining
        ensures !Taken(e[j])
      {
        if Taken(e[j]) {
          var p := SomeFirst(e, j);
        }
      }
      WrapFree(e, n, out);
      k := out.remaining;
    }
  }

  lemma {:induction false} SomeFirst(e: Table, j: nat) returns (p: nat)
    requires j < |e| && Taken(e[j])
    ensures p <= j && FirstTaken(e, p)
  {
    p := j;
    if i: nat :| i < j && Taken(e[i]) {
      p := SomeFirst(e, i);
    }
  }

  /** The search from st, which looks at block st.i first, stays in the table and ends within
      k iterations with an answer that can be used. */
  ghost predicate EndsWell(e: Table, n: nat, st: Scan, k: nat) {
    st.i < |e| && Done(After(e, n, st, k)) && Sound(e, n, After(e, n, st, k))
  }

  lemma EndsWellLater(e: Table, n: nat, st: Scan, j: nat, k: nat)
    requires st.i < |e| && EndsWell(e, n, st, k)
    ensures EndsWell(e, n, After(e, n, st, j), if j <= k then k - j else 0)
  {
    if j <= k {
      AfterAdd(e, n, st, j, k - j);
    } else {
      DoneOnce(e, n, st, k, j);
    }
  }

  /** Starting afresh after the first taken block p does not help when no run lies there. */
  lemma NoSecondChance(e: Table, n: nat, p: nat, k: nat)
    requires FirstTaken(e, p) && p + 1 < |e| && n > 0
    requires !RunAfter(e, p, n) && !Taken(e[|e| - 1])
    ensures !EndsWell(e, n, Scan(p + 1, -1, n, 0), k)
  {
    var again := Scan(p + 1, -1, n, 0);
    var k1 := Pass(e, n, p, again);
    var out := After(e, n, again, k1);
    var k2 := Leftover(e, n, p, out);
    AfterAdd(e, n, again, k1, k2);
    if p < out.remaining {
      NeverDone(e, n, again, k1 + k2, k);
    } else if EndsWell(e, n, again, k) {
      DoneOnce(e, n, again, k1 + k2, k);
    }
  }

  lemma UnsafeOutcome(e: Table, c: nat, n: nat, k: nat)
    requires c < |e| && n > 0 && !SafeScan(e, c, n)
    ensures !EndsWell(e, n, Start(c, n), k)
  {
    var st := Start(c, n);
    if c + 1 == |e| {
      return;
    }
    var k1 := Pass(e, n, c, st);
    var out := After(e, n, st, k1);
    var k2 := Leftover(e, n, c, out);
    AfterAdd(e, n, st, k1, k2);
    if EndsWell(e, n, st, k) {
      if p: nat :| FirstTaken(e, p) && p < out.remaining {
        assert !Recovers(e, c, n, p);
        EndsWellLater(e, n, st, k1 + k2, k);
        NoSecondChance(e, n, p, if k1 + k2 <= k then k - (k1 + k2) else 0);
      } else {
        DoneOnce(e, n, st, k1 + k2, k);
      }
    }
  }

  /** The search ends with an answer that can be used exactly when SafeScan holds: otherwise
      it reads past the table, runs for ever, or gives a run that goes past the table's end. */
  lemma SearchIsSafe(e: Table, c: nat, n: nat)
    requires c < |e| && n > 0
    ensures (exists k: nat :: EndsWell(e, n, Start(c, n), k)) <==> SafeScan(e, c, n)
  {
    if SafeScan(e, c, n) {
      var k := SafeOutcome(e, c, n);
      assert EndsWell(e, n, Start(c, n), k);
    } else {
      forall k: nat
        ensures !EndsWell(e, n, Start(c, n), k)
      {
        UnsafeOutcome(e, c, n, k);
      }
    }
  }

  /** A search that wraps: blocks 2 and 0 are joined into a "run" of a three-block table. */
  lemma WrappedRun()
    ensures var e: Table := [0, TAKEN | IS_FIRST, 0];
            After(e, 2, Start(1, 2), 2) == Scan(1, 2, 0, 0) && !SafeScan(e, 1, 2)
  {
    var e: Table := [0, TAKEN | IS_FIRST, 0];
    var st := Start(1, 2);
    var s1 := Step(e, 2, st);
    var s2 := Step(e, 2, s1);
    assert After(e, 2, s2, 0) == s2;
    assert After(e, 2, s1, 1) == s2;
    assert After(e, 2, st, 2) == s2;
    assert !Sound(e, 2, s2);
    if SafeScan(e, 1, 2) {
      var k := SafeOutcome(e, 1, 2);
      DoneOnce(e, 2, st, 2, k);
    }
  }

  /** A search that never ends: the first block is taken, the last is free, nothing fits. */
  lemma EndlessSearch(k: nat)
    ensures var e: Table := [TAKEN | IS_FIRST, 0];
            !Done(After(e, 2, Start(0, 2), k))
  {
    var e: Table := [TAKEN | IS_FIRST, 0];
    var st := Start(0, 2);
    var s1 := Step(e, 2, st);
    var s2 := Step(e, 2, s1);
    assert After(e, 2, s2, 0) == s2;
    assert After(e, 2, s1, 1) == s2;
    assert After(e, 2, st, 2) == s2;
    assert s2 == st;
    NeverDone(e, 2, st, 2, k);
  }
}
