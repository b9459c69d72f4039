/**
 The task ring and the round-robin scheduler: src/kernel/task/task.c, driven by the timer
 interrupt handler of src/idt/idt.c.

 The first half says on values what ticks and insertions do and proves laws of every run.
 The second half is the ring of task control blocks, each method of which is proved to
 perform one step of the first half.
 */
module Scheduler {
  import opened Rings
  import opened Status

  // ==================== runs of the scheduler ====================

  /** What can happen: a timer interrupt that pushed its frame at address `frame`, or a new
      task whose initial frame is at address `frame`. */
  datatype Event<T> = Tick(frame: nat) | Insert(task: T, frame: nat)

  /** The ring read forwards from the running task, and the frame each task resumes with. */
  datatype State<T(==)> = State(ring: seq<T>, saved: map<T, nat>)

  ghost predicate Ok<T>(st: State<T>) {
    && st.ring != []
    && Distinct(st.ring)
    && (forall i | 0 <= i < |st.ring| :: st.ring[i] in st.saved)
  }

  /** Only tasks outside the ring are inserted. */
  ghost predicate Allowed<T>(st: State<T>, e: Event<T>) {
    e.Insert? ==> e.task !in st.ring
  }

  ghost function Step<T>(st: State<T>, e: Event<T>): State<T>
    requires st.ring != []
  {
    match e
    case Tick(frame) => State(Rotated(st.ring, 1), st.saved[st.ring[0] := frame])
    case Insert(task, frame) => State(With(st.ring, 1, task), st.saved[task := frame])
  }

  ghost predicate RunAllowed<T>(st: State<T>, es: seq<Event<T>>)
    requires st.ring != []
    decreases |es|
  {
    es == [] || (Allowed(st, es[0]) && RunAllowed(Step(st, es[0]), es[1..]))
  }

  ghost function Run<T>(st: State<T>, es: seq<Event<T>>): (r: State<T>)
    requires st.ring != []
    ensures r.ring != []
    decreases |es|
  {
    if es == [] then st else Run(Step(st, es[0]), es[1..])
  }

  ghost function Ticks<T>(es: seq<Event<T>>): nat {
    if es == [] then 0 else (if es[0].Tick? then 1 else 0) + Ticks(es[1..])
  }

  ghost function Inserts<T>(es: seq<Event<T>>): nat {
    if es == [] then 0 else (if es[0].Insert? then 1 else 0) + Inserts(es[1..])
  }

  lemma StepKeepsOk<T>(st: State<T>, e: Event<T>)
    requires Ok(st) && Allowed(st, e)
    ensures Ok(Step(st, e))
    ensures forall t :: t in Step(st, e).ring <==> t in st.ring || (e.Insert? && t == e.task)
  {
    var r := Step(st, e).ring;
    if e.Tick? {
      assert forall i | 0 <= i < |st.ring| :: st.ring[i] == r[if i == 0 then |r| - 1 else i - 1];
    } else {
      assert forall i | 0 <= i < |st.ring| :: st.ring[i] == r[if i == 0 then 0 else i + 1];
      assert r[1] == e.task;
    }
  }

  /** In every run the ring stays well formed, loses nobody, and gains exactly the inserted
      tasks. */
  lemma {:induction false} RunKeepsOk<T>(st: State<T>, es: seq<Event<T>>)
    requires Ok(st) && RunAllowed(st, es)
    ensures Ok(Run(st, es))
    ensures |Run(st, es).ring| == |st.ring| + Inserts(es)
    ensures forall t :: t in Run(st, es).ring <==> t in st.ring || Inserted(es, t)
    decreases |es|
  {
    if es != [] {
      StepKeepsOk(st, es[0]);
      RunKeepsOk(Step(st, es[0]), es[1..]);
      assert es == [es[0]] + es[1..];
    }
  }

  ghost predicate Inserted<T>(es: seq<Event<T>>, t: T) {
    exists i :: 0 <= i < |es| && es[i].Insert? && es[i].task == t
  }

  // ---------- who runs when ----------

  /** Steps forward along the ring to reach the task at position k next; a full turn for
      the running task itself. */
  ghost function Distance<T>(ring: seq<T>, k: nat): nat
    requires k < |ring|
  {
    if k == 0 then |ring| else k
  }

  /** How many events it takes until a tick dispatches t for the first time. */
  ghost function FirstDispatch<T>(st: State<T>, t: T, es: seq<Event<T>>): Option<nat>
    requires st.ring != []
    decreases |es|
  {
    if es == [] then None
    else
      var next := Step(st, es[0]);
      if es[0].Tick? && next.ring[0] == t then Some(1)
      else match FirstDispatch(next, t, es[1..])
           case None => None
           case Some(m) => Some(m + 1)
  }

  /** t is not due within the first m events. */
  ghost predicate NotDue<T>(d: nat, es: seq<Event<T>>, m: nat)
    requires m <= |es|
  {
    Ticks(es[..m]) < d + Inserts(es[..m])
  }

  lemma PrefixCounts<T>(es: seq<Event<T>>, m: nat)
    requires es != [] && m < |es|
    ensures Ticks(es[..m + 1]) == (if es[0].Tick? then 1 else 0) + Ticks(es[1..][..m])
    ensures Inserts(es[..m + 1]) == (if es[0].Insert? then 1 else 0) + Inserts(es[1..][..m])
  {
    assert es[..m + 1][1..] == es[1..][..m];
  }

  /** A task at forward distance d is dispatched at exactly tick d + k, where k counts the
      insertions before it; and it is not dispatched for as long as that tick has not come. */
  lemma {:induction false} DispatchLaw<T>(st: State<T>, k: nat, es: seq<Event<T>>)
    requires Ok(st) && RunAllowed(st, es) && k < |st.ring|
    ensures
      var d, r := Distance(st.ring, k), FirstDispatch(st, st.ring[k], es);
      && (r.None? ==> forall m | 0 <= m <= |es| :: NotDue(d, es, m))
      && (r.Some? ==>
            && r.value <= |es|
            && Ticks(es[..r.value]) == d + Inserts(es[..r.value])
            && forall m | 0 <= m < r.value :: NotDue(d, es, m))
    decreases |es|
  {
    var t, d, r := st.ring[k], Distance(st.ring, k), FirstDispatch(st, st.ring[k], es);
    assert es[..0] == [];
    if es != [] {
      var next := Step(st, es[0]);
      StepKeepsOk(st, es[0]);
      var j := if es[0].Insert? then (if k == 0 then 0 else k + 1) else (if k == 0 then |st.ring| - 1 else k - 1);
      assert next.ring[j] == t;
      assert es[0].Tick? ==> (j == 0 <==> next.ring[0] == t);
      assert es[..1] == [es[0]] && Ticks(es[..1]) + Inserts(es[..1]) == 1;
      if !(es[0].Tick? && j == 0) {
        var d' := Distance(next.ring, j);
        DispatchLaw(next, j, es[1..]);
        NotDueLater(es, d, d', if r.Some? then r.value else |es| + 1);
      }
    }
  }

  /** The first event brings a tick nearer by one, or puts it off by one. */
  lemma NotDueLater<T>(es: seq<Event<T>>, d: nat, d': nat, bound: nat)
    requires es != [] && 0 < bound <= |es| + 1 && d > 0
    requires d' - d == (if es[0].Insert? then 1 else 0) - (if es[0].Tick? then 1 else 0)
    requires forall m | 0 <= m < bound - 1 :: NotDue(d', es[1..], m)
    ensures forall m | 0 <= m < bound :: NotDue(d, es, m)
    ensures bound <= |es| ==>
              Ticks(es[..bound]) - Inserts(es[..bound]) - d == Ticks(es[1..][..bound - 1]) - Inserts(es[1..][..bound - 1]) - d'
  {
    if bound <= |es| {
      PrefixCounts(es, bound - 1);
    }
    forall m | 0 <= m < bound
      ensures NotDue(d, es, m)
    {
      if m > 0 {
        PrefixCounts(es, m - 1);
        assert NotDue(d', es[1..], m - 1);
      }
    }
  }

  /** The tasks dispatched by the ticks of a run, in order. */
  ghost function Dispatched<T>(st: State<T>, es: seq<Event<T>>): seq<T>
    requires st.ring != []
    decreases |es|
  {
    if es == [] then []
    else (if es[0].Tick? then [Step(st, es[0]).ring[0]] else []) + Dispatched(Step(st, es[0]), es[1..])
  }

  lemma {:induction false} TicksRotate<T>(st: State<T>, es: seq<Event<T>>)
    requires st.ring != [] && |es| <= |st.ring|
    requires forall i | 0 <= i < |es| :: es[i].Tick?
    ensures Run(st, es).ring == Rotated(st.ring, |es|)
    ensures Dispatched(st, es) == Rotated(st.ring, 1)[..|es|]
    decreases |es|
  {
    if es != [] {
      var pre, last := es[..|es| - 1], es[|es| - 1];
      TicksRotate(st, pre);
      assert es == pre + [last];
      RunAppend(st, pre, last);
      assert Rotated(Rotated(st.ring, |pre|), 1) == Rotated(st.ring, |es|);
      assert Rotated(st.ring, |es|)[0] == Rotated(st.ring, 1)[|pre|];
    }
  }

  lemma {:induction false} RunAppend<T>(st: State<T>, es: seq<Event<T>>, e: Event<T>)
    requires st.ring != []
    ensures Run(st, es + [e]) == Step(Run(st, es), e)
    ensures Dispatched(st, es + [e]) == Dispatched(st, es) + if e.Tick? then [Step(Run(st, es), e).ring[0]] else []
    ensures RunAllowed(st, es + [e]) <==> RunAllowed(st, es) && Allowed(Run(st, es), e)
    decreases |es|
  {
    if es == [] {
      assert [e][1..] == [];
    } else {
      assert (es + [e])[1..] == es[1..] + [e];
      RunAppend(Step(st, es[0]), es[1..], e);
    }
  }

  /** Without insertions, N ticks dispatch each of the N tasks exactly once, in ring order,
      and bring the ring back to where it was. */
  lemma FullRound<T>(st: State<T>, es: seq<Event<T>>)
    requires Ok(st) && |es| == |st.ring|
    requires forall i | 0 <= i < |es| :: es[i].Tick?
    ensures Run(st, es).ring == st.ring
    ensures Dispatched(st, es) == Rotated(st.ring, 1)
    ensures multiset(Dispatched(st, es)) == multiset(st.ring) && Distinct(Dispatched(st, es))
  {
    hide Run, Dispatched, Rotated;
    TicksRotate(st, es);
    RotatedOnce(st.ring);
  }

  lemma RotatedOnce<A>(s: seq<A>)
    requires s != [] && Distinct(s)
    ensures Rotated(s, |s|) == s && Rotated(s, 1)[..|s|] == Rotated(s, 1)
    ensures multiset(Rotated(s, 1)) == multiset(s) && Distinct(Rotated(s, 1))
  {
    assert s == s[..1] + s[1..];
  }

  // ---------- what a task resumes with ----------

  /** The frame pushed when t was last preempted; its initial frame if it never was. */
  ghost function LastStored<T>(st: State<T>, t: T, es: seq<Event<T>>): nat
    requires st.ring != [] && t in Run(st, es).saved
    decreases |es|
  {
    if es == [] then st.saved[t]
    else
      var pre, last := es[..|es| - 1], es[|es| - 1];
      assert Run(st, es) == Step(Run(st, pre), last) by {
        assert es == pre + [last];
        RunAppend(st, pre, last);
      }
      if last.Tick? && Run(st, pre).ring[0] == t then last.frame
      else if last.Insert? && last.task == t then last.frame
      else LastStored(st, t, pre)
  }

  /** In every run each task, when it resumes, resumes with exactly that frame. */
  lemma {:induction false} ResumeLaw<T>(st: State<T>, t: T, es: seq<Event<T>>)
    requires st.ring != [] && t in Run(st, es).saved
    ensures Run(st, es).saved[t] == LastStored(st, t, es)
    decreases |es|
  {
    if es != [] {
      var pre, last := es[..|es| - 1], es[|es| - 1];
      assert es == pre + [last];
      RunAppend(st, pre, last);
      if t in Run(st, pre).saved {
        ResumeLaw(st, t, pre);
      }
    }
  }

  /** The last event of a run, if it is a timer interrupt, resumes the task it dispatches with
      that frame. */
  ghost predicate Resumes<T>(st: State<T>, es: seq<Event<T>>, frame: Option<nat>)
    requires st.ring != []
  {
    && es != []
    && if es[|es| - 1].Tick? then
         var next := Run(st, es);
         next.ring[0] in next.saved && frame == Some(LastStored(st, next.ring[0], es))
       else frame == None
  }

  lemma ResumesStored<T>(st: State<T>, es: seq<Event<T>>, frame: Option<nat>)
    requires st.ring != [] && es != []
    requires var next := Run(st, es);
             && next.ring[0] in next.saved
             && frame == if es[|es| - 1].Tick? then Some(next.saved[next.ring[0]]) else None
    ensures Resumes(st, es, frame)
  {
    ResumeLaw(st, Run(st, es).ring[0], es);
  }

  // ==================== the ring of task control blocks ====================

  const WORD := 0x1_0000_0000

  /** union task: `kstackTop` is the address just past its kernel stack, `directory` the
      physical address of its process's page directory. */
  class Task {
    var next: Task?
    var previous: Task?
    var kernelStackPointer: nat
    var nSwitches: nat
    const kstackTop: nat
    const directory: nat

    constructor (kstackTop: nat, directory: nat, frame: nat)
      ensures this.kstackTop == kstackTop && this.directory == directory
      ensures kernelStackPointer == frame && nSwitches == 0
    {
      this.kstackTop, this.directory := kstackTop, directory;
      next, previous := null, null;
      kernelStackPointer, nSwitches := frame, 0;
    }
  }

  ghost predicate IsTaskRing(s: seq<Task>)
    reads s`next, s`previous
  {
    && Distinct(s)
    && (forall i {:trigger s[i].next} | 0 <= i < |s| :: s[i].next == At(s, i + 1))
    && (forall i {:trigger s[i].previous} | 0 <= i < |s| :: s[i].previous == At(s, i - 1))
  }

  lemma RingIsDistinct(s: seq<Task>)
    requires IsTaskRing(s)
    ensures Distinct(s)
  {}

  lemma RotatedIsTaskRing(s: seq<Task>)
    requires IsTaskRing(s) && s != []
    ensures IsTaskRing(Rotated(s, 1)) && s[0].next == Rotated(s, 1)[0]
    ensures Rotated(s, 1)[0] == s[0] <==> |s| == 1
  {
    var r := Rotated(s, 1);
    forall i | 0 <= i < |r|
      ensures r[i].next == At(r, i + 1) && r[i].previous == At(r, i - 1)
    {
      assert r[i] == At(s, i + 1);
    }
  }

  /** The ring has gained a task and every other saved frame is as in st. */
  lemma InsertedModel(cpu: Cpu, st: State<Task>, task: Task)
    requires st.ring != [] && task !in st.ring && cpu.ring == With(st.ring, 1, task)
    requires st.saved == map t | t in st.ring :: t.kernelStackPointer
    ensures cpu.Model() == Step(st, Event.Insert(task, task.kernelStackPointer))
  {
    var r := cpu.ring;
    assert forall i | 0 <= i < |st.ring| :: st.ring[i] == r[if i == 0 then 0 else i + 1];
    assert r[1] == task;
    assert forall t :: t in r <==> t in st.ring || t == task;
  }

  /** The ring has turned by one and the task that ran has stored its frame. */
  lemma TurnedModel(cpu: Cpu, st: State<Task>, frame: nat)
    requires st.ring != [] && cpu.ring == Rotated(st.ring, 1) && st.saved.Keys == set t | t in st.ring
    requires forall t | t in st.ring :: t.kernelStackPointer == if t == st.ring[0] then frame else st.saved[t]
    ensures cpu.Model() == Step(st, Tick(frame))
  {
    var r := cpu.ring;
    assert forall i | 0 <= i < |st.ring| :: st.ring[i] == r[if i == 0 then |r| - 1 else i - 1];
    assert forall t :: t in r <==> t in st.ring;
  }

  lemma ModelIsOk(cpu: Cpu)
    requires cpu.Valid()
    ensures Ok(cpu.Model()) && cpu.Model().ring == cpu.ring
  {}

  /** What a processor in order is: the ring is circular both ways and starts at the running
      task, for which the processor is set up. */
  lemma ValidIs(cpu: Cpu)
    requires cpu.ring != []
    ensures cpu.Valid() <==>
              && cpu.currentTask == cpu.ring[0]
              && cpu.esp0 == cpu.ring[0].kstackTop && cpu.cr3 == cpu.ring[0].directory
              && (forall i, j | 0 <= i < j < |cpu.ring| :: cpu.ring[i] != cpu.ring[j])
              && (forall i | 0 <= i < |cpu.ring| - 1 ::
                    cpu.ring[i].next == cpu.ring[i + 1] && cpu.ring[i + 1].previous == cpu.ring[i])
              && cpu.ring[|cpu.ring| - 1].next == cpu.ring[0] && cpu.ring[0].previous == cpu.ring[|cpu.ring| - 1]
  {}

  lemma RunNothing<T>(st: State<T>)
    requires st.ring != []
    ensures Run(st, []) == st
  {}

  /** current_task, tss.esp0 and CR3. */
  class Cpu {
    var currentTask: Task?
    var esp0: nat
    var cr3: nat
    ghost var ring: seq<Task>

    /** The ring starts at the running task, and the processor is set up for that task. */
    ghost predicate Valid()
      reads this, ring
    {
      && ring != [] && currentTask == ring[0]
      && IsTaskRing(ring)
      && esp0 == ring[0].kstackTop
      && cr3 == ring[0].directory
    }

    ghost function Model(): State<Task>
      reads this, ring
    {
      State(ring, map t | t in ring :: t.kernelStackPointer)
    }

    /** init_system_process: by then esp0 is the end of the system task's stack (tss_init)
        and CR3 holds the kernel directory (paging_init). */
    constructor (systemTask: Task)
      modifies systemTask
      ensures Valid() && ring == [systemTask]
      ensures systemTask.kernelStackPointer == old(systemTask.kernelStackPointer)
    {
      currentTask := systemTask;
      esp0 := systemTask.kstackTop;
      cr3 := systemTask.directory;
      ring := [systemTask];
      new;
      systemTask.next := systemTask;
      systemTask.previous := systemTask;
    }

    /** The link assignments of task_list_insert. */
    method LinkTask(task: Task)
      requires Valid() && task !in ring
      modifies ring, task
      ensures IsTaskRing(With(ring, 1, task))
      ensures forall t | t in ring || t == task ::
                t.kernelStackPointer == old(t.kernelStackPointer) && t.nSwitches == old(t.nSwitches)
    {
      task.previous := currentTask;
      task.next := currentTask.next;
      currentTask.next := task;
      task.next.previous := task;
    }

    /** task_list_insert: the new task comes right after the running one. */
    method Insert(task: Task)
      requires Valid() && task !in ring
      modifies this`ring, ring, task
      ensures Valid()
      ensures Model() == Step(old(Model()), Event.Insert(task, task.kernelStackPointer))
      ensures ring == [old(ring)[0], task] + old(ring)[1..]
      ensures forall t | t in ring :: t.kernelStackPointer == old(t.kernelStackPointer)
      ensures task.kernelStackPointer == old(task.kernelStackPointer)
      ensures forall t | t in ring :: t.nSwitches == old(t.nSwitches)
    {
      hide IsTaskRing;
      ghost var st := Model();
      LinkTask(task);
      ring := With(ring, 1, task);
      InsertedModel(this, st, task);
    }

    /** The link assignments of task_list_remove. */
    method UnlinkTask(task: Task, ghost k: nat)
      requires Valid() && k < |ring| && ring[k] == task
      modifies ring`next, ring`previous
      ensures task.next == null && task.previous == null
      ensures IsTaskRing(Without(ring, k))
    {
      hide At, Without, Distinct;
      ghost var s := ring;
      AtIn(s, k + 1);
      AtIn(s, k - 1);
      task.previous.next := task.next;
      task.next.previous := task.previous;
      task.next := null;
      task.previous := null;
      ghost var rest := Without(s, k);
      WithoutDistinct(s, k);
      forall i | 0 <= i < |rest|
        ensures rest[i].next == At(rest, i + 1) && rest[i].previous == At(rest, i - 1)
      {
        var j := if i < k then i else i + 1;
        WithoutAt(s, k, i);
        Neighbours(s, k, j);
        Neighbours(s, j, k);
        assert old(s[j].next) == At(s, j + 1) && old(s[j].previous) == At(s, j - 1);
        assert old(s[k].next) == At(s, k + 1) && old(s[k].previous) == At(s, k - 1);
      }
    }

    /** task_list_remove. The rest of the ring stays a ring; the processor state stays in
        order exactly when it was not the running task that was removed. */
    method Remove(task: Task, ghost k: nat)
      requires Valid() && k < |ring| && ring[k] == task
      modifies this`ring, ring`next, ring`previous
      ensures task.next == null && task.previous == null
      ensures ring == Without(old(ring), k) && IsTaskRing(ring)
      ensures Valid() <==> k != 0
    {
      hide IsTaskRing;
      RingIsDistinct(ring);
      UnlinkTask(task, k);
      ring := Without(ring, k);
    }

    /** task_store. */
    method Store(task: Task, frame: nat)
      requires currentTask != null
      modifies task`kernelStackPointer
      ensures task.kernelStackPointer == frame
    {
      task.kernelStackPointer := frame;
    }

    /** schedule. */
    method Schedule(frame: nat) returns (sp: nat)
      requires currentTask == null || Valid()
      modifies this, ring
      ensures currentTask == null <==> old(currentTask) == null
      ensures currentTask == null ==> sp == frame
      ensures currentTask != null ==> Valid()
      ensures currentTask != null ==> Model() == Step(old(Model()), Tick(frame))
      ensures currentTask != null ==>
                && ring == old(ring)[1..] + [old(ring)[0]]
                && (forall t | t in old(ring) ::
                      t.kernelStackPointer == if t == old(currentTask) then frame else old(t.kernelStackPointer))
                && esp0 == currentTask.kstackTop && cr3 == currentTask.directory
      ensures currentTask != null ==> sp == currentTask.kernelStackPointer
      ensures currentTask != null ==> forall t | t in old(ring) ::
                t.nSwitches == if t == old(currentTask) && |ring| > 1 then (old(t.nSwitches) + 1) % 0x1_0000_0000 else old(t.nSwitches)
    {
      hide IsTaskRing;
      if currentTask == null {
        return frame;
      }
      ghost var st := Model();
      RotatedIsTaskRing(ring);
      Store(currentTask, frame);
      var next := currentTask.next;
      if next == currentTask {
        assert Rotated(ring, 1) == ring;
        TurnedModel(this, st, frame);
        return frame;
      }
      currentTask.nSwitches := (currentTask.nSwitches + 1) % WORD;
      currentTask := next;
      ring := Rotated(ring, 1);
      esp0 := next.kstackTop;
      cr3 := next.directory;
      TurnedModel(this, st, frame);
      return currentTask.kernelStackPointer;
    }

    /** int_0x20_handler: the timer interrupt. The frame it resumes is the one last stored
        for the task it dispatches. */
    method TimerInterrupt(frame: nat) returns (sp: nat)
      requires Valid()
      modifies this, ring
      ensures Valid()
      ensures Model() == Step(old(Model()), Tick(frame))
      ensures ring[0] in Model().saved && sp == Model().saved[ring[0]]
      ensures ring == old(ring)[1..] + [old(ring)[0]] && currentTask == ring[0]
      ensures sp == if old(|ring|) == 1 then frame else old(ring[1].kernelStackPointer)
      ensures esp0 == currentTask.kstackTop && cr3 == currentTask.directory
      ensures forall t | t in old(ring) ::
                t.kernelStackPointer == if t == old(currentTask) then frame else old(t.kernelStackPointer)
    {
      var _ := Schedule(frame);
      return currentTask.kernelStackPointer;
    }

    /** A timer interrupt, with the frame it resumes, or the insertion of a new task. */
    method Handle(e: Event<Task>) returns (frame: Option<nat>)
      requires Valid() && (e.Insert? ==> e.task !in ring && e.frame == e.task.kernelStackPointer)
      modifies this, ring, if e.Insert? then {e.task} else {}
      ensures Valid()
      ensures Model() == Step(old(Model()), e)
      ensures forall t :: t in ring <==> t in old(ring) || (e.Insert? && t == e.task)
      ensures ring[0] in Model().saved && frame == if e.Tick? then Some(Model().saved[ring[0]]) else None
    {
      hide IsTaskRing, Step, Ok, Distinct, With, Rotated;
      ghost var st := Model();
      ModelIsOk(this);
      match e {
        case Tick(pushed) =>
          var sp := TimerInterrupt(pushed);
          frame := Some(sp);
        case Insert(task, _) =>
          Insert(task);
          frame := None;
      }
      StepKeepsOk(st, e);
    }

    /** Any run of timer interrupts and insertions of new tasks is a run of the first half,
        and each interrupt resumes a task with its frame last stored in the run so far. */
    method RunEvents(es: seq<Event<Task>>, ghost tasks: set<Task>) returns (frames: seq<Option<nat>>)
      requires Valid() && forall t | t in ring :: t in tasks
      requires forall j | 0 <= j < |es| && es[j].Insert? ::
                 es[j].task in tasks && es[j].task !in ring && es[j].frame == es[j].task.kernelStackPointer
      requires forall i, j | 0 <= i < j < |es| && es[i].Insert? && es[j].Insert? :: es[i].task != es[j].task
      modifies this, tasks
      ensures Valid()
      ensures Model() == Run(old(Model()), es)
      ensures forall t | t in old(ring) :: t in ring
      ensures |frames| == |es|
      ensures forall i | 0 <= i < |es| :: Resumes(old(Model()), es[..i + 1], frames[i])
    {
      hide Valid, Model, Step, Run, IsTaskRing, Resumes;
      frames := [];
      ghost var st := Model();
      ModelIsOk(this);
      RunNothing(st);
      assert es[..0] == [];
      for i := 0 to |es|
        invariant Valid() && Model() == Run(st, es[..i])
        invariant forall t | t in ring :: t in tasks
        invariant forall t | t in old(ring) :: t in ring
        invariant forall j | i <= j < |es| && es[j].Insert? ::
                    es[j].task !in ring && es[j].frame == es[j].task.kernelStackPointer
        invariant |frames| == i && forall j | 0 <= j < i :: Resumes(st, es[..j + 1], frames[j])
      {
        RunAppend(st, es[..i], es[i]);
        assert es[..i + 1] == es[..i] + [es[i]];
        var frame := Handle(es[i]);
        frames := frames + [frame];
        ModelIsOk(this);
        ResumesStored(st, es[..i + 1], frame);
      }
      assert es[..|es|] == es;
    }

    /** print_tasks: the walk visits every task of the ring once. */
    method WalkTasks() returns (visited: seq<Task>)
      requires Valid()
      ensures visited == ring
    {
      visited := [];
      var ptr := currentTask;
      while true
        invariant |visited| < |ring| && visited == ring[..|visited|] && ptr == ring[|visited|]
        decreases |ring| - |visited|
      {
        visited := visited + [ptr];
        ptr := ptr.next;
        if ptr == currentTask {
          break;
        }
      }
    }
  }
}
