/** The table and the machine with preemption off: tasks give up the processor by themselves. */
module Cooperative {
  import opened Contexts

  /** A task that has not run: a cooperative save on its stack, and its synthetic frame. */
  function NewTask(id: nat): Task {
    Task(Stack(id, 0), IrqFrame(id), IrqFrame(id), true, true)
  }

  const MAIN_TASK: Task := Task(Null, Null, Null, false, true)

  /** make_initial_esp and make_resume_irq_esp: the trampoline saved on the new stack, and a
      frame that lands there. */
  function Prepared(c: Machine, id: nat): (r: Machine) {
    c.(memory := c.memory[Stack(id, 0) := Coop(c.unused)][IrqFrame(id) := Synthetic(Stack(id, 0))],
       saved := c.saved + [c.unused], unused := c.unused + 1)
  }

  /** The code that has run since boot becomes actor id. */
  function Adopted(c: Machine, id: nat): (r: Machine) {
    c.(running := id, saved := c.saved + [c.unused], unused := c.unused + 1)
  }

  /** A cooperative save of actor i lies at a, the last one, not gone on from. */
  ghost predicate Parked(c: Machine, i: nat, a: Address) {
    && i < |c.saved| && a.Stack? && a.owner == i && a in c.memory && c.memory[a] == Coop(c.saved[i])
    && c.saved[i] < c.unused && c.saved[i] !in c.resumed
  }

  /** Slot i is main's, without frames, or a task's, whose interrupt frame is its synthetic one. */
  ghost predicate SlotOk(main: int, i: nat, t: Task, mem: map<Address, Saved>) {
    t.active &&
    if i == main then !t.entry && t.irqEsp == t.resumeIrqEsp == Null
    else t.entry && t.irqEsp == t.resumeIrqEsp == IrqFrame(i) && IrqFrame(i) in mem && mem[IrqFrame(i)].Synthetic?
  }

  /** Actor i is parked at its saved stack pointer, and a task's synthetic frame leads there. */
  ghost predicate RestsAt(c: Machine, main: int, i: nat, t: Task) {
    Parked(c, i, t.esp) && (i != main ==> IrqFrame(i) in c.memory && c.memory[IrqFrame(i)] == Synthetic(t.esp))
  }

  /** Everybody but the running actor is parked. Before main is registered, the code that
      runs since boot is no actor of the table. */
  ghost predicate CoopOf(t: seq<Task>, main: int, c: Machine) {
    && |t| <= MAX_TASKS && |c.saved| == |t| && -1 <= main < |t| && c.landing == Null
    && (if main >= 0 then c.running < |t| else c.running == MAX_TASKS)
    && (forall i :: 0 <= i < |t| ==> SlotOk(main, i, t[i], c.memory))
    && (forall i :: 0 <= i < |t| && i != c.running ==> RestsAt(c, main, i, t[i]))
    && (forall i, j :: 0 <= i < j < |t| && i != c.running && j != c.running ==> c.saved[i] != c.saved[j])
    && (forall k :: k in c.resumed ==> k < c.unused) && Distinct(c.resumed)
  }

  lemma OtherRests(c: Machine, c': Machine, main: int, i: nat, t: Task)
    requires RestsAt(c, main, i, t) && |c'.saved| == |c.saved| && c'.saved[i] == c.saved[i] && c.unused <= c'.unused
    requires forall a :: a in c.memory && Owner(a) == i ==> a in c'.memory && c'.memory[a] == c.memory[a]
    requires c.saved[i] !in c'.resumed
    ensures RestsAt(c', main, i, t)
  {
  }

  /** With preemption off an interrupt returns through the frame just pushed. */
  lemma CoopStays(t: seq<Task>, main: int, c: Machine, frame: Address)
    requires CoopOf(t, main, c) && c.running < |t| && Pushes(c, frame)
    ensures Loadable(Interrupted(c, frame).memory, frame)
    ensures var c' := ResumeAt(Interrupted(c, frame), frame);
            ResumedBy(Interrupted(c, frame), frame, c') && CoopOf(t, main, c') && c'.running == c.running
  {
    var c1 := Interrupted(c, frame);
    var c' := ResumeAt(c1, frame);
    Appended(c.resumed, c.unused);
    forall i | 0 <= i < |t|
      ensures SlotOk(main, i, t[i], c'.memory) && (i != c.running ==> RestsAt(c', main, i, t[i]))
    {
      assert SlotOk(main, i, t[i], c.memory);
      if i != c.running {
        OtherRests(c, c', main, i, t[i]);
      }
    }
  }

  /** The running actor parks at sp, and actor `to`, parked, goes on. */
  lemma SlotSwitched(t: seq<Task>, main: int, c: Machine, sp: Address, to: nat, i: nat)
    requires CoopOf(t, main, c) && c.running < |t| && to < |t| && to != c.running && sp.Stack? && sp.owner == c.running
    requires i < |t| && Returnable(Yielding(c, sp, t[c.running].resumeIrqEsp).memory, t[to].esp)
    ensures var c' := ReturnAt(Yielding(c, sp, t[c.running].resumeIrqEsp), t[to].esp);
            var t' := t[c.running := t[c.running].(esp := sp)];
            SlotOk(main, i, t'[i], c'.memory) && (i != to ==> RestsAt(c', main, i, t'[i]))
  {
    var from := c.running;
    var c1 := Yielding(c, sp, t[from].resumeIrqEsp);
    var c' := ReturnAt(c1, t[to].esp);
    assert SlotOk(main, from, t[from], c.memory) && RestsAt(c, main, to, t[to]) && SlotOk(main, i, t[i], c.memory);
    if i != to && i != from {
      assert c.saved[i] != c.saved[to];
      OtherRests(c, c', main, i, t[i]);
    }
  }

  lemma CoopSwitches(t: seq<Task>, main: int, c: Machine, sp: Address, to: nat)
    requires CoopOf(t, main, c) && c.running < |t| && to < |t| && to != c.running && sp.Stack? && sp.owner == c.running
    ensures var from := c.running; var c1 := Yielding(c, sp, t[from].resumeIrqEsp);
            && Returnable(c1.memory, t[to].esp) && ReturnedBy(c1, t[to].esp, ReturnAt(c1, t[to].esp))
            && CoopOf(t[from := t[from].(esp := sp)], main, ReturnAt(c1, t[to].esp)) && ReturnAt(c1, t[to].esp).running == to
  {
    var from := c.running;
    var c1, t' := Yielding(c, sp, t[from].resumeIrqEsp), t[from := t[from].(esp := sp)];
    assert SlotOk(main, from, t[from], c.memory) && RestsAt(c, main, to, t[to]);
    hide SlotOk, Trash;
    assert c1.saved[to] == c.saved[to];
    var c' := ReturnAt(c1, t[to].esp);
    Appended(c.resumed, c.saved[to]);
    forall i | 0 <= i < |t|
      ensures SlotOk(main, i, t'[i], c'.memory) && (i != to ==> RestsAt(c', main, i, t'[i]))
    {
      SlotSwitched(t, main, c, sp, to, i);
    }
    forall i, j | 0 <= i < j < |t| && i != to && j != to
      ensures c'.saved[i] != c'.saved[j]
    {
      assert (i != from ==> RestsAt(c, main, i, t[i])) && (j != from ==> RestsAt(c, main, j, t[j]));
    }
  }

  lemma NoLanding(t: seq<Task>, main: int, c: Machine)
    requires CoopOf(t, main, c)
    ensures c.landing == Null
  {
  }

  /** All slots but main's hold tasks, with synthetic frames. */
  lemma TaskSlots(t: seq<Task>, main: int, c: Machine)
    requires CoopOf(t, main, c)
    ensures forall i :: 0 <= i < |t| ==> (t[i].active && t[i].entry <==> i != main)
    ensures forall i :: 0 <= i < |t| ==> t[i].resumeIrqEsp == if i == main then Null else IrqFrame(i)
  {
    assert forall i {:trigger t[i]} :: 0 <= i < |t| ==> SlotOk(main, i, t[i], c.memory);
  }

  lemma PreparedRuns(c: Machine, id: nat)
    ensures Prepared(c, id).running == c.running && Prepared(c, id).landing == c.landing
  {
  }

  lemma CoopCreated(t: seq<Task>, main: int, c: Machine)
    requires CoopOf(t, main, c) && |t| < MAX_TASKS
    ensures CoopOf(t + [NewTask(|t|)], main, Prepared(c, |t|))
  {
    var t', c' := t + [NewTask(|t|)], Prepared(c, |t|);
    forall i | 0 <= i < |t'|
      ensures SlotOk(main, i, t'[i], c'.memory) && (i != c'.running ==> RestsAt(c', main, i, t'[i]))
    {
      if i < |t| {
        assert SlotOk(main, i, t[i], c.memory);
        assert i != c.running ==> RestsAt(c, main, i, t[i]);
      }
    }
    forall i, j | 0 <= i < j < |t'| && i != c.running && j != c.running
      ensures c'.saved[i] != c'.saved[j]
    {
      assert RestsAt(c, main, i, t[i]);
    }
  }

  lemma CoopRegistered(t: seq<Task>, c: Machine)
    requires CoopOf(t, -1, c) && |t| < MAX_TASKS
    ensures CoopOf(t + [MAIN_TASK], |t|, Adopted(c, |t|))
  {
    var t', c' := t + [MAIN_TASK], Adopted(c, |t|);
    forall i | 0 <= i < |t'|
      ensures SlotOk(|t|, i, t'[i], c'.memory) && (i != c'.running ==> RestsAt(c', |t|, i, t'[i]))
    {
      if i < |t| {
        assert SlotOk(-1, i, t[i], c.memory) && RestsAt(c, -1, i, t[i]);
      }
    }
  }

  /** Wherever cooperation has led to, once main runs every task can be resumed by interrupt. */
  lemma CoopIsGood(t: seq<Task>, main: nat, c: Machine)
    requires CoopOf(t, main, c) && c.running == main && |t| >= 3
    ensures TableOf(t, main) && FramesOf(t, c) && LandsOf(main, c) && t[main].irqEsp == Null
  {
    forall i | 0 <= i < |t|
      ensures SlotOk(main, i, t[i], c.memory) && (i != main ==> Resumable(c, i, t[i].irqEsp))
    {
      assert i != main ==> RestsAt(c, main, i, t[i]);
    }
  }

  lemma FramesCreated(t: seq<Task>, c: Machine)
    requires FramesOf(t, c) && c.running < |t|
    ensures FramesOf(t + [NewTask(|t|)], Prepared(c, |t|))
  {
    var t', c' := t + [NewTask(|t|)], Prepared(c, |t|);
    forall i | 0 <= i < |t'| && i != c'.running
      ensures Resumable(c', i, t'[i].irqEsp)
    {
      if i < |t| {
        assert Resumable(c, i, t[i].irqEsp);
      }
    }
    forall i, j | 0 <= i < j < |t'| && Waits(c', i) && Waits(c', j)
      ensures c'.saved[i] != c'.saved[j]
    {
      assert Waits(c, i) && (i != c.running ==> Resumable(c, i, t[i].irqEsp));
      assert j < |t| ==> Waits(c, j);
    }
  }

  lemma TableCreated(t: seq<Task>, main: int)
    requires TableOf(t, main) && |t| < MAX_TASKS
    ensures TableOf(t + [NewTask(|t|)], main)
  {
  }

  /** A new task joins a preemptive run as well. */
  lemma GoodCreated(t: seq<Task>, main: int, now: Status, n: Tally, c: Machine)
    requires Good(t, main, now, n, c) && |t| < MAX_TASKS
    ensures Good(t + [NewTask(|t|)], main, now, n.(contexts := Inc(n.contexts)), Prepared(c, |t|))
  {
    hide Inc, TableOf, FramesOf, NewTask;
    TableCreated(t, main);
    FramesCreated(t, c);
  }
}
