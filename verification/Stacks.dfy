/** What lies on the stacks: whether an actor can be returned to by a plain return. */
module Stacks {
  import opened Contexts
  import opened Cooperative

  /** The saved stack pointer of actor i, if any, points into its own stack. */
  ghost predicate OwnEsp(t: Task, i: nat) {
    t.esp.Stack? ==> t.esp.owner == i
  }

  /** A task that last stopped by a yield is saved at its esp, and its synthetic frame leads
      there; of one that was interrupted last there is no save at its esp. */
  ghost predicate LeftAt(t: Task, i: nat, mem: map<Address, Saved>) {
    if t.irqEsp == IrqFrame(i) then IrqFrame(i) in mem && mem[IrqFrame(i)] == Synthetic(t.esp)
    else !Returnable(mem, t.esp)
  }

  /** Nothing saved lies on the stack of the one that runs, unless it is about to land. */
  ghost predicate RunsClean(c: Machine, t: seq<Task>) {
    if c.landing == Null then forall a :: a in c.memory && a.Stack? ==> a.owner != c.running
    else c.running < |t| && t[c.running].esp == c.landing
  }

  ghost predicate StacksOf(t: seq<Task>, main: int, c: Machine) {
    && |c.saved| == |t| && (forall a :: a in c.memory && a.Stack? ==> a.owner < |t|) && RunsClean(c, t)
    && (forall i {:trigger t[i]} :: 0 <= i < |t| && i != main ==> OwnEsp(t[i], i) && (i != c.running ==> LeftAt(t[i], i, c.memory)))
  }

  /** Memory says the same of actor i's stack and frame. */
  ghost predicate SameOf(mem: map<Address, Saved>, mem': map<Address, Saved>, i: nat) {
    forall a :: a != Null && Owner(a) == i ==> (a in mem' <==> a in mem) && (a in mem ==> mem'[a] == mem[a])
  }

  lemma LeftKept(t: Task, i: nat, mem: map<Address, Saved>, mem': map<Address, Saved>)
    requires OwnEsp(t, i) && LeftAt(t, i, mem) && SameOf(mem, mem', i)
    ensures LeftAt(t, i, mem')
  {
  }

  /** The rest stays as it is while `from` stops and `to` goes on. */
  lemma Moves(t: seq<Task>, t': seq<Task>, main: int, c: Machine, mem: map<Address, Saved>, c': Machine, from: nat, to: nat)
    requires StacksOf(t, main, c) && |t'| == |t| == |c'.saved| && from < |t| && to < |t| && c.running == from && c'.running == to
    requires forall i :: 0 <= i < |t| && i != from ==> SameOf(c.memory, mem, i)
    requires c'.memory == if c'.landing == Null then Trash(mem, to) else mem
    requires forall a :: a in mem && a.Stack? ==> a.owner < |t|
    requires forall i {:trigger t[i]} :: 0 <= i < |t| && i != from && i != main ==> t'[i] == t[i]
    requires from != main ==> OwnEsp(t'[from], from) && (from != to ==> LeftAt(t'[from], from, mem))
    requires c'.landing != Null ==> t'[to].esp == c'.landing
    ensures StacksOf(t', main, c')
  {
    forall i | 0 <= i < |t| && i != main
      ensures OwnEsp(t'[i], i) && (i != to ==> LeftAt(t'[i], i, c'.memory))
    {
      assert i != from ==> t'[i] == t[i] && OwnEsp(t[i], i) && LeftAt(t[i], i, c.memory);
      if i != to {
        if i != from {
          LeftKept(t[i], i, c.memory, mem);
        }
        LeftKept(t'[i], i, mem, c'.memory);
      }
    }
  }

  // ----- the steps ----------------------------------------------------------------------------------

  /** An interrupt at `frame` and the return through the frame of `to`, or through its own. */
  lemma StacksSwitched(t: seq<Task>, main: nat, c: Machine, frame: Address, to: nat)
    requires StacksOf(t, main, c) && TableOf(t, main) && LandsOf(main, c) && c.running < |t| && to < |t| && to != c.running
    requires Pushes(c, frame) && Owner(t[to].irqEsp) == to && Loadable(Interrupted(c, frame).memory, t[to].irqEsp)
    ensures StacksOf(Switched(t, c.running, frame, to, main), main, ResumeAt(Interrupted(c, frame), t[to].irqEsp))
  {
    var c1, t' := Interrupted(c, frame), Switched(t, c.running, frame, to, main);
    assert to != main ==> OwnEsp(t[to], to) && LeftAt(t[to], to, c.memory);
    Moves(t, t', main, c, c1.memory, ResumeAt(c1, t[to].irqEsp), c.running, to);
  }

  lemma StacksStay(t: seq<Task>, main: int, c: Machine, frame: Address)
    requires StacksOf(t, main, c) && c.running < |t| && Pushes(c, frame) && Loadable(Interrupted(c, frame).memory, frame)
    ensures StacksOf(t, main, ResumeAt(Interrupted(c, frame), frame))
  {
    var c1 := Interrupted(c, frame);
    assert c.running != main ==> OwnEsp(t[c.running], c.running);
    Moves(t, t, main, c, c1.memory, ResumeAt(c1, frame), c.running, c.running);
  }

  /** One that has landed stays so when it is interrupted and returned to. */
  lemma LandedStays(c: Machine, frame: Address)
    requires c.running < |c.saved| && Pushes(c, frame) && Loadable(Interrupted(c, frame).memory, frame)
    ensures ResumeAt(Interrupted(c, frame), frame).landing == c.landing
  {
  }

  lemma LandsOnce(c: Machine)
    ensures CanLand(c) ==> Landed(c).landing == Null
  {
  }

  lemma StacksLand(t: seq<Task>, main: int, c: Machine)
    requires StacksOf(t, main, c) && c.running < |t| && CanLand(c)
    ensures StacksOf(t, main, Landed(c))
  {
    assert c.running != main ==> OwnEsp(t[c.running], c.running);
    Moves(t, t, main, c, c.memory, Landed(c), c.running, c.running);
  }

  lemma StacksYielded(t: seq<Task>, main: nat, c: Machine, sp: Address)
    requires StacksOf(t, main, c) && TableOf(t, main) && c.running < |t| && main != c.running && sp.Stack? && sp.owner == c.running
    requires Persistent(t, c.memory) && Owner(t[main].irqEsp) == main && t[c.running].resumeIrqEsp == IrqFrame(c.running)
    requires Loadable(Yielding(c, sp, IrqFrame(c.running)).memory, t[main].irqEsp)
    ensures StacksOf(Yielded(t, c.running, sp, main), main,
                     ResumeAt(Yielding(c, sp, IrqFrame(c.running)), t[main].irqEsp))
  {
    var from := c.running;
    var c1, t' := Yielding(c, sp, IrqFrame(from)), Yielded(t, from, sp, main);
    Moves(t, t', main, c, c1.memory, ResumeAt(c1, t[main].irqEsp), from, main);
  }

  lemma StacksCreated(t: seq<Task>, main: int, c: Machine)
    requires StacksOf(t, main, c) && (c.running < |t| || c.running == MAX_TASKS) && |t| < MAX_TASKS && main < |t|
    ensures StacksOf(t + [NewTask(|t|)], main, Prepared(c, |t|))
  {
    var t', c' := t + [NewTask(|t|)], Prepared(c, |t|);
    forall i | 0 <= i < |t'| && i != main
      ensures OwnEsp(t'[i], i) && (i != c'.running ==> LeftAt(t'[i], i, c'.memory))
    {
      if i < |t| {
        assert t'[i] == t[i] && OwnEsp(t[i], i);
        if i != c.running {
          LeftKept(t[i], i, c.memory, c'.memory);
        }
      }
    }
  }

  lemma StacksRegistered(t: seq<Task>, c: Machine)
    requires StacksOf(t, -1, c) && c.running == MAX_TASKS && c.landing == Null && |t| < MAX_TASKS
    ensures StacksOf(t + [MAIN_TASK], |t|, Adopted(c, |t|))
  {
    var t' := t + [MAIN_TASK];
    forall i | 0 <= i < |t'| && i != |t|
      ensures OwnEsp(t'[i], i) && LeftAt(t'[i], i, c.memory)
    {
      assert t'[i] == t[i] && OwnEsp(t[i], i);
    }
  }

  /** The running actor parks at sp, and actor `to`, parked, goes on. */
  lemma StacksParked(t: seq<Task>, main: int, c: Machine, sp: Address, to: nat)
    requires StacksOf(t, main, c) && CoopOf(t, main, c) && c.running < |t| && to < |t| && to != c.running
    requires sp.Stack? && sp.owner == c.running && Returnable(Yielding(c, sp, t[c.running].resumeIrqEsp).memory, t[to].esp)
    ensures StacksOf(t[c.running := t[c.running].(esp := sp)], main,
                     ReturnAt(Yielding(c, sp, t[c.running].resumeIrqEsp), t[to].esp))
  {
    var from := c.running;
    var c1, t' := Yielding(c, sp, t[from].resumeIrqEsp), t[from := t[from].(esp := sp)];
    assert SlotOk(main, from, t[from], c.memory) && RestsAt(c, main, to, t[to]);
    Moves(t, t', main, c, c1.memory, ReturnAt(c1, t[to].esp), from, to);
  }

  // ----- between the tests of a yield and its cli ---------------------------------------------------

  /** Tasks past the tests, not yet past the cli: one runs, the others were interrupted there. */
  ghost predicate Commits(s: set<nat>, t: seq<Task>, main: int, c: Machine) {
    forall i :: i in s ==> i < |t| && i != main && if i == c.running then c.landing == Null else t[i].irqEsp.Stack?
  }

  lemma CommitsSwitched(s: set<nat>, t: seq<Task>, main: int, c: Machine, frame: Address, to: nat)
    requires Commits(s, t, main, c) && Pushes(c, frame) && c.running < |t| && c.running < |c.saved| && to < |t| && to != c.running
    requires Loadable(Interrupted(c, frame).memory, t[to].irqEsp) && Owner(t[to].irqEsp) == to
    ensures Commits(s, Switched(t, c.running, frame, to, main), main, ResumeAt(Interrupted(c, frame), t[to].irqEsp))
  {
  }

  lemma CommitsStay(s: set<nat>, t: seq<Task>, main: int, c: Machine, frame: Address)
    requires Commits(s, t, main, c) && Pushes(c, frame) && c.running < |c.saved| && Loadable(Interrupted(c, frame).memory, frame)
    ensures Commits(s, t, main, ResumeAt(Interrupted(c, frame), frame))
  {
  }

  lemma CommitsLand(s: set<nat>, t: seq<Task>, main: int, c: Machine)
    requires Commits(s, t, main, c) && CanLand(c)
    ensures Commits(s, t, main, Landed(c))
  {
  }

  lemma CommitsYielded(s: set<nat>, t: seq<Task>, main: nat, c: Machine, sp: Address, c': Machine)
    requires Commits(s, t, main, c) && c.running < |t| && main < |t| && c'.running == main
    ensures Commits(s - {c.running}, Yielded(t, c.running, sp, main), main, c')
  {
  }

  // ----- both, through the steps of a preemptive run ------------------------------------------------

  ghost predicate Tidy(s: set<nat>, t: seq<Task>, main: int, c: Machine) {
    StacksOf(t, main, c) && Commits(s, t, main, c)
  }

  lemma OwnFrames(t: seq<Task>, main: int, now: Status, n: Tally, c: Machine)
    requires Good(t, main, now, n, c)
    ensures |c.saved| == |t| && c.running < |t| && Persistent(t, c.memory)
    ensures forall i {:trigger t[i]} :: 0 <= i < |t| && i != c.running ==> Owner(t[i].irqEsp) == i
  {
    assert forall i {:trigger t[i]} :: 0 <= i < |t| && i != c.running ==> Resumable(c, i, t[i].irqEsp);
  }

  lemma TidySwitched(s: set<nat>, t: seq<Task>, main: int, now: Status, n: Tally, c: Machine, frame: Address, t': seq<Task>,
                     now': Status, n0: Tally, n': Tally, esp: Address)
    requires Good(t, main, now, n, c) && Tidy(s, t, main, c) && Pushes(c, frame)
    requires SwitchMade(t, n0, c.running, frame, main, t', now', n', esp) && Loadable(Interrupted(c, frame).memory, esp)
    ensures t' == Switched(t, c.running, frame, now'.currentTask, main)
    ensures Tidy(s, t', main, ResumeAt(Interrupted(c, frame), esp))
  {
    hide FramesOf, StacksOf, Commits, Switched, Interrupted, Loadable, Counted, Pushes, FlagsOf, Balanced;
    OwnFrames(t, main, now, n, c);
    StacksSwitched(t, main, c, frame, now'.currentTask);
    CommitsSwitched(s, t, main, c, frame, now'.currentTask);
  }

  lemma TidyStay(s: set<nat>, t: seq<Task>, main: int, c: Machine, frame: Address)
    requires Tidy(s, t, main, c) && c.running < |t| == |c.saved| && Pushes(c, frame) && Loadable(Interrupted(c, frame).memory, frame)
    ensures Tidy(s, t, main, ResumeAt(Interrupted(c, frame), frame))
  {
    hide StacksOf, Commits, Interrupted, Loadable, Pushes;
    StacksStay(t, main, c, frame);
    CommitsStay(s, t, main, c, frame);
  }

  lemma TidyLand(s: set<nat>, t: seq<Task>, main: int, c: Machine)
    requires Tidy(s, t, main, c) && c.running < |t| && CanLand(c)
    ensures Tidy(s, t, main, Landed(c))
  {
    hide StacksOf, Commits;
    StacksLand(t, main, c);
    CommitsLand(s, t, main, c);
  }

  lemma TidyYielded(s: set<nat>, t: seq<Task>, main: nat, now: Status, n: Tally, c: Machine, sp: Address)
    requires Good(t, main, now, n, c) && Tidy(s, t, main, c) && c.running != main && sp.Stack? && sp.owner == c.running
    requires Loadable(Yielding(c, sp, IrqFrame(c.running)).memory, t[main].irqEsp)
    ensures c.running < |t|
    ensures Tidy(s - {c.running}, Yielded(t, c.running, sp, main), main,
                 ResumeAt(Yielding(c, sp, IrqFrame(c.running)), t[main].irqEsp))
  {
    hide FramesOf, StacksOf, Commits, Yielded, Yielding, Loadable, Balanced;
    OwnFrames(t, main, now, n, c);
    StacksYielded(t, main, c, sp);
    CommitsYielded(s, t, main, c, sp, ResumeAt(Yielding(c, sp, IrqFrame(c.running)), t[main].irqEsp));
  }

  lemma TidyCommits(s: set<nat>, t: seq<Task>, main: int, c: Machine)
    requires Tidy(s, t, main, c) && c.running < |t| && c.running != main && c.landing == Null
    ensures Tidy(s + {c.running}, t, main, c)
  {
  }

  lemma TidyCreated(s: set<nat>, t: seq<Task>, main: int, c: Machine)
    requires Tidy(s, t, main, c) && c.running < |t| < MAX_TASKS && main < |t|
    ensures Tidy(s, t + [NewTask(|t|)], main, Prepared(c, |t|))
  {
    hide StacksOf;
    StacksCreated(t, main, c);
  }

  // ----- back to cooperation ------------------------------------------------------------------------

  /** Every task last stopped by a yield. */
  ghost predicate AllYielded(t: seq<Task>, main: int) {
    forall i {:trigger t[i]} :: 0 <= i < |t| && i != main ==> t[i].irqEsp == IrqFrame(i)
  }

  /** With main running, everybody is parked if and only if every task last stopped by a yield. */
  lemma ParkedIff(t: seq<Task>, main: nat, c: Machine)
    requires TableOf(t, main) && FramesOf(t, c) && StacksOf(t, main, c) && t[main].irqEsp == Null
    requires c.running == main && c.landing == Null
    ensures CoopOf(t, main, c) <==> AllYielded(t, main)
  {
    if CoopOf(t, main, c) {
      forall i | 0 <= i < |t| && i != main
        ensures t[i].irqEsp == IrqFrame(i)
      {
        assert SlotOk(main, i, t[i], c.memory);
      }
    }
    if AllYielded(t, main) {
      forall i | 0 <= i < |t|
        ensures SlotOk(main, i, t[i], c.memory) && (i != main ==> RestsAt(c, main, i, t[i]))
      {
        if i != main {
          assert Resumable(c, i, t[i].irqEsp) && LeftAt(t[i], i, c.memory) && t[i].resumeIrqEsp == IrqFrame(i);
        }
      }
    }
  }

  lemma NoneCommitting(s: set<nat>, t: seq<Task>, main: int, c: Machine)
    requires Commits(s, t, main, c) && c.running == main && AllYielded(t, main)
    ensures s == {}
  {
    if i :| i in s {
      assert false;
    }
  }

  /** A plain return to every task is possible, wherever main saves itself for it. */
  ghost predicate WayBack(t: seq<Task>, main: nat, c: Machine)
    requires c.running < |c.saved|
  {
    forall i, offset {:trigger t[i], Stack(main, offset)} :: 0 <= i < |t| && i != main && offset >= 0 ==>
      Returnable(Yielding(c, Stack(main, offset), Null).memory, t[i].esp)
  }

  lemma WayBackIff(t: seq<Task>, main: nat, c: Machine)
    requires TableOf(t, main) && FramesOf(t, c) && StacksOf(t, main, c) && t[main].irqEsp == Null
    requires c.running == main && c.landing == Null
    ensures WayBack(t, main, c) <==> AllYielded(t, main)
  {
    ParkedIff(t, main, c);
    if !AllYielded(t, main) {
      var i :| 0 <= i < |t| && i != main && t[i].irqEsp != IrqFrame(i);
      NoWayBack(t, main, c, i, Stack(main, 0));
    } else {
      forall i, offset {:trigger t[i], Stack(main, offset)} | 0 <= i < |t| && i != main && offset >= 0
        ensures Returnable(Yielding(c, Stack(main, offset), Null).memory, t[i].esp)
      {
        assert RestsAt(c, main, i, t[i]);
      }
    }
  }

  lemma SwitchedAt(t: seq<Task>, from: nat, frame: Address, to: nat, main: int)
    requires from < |t| && to < |t| && from != to
    ensures Switched(t, from, frame, to, main)[from].irqEsp == frame
  {
  }

  lemma YieldedElsewhere(t: seq<Task>, from: nat, sp: Address, main: nat, i: nat)
    requires from < |t| && main < |t| && i < |t| && i != from && i != main
    ensures |Yielded(t, from, sp, main)| == |t| && Yielded(t, from, sp, main)[i] == t[i]
  {
  }

  /** One that was interrupted last cannot be returned to by a plain return, wherever main saves
      itself for it. */
  lemma NoWayBack(t: seq<Task>, main: nat, c: Machine, i: nat, sp: Address)
    requires StacksOf(t, main, c) && c.running == main < |t| && i < |t| && i != main && t[i].irqEsp != IrqFrame(i)
    requires sp.Stack? && sp.owner == main
    ensures !Returnable(Yielding(c, sp, Null).memory, t[i].esp)
  {
    assert OwnEsp(t[i], i) && LeftAt(t[i], i, c.memory);
  }
}
