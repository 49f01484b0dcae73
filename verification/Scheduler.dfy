/** The kernel scheduler: timer interrupts, yielding tasks and the desktop main loop. */
module Scheduler {
  import opened Contexts
  import opened Cooperative
  import opened Stacks

  /** Where the main loop is: in its own code, in a poll that has chosen a task but not yet
      switched, away while the task runs, or back in the poll, which has yet to say so. */
  datatype MainPlace = Looping | Leaving | Away | Returned

  /** Who runs, as the flags and main's place tell it with preemption off. */
  ghost predicate PlaceOf(t: seq<Task>, main: int, now: Status, place: MainPlace, running: nat) {
    && -1 <= now.currentTask < |t| && (now.currentTask < 0 ==> |t| <= if main >= 0 then 1 else 0)
    && !now.mainPaused && (now.inTask <==> place != Looping)
    && (place == Away <==> main >= 0 && running != main)
    && (place != Looping ==> main >= 0 && now.currentTask >= 0 && now.currentTask != main)
    && (place == Away ==> now.currentTask == running)
  }

  lemma PlaceStays(t: seq<Task>, main: int, now: Status, now': Status, place: MainPlace, running: nat)
    requires PlaceOf(t, main, now, place, running)
    requires now'.currentTask == now.currentTask && now'.inTask == now.inTask && now'.mainPaused == now.mainPaused
    ensures PlaceOf(t, main, now', place, running)
  {
  }

  /** A poll's switch takes main away, a yield brings it back. */
  lemma PlaceMoves(t: seq<Task>, t': seq<Task>, main: int, now: Status, running: nat, running': nat)
    requires |t'| == |t| && main >= 0
    ensures PlaceOf(t, main, now, Leaving, running) && running' == now.currentTask ==> PlaceOf(t', main, now, Away, running')
    ensures PlaceOf(t, main, now, Away, running) && running' == main ==> PlaceOf(t', main, now, Returned, running')
  {
  }

  lemma PlaceCreated(t: seq<Task>, main: int, now: Status, place: MainPlace, running: nat, task: Task)
    requires PlaceOf(t, main, now, place, running)
    ensures PlaceOf(t + [task], main, now.(currentTask := if now.currentTask < 0 then 0 else now.currentTask), place, running)
  {
  }

  // ----- the code ------------------------------------------------------------------------------------------

  class Scheduler {
    var tasks: seq<Task>
    var currentTask: int
    var mainTaskId: int
    var inTask: bool
    var mainPausedViaIrq: bool
    var switchPending: bool
    var irqCandidateReady: bool
    var preemptiveEnabled: bool
    var mainSwitchEnabled: bool
    var ticksInQuantum: u32
    var tally: Tally
    var mainCapturedEsp: Address
    var cpu: Machine
    /** Where the tasks are: those past the tests of scheduler_yield, not yet past its cli. */
    var committing: set<nat>
    var place: MainPlace

    ghost function Now(): Status
      reads `currentTask, `inTask, `mainPausedViaIrq, `switchPending, `irqCandidateReady
    {
      Status(currentTask, inTask, mainPausedViaIrq, switchPending, irqCandidateReady)
    }

    /** Both gates on, the flags in step. */
    ghost predicate Ready()
      reads `tasks, `mainTaskId, `cpu, `preemptiveEnabled, `mainSwitchEnabled, `currentTask, `inTask, `mainPausedViaIrq,
            `switchPending, `irqCandidateReady
    {
      && preemptiveEnabled && mainSwitchEnabled
      && TableOf(tasks, mainTaskId) && FlagsOf(tasks, mainTaskId, Now(), cpu.running)
    }

    ghost predicate Inv()
      reads this
    {
      && Good(tasks, mainTaskId, Now(), tally, cpu) && preemptiveEnabled && mainSwitchEnabled && ticksInQuantum < QUANTUM
      && place == Looping && Tidy(committing, tasks, mainTaskId, cpu)
    }

    // ----- set-up -----------------------------------------------------------------------------

    /** Preemption off: from the first task created to the gates, ticks and polls included. */
    ghost predicate CoopInv()
      reads this
    {
      && CoopOf(tasks, mainTaskId, cpu) && StacksOf(tasks, mainTaskId, cpu) && PlaceOf(tasks, mainTaskId, Now(), place, cpu.running)
      && !preemptiveEnabled && Balanced(tally, false) && ticksInQuantum < QUANTUM && committing == {}
    }

    /** scheduler_init. */
    constructor ()
      ensures CoopInv() && tasks == [] && mainTaskId == -1 && place == Looping
      ensures !switchPending && ticksInQuantum == 0
      ensures tally.requests == tally.candidates == tally.preempts == tally.blocked == 0
    {
      tasks, currentTask, mainTaskId, inTask, mainPausedViaIrq := [], -1, -1, false, false;
      switchPending, irqCandidateReady, preemptiveEnabled, mainSwitchEnabled := false, false, false, false;
      ticksInQuantum, tally, mainCapturedEsp := 0, Tally(0, 0, 0, 0, 0, 0, 0, 0, 0, 0, 0), Null;
      cpu := Machine(map[], MAX_TASKS, Null, [], 0, []);
      committing, place := {}, Looping;
    }

    /** The new slot is filled. */
    method AddTask(id: nat)
      modifies `tasks, `cpu, `tally, `currentTask
      ensures tasks == old(tasks) + [NewTask(id)] && cpu == Prepared(old(cpu), id)
      ensures tally == old(tally.(contexts := Inc(tally.contexts))) && currentTask == if old(currentTask) < 0 then 0 else old(currentTask)
    {
      cpu := Prepared(cpu, id);
      tasks := tasks + [NewTask(id)];
      tally := tally.(contexts := Inc(tally.contexts));
      if currentTask < 0 {
        currentTask := 0;
      }
    }

    /** scheduler_create_kernel_task, at any time: a stack that starts in the trampoline and a
        synthetic frame that resumes it. */
    method CreateKernelTask(entry: bool) returns (id: int)
      requires CoopInv() || Inv()
      modifies `tasks, `cpu, `tally, `currentTask
      ensures old(CoopInv()) ==> CoopInv()
      ensures old(Inv()) ==> Inv()
      ensures LagOf(tally) == LagOf(old(tally)) && currentTask == if old(currentTask) < 0 && id >= 0 then 0 else old(currentTask)
      ensures if entry && |old(tasks)| < MAX_TASKS
              then id == |old(tasks)| && tasks == old(tasks) + [NewTask(id)] && cpu == Prepared(old(cpu), id)
              else id == -1 && tasks == old(tasks) && cpu == old(cpu)
    {
      hide *;
      OneMode();
      if !entry || |tasks| >= MAX_TASKS {
        return -1;
      }
      id := |tasks|;
      ghost var t, c, n, now, coop := tasks, cpu, tally, Now(), CoopInv();
      NowIs();
      ContextCounted(n);
      if coop {
        CoopFacts();
        CoopCreated(t, mainTaskId, c);
        StacksCreated(t, mainTaskId, c);
        PlaceCreated(t, mainTaskId, now, place, c.running, NewTask(id));
      } else {
        InvFacts();
        GoodCreated(t, mainTaskId, now, n, c);
        TidyCreated(committing, t, mainTaskId, c);
      }
      AddTask(id);
      PreparedRuns(c, id);
      NowIs();
      if coop {
        CoopHolds();
      } else {
        InvHolds();
      }
    }

    /** scheduler_register_main_task: the code that has run since boot gets a slot, whatever has
        been counted or asked for by then. */
    method RegisterMainTask() returns (id: int)
      requires CoopInv()
      modifies `tasks, `cpu, `mainTaskId
      ensures CoopInv()
      ensures if |old(tasks)| < MAX_TASKS && old(mainTaskId) < 0
              then id == |old(tasks)| == mainTaskId == cpu.running && tasks == old(tasks) + [MAIN_TASK]
              else id == -1 && tasks == old(tasks) && mainTaskId == old(mainTaskId) && cpu == old(cpu)
    {
      hide CoopOf, StacksOf, Balanced;
      if |tasks| >= MAX_TASKS || mainTaskId >= 0 {
        return -1;
      }
      id := |tasks|;
      CoopFacts();
      CoopRegistered(tasks, cpu);
      StacksRegistered(tasks, cpu);
      cpu := Adopted(cpu, id);
      tasks := tasks + [MAIN_TASK];
      mainTaskId := id;
    }

    // ----- preemption off ---------------------------------------------------------------------

    lemma CoopFacts()
      requires CoopInv()
      ensures CoopOf(tasks, mainTaskId, cpu) && PlaceOf(tasks, mainTaskId, Now(), place, cpu.running) && Balanced(tally, false)
      ensures StacksOf(tasks, mainTaskId, cpu) && (cpu.running < |tasks| || cpu.running == MAX_TASKS)
      ensures mainTaskId < 0 ==> cpu.running == MAX_TASKS
      ensures !preemptiveEnabled && ticksInQuantum < 10 && committing == {} && -1 <= mainTaskId < |tasks| == |cpu.saved|
      ensures cpu.landing == Null && -1 <= currentTask < |tasks| && (inTask <==> place != Looping) && !mainPausedViaIrq
      ensures mainTaskId >= 0 ==> cpu.running < |tasks| && (place == Away <==> cpu.running != mainTaskId)
      ensures place != Looping ==> 0 <= currentTask != mainTaskId && mainTaskId >= 0
      ensures place == Away ==> currentTask == cpu.running
    {
    }

    lemma CoopHolds()
      requires CoopOf(tasks, mainTaskId, cpu) && PlaceOf(tasks, mainTaskId, Now(), place, cpu.running) && Balanced(tally, false)
      requires !preemptiveEnabled && ticksInQuantum < 10 && committing == {} && StacksOf(tasks, mainTaskId, cpu)
      ensures CoopInv()
    {
    }

    /** interrupt_handler for IRQ 0 with preemption off: ticks are counted and switches asked
        for, but the answer is always to stay. */
    method TickAndStay(frame: Address)
      requires !preemptiveEnabled && ticksInQuantum < 10 && frame != Null && Balanced(tally, false)
      requires -1 <= mainTaskId < |tasks| && -1 <= currentTask < |tasks|
      modifies `tasks, `currentTask, `inTask, `mainPausedViaIrq, `switchPending, `irqCandidateReady, `mainCapturedEsp, `tally,
               `ticksInQuantum
      ensures tasks == old(tasks) && currentTask == old(currentTask) && inTask == old(inTask)
      ensures mainPausedViaIrq == old(mainPausedViaIrq) && ticksInQuantum < 10 && Balanced(tally, false)
      ensures switchPending == (old(switchPending) || (|tasks| > 0 && old(ticksInQuantum) == 9))
    {
      hide *;
      ghost var n := tally;
      Tick();
      RefusedBalance(n, switchPending && irqCandidateReady && HasCandidate(), preemptiveEnabled, !inTask && mainTaskId >= 0, false);
      var esp := OnTimerInterrupt(frame);
    }

    /** IRQ 0 with preemption off, before main is registered or after: nothing is switched. */
    method CoopTimer(frame: Address)
      requires CoopInv() && frame != Null && (mainTaskId >= 0 ==> Pushes(cpu, frame))
      modifies this
      ensures CoopInv() && tasks == old(tasks) && place == old(place) && mainTaskId == old(mainTaskId)
      ensures cpu.running == old(cpu.running) && currentTask == old(currentTask)
      ensures if mainTaskId < 0 then cpu == old(cpu)
              else cpu.running < |old(cpu.saved)| && cpu.landing == Null && ResumedBy(Interrupted(old(cpu), frame), frame, cpu)
    {
      hide *;
      CoopFacts();
      ghost var t, c, now := tasks, cpu, Now();
      NowIs();
      TickAndStay(frame);
      NowIs();
      if mainTaskId >= 0 {
        CoopStays(t, mainTaskId, c, frame);
        StacksStay(t, mainTaskId, c, frame);
        NoLanding(t, mainTaskId, ResumeAt(Interrupted(c, frame), frame));
        cpu := ResumeAt(Interrupted(cpu, frame), frame);
      }
      PlaceStays(t, mainTaskId, now, Now(), place, cpu.running);
      CoopHolds();
    }

    /** scheduler_poll with preemption off, up to its switch: a pending switch always finds a
        task, the next one round the table. */
    method CoopPoll() returns (dispatch: bool)
      requires CoopInv() && place == Looping && mainTaskId >= 0
      modifies `switchPending, `currentTask, `inTask, `tally, `place
      ensures CoopInv() && (dispatch <==> old(switchPending) && |tasks| >= 2) && !switchPending
      ensures place == if dispatch then Leaving else Looping
      ensures !dispatch ==> currentTask == old(currentTask)
      ensures dispatch ==> 0 <= currentTask < |tasks| && currentTask != mainTaskId
                           && forall i :: Between(old(currentTask), i, currentTask) && i < |tasks| ==> i == mainTaskId
    {
      hide CoopOf, StacksOf, Inc;
      CoopFacts();
      TaskSlots(tasks, mainTaskId, cpu);
      ghost var other := if mainTaskId == 0 then 1 else 0;
      assert |tasks| >= 2 ==> tasks[other].active && tasks[other].entry;
      var esp;
      dispatch, esp := Poll();
      if dispatch {
        place := Leaving;
      }
    }

    /** The switch of the poll: scheduler_context_switch from main to the task. */
    method PollSwitch(sp: Address)
      requires CoopInv() && place == Leaving && sp.Stack? && sp.owner == mainTaskId
      modifies `tasks, `cpu, `place
      ensures CoopInv() && place == Away && |tasks| == |old(tasks)| && cpu.running == currentTask && cpu.landing == Null
      ensures 0 <= currentTask < |old(tasks)| && 0 <= mainTaskId < |old(tasks)| && old(cpu.running) < |old(cpu.saved)|
      ensures ReturnedBy(Yielding(old(cpu), sp, Null), old(tasks)[currentTask].esp, cpu)
    {
      hide *;
      CoopFacts();
      ghost var t, c := tasks, cpu;
      NowIs();
      CoopSwitches(t, mainTaskId, c, sp, currentTask);
      StacksParked(t, mainTaskId, c, sp, currentTask);
      TaskSlots(t, mainTaskId, c);
      var newEsp := tasks[currentTask].esp;
      cpu := Yielding(cpu, sp, Null);
      tasks := tasks[mainTaskId := tasks[mainTaskId].(esp := sp)];
      cpu := ReturnAt(cpu, newEsp);
      place := Away;
      NoLanding(tasks, mainTaskId, cpu);
      PlaceMoves(t, tasks, mainTaskId, Now(), c.running, cpu.running);
      CoopHolds();
    }

    /** scheduler_yield with preemption off: the task parks, refreshes its synthetic frame, and
        main goes on inside its poll. */
    method CoopYield(sp: Address)
      requires CoopInv() && place == Away && sp.Stack? && sp.owner == cpu.running
      modifies `tasks, `cpu, `place, `committing
      ensures CoopInv() && place == Returned && |tasks| == |old(tasks)| && cpu.running == mainTaskId && cpu.landing == Null
      ensures 0 <= mainTaskId < |old(tasks)| && old(cpu.running) < |old(tasks)| == |old(cpu.saved)|
      ensures ReturnedBy(Yielding(old(cpu), sp, IrqFrame(old(cpu.running))), old(tasks)[mainTaskId].esp, cpu)
    {
      hide *;
      CoopFacts();
      ghost var t, c := tasks, cpu;
      var path := YieldCheck();
      CoopSwitches(t, mainTaskId, c, sp, mainTaskId);
      StacksParked(t, mainTaskId, c, sp, mainTaskId);
      TaskSlots(t, mainTaskId, c);
      if path == Cooperative {
        var newEsp := tasks[mainTaskId].esp;
        cpu := Yielding(cpu, sp, tasks[currentTask].resumeIrqEsp);
        tasks := tasks[currentTask := tasks[currentTask].(esp := sp)];
        cpu := ReturnAt(cpu, newEsp);
        place := Returned;
        NoLanding(tasks, mainTaskId, cpu);
        PlaceMoves(t, tasks, mainTaskId, Now(), c.running, cpu.running);
      }
      CoopHolds();
    }

    /** The rest of scheduler_poll. */
    method PollReturns()
      requires CoopInv() && place == Returned
      modifies `inTask, `place
      ensures CoopInv() && place == Looping
    {
      inTask := false;
      place := Looping;
    }

    /** scheduler_set_main_switch_enabled: without preemption it changes nothing else. */
    method SetMainSwitch(enabled: bool)
      requires CoopInv()
      modifies `mainSwitchEnabled
      ensures CoopInv() && mainSwitchEnabled == enabled
    {
      mainSwitchEnabled := enabled;
    }

    /** One step of whoever runs with preemption off. */
    method CoopStep(e: CoopEvent)
      requires CoopInv() && mainTaskId >= 0
      modifies this
      ensures CoopInv() && mainTaskId == old(mainTaskId) && |tasks| == |old(tasks)|
      ensures cpu == old(cpu) || RightStep(old(cpu), cpu)
    {
      hide *;
      CoopFacts();
      var id := RunningTaskId();
      CoopRunningIs();
      ghost var c, t := cpu, tasks;
      match e {
        case Ticks(offset) =>
          PushesThere(c, cpu.running, offset);
          CoopTimer(Stack(cpu.running, offset));
          InterruptIsRight(c, Stack(c.running, offset), Stack(c.running, offset), cpu);
        case Goes(offset) =>
          match place {
            case Looping =>
              var dispatch := CoopPoll();
            case Leaving =>
              PollSwitch(Stack(mainTaskId, offset));
              CoopFacts();
              ReturnIsRight(c, Stack(mainTaskId, offset), Null, t[currentTask].esp, cpu);
            case Away =>
              CoopYield(Stack(id, offset));
              CoopFacts();
              ReturnIsRight(c, Stack(id, offset), IrqFrame(id), t[mainTaskId].esp, cpu);
            case Returned =>
              PollReturns();
          }
        case Gate(enabled) =>
          SetMainSwitch(enabled);
      }
    }

    lemma CoopRunningIs()
      requires CoopInv() && mainTaskId >= 0
      ensures place == Away ==> RunningTaskId() == cpu.running
      ensures place != Away ==> cpu.running == mainTaskId
    {
    }

    /** Any run with preemption off, from boot on: every actor goes on where it last stopped, and
        nothing is resumed twice. */
    method CoopRun(events: seq<CoopEvent>) returns (ghost trace: seq<Machine>)
      requires CoopInv() && mainTaskId >= 0
      modifies this
      ensures CoopInv() && mainTaskId == old(mainTaskId) && |tasks| == |old(tasks)|
      ensures |trace| == |events| + 1 && trace[0] == old(cpu) && trace[|events|] == cpu
      ensures forall k :: 0 <= k < |events| ==> trace[k + 1] == trace[k] || RightStep(trace[k], trace[k + 1])
      ensures Distinct(cpu.resumed)
    {
      hide *;
      trace := [cpu];
      for i := 0 to |events|
        invariant CoopInv() && mainTaskId == old(mainTaskId) && |tasks| == |old(tasks)|
        invariant |trace| == i + 1 && trace[0] == old(cpu) && trace[i] == cpu
        invariant forall k :: 0 <= k < i ==> trace[k + 1] == trace[k] || RightStep(trace[k], trace[k + 1])
      {
        CoopStep(events[i]);
        trace := trace + [cpu];
      }
      CoopNothingTwice();
    }

    lemma CoopNothingTwice()
      requires CoopInv()
      ensures Distinct(cpu.resumed)
    {
    }

    /** scheduler_set_preemptive_enabled, with the other gate on: wherever cooperation has led
        to, if the main loop does it while no switch is pending, a preemptive run can start. */
    method Start()
      requires CoopInv() && mainTaskId >= 0 && |tasks| >= 3 && mainSwitchEnabled && place == Looping && !switchPending
      modifies `preemptiveEnabled
      ensures Inv() && cpu.running == mainTaskId
    {
      hide TableOf, FramesOf, CoopOf, StacksOf, Balanced;
      CoopFacts();
      CoopIsGood(tasks, mainTaskId, cpu);
      preemptiveEnabled := true;
    }

    /** The gate off again, by the main loop. Cooperation can go on if and only if every task last
        stopped by a yield; one that was interrupted last has no save at its stack pointer, and
        the next poll that chooses it loads ESP with that. */
    method Stop()
      requires Inv() && cpu.running == mainTaskId
      modifies `preemptiveEnabled
      ensures !preemptiveEnabled && cpu.running < |cpu.saved| && 0 <= mainTaskId
      ensures CoopInv() <==> AllYielded(tasks, mainTaskId)
      ensures WayBack(tasks, mainTaskId, cpu) <==> AllYielded(tasks, mainTaskId)
    {
      hide *;
      InvFacts();
      MainLoops();
      ParkedIff(tasks, mainTaskId, cpu);
      WayBackIff(tasks, mainTaskId, cpu);
      if AllYielded(tasks, mainTaskId) {
        NoneCommitting(committing, tasks, mainTaskId, cpu);
      }
      preemptiveEnabled := false;
      if AllYielded(tasks, mainTaskId) {
        CoopHolds();
      } else {
        CoopNeeds();
      }
    }

    lemma MainLoops()
      requires Inv() && cpu.running == mainTaskId
      ensures cpu.landing == Null && tasks[mainTaskId].irqEsp == Null && Balanced(tally, false)
      ensures PlaceOf(tasks, mainTaskId, Now(), place, cpu.running)
      ensures StacksOf(tasks, mainTaskId, cpu) && Commits(committing, tasks, mainTaskId, cpu)
    {
    }

    lemma Slots()
      requires Inv()
      ensures 0 <= mainTaskId < |tasks| && cpu.running < |tasks| == |cpu.saved|
      ensures forall i {:trigger tasks[i]} :: 0 <= i < |tasks| ==> tasks[i].active && (tasks[i].entry <==> i != mainTaskId)
    {
    }

    lemma CoopNeeds()
      ensures CoopInv() ==> CoopOf(tasks, mainTaskId, cpu)
    {
    }

    // ----- the timer ----------------------------------------------------------------------------

    /** Some slot other than the current one can be resumed by an interrupt return. */
    predicate HasCandidate()
      reads `tasks, `currentTask
    {
      exists i :: 0 <= i < |tasks| && i != currentTask && CanResume(tasks[i])
    }

    /** scheduler_next_active_irq_task: the next slot after the current one, cyclically,
        that is active and has an interrupt frame to resume; the current one excepted. */
    method NextActiveIrqTask() returns (next: int)
      requires -1 <= currentTask < |tasks|
      ensures next != -1 <==> HasCandidate()
      ensures next != -1 ==> 0 <= next < |tasks| && next != currentTask && CanResume(tasks[next])
      ensures next != -1 ==> forall i :: Between(currentTask, i, next) && i < |tasks| ==> !CanResume(tasks[i])
    {
      if |tasks| == 0 {
        return -1;
      }
      next := currentTask;
      for n := 0 to |tasks|
        invariant if currentTask + n < |tasks| then next == currentTask + n else next == currentTask + n - |tasks|
        invariant forall i :: 0 <= i < |tasks| && i != currentTask && Passed(currentTask, i, n, |tasks|) ==> !CanResume(tasks[i])
      {
        next := next + 1;
        if next >= |tasks| {
          next := 0;
        }
        if next != currentTask && tasks[next].active && tasks[next].irqEsp != Null {
          return;
        }
      }
      next := -1;
    }

    /** scheduler_tick: every tenth tick asks for a switch. */
    method Tick()
      modifies this`ticksInQuantum, this`switchPending, this`irqCandidateReady, this`tally
      ensures |tasks| > 0 && 9 <= old(ticksInQuantum) < 0xFFFF_FFFF ==>
                ticksInQuantum == 0 && switchPending && irqCandidateReady && tally == old(tally.(requests := Inc(tally.requests)))
      ensures |tasks| > 0 && (old(ticksInQuantum) < 9 || old(ticksInQuantum) == 0xFFFF_FFFF) ==>
                ticksInQuantum == (if old(ticksInQuantum) < 9 then old(ticksInQuantum) + 1 else 0) && tally == old(tally)
                && switchPending == old(switchPending) && irqCandidateReady == old(irqCandidateReady)
      ensures |tasks| == 0 ==> ticksInQuantum == old(ticksInQuantum) && tally == old(tally)
                               && switchPending == old(switchPending) && irqCandidateReady == old(irqCandidateReady)
    {
      if |tasks| == 0 {
        return;
      }
      ticksInQuantum := Inc(ticksInQuantum);
      if ticksInQuantum >= QUANTUM {
        ticksInQuantum := 0;
        switchPending := true;
        irqCandidateReady := true;
        tally := tally.(requests := Inc(tally.requests));
      }
    }

    lemma NobodyThere()
      ensures |tasks| == 0 ==> !HasCandidate()
    {
    }

    lemma TimerFacts()
      requires Ready()
      ensures HasCandidate()
      ensures 0 <= mainTaskId < |tasks| && 0 <= currentTask < |tasks| && cpu.running < |tasks|
      ensures preemptiveEnabled && mainSwitchEnabled && (inTask <==> mainPausedViaIrq)
      ensures if inTask then currentTask == cpu.running != mainTaskId && tasks[currentTask].active
              else cpu.running == mainTaskId && !CanResume(tasks[mainTaskId])
    {
      var i := if inTask then mainTaskId
               else if currentTask != 0 && mainTaskId != 0 then 0
               else if currentTask != 1 && mainTaskId != 1 then 1 else 2;
      assert tasks[i].irqEsp != Null && tasks[i].active;
      assert CanResume(tasks[i]);
    }

    lemma NowIs()
      ensures Now() == Status(currentTask, inTask, mainPausedViaIrq, switchPending, irqCandidateReady)
    {
    }

    /** The main loop is captured at `frame`, and task `next` takes over. */
    method PauseMain(frame: Address, next: nat, count: Tally) returns (esp: Address)
      requires 0 <= mainTaskId < |tasks| && next < |tasks|
      modifies `tasks, `currentTask, `inTask, `mainPausedViaIrq, `switchPending, `tally
      ensures tasks == old(tasks)[mainTaskId := old(tasks)[mainTaskId].(irqEsp := frame)] && esp == tasks[next].irqEsp
      ensures currentTask == next && inTask && mainPausedViaIrq && !switchPending
      ensures tally == count.(switches := Inc(count.switches), preempts := Inc(count.preempts), mainToTask := Inc(count.mainToTask))
    {
      tasks := tasks[mainTaskId := tasks[mainTaskId].(irqEsp := frame)];
      mainPausedViaIrq, switchPending, currentTask, inTask := true, false, next, true;
      tally := count.(switches := Inc(count.switches), preempts := Inc(count.preempts), mainToTask := Inc(count.mainToTask));
      esp := tasks[next].irqEsp;
    }

    /** The current task is captured at `frame`, and `next`, another task or main, takes over. */
    method LeaveTask(frame: Address, next: nat, count: Tally) returns (esp: Address)
      requires 0 <= currentTask < |tasks| && next < |tasks|
      modifies `tasks, `currentTask, `inTask, `mainPausedViaIrq, `switchPending, `tally
      ensures esp == old(tasks)[next].irqEsp && currentTask == next && !switchPending
      ensures var t1 := old(tasks)[old(currentTask) := old(tasks)[old(currentTask)].(irqEsp := frame)];
              tasks == if next == mainTaskId then t1[next := t1[next].(irqEsp := Null)] else t1
      ensures inTask == (next != mainTaskId && old(inTask)) && mainPausedViaIrq == (next != mainTaskId && old(mainPausedViaIrq))
      ensures tally == count.(switches := Inc(count.switches), preempts := Inc(count.preempts),
                              irqToMain := if next == mainTaskId then Inc(count.irqToMain) else count.irqToMain)
    {
      switchPending := false;
      var table := tasks[currentTask := tasks[currentTask].(irqEsp := frame)];
      esp := tasks[next].irqEsp;
      var n := count;
      if next == mainTaskId {
        table := table[mainTaskId := table[mainTaskId].(irqEsp := Null)];
        mainPausedViaIrq, inTask, n := false, false, n.(irqToMain := Inc(n.irqToMain));
      }
      tasks, currentTask := table, next;
      tally := n.(switches := Inc(n.switches), preempts := Inc(n.preempts));
    }

    /** Somebody can be interrupted for it: main with its gate on, or an active task. */
    predicate CanPause()
      reads `tasks, `currentTask, `inTask, `mainSwitchEnabled, `mainTaskId
    {
      if inTask then 0 <= currentTask < |tasks| && tasks[currentTask].active else mainSwitchEnabled && mainTaskId >= 0
    }

    /** scheduler_on_timer_interrupt, in any state of gates and flags. With the gates on and the
        flags in step a due switch always happens, and to another actor than the interrupted one. */
    method OnTimerInterrupt(frame: Address) returns (esp: Address)
      requires -1 <= mainTaskId < |tasks| && -1 <= currentTask < |tasks| && frame != Null
      modifies `tasks, `currentTask, `inTask, `mainPausedViaIrq, `switchPending, `irqCandidateReady, `mainCapturedEsp, `tally
      ensures !old(switchPending && irqCandidateReady) ==>
                esp == Null && tasks == old(tasks) && Now() == old(Now()) && tally == old(tally.(frames := Inc(tally.frames)))
      ensures esp != Null <==> old(switchPending && irqCandidateReady && HasCandidate() && preemptiveEnabled && CanPause())
      ensures esp == Null ==> irqCandidateReady == (old(irqCandidateReady) && !old(switchPending && HasCandidate()))
      ensures esp == Null ==> tally == Refused(old(tally), old(switchPending && irqCandidateReady && HasCandidate()), preemptiveEnabled,
                                               !old(inTask) && mainTaskId >= 0)
      ensures esp == Null ==> tasks == old(tasks) && currentTask == old(currentTask) && inTask == old(inTask)
                              && mainPausedViaIrq == old(mainPausedViaIrq) && switchPending == old(switchPending)
      ensures old(Ready() && switchPending && irqCandidateReady) ==>
                SwitchMade(old(tasks), old(tally), cpu.running, frame, mainTaskId, tasks, Now(), tally, esp)
      ensures esp != Null ==>
                TakenOver(old(tasks), old(tally), old(Now()), frame, mainTaskId, tasks, Now(), tally, esp)
    {
      hide TableOf, FlagsOf, Inc, Switched, Counted, SwitchMade, TakenOver, HasCandidate, CanResume, Between;
      ghost var t, n, now := tasks, tally, Now();
      if Ready() {
        TimerFacts();
      }
      NobodyThere();
      var count := tally.(frames := Inc(tally.frames));
      if !switchPending || !irqCandidateReady || |tasks| == 0 {
        tally := count;
        return Null;
      }
      var next := NextActiveIrqTask();
      ResumableTask();
      if next < 0 {
        tally := count;
        return Null;
      }
      irqCandidateReady := false;
      count := count.(candidates := Inc(count.candidates));
      if !preemptiveEnabled {
        tally := count;
        return Null;
      }
      if !inTask {
        if mainTaskId >= 0 {
          mainCapturedEsp, count := frame, count.(captures := Inc(count.captures));
        }
        if !mainSwitchEnabled || mainTaskId < 0 {
          tally := count.(blocked := Inc(count.blocked));
          return Null;
        }
        esp := PauseMain(frame, next, count);
        MainPaused(t, n, now, frame, mainTaskId, tasks, Now(), tally, esp, next);
        if old(Ready()) {
          TakenInStep(t, n, now, frame, mainTaskId, tasks, Now(), tally, esp, cpu.running);
        }
        return;
      }
      if currentTask < 0 || !tasks[currentTask].active {
        tally := count.(blocked := Inc(count.blocked));
        return Null;
      }
      esp := LeaveTask(frame, next, count);
      TaskLeft(t, n, now, frame, mainTaskId, tasks, Now(), tally, esp, next);
      if old(Ready()) {
        TakenInStep(t, n, now, frame, mainTaskId, tasks, Now(), tally, esp, cpu.running);
      }
    }

    // ----- the steps of a run -----------------------------------------------------------------------

    lemma InvFacts()
      requires Inv()
      ensures Good(tasks, mainTaskId, Now(), tally, cpu) && Ready() && ticksInQuantum < 10 && !switchPending && place == Looping
      ensures TableOf(tasks, mainTaskId) && FlagsOf(tasks, mainTaskId, Now(), cpu.running) && FramesOf(tasks, cpu)
      ensures Balanced(tally, mainPausedViaIrq) && |cpu.saved| == |tasks| && cpu.running < |tasks| && 0 <= mainTaskId < |tasks|
      ensures 0 <= currentTask < |tasks| && (mainPausedViaIrq <==> cpu.running != mainTaskId)
      ensures cpu.running != mainTaskId ==> currentTask == cpu.running && inTask && tasks[mainTaskId].irqEsp != Null
      ensures cpu.running == mainTaskId ==> !inTask
      ensures Tidy(committing, tasks, mainTaskId, cpu) && (cpu.running in committing ==> cpu.running != mainTaskId)
    {
    }

    lemma InvHolds()
      requires Good(tasks, mainTaskId, Now(), tally, cpu) && preemptiveEnabled && mainSwitchEnabled && ticksInQuantum < 10
      requires place == Looping && Tidy(committing, tasks, mainTaskId, cpu)
      ensures Inv()
    {
    }

    /** interrupt_handler for IRQ 0: the tick, then the scheduler's answer to it. */
    method TickAndSwitch(frame: Address) returns (esp: Address)
      requires Ready() && !switchPending && ticksInQuantum < 10 && frame != Null
      modifies `tasks, `currentTask, `inTask, `mainPausedViaIrq, `switchPending, `irqCandidateReady, `mainCapturedEsp, `tally,
               `ticksInQuantum
      ensures ticksInQuantum == (if old(ticksInQuantum) < 9 then old(ticksInQuantum) + 1 else 0)
      ensures esp == Null <==> old(ticksInQuantum) < 9
      ensures esp == Null ==> tasks == old(tasks) && Now() == old(Now()) && tally == old(tally.(frames := Inc(tally.frames)))
      ensures esp != Null ==> SwitchMade(old(tasks), old(tally.(requests := Inc(tally.requests))), cpu.running, frame, mainTaskId,
                                         tasks, Now(), tally, esp)
    {
      hide TableOf, Switched, Counted, SwitchMade, Arrived, Inc, CanResume;
      TimerFacts();
      ghost var t, n, due := tasks, tally.(requests := Inc(tally.requests)), ticksInQuantum == 9;
      Tick();
      assert Ready();
      esp := OnTimerInterrupt(frame);
      if due {
        MadeResumes(t, n, cpu.running, frame, mainTaskId, tasks, Now(), tally, esp);
      }
    }

    /** IRQ 0 while somebody runs: the stub saves, asks for the next frame, loads ESP with it
        if there is one, and returns through whatever frame ESP is at. */
    method TimerInterrupt(frame: Address)
      requires Inv() && Pushes(cpu, frame)
      modifies this
      ensures Inv() && committing == old(committing) && mainTaskId == old(mainTaskId)
      ensures old(cpu.running) < |old(tasks)| && cpu.running < |old(tasks)|
      ensures tasks == if cpu.running == old(cpu.running) then old(tasks)
                       else Switched(old(tasks), old(cpu.running), frame, cpu.running, mainTaskId)
      ensures cpu.running == old(cpu.running) <==> old(ticksInQuantum) < 9
      ensures ticksInQuantum == if old(ticksInQuantum) < 9 then old(ticksInQuantum) + 1 else 0
      ensures cpu.running == old(cpu.running) ==> cpu.landing == old(cpu.landing)
      ensures LagOf(tally) == LagOf(old(tally))
      ensures old(cpu.running) < |old(cpu.saved)|
      ensures ResumedBy(Interrupted(old(cpu), frame),
                        if cpu.running == old(cpu.running) then frame else old(tasks)[cpu.running].irqEsp, cpu)
    {
      hide *;
      InvFacts();
      ghost var t, n, now, c := tasks, tally, Now(), cpu;
      PushesSomewhere(c, frame);
      var pushed := Interrupted(cpu, frame);
      var esp := TickAndSwitch(frame);
      if esp == Null {
        Stayed(t, mainTaskId, now, n, c, frame);
        TidyStay(committing, t, mainTaskId, c, frame);
        LandedStays(c, frame);
        LagKept(n, false, false);
        cpu := ResumeAt(pushed, frame);
      } else {
        NowIs();
        SwitchedOver(t, mainTaskId, now, n, c, frame, tasks, Now(), tally, esp);
        TidySwitched(committing, t, mainTaskId, now, n, c, frame, tasks, Now(), n.(requests := Inc(n.requests)), tally, esp);
        SwitchLag(t, n, c.running, frame, mainTaskId, tasks, Now(), tally, esp);
        cpu := ResumeAt(pushed, esp);
      }
      InvHolds();
    }

    /** The running task has come through its synthetic frame and loads ESP from EAX. */
    method Land()
      requires Inv() && cpu.landing != Null
      modifies `cpu
      ensures Inv() && CanLand(old(cpu)) && cpu == Landed(old(cpu)) && cpu.running == old(cpu.running) < |cpu.saved|
      ensures cpu.resumed == old(cpu).resumed + [old(cpu).saved[cpu.running]] && cpu.landing == Null
    {
      hide *;
      InvFacts();
      LandsOnce(cpu);
      LandedOver(tasks, mainTaskId, Now(), tally, cpu);
      TidyLand(committing, tasks, mainTaskId, cpu);
      cpu := Landed(cpu);
      InvHolds();
    }

    /** The tests of scheduler_yield, before it switches. In a preemptive run a task always takes
        the way back to the paused main loop; with preemption off it takes the cooperative one.
        The main loop in its own code always returns at once. */
    method YieldCheck() returns (path: YieldPath)
      requires (Inv() && cpu.running !in committing && cpu.landing == Null) || CoopInv()
      modifies `committing
      ensures old(Inv()) ==> Inv() && path == (if cpu.running == mainTaskId then Back else Commit)
      ensures old(Inv()) ==> committing == if cpu.running == mainTaskId then old(committing) else old(committing) + {cpu.running}
      ensures old(CoopInv()) ==> CoopInv() && committing == old(committing) && path == if place == Looping then Back else Cooperative
    {
      hide *;
      OneMode();
      if Inv() {
        InvFacts();
      } else {
        CoopFacts();
      }
      if !inTask || currentTask < 0 {
        return Back;
      }
      if mainPausedViaIrq && mainTaskId >= 0 && tasks[mainTaskId].irqEsp != Null {
        TidyCommits(committing, tasks, mainTaskId, cpu);
        committing := committing + {currentTask};
        InvHolds();
        return Commit;
      }
      path := if mainTaskId < 0 then Back else Cooperative;
    }

    lemma OneMode()
      ensures !(Inv() && CoopInv())
    {
    }

    /** The bookkeeping after cli: main's frame is taken, the current task's is its synthetic
        one again, and main is current. */
    method TakeMain() returns (mainIretEsp: Address)
      requires 0 <= currentTask < |tasks| && 0 <= mainTaskId < |tasks| && currentTask != mainTaskId
      modifies `tasks, `mainPausedViaIrq, `currentTask, `inTask, `tally
      ensures mainIretEsp == old(tasks)[mainTaskId].irqEsp
      ensures var t, from := old(tasks), old(currentTask);
              tasks == t[from := t[from].(irqEsp := t[from].resumeIrqEsp)][mainTaskId := t[mainTaskId].(irqEsp := Null)]
      ensures currentTask == mainTaskId && !inTask && !mainPausedViaIrq && tally == old(tally.(yieldToMain := Inc(tally.yieldToMain)))
    {
      mainIretEsp := tasks[mainTaskId].irqEsp;
      tasks := tasks[currentTask := tasks[currentTask].(irqEsp := tasks[currentTask].resumeIrqEsp)];
      tasks := tasks[mainTaskId := tasks[mainTaskId].(irqEsp := Null)];
      mainPausedViaIrq, currentTask, inTask := false, mainTaskId, false;
      tally := tally.(yieldToMain := Inc(tally.yieldToMain));
    }

    /** scheduler_yield from its cli on, interrupts off: the task's frame becomes its
        refreshed synthetic one, main's frame is taken and returned through. */
    method YieldCommit(sp: Address)
      requires Inv() && cpu.running in committing && cpu.landing == Null && sp.Stack? && sp.owner == cpu.running
      modifies `tasks, `mainPausedViaIrq, `currentTask, `inTask, `tally, `cpu, `committing
      ensures Inv() && cpu.running == mainTaskId && committing == old(committing) - {old(cpu.running)}
      ensures old(cpu.running) < |old(cpu.saved)| == |old(tasks)| && 0 <= mainTaskId < |old(tasks)|
      ensures tasks == Yielded(old(tasks), old(cpu.running), sp, mainTaskId)
      ensures ResumedBy(Yielding(old(cpu), sp, IrqFrame(old(cpu.running))), old(tasks)[mainTaskId].irqEsp, cpu)
      ensures LagOf(tally) == LagOf(old(tally))
    {
      hide *;
      InvFacts();
      ghost var t, n, c := tasks, tally, cpu;
      var oldTask := currentTask;
      YieldedOver(t, mainTaskId, n, c, sp, irqCandidateReady);
      TidyYielded(committing, t, mainTaskId, Now(), n, c, sp);
      LagKept(n, false, false);
      var mainIretEsp := TakeMain();
      var parked := Yielding(cpu, sp, tasks[oldTask].resumeIrqEsp);
      tasks, cpu := tasks[oldTask := tasks[oldTask].(esp := sp)], ResumeAt(parked, mainIretEsp);
      committing := committing - {oldTask};
      NowIs();
      YieldTable(t, oldTask, sp, mainTaskId, tasks);
      InvHolds();
    }

    /** scheduler_poll, up to the switch it would make: the next kernel task after the
        current one, if a switch is pending. In no run is one pending here. */
    method Poll() returns (dispatch: bool, esp: Address)
      requires -1 <= currentTask < |tasks|
      modifies `switchPending, `currentTask, `inTask, `tally
      ensures !old(switchPending) ==> !dispatch && Now() == old(Now()) && tally == old(tally)
      ensures dispatch ==> old(switchPending) && !switchPending && inTask && 0 <= currentTask < |tasks|
                           && tasks[currentTask].active && tasks[currentTask].entry && esp == tasks[currentTask].esp
      ensures dispatch ==> tally == old(tally.(switches := Inc(tally.switches)))
                           && forall i :: Between(old(currentTask), i, currentTask) && i < |tasks| ==> !(tasks[i].active && tasks[i].entry)
      ensures !dispatch ==> currentTask == old(currentTask) && inTask == old(inTask) && tally == old(tally)
                            && (|tasks| > 0 ==> !switchPending)
      ensures !dispatch && old(switchPending) ==> forall i :: 0 <= i < |tasks| ==> !(tasks[i].active && tasks[i].entry)
    {
      if !switchPending || |tasks| == 0 {
        return false, Null;
      }
      switchPending := false;
      var next := currentTask;
      for n := 0 to |tasks|
        invariant if currentTask + n < |tasks| then next == currentTask + n else next == currentTask + n - |tasks|
        invariant currentTask == old(currentTask) && !switchPending
        invariant forall i :: 0 <= i < |tasks| && Passed(currentTask, i, n, |tasks|) ==> !(tasks[i].active && tasks[i].entry)
      {
        next := next + 1;
        if next >= |tasks| {
          next := 0;
        }
        if tasks[next].active && tasks[next].entry {
          currentTask := next;
          tally := tally.(switches := Inc(tally.switches));
          inTask := true;
          return true, tasks[next].esp;
        }
      }
      dispatch, esp := false, Null;
    }

    /** scheduler_running_task_id, with a main task registered. */
    function RunningTaskId(): int
      reads `inTask, `mainTaskId, `currentTask
    {
      if !inTask && mainTaskId >= 0 then mainTaskId else currentTask
    }

    /** One step of whoever runs, or of the timer. */
    method Step(e: Event) returns (dispatch: bool)
      requires Inv()
      modifies this
      ensures Inv() && !dispatch
      ensures cpu == old(cpu) || RightStep(old(cpu), cpu)
      ensures LagOf(tally) == LagOf(old(tally))
    {
      hide *;
      InvFacts();
      var id := RunningTaskId();
      RunningIs();
      dispatch := false;
      ghost var c, t := cpu, tasks;
      match e {
        case Timer(offset) =>
          var frame := if cpu.landing == Null then Stack(id, offset) else IrqFrame(id);
          PushesThere(c, id, offset);
          TimerInterrupt(frame);
          InterruptIsRight(c, frame, if cpu.running == c.running then frame else t[cpu.running].irqEsp, cpu);
        case Proceeds =>
          if cpu.landing != Null {
            Land();
            LandingIsRight(c, cpu);
          }
        case Yield(offset) =>
          if cpu.landing == Null {
            if id in committing {
              YieldCommit(Stack(id, offset));
              YieldIsRight(c, Stack(id, offset), IrqFrame(id), t[mainTaskId].irqEsp, cpu);
            } else {
              var path := YieldCheck();
            }
          }
        case MainPolls =>
          if id == mainTaskId {
            var esp;
            dispatch, esp := Poll();
            InvHolds();
          }
      }
    }

    lemma RunningIs()
      requires Inv()
      ensures RunningTaskId() == cpu.running
    {
    }

    /** Whatever happens in whatever order, an interrupt between the tests and the cli of
        a yield or before a landing included: the invariant holds, poll never dispatches,
        and every step of the machine, driven by the addresses it is given, is a right one. */
    method Run(events: seq<Event>) returns (dispatched: bool, ghost trace: seq<Machine>)
      requires Inv()
      modifies this
      ensures Inv() && !dispatched
      ensures |trace| == |events| + 1 && trace[0] == old(cpu) && trace[|events|] == cpu
      ensures forall k :: 0 <= k < |events| ==> trace[k + 1] == trace[k] || RightStep(trace[k], trace[k + 1])
      ensures Distinct(cpu.resumed) && LagOf(tally) == LagOf(old(tally))
    {
      hide *;
      trace, dispatched := [cpu], false;
      for i := 0 to |events|
        invariant Inv() && !dispatched && LagOf(tally) == LagOf(old(tally)) && |trace| == i + 1 && trace[0] == old(cpu) && trace[i] == cpu
        invariant forall k :: 0 <= k < i ==> trace[k + 1] == trace[k] || RightStep(trace[k], trace[k + 1])
      {
        var d := Step(events[i]);
        dispatched := dispatched || d;
        trace := trace + [cpu];
      }
      NothingTwice();
    }

    lemma NothingTwice()
      requires Inv()
      ensures Distinct(cpu.resumed)
    {
    }
  }

  lemma SmallTable()
    ensures MAX_TASKS >= 3
  {
  }

  /** A quantum goes by, and another actor than the one that ran goes on. */
  method Quantum(s: Scheduler)
    requires s.Inv() && s.ticksInQuantum == 0
    modifies s
    ensures s.Inv() && s.ticksInQuantum == 0 && s.committing == old(s.committing) && s.mainTaskId == old(s.mainTaskId)
    ensures |s.tasks| == |old(s.tasks)| && s.cpu.running != old(s.cpu.running) < |s.tasks|
    ensures old(s.cpu.landing == Null && s.cpu.running != s.mainTaskId) ==> s.tasks[old(s.cpu.running)].irqEsp.Stack?
  {
    hide *;
    s.InvFacts();
    ghost var t, r := s.tasks, s.cpu.running;
    var frame := if s.cpu.landing == Null then Stack(s.cpu.running, 0) else IrqFrame(s.cpu.running);
    for n := 0 to 10
      invariant s.Inv() && s.committing == old(s.committing) && s.mainTaskId == old(s.mainTaskId)
      invariant n < 10 ==> s.ticksInQuantum == n && s.tasks == t && s.cpu.running == r && s.cpu.landing == old(s.cpu.landing)
      invariant n == 10 ==> s.ticksInQuantum == 0 && s.cpu.running != r && s.cpu.running < |t|
                            && s.tasks == Switched(t, r, frame, s.cpu.running, s.mainTaskId)
    {
      PushesThere(s.cpu, r, 0);
      s.InvFacts();
      s.TimerInterrupt(frame);
    }
    SwitchedAt(t, r, frame, s.cpu.running, s.mainTaskId);
  }

  /** A run from boot to the gates: two tasks and main. */
  method FromBoot() returns (s: Scheduler)
    ensures fresh(s) && s.Inv() && s.ticksInQuantum == 0 && s.committing == {} && s.cpu.running == s.mainTaskId
  {
    hide *;
    SmallTable();
    s := new Scheduler();
    var a := s.CreateKernelTask(true);
    var b := s.CreateKernelTask(true);
    var m := s.RegisterMainTask();
    s.SetMainSwitch(true);
    s.CoopFacts();
    s.Start();
  }

  /** Whoever runs lands, if it has yet to. */
  method LandFirst(s: Scheduler)
    requires s.Inv()
    modifies s`cpu
    ensures s.Inv() && s.cpu.landing == Null && s.cpu.running == old(s.cpu.running)
  {
    hide *;
    if s.cpu.landing != Null {
      s.Land();
    }
  }

  /** The running task yields, if it is not main that runs. */
  method BackToMain(s: Scheduler, ghost id: nat)
    requires s.Inv() && s.committing == {} && id < |s.tasks| && id != s.mainTaskId && id != s.cpu.running
    modifies s
    ensures s.Inv() && s.cpu.running == s.mainTaskId && id < |s.tasks| && id != s.mainTaskId && s.tasks[id] == old(s.tasks[id])
  {
    hide *;
    s.InvFacts();
    if s.cpu.running != s.mainTaskId {
      LandFirst(s);
      s.InvFacts();
      var path := s.YieldCheck();
      YieldedElsewhere(s.tasks, s.cpu.running, Stack(s.cpu.running, 0), s.mainTaskId, id);
      s.YieldCommit(Stack(s.cpu.running, 0));
    }
  }

  /** A run from boot that ends with the gate switched off while a task is stopped inside: from
      then on a poll that chooses this task loads ESP with an address where nothing is saved. */
  method OffTooEarly() returns (s: Scheduler, id: nat)
    ensures fresh(s) && !s.preemptiveEnabled && s.cpu.running == s.mainTaskId && s.cpu.running < |s.cpu.saved|
    ensures id < |s.tasks| && id != s.mainTaskId && s.tasks[id].active && s.tasks[id].entry
    ensures forall sp: Address :: sp.Stack? && sp.owner == s.mainTaskId ==>
              !Returnable(Yielding(s.cpu, sp, Null).memory, s.tasks[id].esp)
  {
    hide *;
    s := FromBoot();
    Quantum(s);
    id := s.cpu.running;
    LandFirst(s);
    Quantum(s);
    BackToMain(s, id);
    s.MainLoops();
    s.Slots();
    forall sp: Address | sp.Stack? && sp.owner == s.mainTaskId
      ensures s.cpu.running < |s.cpu.saved| && !Returnable(Yielding(s.cpu, sp, Null).memory, s.tasks[id].esp)
    {
      NoWayBack(s.tasks, s.mainTaskId, s.cpu, id, sp);
    }
    s.Stop();
  }

  /** With preemption off: the timer fires, whoever runs goes on as far as its next call of the
      scheduler, or the second gate is set. */
  datatype CoopEvent = Ticks(offset: nat) | Goes(offset: nat) | Gate(enabled: bool)

  /** What can happen next: the timer fires, the running actor lands, goes on inside
      scheduler_yield, or the main loop polls. */
  datatype Event = Timer(offset: nat) | Proceeds | Yield(offset: nat) | MainPolls
}
