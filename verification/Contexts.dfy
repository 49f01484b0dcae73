/** Saved contexts, and the switches between them. Stacks are abstract addresses; a saved
    context is a numbered continuation. */
module Contexts {

  type u32 = x: int | 0 <= x < 0x1_0000_0000

  const MAX_TASKS: nat := 8
  const QUANTUM: nat := 10

  function Inc(x: u32): u32 {
    (x + 1) % 0x1_0000_0000
  }

  /** A stack pointer: none, a place on an actor's stack, or a task's synthetic frame. */
  datatype Address = Null | Stack(owner: nat, offset: nat) | IrqFrame(id: nat)

  datatype Task = Task(esp: Address, irqEsp: Address, resumeIrqEsp: Address, entry: bool, active: bool)

  /** The flags, as one value. */
  datatype Status = Status(currentTask: int, inTask: bool, mainPaused: bool, pending: bool, ready: bool)

  /** The statistics counters. */
  datatype Tally = Tally(switches: u32, requests: u32, frames: u32, contexts: u32, candidates: u32, preempts: u32,
                         blocked: u32, captures: u32, mainToTask: u32, irqToMain: u32, yieldToMain: u32)

  datatype YieldPath = Back | Commit | Cooperative

  // ----- the machine ------------------------------------------------------------------------

  /** What lies at an address: a cooperative save, an interrupt frame, or a frame that
      returns into scheduler_resume_from_saved_esp with a stack pointer in its EAX slot. */
  datatype Saved = Coop(k: nat) | Interrupt(k: nat) | Synthetic(eax: Address)

  /** Memory and who runs. `landing` is not Null while the running actor is between the
      iret of a synthetic frame and the load of ESP from EAX, and is that EAX. For the
      statements: each actor's last saved continuation, the next unused number, and the
      continuations resumed so far, in order. */
  datatype Machine = Machine(memory: map<Address, Saved>, running: nat, landing: Address, saved: seq<nat>, unused: nat,
                             resumed: seq<nat>)

  function Owner(a: Address): nat {
    match a
    case Null => 0
    case Stack(o, _) => o
    case IrqFrame(id) => id
  }

  /** ESP at a can be returned through. */
  predicate Loadable(mem: map<Address, Saved>, a: Address) {
    a in mem &&
    match mem[a]
    case Interrupt(_) => a.Stack?
    case Synthetic(s) => a.IrqFrame? && s.Stack? && s.owner == a.id && s in mem && mem[s].Coop?
    case Coop(_) => false
  }

  /** The continuation that memory holds there. */
  function Continuation(mem: map<Address, Saved>, a: Address): nat
    requires Loadable(mem, a)
  {
    match mem[a]
    case Interrupt(k) => k
    case Synthetic(s) => mem[s].k
    case Coop(k) => k
  }

  /** Returning from interrupt with ESP at a resumes continuation k. */
  ghost predicate Denotes(mem: map<Address, Saved>, a: Address, k: nat) {
    Loadable(mem, a) && Continuation(mem, a) == k
  }

  /** Memory after actor i has run: whatever was saved on its stack is gone. */
  function Trash(mem: map<Address, Saved>, i: nat): map<Address, Saved> {
    map a | a in mem && !(a.Stack? && a.owner == i) :: mem[a]
  }

  /** Where the processor pushes: on the stack of whoever runs, or, before a landing, just
      where the synthetic frame was popped from. */
  predicate Pushes(c: Machine, frame: Address) {
    if c.landing == Null then frame.Stack? && frame.owner == c.running else frame == IrqFrame(c.running)
  }

  /** The stub pushes a frame. Before a landing that is the synthetic frame over again, EAX
      included, and nothing has run that there would be to save. */
  function Interrupted(c: Machine, frame: Address): (r: Machine)
    requires c.running < |c.saved|
    ensures |r.saved| == |c.saved| && r.resumed == c.resumed && r.running == c.running
  {
    if c.landing == Null
    then c.(memory := c.memory[frame := Interrupt(c.unused)], saved := c.saved[c.running := c.unused], unused := c.unused + 1)
    else c.(memory := c.memory[frame := Synthetic(c.landing)])
  }

  /** The switch helper saves the running task at sp and overwrites the EAX slot of the
      frame at resumeIrqEsp, if there is one. */
  function Yielding(c: Machine, sp: Address, resumeIrqEsp: Address): (r: Machine)
    requires c.running < |c.saved|
    ensures |r.saved| == |c.saved| && r.resumed == c.resumed && r.running == c.running
  {
    var m := c.memory[sp := Coop(c.unused)];
    c.(memory := if resumeIrqEsp != Null && resumeIrqEsp in m && m[resumeIrqEsp].Synthetic? then m[resumeIrqEsp := Synthetic(sp)] else m,
       saved := c.saved[c.running := c.unused], unused := c.unused + 1)
  }

  /** The return through the frame at a: what lies there decides what goes on. */
  function ResumeAt(c: Machine, a: Address): (r: Machine)
    requires Loadable(c.memory, a)
    ensures r.saved == c.saved && r.unused == c.unused && r.running == Owner(a)
  {
    if c.memory[a].Synthetic? then c.(running := Owner(a), landing := c.memory[a].eax)
    else c.(running := Owner(a), landing := Null, resumed := c.resumed + [Continuation(c.memory, a)],
            memory := Trash(c.memory, Owner(a)))
  }

  /** ESP can be loaded with a for a plain return: a cooperative save lies there. */
  predicate Returnable(mem: map<Address, Saved>, a: Address) {
    a.Stack? && a in mem && mem[a].Coop?
  }

  /** The return through the cooperative save at a. */
  function ReturnAt(c: Machine, a: Address): (r: Machine)
    requires Returnable(c.memory, a)
    ensures r.saved == c.saved && r.unused == c.unused && r.running == Owner(a)
  {
    c.(running := Owner(a), landing := Null, resumed := c.resumed + [c.memory[a].k], memory := Trash(c.memory, Owner(a)))
  }

  predicate CanLand(c: Machine) {
    c.landing in c.memory && c.memory[c.landing].Coop?
  }

  /** ESP is loaded from EAX, and the cooperative save there goes on. */
  function Landed(c: Machine): (r: Machine)
    requires CanLand(c)
    ensures r.saved == c.saved && r.unused == c.unused && r.running == c.running
  {
    c.(landing := Null, resumed := c.resumed + [c.memory[c.landing].k], memory := Trash(c.memory, c.running))
  }

  /** What the hardware and the assembly can do in one step, whatever addresses they are given. */
  ghost predicate MachineStep(c: Machine, c': Machine) {
    || (c.landing != Null && CanLand(c) && c' == Landed(c))
    || (c.running < |c.saved| && exists frame, a ::
          Pushes(c, frame) && Loadable(Interrupted(c, frame).memory, a) && c' == ResumeAt(Interrupted(c, frame), a))
    || (c.running < |c.saved| && exists sp, r, a ::
          c.landing == Null && Loadable(Yielding(c, sp, r).memory, a) && c' == ResumeAt(Yielding(c, sp, r), a))
    || (c.running < |c.saved| && exists sp, r, a ::
          c.landing == Null && Returnable(Yielding(c, sp, r).memory, a) && c' == ReturnAt(Yielding(c, sp, r), a))
  }

  /** ESP at `a` resumes actor i just where it last stopped, and that was not resumed before. */
  ghost predicate Resumable(c: Machine, i: nat, a: Address) {
    i < |c.saved| && Owner(a) == i && Denotes(c.memory, a, c.saved[i]) && c.saved[i] < c.unused && c.saved[i] !in c.resumed
  }

  /** So does the EAX of a running actor that has not landed yet. */
  ghost predicate AtLanding(c: Machine) {
    && c.running < |c.saved| && c.landing.Stack? && c.landing.owner == c.running
    && c.landing in c.memory && c.memory[c.landing] == Coop(c.saved[c.running])
    && c.saved[c.running] < c.unused && c.saved[c.running] !in c.resumed
  }

  /** Actor i is on its way on from its last save: there already, or about to land on it. */
  ghost predicate RunsOn(c: Machine, c': Machine, i: nat) {
    && i < |c.saved| && c'.running == i && c'.saved == c.saved && c'.unused == c.unused
    && if c'.landing == Null then c'.resumed == c.resumed + [c.saved[i]]
       else c'.resumed == c.resumed && CanLand(c') && c'.memory[c'.landing] == Coop(c.saved[i])
  }

  /** What lies at the address decides, and decides right. */
  lemma ResumesRight(c: Machine, i: nat, a: Address)
    requires Resumable(c, i, a)
    ensures Loadable(c.memory, a) && RunsOn(c, ResumeAt(c, a), i)
    ensures ResumeAt(c, a).landing != Null ==> AtLanding(ResumeAt(c, a)) && a == IrqFrame(i)
  {
  }

  /** No frame can be returned through twice: one on a stack is gone once its owner has run,
      and so is the save that a synthetic one points at, unless it is refreshed. */
  lemma FrameConsumed(c: Machine, a: Address)
    requires Loadable(c.memory, a)
    ensures a.Stack? ==> !Loadable(ResumeAt(c, a).memory, a)
    ensures a.IrqFrame? ==> CanLand(ResumeAt(c, a)) && !Loadable(Landed(ResumeAt(c, a)).memory, a)
  {
  }

  // ----- what every run keeps ---------------------------------------------------------------------

  /** Main at its slot, every other slot a kernel task with a frame to resume it by. */
  ghost predicate TableOf(t: seq<Task>, main: int) {
    && 0 <= main < |t| <= MAX_TASKS && 3 <= |t|
    && (forall i :: 0 <= i < |t| ==> t[i].active && (t[i].entry <==> i != main))
    && (forall i :: 0 <= i < |t| ==> t[i].resumeIrqEsp == if i == main then Null else IrqFrame(i))
    && (forall i {:trigger t[i].irqEsp} :: 0 <= i < |t| && i != main ==> t[i].irqEsp != Null)
    && !t[main].irqEsp.IrqFrame?
  }

  /** Who runs, as the flags tell it. */
  ghost predicate FlagsOf(t: seq<Task>, main: int, now: Status, running: nat) {
    && 0 <= main < |t| && running < |t| && 0 <= now.currentTask < |t|
    && (now.inTask <==> now.mainPaused) && (now.inTask <==> t[main].irqEsp != Null)
    && (now.inTask <==> running != main) && (now.inTask ==> now.currentTask == running)
  }

  /** Only tasks have synthetic frames to land from. */
  ghost predicate LandsOf(main: int, c: Machine) {
    c.landing != Null ==> c.running != main
  }

  /** Actor i has a save that it has not gone on from. */
  ghost predicate Waits(c: Machine, i: int) {
    i != c.running || c.landing != Null
  }

  /** Every actor but the running one can be resumed exactly where it last stopped, and
      nowhere it was resumed before; a running one before its landing will land so. */
  ghost predicate FramesOf(t: seq<Task>, c: Machine) {
    && |c.saved| == |t|
    && (forall i :: 0 <= i < |t| && i != c.running ==> Resumable(c, i, t[i].irqEsp))
    && (c.landing != Null ==> AtLanding(c))
    && (forall i, j :: 0 <= i < j < |t| && Waits(c, i) && Waits(c, j) ==> c.saved[i] != c.saved[j])
    && (forall k :: k in c.resumed ==> k < c.unused) && Distinct(c.resumed) && Persistent(t, c.memory)
  }

  /** Every task keeps its synthetic frame. */
  ghost predicate Persistent(t: seq<Task>, mem: map<Address, Saved>) {
    forall i {:trigger t[i].resumeIrqEsp} :: 0 <= i < |t| && t[i].resumeIrqEsp != Null ==>
      t[i].resumeIrqEsp == IrqFrame(i) && IrqFrame(i) in mem && mem[IrqFrame(i)].Synthetic?
  }

  ghost predicate Distinct(s: seq<nat>) {
    forall i, j :: 0 <= i < j < |s| ==> s[i] != s[j]
  }

  /** Every visit to a task ended or is still on, modulo the counters' width. */
  ghost predicate Balanced(n: Tally, mainPaused: bool) {
    n.mainToTask as int == (n.irqToMain + n.yieldToMain + (if mainPaused then 1 else 0)) % 0x1_0000_0000
  }

  /** How far switches lag behind expired quanta, modulo the counters' width, and how many
      were blocked: what does not change while every expired quantum switches at once. */
  datatype Lag = Lag(behind: int, missed: int, blocked: int)

  ghost function LagOf(n: Tally): Lag {
    Lag((n.requests - n.preempts) % 0x1_0000_0000, (n.candidates - n.preempts) % 0x1_0000_0000, n.blocked)
  }

  ghost predicate Good(t: seq<Task>, main: int, now: Status, n: Tally, c: Machine) {
    && TableOf(t, main) && FlagsOf(t, main, now, c.running) && FramesOf(t, c) && Balanced(n, now.mainPaused)
    && LandsOf(main, c)
    && !now.pending
  }

  // ----- a switch by interrupt -------------------------------------------------------------------------

  /** The table after actor `from` is interrupted at `frame` and `to` is chosen. */
  ghost function Switched(t: seq<Task>, from: nat, frame: Address, to: nat, main: int): (t2: seq<Task>)
    requires from < |t| && to < |t|
    ensures |t2| == |t|
  {
    var t1 := t[from := t[from].(irqEsp := frame)];
    if to == main then t1[to := t1[to].(irqEsp := Null)] else t1
  }

  /** The counters after a switch by interrupt. */
  ghost function Counted(n: Tally, fromMain: bool, toMain: bool): Tally {
    n.(switches := Inc(n.switches), candidates := Inc(n.candidates), preempts := Inc(n.preempts), frames := Inc(n.frames),
       captures := if fromMain then Inc(n.captures) else n.captures,
       mainToTask := if fromMain then Inc(n.mainToTask) else n.mainToTask,
       irqToMain := if toMain then Inc(n.irqToMain) else n.irqToMain)
  }

  /** The counters after an interrupt that switches nothing: `due` if one was asked for and
      somebody could take over, `on` with the preemption gate on, `seen` if it caught main. */
  ghost function Refused(n: Tally, due: bool, on: bool, seen: bool): Tally {
    n.(frames := Inc(n.frames), candidates := if due then Inc(n.candidates) else n.candidates,
       captures := if due && on && seen then Inc(n.captures) else n.captures,
       blocked := if due && on then Inc(n.blocked) else n.blocked)
  }

  ghost function Arrived(to: nat, main: int): Status {
    Status(to, to != main, to != main, false, false)
  }

  /** Actor `from`, interrupted at `frame`, gives way to another, to be resumed at esp. */
  ghost predicate SwitchMade(t: seq<Task>, n: Tally, from: nat, frame: Address, main: int, t': seq<Task>, now': Status, n': Tally,
                             esp: Address) {
    var to := now'.currentTask;
    && 0 <= to < |t| && to != from < |t| && esp == t[to].irqEsp != Null
    && t' == Switched(t, from, frame, to, main) && now' == Arrived(to, main) && n' == Counted(n, from == main, to == main)
  }

  /** A switch by interrupt at `frame`, whatever the flags: the interrupted one is the current
      task, or main if the flags say that no task runs. Its frame is stored, the cyclically
      next resumable slot takes over, and main's frame is cleared when a task gives way to it. */
  ghost predicate TakenOver(t: seq<Task>, n: Tally, now: Status, frame: Address, main: int, t': seq<Task>, now': Status, n': Tally,
                            esp: Address) {
    var from, to := if now.inTask then now.currentTask else main, now'.currentTask;
    && 0 <= from < |t| && 0 <= to < |t| && to != now.currentTask && CanResume(t[to])
    && (forall i :: Between(now.currentTask, i, to) && i < |t| ==> !CanResume(t[i]))
    && t' == (if now.inTask then Switched(t, from, frame, to, main) else t[from := t[from].(irqEsp := frame)])
    && esp == (if to == from then frame else t[to].irqEsp)
    && now' == Status(to, !now.inTask || to != main, !now.inTask || (to != main && now.mainPaused), false, false)
    && n' == Counted(n, !now.inTask, now.inTask && to == main)
  }

  lemma MainPaused(t: seq<Task>, n: Tally, now: Status, frame: Address, main: nat, t': seq<Task>, now': Status, n': Tally,
                   esp: Address, to: nat)
    requires !now.inTask && main < |t| && to < |t| && to != now.currentTask && CanResume(t[to])
    requires forall i :: Between(now.currentTask, i, to) && i < |t| ==> !CanResume(t[i])
    requires t' == t[main := t[main].(irqEsp := frame)] && esp == t'[to].irqEsp && now' == Status(to, true, true, false, false)
    requires n' == n.(frames := Inc(n.frames), candidates := Inc(n.candidates), captures := Inc(n.captures),
                      switches := Inc(n.switches), preempts := Inc(n.preempts), mainToTask := Inc(n.mainToTask))
    ensures TakenOver(t, n, now, frame, main, t', now', n', esp)
  {
    hide Inc, CanResume, Between;
  }

  lemma TaskLeft(t: seq<Task>, n: Tally, now: Status, frame: Address, main: int, t': seq<Task>, now': Status, n': Tally,
                 esp: Address, to: nat)
    requires now.inTask && 0 <= now.currentTask < |t| && to < |t| && to != now.currentTask && CanResume(t[to])
    requires forall i :: Between(now.currentTask, i, to) && i < |t| ==> !CanResume(t[i])
    requires var t1 := t[now.currentTask := t[now.currentTask].(irqEsp := frame)];
             t' == if to == main then t1[to := t1[to].(irqEsp := Null)] else t1
    requires esp == t[to].irqEsp && now' == Status(to, to != main, to != main && now.mainPaused, false, false)
    requires n' == n.(frames := Inc(n.frames), candidates := Inc(n.candidates), switches := Inc(n.switches), preempts := Inc(n.preempts),
                      irqToMain := if to == main then Inc(n.irqToMain) else n.irqToMain)
    ensures TakenOver(t, n, now, frame, main, t', now', n', esp)
  {
    hide Inc, CanResume, Between;
  }

  /** With the flags in step it leads to another actor, and the flags say who runs. */
  lemma TakenInStep(t: seq<Task>, n: Tally, now: Status, frame: Address, main: int, t': seq<Task>, now': Status, n': Tally,
                    esp: Address, from: nat)
    requires TakenOver(t, n, now, frame, main, t', now', n', esp)
    requires if now.inTask then now.mainPaused && now.currentTask == from != main
             else from == main && from < |t| && !CanResume(t[from])
    ensures SwitchMade(t, n, from, frame, main, t', now', n', esp)
  {
    hide Inc, Counted;
  }

  lemma TableSwitched(t: seq<Task>, main: int, now: Status, from: nat, frame: Address, to: nat)
    requires TableOf(t, main) && FlagsOf(t, main, now, from) && to < |t| && from != to && frame != Null
    requires from == main ==> frame.Stack?
    ensures TableOf(Switched(t, from, frame, to, main), main)
    ensures FlagsOf(Switched(t, from, frame, to, main), main, Arrived(to, main), to)
  {
  }

  /** Counting one more, modulo 2^32, on either side of a balance. */
  lemma Wrapped(a: u32, b: u32, p: nat)
    requires p <= 1
    ensures (Inc(a) + b + p) % 0x1_0000_0000 == (a + b + p + 1) % 0x1_0000_0000
    ensures Inc((a + b + p) % 0x1_0000_0000) as int == (a + b + p + 1) % 0x1_0000_0000
  {
    var s := a + b + p;
    if s >= 0x1_0000_0000 {
      assert s % 0x1_0000_0000 == s - 0x1_0000_0000;
    }
  }

  lemma BalanceSwitched(n: Tally, paused: bool, fromMain: bool, toMain: bool)
    requires Balanced(n, paused) && fromMain == !paused && !(fromMain && toMain)
    ensures Balanced(Counted(n.(requests := Inc(n.requests)), fromMain, toMain), !toMain)
  {
    hide Inc;
    Wrapped(n.irqToMain, n.yieldToMain, 0);
  }

  // ----- saving and resuming --------------------------------------------------------------------

  /** Nobody runs: actor i goes on at e[i], exactly where it last stopped. */
  ghost predicate Stopped(e: seq<Address>, c: Machine) {
    && |e| == |c.saved| && c.running < |e|
    && (forall i :: 0 <= i < |e| ==> Resumable(c, i, e[i]))
    && (forall i, j :: 0 <= i < j < |e| ==> c.saved[i] != c.saved[j])
    && (forall k :: k in c.resumed ==> k < c.unused) && Distinct(c.resumed)
  }

  /** Where each actor goes on after `from` has been stopped at `frame`. */
  ghost function Places(t: seq<Task>, from: nat, frame: Address): (e: seq<Address>)
    ensures |e| == |t| && forall i :: 0 <= i < |t| ==> e[i] == if i == from then frame else t[i].irqEsp
  {
    seq(|t|, i requires 0 <= i < |t| => if i == from then frame else t[i].irqEsp)
  }

  /** What is saved for actor j survives a write for another actor, and a run of it. */
  lemma OthersKeep(mem: map<Address, Saved>, a: Address, k: nat, j: nat, at: Address, s: Saved)
    requires Denotes(mem, a, k) && Owner(a) == j && at != Null && Owner(at) != j
    ensures Denotes(mem[at := s], a, k) && Denotes(Trash(mem, Owner(at)), a, k)
  {
  }

  /** Stopping the running actor, wherever it is, puts it among the others. */
  lemma StopsByInterrupt(t: seq<Task>, c: Machine, frame: Address)
    requires FramesOf(t, c) && c.running < |t| && Pushes(c, frame)
    ensures Stopped(Places(t, c.running, frame), Interrupted(c, frame))
    ensures Persistent(t, Interrupted(c, frame).memory)
  {
    var from, c1, e := c.running, Interrupted(c, frame), Places(t, c.running, frame);
    var s := if c.landing == Null then Interrupt(c.unused) else Synthetic(c.landing);
    assert c1.memory == c.memory[frame := s];
    forall i | 0 <= i < |t|
      ensures Resumable(c1, i, e[i])
    {
      if i != from {
        assert Resumable(c, i, t[i].irqEsp);
        OthersKeep(c.memory, t[i].irqEsp, c.saved[i], i, frame, s);
      }
    }
    forall i, j | 0 <= i < j < |t|
      ensures c1.saved[i] != c1.saved[j]
    {
      assert i != from ==> Resumable(c, i, t[i].irqEsp);
      assert j != from ==> Resumable(c, j, t[j].irqEsp);
      assert c.landing != Null ==> Waits(c, i) && Waits(c, j);
      assert i != from && j != from ==> Waits(c, i) && Waits(c, j);
    }
  }

  lemma TrashKeeps(t: seq<Task>, mem: map<Address, Saved>, i: nat)
    requires Persistent(t, mem)
    ensures Persistent(t, Trash(mem, i))
  {
  }

  lemma Appended(resumed: seq<nat>, c: nat)
    requires Distinct(resumed) && c !in resumed
    ensures Distinct(resumed + [c])
  {
  }

  /** Returning through the frame of any stopped actor leaves the others stopped; t may say
      what it likes of the one that runs. */
  lemma Resumes(e: seq<Address>, c: Machine, to: nat, t: seq<Task>)
    requires Stopped(e, c) && to < |e| == |t| && Persistent(t, c.memory)
    requires forall i :: 0 <= i < |e| && i != to ==> t[i].irqEsp == e[i]
    ensures Loadable(c.memory, e[to]) && RunsOn(c, ResumeAt(c, e[to]), to) && FramesOf(t, ResumeAt(c, e[to]))
  {
    assert Resumable(c, to, e[to]);
    ResumesRight(c, to, e[to]);
    var c2 := ResumeAt(c, e[to]);
    Appended(c.resumed, c.saved[to]);
    TrashKeeps(t, c.memory, to);
    forall i | 0 <= i < |t| && i != to
      ensures Resumable(c2, i, t[i].irqEsp)
    {
      assert Resumable(c, i, e[i]);
      OthersKeep(c.memory, e[i], c.saved[i], i, e[to], Coop(0));
    }
  }

  /** Landing is going on from the last save. */
  lemma Lands(t: seq<Task>, c: Machine)
    requires FramesOf(t, c) && c.running < |t| && c.landing != Null
    ensures CanLand(c) && FramesOf(t, Landed(c)) && Landed(c).resumed == c.resumed + [c.saved[c.running]]
  {
    var c2 := Landed(c);
    Appended(c.resumed, c.saved[c.running]);
    TrashKeeps(t, c.memory, c.running);
    forall i | 0 <= i < |t| && i != c.running
      ensures Resumable(c2, i, t[i].irqEsp)
    {
      assert Resumable(c, i, t[i].irqEsp) && Waits(c, i) && Waits(c, c.running);
      OthersKeep(c.memory, t[i].irqEsp, c.saved[i], i, c.landing, Coop(0));
    }
    forall i, j | 0 <= i < j < |t| && Waits(c2, i) && Waits(c2, j)
      ensures c2.saved[i] != c2.saved[j]
    {
      assert Waits(c, i) && Waits(c, j);
    }
  }

  /** Interrupting one actor and returning through another's frame resumes that one, and
      keeps every save good. */
  lemma FramesSwitched(t: seq<Task>, c: Machine, frame: Address, to: nat, main: int)
    requires FramesOf(t, c) && c.running < |t| && to < |t| && c.running != to && Pushes(c, frame)
    ensures var c1 := Interrupted(c, frame);
            && Loadable(c1.memory, t[to].irqEsp) && RunsOn(c1, ResumeAt(c1, t[to].irqEsp), to)
            && FramesOf(Switched(t, c.running, frame, to, main), ResumeAt(c1, t[to].irqEsp))
  {
    var c1, t1 := Interrupted(c, frame), Switched(t, c.running, frame, to, main);
    StopsByInterrupt(t, c, frame);
    hide FramesOf, Stopped, Interrupted, RunsOn, Loadable;
    Resumes(Places(t, c.running, frame), c1, to, t1);
  }

  /** Interrupting an actor and returning through the frame just pushed lets it run on. */
  lemma FramesStay(t: seq<Task>, c: Machine, frame: Address)
    requires FramesOf(t, c) && c.running < |t| && Pushes(c, frame)
    ensures var c1 := Interrupted(c, frame);
            && Loadable(c1.memory, frame) && RunsOn(c1, ResumeAt(c1, frame), c.running) && FramesOf(t, ResumeAt(c1, frame))
  {
    StopsByInterrupt(t, c, frame);
    hide FramesOf, Stopped, Interrupted, RunsOn, Loadable;
    Resumes(Places(t, c.running, frame), Interrupted(c, frame), c.running, t);
  }

  // ----- a switch by yield -----------------------------------------------------------------------------

  /** The table after task `from` yields at sp to the paused main loop. */
  ghost function Yielded(t: seq<Task>, from: nat, sp: Address, main: nat): seq<Task>
    requires from < |t| && main < |t|
  {
    t[from := t[from].(irqEsp := t[from].resumeIrqEsp, esp := sp)][main := t[main].(irqEsp := Null)]
  }

  lemma TableYielded(t: seq<Task>, from: nat, sp: Address, main: nat)
    requires TableOf(t, main) && from < |t| && from != main
    ensures TableOf(Yielded(t, from, sp, main), main) && t[from].resumeIrqEsp == IrqFrame(from)
    ensures FlagsOf(Yielded(t, from, sp, main), main, Arrived(main, main), main)
  {
  }

  lemma BalanceYielded(n: Tally)
    requires Balanced(n, true)
    ensures Balanced(n.(yieldToMain := Inc(n.yieldToMain)), false)
  {
    hide Inc;
    Wrapped(n.yieldToMain, n.irqToMain, 0);
  }

  lemma StopsByYield(t: seq<Task>, c: Machine, sp: Address)
    requires FramesOf(t, c) && c.running < |t| && c.landing == Null && sp.Stack? && sp.owner == c.running
    requires t[c.running].resumeIrqEsp == IrqFrame(c.running)
    ensures Stopped(Places(t, c.running, IrqFrame(c.running)), Yielding(c, sp, IrqFrame(c.running)))
    ensures Persistent(t, Yielding(c, sp, IrqFrame(c.running)).memory)
  {
    var from, c1, e := c.running, Yielding(c, sp, IrqFrame(c.running)), Places(t, c.running, IrqFrame(c.running));
    assert c1.memory == c.memory[sp := Coop(c.unused)][IrqFrame(from) := Synthetic(sp)];
    forall i | 0 <= i < |t|
      ensures Resumable(c1, i, e[i])
    {
      if i != from {
        assert Resumable(c, i, t[i].irqEsp);
        OthersKeep(c.memory, t[i].irqEsp, c.saved[i], i, sp, Coop(c.unused));
        OthersKeep(c.memory[sp := Coop(c.unused)], t[i].irqEsp, c.saved[i], i, IrqFrame(from), Synthetic(sp));
      }
    }
    forall i, j | 0 <= i < j < |t|
      ensures c1.saved[i] != c1.saved[j]
    {
      assert i != from ==> Resumable(c, i, t[i].irqEsp);
      assert j != from ==> Resumable(c, j, t[j].irqEsp);
      assert i != from && j != from ==> Waits(c, i) && Waits(c, j);
    }
  }

  lemma YieldPlaces(t: seq<Task>, from: nat, sp: Address, main: nat)
    requires from < |t| && main < |t| && from != main && t[from].resumeIrqEsp == IrqFrame(from)
    ensures |Yielded(t, from, sp, main)| == |t|
    ensures forall i :: 0 <= i < |t| && i != main ==> Yielded(t, from, sp, main)[i].irqEsp == Places(t, from, IrqFrame(from))[i]
    ensures forall mem :: Persistent(t, mem) ==> Persistent(Yielded(t, from, sp, main), mem)
  {
  }

  /** A yield saves the task behind its refreshed synthetic frame; returning through main's
      frame resumes main. */
  lemma FramesYielded(t: seq<Task>, c: Machine, sp: Address, main: nat)
    requires FramesOf(t, c) && c.running < |t| && main < |t| && c.running != main && c.landing == Null
    requires sp.Stack? && sp.owner == c.running && t[c.running].resumeIrqEsp == IrqFrame(c.running)
    ensures var c1 := Yielding(c, sp, IrqFrame(c.running));
            && Loadable(c1.memory, t[main].irqEsp) && RunsOn(c1, ResumeAt(c1, t[main].irqEsp), main)
            && FramesOf(Yielded(t, c.running, sp, main), ResumeAt(c1, t[main].irqEsp))
  {
    StopsByYield(t, c, sp);
    YieldPlaces(t, c.running, sp, main);
    hide FramesOf, Stopped, Yielding, Yielded, RunsOn, Loadable, Persistent;
    Resumes(Places(t, c.running, IrqFrame(c.running)), Yielding(c, sp, IrqFrame(c.running)), main, Yielded(t, c.running, sp, main));
  }

  /** Slot i comes after slot a and before slot b, going round. */
  predicate Between(a: int, i: int, b: int) {
    0 <= i && if a < b then a < i < b else a < i || i < b
  }

  /** Slot i is among the first n slots after slot a, going round. */
  predicate Passed(a: int, i: int, n: int, count: int) {
    (a < i <= a + n) || i <= a + n - count
  }

  predicate CanResume(t: Task) {
    t.active && t.irqEsp != Null
  }

  lemma ResumableTask()
    ensures forall t {:trigger CanResume(t)} :: CanResume(t) ==> t.active && t.irqEsp != Null
  {
  }

  /** What a scheduler is for, in terms of continuations alone. Either a landing actor goes on
      from its last save; or the running actor stops, at a new continuation unless it had
      not landed, and some actor goes on from its last save, or is about to. */
  ghost predicate SwitchStep(c: Machine, c': Machine) {
    && c.running < |c.saved| == |c'.saved| && c'.running < |c'.saved|
    && if c.landing != Null && c'.landing == Null && c'.running == c.running
       then c'.saved == c.saved && c'.unused == c.unused && c'.resumed == c.resumed + [c.saved[c.running]]
       else
         && c'.saved == (if c.landing == Null then c.saved[c.running := c.unused] else c.saved)
         && c'.unused == (if c.landing == Null then c.unused + 1 else c.unused)
         && if c'.landing == Null then c'.resumed == c.resumed + [c'.saved[c'.running]]
            else c'.resumed == c.resumed && CanLand(c') && c'.memory[c'.landing] == Coop(c'.saved[c'.running])
  }

  /** The machine did it, and it was right. */
  ghost predicate RightStep(c: Machine, c': Machine) {
    MachineStep(c, c') && SwitchStep(c, c')
  }

  /** Returning through the frame at a made machine c into c', and the actor that runs now
      goes on from its last save. */
  ghost predicate ResumedBy(c: Machine, a: Address, c': Machine) {
    Loadable(c.memory, a) && c' == ResumeAt(c, a) && RunsOn(c, c', c'.running)
  }

  lemma PushesSomewhere(c: Machine, frame: Address)
    requires Pushes(c, frame)
    ensures frame != Null
  {
  }

  lemma PushesThere(c: Machine, id: int, offset: nat)
    requires id == c.running
    ensures Pushes(c, if c.landing == Null then Stack(id, offset) else IrqFrame(id))
  {
  }

  lemma InterruptIsRight(c: Machine, frame: Address, a: Address, c': Machine)
    requires c.running < |c.saved| && Pushes(c, frame) && ResumedBy(Interrupted(c, frame), a, c')
    ensures RightStep(c, c')
  {
    assert Loadable(Interrupted(c, frame).memory, a) && c' == ResumeAt(Interrupted(c, frame), a);
  }

  lemma YieldIsRight(c: Machine, sp: Address, resume: Address, a: Address, c': Machine)
    requires c.running < |c.saved| && c.landing == Null && ResumedBy(Yielding(c, sp, resume), a, c')
    ensures RightStep(c, c')
  {
    assert Loadable(Yielding(c, sp, resume).memory, a) && c' == ResumeAt(Yielding(c, sp, resume), a);
  }

  /** A plain return through the save at a made machine c into c', and the actor that runs now
      goes on from its last save. */
  ghost predicate ReturnedBy(c: Machine, a: Address, c': Machine) {
    Returnable(c.memory, a) && c' == ReturnAt(c, a) && RunsOn(c, c', c'.running)
  }

  lemma ReturnIsRight(c: Machine, sp: Address, resume: Address, a: Address, c': Machine)
    requires c.running < |c.saved| && c.landing == Null && ReturnedBy(Yielding(c, sp, resume), a, c') && c'.landing == Null
    ensures RightStep(c, c')
  {
    assert Returnable(Yielding(c, sp, resume).memory, a) && c' == ReturnAt(Yielding(c, sp, resume), a);
  }

  lemma LandingIsRight(c: Machine, c': Machine)
    requires c.running < |c.saved| && c.landing != Null && CanLand(c) && c' == Landed(c)
    requires c'.resumed == c.resumed + [c.saved[c.running]]
    ensures RightStep(c, c')
  {
  }

  // ----- the steps, on values --------------------------------------------------------------------------

  lemma MadeResumes(t: seq<Task>, n: Tally, from: nat, frame: Address, main: int, t': seq<Task>, now': Status, n': Tally, esp: Address)
    requires SwitchMade(t, n, from, frame, main, t', now', n', esp)
    ensures esp != Null
  {
  }

  /** Counting an interrupt, a switch with its expired quantum, or a yield changes no lag. */
  lemma LagKept(n: Tally, fromMain: bool, toMain: bool)
    ensures LagOf(n.(frames := Inc(n.frames))) == LagOf(n)
    ensures LagOf(Counted(n.(requests := Inc(n.requests)), fromMain, toMain)) == LagOf(n)
    ensures LagOf(n.(yieldToMain := Inc(n.yieldToMain))) == LagOf(n)
  {
    BothOneMore(n.requests, n.preempts);
    BothOneMore(n.candidates, n.preempts);
    hide Inc;
  }

  lemma SwitchLag(t: seq<Task>, n: Tally, from: nat, frame: Address, main: int, t': seq<Task>, now': Status, n': Tally, esp: Address)
    requires SwitchMade(t, n.(requests := Inc(n.requests)), from, frame, main, t', now', n', esp)
    ensures LagOf(n') == LagOf(n)
  {
    hide Inc, LagOf, Counted, Switched;
    LagKept(n, from == main, now'.currentTask == main);
  }

  lemma ContextCounted(n: Tally)
    ensures forall paused :: Balanced(n, paused) ==> Balanced(n.(contexts := Inc(n.contexts)), paused)
    ensures LagOf(n.(contexts := Inc(n.contexts))) == LagOf(n)
  {
    hide Inc;
  }

  /** Neither does a refused switch unbalance the visits. */
  lemma RefusedBalance(n: Tally, due: bool, on: bool, seen: bool, paused: bool)
    requires Balanced(n, paused)
    ensures Balanced(Refused(n, due, on, seen), paused) && Balanced(Refused(n.(requests := Inc(n.requests)), due, on, seen), paused)
  {
    hide Inc;
  }

  lemma BothOneMore(a: u32, b: u32)
    ensures (Inc(a) - Inc(b)) % 0x1_0000_0000 == (a - b) % 0x1_0000_0000
  {
    IncIs(a);
    IncIs(b);
    hide Inc;
    var d := Inc(a) - Inc(b) - (a - b);
    assert d == 0 || d == 0x1_0000_0000 || d == -0x1_0000_0000;
  }

  lemma IncIs(a: u32)
    ensures Inc(a) as int == if a == 0xFFFF_FFFF then 0 else a + 1
  {
  }

  /** A frame that is not a task's synthetic one is not landed from. */
  lemma LandsFrom(c: Machine, a: Address)
    requires Loadable(c.memory, a)
    ensures ResumeAt(c, a).landing != Null ==> a == IrqFrame(ResumeAt(c, a).running)
  {
  }

  lemma Stayed(t: seq<Task>, main: int, now: Status, n: Tally, c: Machine, frame: Address)
    requires Good(t, main, now, n, c) && Pushes(c, frame)
    ensures c.running < |t| == |c.saved|
    ensures Loadable(Interrupted(c, frame).memory, frame)
    ensures Good(t, main, now, n.(frames := Inc(n.frames)), ResumeAt(Interrupted(c, frame), frame))
    ensures ResumedBy(Interrupted(c, frame), frame, ResumeAt(Interrupted(c, frame), frame))
    ensures ResumeAt(Interrupted(c, frame), frame).running == c.running
  {
    hide TableOf, FramesOf, Inc, Resumable, Interrupted, Loadable, RunsOn;
    FramesSize(t, c);
    FramesStay(t, c, frame);
    LandsFrom(Interrupted(c, frame), frame);
    StaysIs(Interrupted(c, frame), ResumeAt(Interrupted(c, frame), frame), c.running);
  }

  lemma StaysIs(c: Machine, c': Machine, i: nat)
    requires RunsOn(c, c', i)
    ensures c'.running == i < |c.saved| && RunsOn(c, c', c'.running)
  {
  }

  lemma LandedOver(t: seq<Task>, main: int, now: Status, n: Tally, c: Machine)
    requires Good(t, main, now, n, c) && c.landing != Null
    ensures c.running < |c.saved| && CanLand(c) && Good(t, main, now, n, Landed(c))
    ensures Landed(c).resumed == c.resumed + [c.saved[c.running]] && Landed(c).running == c.running
  {
    hide TableOf, FramesOf, CanLand;
    FramesSize(t, c);
    Lands(t, c);
  }

  lemma FramesSize(t: seq<Task>, c: Machine)
    requires FramesOf(t, c)
    ensures |c.saved| == |t|
  {
  }

  lemma SwitchedOver(t: seq<Task>, main: int, now: Status, n: Tally, c: Machine, frame: Address, t': seq<Task>, now': Status,
                     n': Tally, esp: Address)
    requires Good(t, main, now, n, c) && Pushes(c, frame)
    requires SwitchMade(t, n.(requests := Inc(n.requests)), c.running, frame, main, t', now', n', esp)
    ensures 0 <= now'.currentTask < |t| == |c.saved| && now'.currentTask != c.running < |t| && |t'| == |t|
    ensures esp == t[now'.currentTask].irqEsp && Loadable(Interrupted(c, frame).memory, esp)
    ensures Good(t', main, now', n', ResumeAt(Interrupted(c, frame), esp))
    ensures ResumedBy(Interrupted(c, frame), esp, ResumeAt(Interrupted(c, frame), esp))
    ensures ResumeAt(Interrupted(c, frame), esp).running == now'.currentTask
  {
    hide FramesOf, Inc, Resumable, Switched, Counted, Interrupted, Loadable, RunsOn;
    FramesSize(t, c);
    var to := now'.currentTask;
    FramesSwitched(t, c, frame, to, main);
    TableSwitched(t, main, now, c.running, frame, to);
    BalanceSwitched(n, now.mainPaused, c.running == main, to == main);
    LandsFrom(Interrupted(c, frame), esp);
    StaysIs(Interrupted(c, frame), ResumeAt(Interrupted(c, frame), esp), to);
  }

  lemma YieldTable(t: seq<Task>, from: nat, sp: Address, main: nat, t': seq<Task>)
    requires from < |t| && main < |t| && from != main
    requires t' == t[from := t[from].(irqEsp := t[from].resumeIrqEsp)][main := t[main].(irqEsp := Null)]
                    [from := t[from].(irqEsp := t[from].resumeIrqEsp, esp := sp)]
    ensures t' == Yielded(t, from, sp, main)
  {
  }

  lemma YieldedOver(t: seq<Task>, main: nat, n: Tally, c: Machine, sp: Address, ready: bool)
    requires TableOf(t, main) && FramesOf(t, c) && c.running < |t| && c.running != main && c.landing == Null
    requires sp.Stack? && sp.owner == c.running && Balanced(n, true)
    ensures main < |t| == |c.saved| && t[c.running].resumeIrqEsp == IrqFrame(c.running)
    ensures var c1 := Yielding(c, sp, IrqFrame(c.running));
            && Loadable(c1.memory, t[main].irqEsp)
            && Good(Yielded(t, c.running, sp, main), main, Status(main, false, false, false, ready),
                    n.(yieldToMain := Inc(n.yieldToMain)), ResumeAt(c1, t[main].irqEsp))
            && ResumedBy(c1, t[main].irqEsp, ResumeAt(c1, t[main].irqEsp)) && ResumeAt(c1, t[main].irqEsp).running == main
  {
    hide FramesOf, Inc, Resumable, Yielded, Yielding, Loadable, RunsOn;
    FramesSize(t, c);
    TableYielded(t, c.running, sp, main);
    FramesYielded(t, c, sp, main);
    BalanceYielded(n);
    LandsFrom(Yielding(c, sp, IrqFrame(c.running)), t[main].irqEsp);
    StaysIs(Yielding(c, sp, IrqFrame(c.running)), ResumeAt(Yielding(c, sp, IrqFrame(c.running)), t[main].irqEsp), main);
  }
}
