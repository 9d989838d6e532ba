/**
 The process table of the kernel, seen from outside: every terminal owns a call stack of
 processes, `execute` pushes, `halt` pops, and a timer tick hands the processor to the
 cyclically next terminal that has a stack. `Kernel` shows that the tables the kernel
 really updates (PID_arr, the PCB slots, term_arr, the saved contexts) implement this
 machine; the lemmas here are about every run of it.
 */
module ProcessMachine {
  import opened Limits

  const MAX_PROCESSES: nat := 6

  /** The pair of registers that identifies a suspended kernel context. */
  datatype Context = Context(esp: int, ebp: int)

  /** A live process and the context its `execute` was called in. */
  datatype Frame = Frame(pid: nat, caller: Context)

  datatype Machine = Machine(stacks: seq<seq<Frame>>, active: nat, saved: seq<Context>)

  /** A system call or interrupt; `cpu` is the context it interrupts. */
  datatype Event =
    | Execute(valid: bool, cpu: Context)
    | Halt(cpu: Context)
    | Tick(cpu: Context)
    | Launch(terminal: nat, cpu: Context)

  /** Where the processor goes next: back to the caller, into a fresh program, or into a
      suspended context. */
  datatype Outcome = Returned(value: int) | Entered(pid: nat) | Resumed(context: Context)

  function Pids(stack: seq<Frame>): set<nat> {
    set i | 0 <= i < |stack| :: stack[i].pid
  }

  function Live(stacks: seq<seq<Frame>>): set<nat>
    requires |stacks| == TERMINALS
  {
    Pids(stacks[0]) + Pids(stacks[1]) + Pids(stacks[2])
  }

  /** The least unused PID at or above `p`; 7 when there is none. */
  function LeastFree(live: set<nat>, p: nat := 1): (r: nat)
    requires 1 <= p <= MAX_PROCESSES + 1
    ensures p <= r <= MAX_PROCESSES + 1
    ensures r <= MAX_PROCESSES ==> r !in live
    ensures forall q :: p <= q < r ==> q in live
    decreases MAX_PROCESSES + 1 - p
  {
    if p > MAX_PROCESSES || p !in live then p else LeastFree(live, p + 1)
  }

  predicate Full(live: set<nat>) {
    forall p :: 1 <= p <= MAX_PROCESSES ==> p in live
  }

  function TopPid(stack: seq<Frame>): (p: nat)
    ensures stack != [] ==> p in Pids(stack)
  {
    if stack == [] then 0 else stack[|stack| - 1].pid
  }

  ghost predicate Distinct(stack: seq<Frame>) {
    forall i, j :: 0 <= i < j < |stack| ==> stack[i].pid != stack[j].pid
  }

  /** Three disjoint stacks of distinct PIDs between 1 and 6. */
  ghost predicate WellFormed(m: Machine) {
    && |m.stacks| == TERMINALS && m.active < TERMINALS && |m.saved| == MAX_PROCESSES
    && (forall t :: 0 <= t < TERMINALS ==> Distinct(m.stacks[t]))
    && (forall t, p :: 0 <= t < TERMINALS && p in Pids(m.stacks[t]) ==> 1 <= p <= MAX_PROCESSES)
    && (forall t, u :: 0 <= t < u < TERMINALS ==> Pids(m.stacks[t]) !! Pids(m.stacks[u]))
  }

  /** The terminal that holds the processor has a process, unless nothing has started yet. */
  ghost predicate Inv(m: Machine) {
    && WellFormed(m)
    && (m.stacks[m.active] == [] ==> forall t :: 0 <= t < TERMINALS ==> m.stacks[t] == [])
  }

  ghost predicate Enabled(m: Machine, e: Event) {
    match e
    case Halt(_) => m.active < |m.stacks| && m.stacks[m.active] != []
    case Launch(t, _) => t == 1 || t == 2
    case _ => true
  }

  function After(t: nat): nat { if t < TERMINALS - 1 then t + 1 else 0 }

  /** The first started terminal after `t`, going round. */
  function NextStarted(stacks: seq<seq<Frame>>, t: nat): (r: nat)
    requires |stacks| == TERMINALS && t < TERMINALS && stacks[t] != []
    ensures r < TERMINALS && stacks[r] != []
  {
    if stacks[After(t)] != [] then After(t)
    else if stacks[After(After(t))] != [] then After(After(t))
    else t
  }

  /** Going round from `t`, no terminal before the chosen one is started. */
  lemma NextIsCyclicallyFirst(stacks: seq<seq<Frame>>, t: nat)
    requires |stacks| == TERMINALS && t < TERMINALS && stacks[t] != []
    ensures exists k :: (1 <= k <= TERMINALS && Round(t, k) == NextStarted(stacks, t)
                         && forall j :: 1 <= j < k ==> stacks[Round(t, j)] == [])
  {
    assert Round(t, 1) == After(t) && Round(t, 2) == After(After(t)) && Round(t, 3) == t;
  }

  /** `k` places after `t` on the ring of terminals. */
  function Round(t: nat, k: nat): (r: nat)
    ensures r < TERMINALS
  {
    (t + k) % TERMINALS
  }

  ghost function Push(m: Machine, cpu: Context): Machine
    requires WellFormed(m)
  {
    m.(stacks := m.stacks[m.active := m.stacks[m.active] + [Frame(LeastFree(Live(m.stacks)), cpu)]])
  }

  function Pop(m: Machine): Machine
    requires |m.stacks| == TERMINALS && m.active < TERMINALS && m.stacks[m.active] != []
  {
    var s := m.stacks[m.active];
    m.(stacks := m.stacks[m.active := s[..|s| - 1]])
  }

  ghost function Step(m: Machine, e: Event): (Machine, Outcome)
    requires WellFormed(m) && Enabled(m, e)
  {
    match e
    case Execute(valid, cpu) =>
      if !valid then (m, Returned(-1))
      else if Full(Live(m.stacks)) then (m, Resumed(cpu))
      else (Push(m, cpu), Entered(LeastFree(Live(m.stacks))))
    case Halt(cpu) =>
      var s := m.stacks[m.active];
      var popped := Pop(m);
      if |s| > 1 then (popped, Resumed(s[|s| - 1].caller))
      else PopIsWellFormed(m); (Push(popped, cpu), Entered(LeastFree(Live(popped.stacks))))
    case Tick(cpu) =>
      if m.stacks[m.active] == [] then (m, Returned(0))
      else
        var next := NextStarted(m.stacks, m.active);
        var saved := m.saved[TopPid(m.stacks[m.active]) - 1 := cpu];
        (m.(saved := saved, active := next), Resumed(saved[TopPid(m.stacks[next]) - 1]))
    case Launch(t, cpu) =>
      if m.stacks[t] != [] || Full(Live(m.stacks)) then (m, Returned(0))
      else (Push(m.(active := t), cpu), Entered(LeastFree(Live(m.stacks))))
  }

  lemma PidsAfterPush(stack: seq<Frame>, f: Frame)
    ensures Pids(stack + [f]) == Pids(stack) + {f.pid}
    ensures Distinct(stack) && f.pid !in Pids(stack) ==> Distinct(stack + [f])
  {
    var s := stack + [f];
    assert s[|stack|] == f;
    forall p | p in Pids(stack) ensures p in Pids(s) {
      var i :| 0 <= i < |stack| && stack[i].pid == p;
      assert s[i].pid == p;
    }
  }

  lemma PidsAfterPop(stack: seq<Frame>)
    requires stack != [] && Distinct(stack)
    ensures Pids(stack[..|stack| - 1]) == Pids(stack) - {TopPid(stack)}
    ensures Distinct(stack[..|stack| - 1])
  {
    var s := stack[..|stack| - 1];
    forall p | p in Pids(stack) && p != TopPid(stack) ensures p in Pids(s) {
      var i :| 0 <= i < |stack| && stack[i].pid == p;
      assert s[i].pid == p;
    }
  }

  lemma PopIsWellFormed(m: Machine)
    requires WellFormed(m) && m.stacks[m.active] != []
    ensures WellFormed(Pop(m))
    ensures Live(Pop(m).stacks) == Live(m.stacks) - {TopPid(m.stacks[m.active])}
    ensures 1 <= TopPid(m.stacks[m.active]) <= MAX_PROCESSES
  {
    PidsAfterPop(m.stacks[m.active]);
  }

  lemma PushIsWellFormed(m: Machine, cpu: Context)
    requires WellFormed(m) && !Full(Live(m.stacks))
    ensures WellFormed(Push(m, cpu))
    ensures Live(Push(m, cpu).stacks) == Live(m.stacks) + {LeastFree(Live(m.stacks))}
  {
    PidsAfterPush(m.stacks[m.active], Frame(LeastFree(Live(m.stacks)), cpu));
  }

  /** Every step keeps the invariant. */
  lemma StepKeepsInv(m: Machine, e: Event)
    requires Inv(m) && Enabled(m, e)
    ensures Inv(Step(m, e).0)
  {
    match e
    case Execute(valid, cpu) =>
      if valid && !Full(Live(m.stacks)) { PushIsWellFormed(m, cpu); }
    case Halt(cpu) =>
      PopIsWellFormed(m);
      PushIsWellFormed(Pop(m), cpu);
    case Tick(cpu) =>
    case Launch(t, cpu) =>
      if m.stacks[t] == [] && !Full(Live(m.stacks)) { PushIsWellFormed(m.(active := t), cpu); }
  }

  /** The too-many-processes path is never entered from an empty terminal. */
  lemma EmptyActiveMeansRoom(m: Machine)
    requires Inv(m)
    ensures m.stacks[m.active] == [] ==> !Full(Live(m.stacks))
  {
    assert m.stacks[m.active] == [] ==> 1 !in Live(m.stacks);
  }

  // ---------- Runs ----------

  /** Before the first program: no process, terminal 0 selected, contexts zeroed. */
  function Initial(): (m: Machine) {
    Machine([[], [], []], 0, seq(MAX_PROCESSES, _ => Context(0, 0)))
  }

  ghost predicate Legal(m: Machine, es: seq<Event>)
    requires Inv(m)
    decreases |es|
  {
    es == [] || (Enabled(m, es[0]) && (StepKeepsInv(m, es[0]); Legal(Step(m, es[0]).0, es[1..])))
  }

  ghost function Run(m: Machine, es: seq<Event>): (r: Machine)
    requires Inv(m) && Legal(m, es)
    ensures Inv(r)
    decreases |es|
  {
    if es == [] then m else StepKeepsInv(m, es[0]); Run(Step(m, es[0]).0, es[1..])
  }

  /** Where the processor went at each event of the run. */
  ghost function Trace(m: Machine, es: seq<Event>): (r: seq<Outcome>)
    requires Inv(m) && Legal(m, es)
    ensures |r| == |es|
    decreases |es|
  {
    if es == [] then []
    else StepKeepsInv(m, es[0]); [Step(m, es[0]).1] + Trace(Step(m, es[0]).0, es[1..])
  }

  /** No state of the run, first and last included, has `t` active. */
  ghost predicate StaysOff(m: Machine, es: seq<Event>, t: nat)
    requires Inv(m) && Legal(m, es)
    decreases |es|
  {
    m.active != t && (es == [] || (StepKeepsInv(m, es[0]); StaysOff(Step(m, es[0]).0, es[1..], t)))
  }

  lemma {:induction false} StepSparesWaiting(m: Machine, e: Event, t: nat)
    requires Inv(m) && Enabled(m, e) && t < TERMINALS && m.stacks[t] != [] && m.active != t
    ensures Inv(Step(m, e).0) && Step(m, e).0.stacks[t] == m.stacks[t] && TopPid(m.stacks[t]) >= 1
    ensures Step(m, e).0.saved[TopPid(m.stacks[t]) - 1] == m.saved[TopPid(m.stacks[t]) - 1]
  {
    StepKeepsInv(m, e);
    assert TopPid(m.stacks[t]) in Pids(m.stacks[t]);
    if m.stacks[m.active] != [] {
      assert TopPid(m.stacks[m.active]) in Pids(m.stacks[m.active]);
    }
  }

  /** While a started terminal waits, nothing other terminals do touches its stack or the
      context saved for its top process, whatever PIDs are freed and reused. */
  lemma {:induction false} WaitingTerminalIsUntouched(m: Machine, es: seq<Event>, t: nat)
    requires Inv(m) && Legal(m, es) && StaysOff(m, es, t)
    requires t < TERMINALS && m.stacks[t] != []
    ensures Run(m, es).stacks[t] == m.stacks[t]
    ensures Run(m, es).saved[TopPid(m.stacks[t]) - 1] == m.saved[TopPid(m.stacks[t]) - 1]
    decreases |es|
  {
    hide Step, WellFormed, Enabled, Live;
    if es != [] {
      StepKeepsInv(m, es[0]);
      StepSparesWaiting(m, es[0], t);
      WaitingTerminalIsUntouched(Step(m, es[0]).0, es[1..], t);
    }
  }

  lemma TickLoadsSavedSlot(m: Machine, cpu: Context, t: nat)
    requires Inv(m) && m.active != t && t < TERMINALS && m.stacks[t] != []
    ensures Step(m, Tick(cpu)).0.active == t ==>
              Step(m, Tick(cpu)).1 == Resumed(m.saved[TopPid(m.stacks[t]) - 1])
  {
    assert TopPid(m.stacks[t]) != TopPid(m.stacks[m.active]);
  }

  /** A terminal preempted by a tick gets back, at the tick that next selects it, exactly
      the registers the preempting tick stored. */
  lemma TickResumesPreemptedContext(m: Machine, cpu: Context, n: Machine, es: seq<Event>, r: Machine, cpu': Context)
    requires Inv(m) && m.stacks[m.active] != [] && n == Step(m, Tick(cpu)).0
    requires Inv(n) && Legal(n, es) && StaysOff(n, es, m.active) && r == Run(n, es)
    requires Step(r, Tick(cpu')).0.active == m.active
    ensures Step(r, Tick(cpu')).1 == Resumed(cpu)
  {
    TickKeepsPreemptedStack(m, cpu);
    hide Step, Live, Legal, Run, StaysOff;
    WaitingTerminalIsUntouched(n, es, m.active);
    StaysOffAtEnd(n, es, m.active);
    TickLoadsSavedSlot(r, cpu', m.active);
  }

  lemma TickKeepsPreemptedStack(m: Machine, cpu: Context)
    requires Inv(m) && m.stacks[m.active] != []
    ensures var n, p := Step(m, Tick(cpu)).0, TopPid(m.stacks[m.active]);
      n.stacks == m.stacks && p >= 1 && |n.saved| >= p && n.saved[p - 1] == cpu
  {}

  /** With no other terminal started the tick resumes what it interrupted. */
  lemma LoneTerminalResumesAtOnce(m: Machine, cpu: Context)
    requires Inv(m) && m.stacks[m.active] != [] && Step(m, Tick(cpu)).0.active == m.active
    ensures Step(m, Tick(cpu)).1 == Resumed(cpu)
  {}

  lemma {:induction false} StaysOffAtEnd(m: Machine, es: seq<Event>, t: nat)
    requires Inv(m) && Legal(m, es) && StaysOff(m, es, t)
    ensures Run(m, es).active != t
    decreases |es|
  {
    if es != [] {
      StepKeepsInv(m, es[0]);
      StaysOffAtEnd(Step(m, es[0]).0, es[1..], t);
    }
  }

  lemma LaunchKeepsDisplacedStack(m: Machine, u: nat, cpu: Context)
    requires Inv(m) && m.stacks[m.active] != [] && Enabled(m, Launch(u, cpu))
    ensures var n := Step(m, Launch(u, cpu)).0;
      n.saved == m.saved && |n.stacks| == TERMINALS && n.stacks[m.active] == m.stacks[m.active]
  {}

  /** A first-time launch takes the processor without storing anything, so the displaced
      terminal is resumed in whatever an earlier tick left in its slot: it continues where
      it was exactly when that slot already held the displaced context. */
  lemma LaunchResumesStaleContext(m: Machine, u: nat, cpu: Context, n: Machine, es: seq<Event>, r: Machine,
                                  cpu': Context)
    requires Inv(m) && m.stacks[m.active] != [] && Enabled(m, Launch(u, cpu))
    requires m.stacks[u] == [] && !Full(Live(m.stacks)) && n == Step(m, Launch(u, cpu)).0
    requires Inv(n) && Legal(n, es) && StaysOff(n, es, m.active) && r == Run(n, es)
    requires Step(r, Tick(cpu')).0.active == m.active
    ensures Step(r, Tick(cpu')).1 == Resumed(cpu) <==> m.saved[TopPid(m.stacks[m.active]) - 1] == cpu
  {
    hide Step, Live, Legal, Run, StaysOff;
    LaunchKeepsDisplacedStack(m, u, cpu);
    WaitingTerminalIsUntouched(n, es, m.active);
    StaysOffAtEnd(n, es, m.active);
    TickLoadsSavedSlot(r, cpu', m.active);
  }

  function Booted(boot: Context): (m: Machine) {
    Initial().(stacks := [[Frame(1, boot)], [], []])
  }

  function BootedAndLaunched(boot: Context, cpu: Context): (m: Machine) {
    Initial().(stacks := [[Frame(1, boot)], [Frame(2, cpu)], []], active := 1)
  }

  lemma InitialIsInv()
    ensures Inv(Initial())
  {}

  lemma BootStartsPidOne(boot: Context)
    ensures Inv(Initial()) && Step(Initial(), Execute(true, boot)) == (Booted(boot), Entered(1))
  {
    var m := Initial();
    InitialIsInv();
    assert Live(m.stacks) == {};
    assert m.stacks[0] + [Frame(1, boot)] == [Frame(1, boot)];
    assert Push(m, boot).stacks == [[Frame(1, boot)], [], []];
  }

  lemma FirstLaunchStartsPidTwo(boot: Context, cpu: Context)
    ensures Inv(Booted(boot))
    ensures Step(Booted(boot), Launch(1, cpu)) == (BootedAndLaunched(boot, cpu), Entered(2))
  {
    var n := Booted(boot);
    assert n.stacks[0][0] == Frame(1, boot);
    assert Live(n.stacks) == {1};
    assert LeastFree({1}) == 2;
    assert n.stacks[1] + [Frame(2, cpu)] == [Frame(2, cpu)];
    assert Push(n.(active := 1), cpu).stacks == [[Frame(1, boot)], [Frame(2, cpu)], []];
  }

  /** The failing case is real: boot, launch terminal 1, tick. Terminal 0 is resumed with
      zeroed registers whatever it was doing. */
  lemma LaunchAfterBootLosesContext(boot: Context, cpu: Context, cpu': Context)
    ensures Inv(Initial()) && Step(Initial(), Execute(true, boot)).0 == Booted(boot)
    ensures Inv(Booted(boot)) && Step(Booted(boot), Launch(1, cpu)).0 == BootedAndLaunched(boot, cpu)
    ensures var o := BootedAndLaunched(boot, cpu);
      Inv(o) && Step(o, Tick(cpu')).0.active == 0 && Step(o, Tick(cpu')).1 == Resumed(Context(0, 0))
  {
    BootStartsPidOne(boot);
    FirstLaunchStartsPidTwo(boot, cpu);
    TickAfterFirstLaunch(boot, cpu, cpu');
  }

  lemma TickAfterFirstLaunch(boot: Context, cpu: Context, cpu': Context)
    ensures var o := BootedAndLaunched(boot, cpu);
      Inv(o) && Step(o, Tick(cpu')).0.active == 0 && Step(o, Tick(cpu')).1 == Resumed(Context(0, 0))
  {
    FirstLaunchStartsPidTwo(boot, cpu);
    StepKeepsInv(Booted(boot), Launch(1, cpu));
    var o := BootedAndLaunched(boot, cpu);
    assert NextStarted(o.stacks, 1) == 0;
  }

  /** Every state of the run has more than `h` processes on terminal `t`. */
  ghost predicate StaysAbove(m: Machine, es: seq<Event>, t: nat, h: nat)
    requires Inv(m) && Legal(m, es) && t < TERMINALS
    decreases |es|
  {
    |m.stacks[t]| > h && (es == [] || (StepKeepsInv(m, es[0]); StaysAbove(Step(m, es[0]).0, es[1..], t, h)))
  }

  lemma {:induction false} LowerFramesAreUntouched(m: Machine, es: seq<Event>, t: nat, h: nat)
    requires Inv(m) && Legal(m, es) && t < TERMINALS && h >= 1 && StaysAbove(m, es, t, h)
    ensures |Run(m, es).stacks[t]| > h
    ensures Run(m, es).stacks[t][..h + 1] == m.stacks[t][..h + 1]
    decreases |es|
  {
    if es != [] {
      StepKeepsInv(m, es[0]);
      var n := Step(m, es[0]).0;
      assert n.stacks[t][..h + 1] == m.stacks[t][..h + 1];
      LowerFramesAreUntouched(n, es[1..], t, h);
    }
  }

  /** `execute` and `halt` nest: the halt that removes a child continues in the very
      context its parent called execute in, with the parent's stack as it was, whatever ran
      (and was rescheduled) in between. */
  lemma HaltReturnsToItsExecute(m: Machine, cpu: Context, es: seq<Event>, cpu': Context)
    requires Inv(m) && m.stacks[m.active] != [] && !Full(Live(m.stacks))
    ensures Inv(Step(m, Execute(true, cpu)).0)
    ensures var n, t, h := Step(m, Execute(true, cpu)).0, m.active, |m.stacks[m.active]|;
      Legal(n, es) && StaysAbove(n, es, t, h)
      && Run(n, es).active == t && |Run(n, es).stacks[t]| == h + 1
      ==> var (o, out) := Step(Run(n, es), Halt(cpu'));
          out == Resumed(cpu) && o.stacks[t] == m.stacks[t]
  {
    StepKeepsInv(m, Execute(true, cpu));
    var n, t, h := Step(m, Execute(true, cpu)).0, m.active, |m.stacks[m.active]|;
    if Legal(n, es) && StaysAbove(n, es, t, h) {
      LowerFramesAreUntouched(n, es, t, h);
      var r := Run(n, es).stacks[t];
      assert r[..h + 1][h] == n.stacks[t][..h + 1][h];
      assert r[..h] == r[..h + 1][..h];
      assert n.stacks[t][..h + 1][..h] == m.stacks[t];
    }
  }

  function Ticks(es: seq<Event>): nat {
    if es == [] then 0 else (if es[0].Tick? then 1 else 0) + Ticks(es[1..])
  }

  predicate NoLaunch(es: seq<Event>) {
    forall i :: 0 <= i < |es| ==> !es[i].Launch?
  }

  /** Some tick of the run selects terminal `t`. */
  ghost predicate GetsSelected(m: Machine, es: seq<Event>, t: nat)
    requires Inv(m) && Legal(m, es)
    decreases |es|
  {
    es != [] && (StepKeepsInv(m, es[0]);
                 (es[0].Tick? && Step(m, es[0]).0.active == t) || GetsSelected(Step(m, es[0]).0, es[1..], t))
  }

  /** How many ticks away the selection of `t` is. */
  function Distance(stacks: seq<seq<Frame>>, a: nat, t: nat): (d: nat)
    requires |stacks| == TERMINALS && a < TERMINALS && stacks[a] != []
    ensures 1 <= d <= 3
  {
    var n := NextStarted(stacks, a);
    if n == t then 1 else if NextStarted(stacks, n) == t then 2 else 3
  }

  /** The search depends only on which terminals are started, and each tick comes nearer. */
  lemma DistanceShrinks(stacks: seq<seq<Frame>>, stacks': seq<seq<Frame>>, a: nat, t: nat)
    requires |stacks| == |stacks'| == TERMINALS && a < TERMINALS && t < TERMINALS
    requires stacks[a] != [] && stacks[t] != []
    requires forall u :: 0 <= u < TERMINALS ==> (stacks[u] == [] <==> stacks'[u] == [])
    ensures Distance(stacks', a, t) == Distance(stacks, a, t)
    ensures NextStarted(stacks, a) != t ==>
              Distance(stacks', NextStarted(stacks, a), t) < Distance(stacks, a, t)
  {}

  lemma StepKeepsStarted(m: Machine, e: Event)
    requires Inv(m) && Enabled(m, e) && !e.Launch?
    requires m.stacks[m.active] != []
    ensures var n := Step(m, e).0;
      |n.stacks| == TERMINALS && (!e.Tick? ==> n.active == m.active)
      && forall u :: 0 <= u < TERMINALS ==> (n.stacks[u] == [] <==> m.stacks[u] == [])
  {}

  lemma {:induction false} SelectedWithinDistance(m: Machine, es: seq<Event>, t: nat)
    requires Inv(m) && Legal(m, es) && NoLaunch(es)
    requires t < TERMINALS && m.stacks[t] != []
    requires Ticks(es) >= Distance(m.stacks, m.active, t)
    ensures GetsSelected(m, es, t)
    decreases |es|
  {
    assert es != [];
    StepKeepsInv(m, es[0]);
    var n := Step(m, es[0]).0;
    StepKeepsStarted(m, es[0]);
    DistanceShrinks(m.stacks, n.stacks, m.active, t);
    if !(es[0].Tick? && n.active == t) {
      SelectedWithinDistance(n, es[1..], t);
    }
  }

  /** Three ticks with no first-time launch among them select every started terminal, with
      any executes and halts in between. */
  lemma ThreeTicksSelectEveryStartedTerminal(m: Machine, es: seq<Event>, t: nat)
    requires Inv(m) && Legal(m, es) && NoLaunch(es) && Ticks(es) == 3
    requires t < TERMINALS && m.stacks[t] != []
    ensures GetsSelected(m, es, t)
  {
    SelectedWithinDistance(m, es, t);
  }
}
