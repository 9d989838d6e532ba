/**
 The tables behind the process machine, updated in place as execute, halt, the PIT handler
 and the first-time terminal launches update them. Each method is proved to take the step
 of `ProcessMachine` it stands for, so every theorem about runs of that machine holds of
 the kernel's tables.
 */
module KernelTables {
  import opened Limits
  import opened ProcessMachine

  const KB_8: int := 8192
  const MB_4: int := 4194304
  const MB_8: int := 8388608
  const PDE_FLAGS: int := 0x87
  const FULL_SLOT: nat := 7
  const PCB_BYTES: int := 160

  /** The fields of a PCB slot that process control uses. */
  datatype Pcb = Pcb(pid: nat, parent: nat, terminal: nat, caller: Context)

  datatype Terminal = Terminal(lastActive: nat, flag: nat)

  /** User memory of process `p`: one 4MB page. */
  function UserFrame(p: nat): int { MB_4 + MB_4 * p }

  /** Top of the kernel stack of process `p`. */
  function KernelStackTop(p: nat): int { MB_8 - KB_8 * p - 4 }

  /** The PCB of a slot, at the upper end of its 8KB. */
  function PcbAddress(p: nat): int { MB_8 - KB_8 * p }

  /** How deep a kernel stack may grow before it reaches the PCB of the next slot. */
  const STACK_ROOM: int := KB_8 - 4 - PCB_BYTES

  /** The byte ranges starting at `a` and `b` have nothing in common. */
  predicate Apart(a: int, size: int, b: int, size': int) { a + size <= b || b + size' <= a }

  /** The stack of process `p` grows down towards the PCB of slot p+1, which lies in the same
      8KB: a stack of `depth` bytes keeps clear of all PCBs exactly up to STACK_ROOM. */
  lemma {:induction false} StackKeepsClearOfPcbsIff(p: nat, depth: nat)
    requires 1 <= p <= MAX_PROCESSES
    ensures (forall q :: 1 <= q <= FULL_SLOT ==>
               depth == 0 || Apart(KernelStackTop(p) - depth, depth, PcbAddress(q), PCB_BYTES))
       <==> depth <= STACK_ROOM
  {
    if depth > STACK_ROOM {
      assert !Apart(KernelStackTop(p) - depth, depth, PcbAddress(p + 1), PCB_BYTES);
    }
  }

  /** A 4MB-page directory entry: bits 31..22 hold the frame, the low bits the flags. */
  function PageEntry(frame: int): int { frame + PDE_FLAGS }

  function MappedFrame(pde: int): int { pde - pde % MB_4 }

  /** The least of 1..6 that is not in use. */
  predicate IsLeastFree(live: set<nat>, p: nat) {
    1 <= p <= MAX_PROCESSES && p !in live && forall q :: 1 <= q < p ==> q in live
  }

  // ---------- What each table says about the stacks ----------

  /** PID_arr marks exactly the live processes. */
  predicate PidsDescribe(pids: seq<int>, live: set<nat>) {
    && |pids| == MAX_PROCESSES
    && forall i :: 0 <= i < MAX_PROCESSES ==> pids[i] == if i + 1 in live then 1 else 0
  }

  /** last_active_pro is the top of the stack. */
  ghost predicate TopsDescribe(terms: seq<Terminal>, stacks: seq<seq<Frame>>) {
    && |terms| == |stacks| == TERMINALS
    && (forall t :: 0 <= t < TERMINALS ==> terms[t].lastActive == TopPid(stacks[t]))
    && (forall t :: 0 <= t < TERMINALS ==> terms[t].flag == 1 || (terms[t].flag == 0 && stacks[t] == []))
  }

  /** Each live process is described by its own slot, which names its parent: the process
      below it, or 0 for a root. */
  ghost predicate SlotsDescribe(pcbs: seq<Pcb>, stacks: seq<seq<Frame>>) {
    && |pcbs| == FULL_SLOT + 1
    && forall t :: 0 <= t < |stacks| ==> StackDescribed(pcbs, stacks[t], t)
  }

  ghost predicate StackDescribed(pcbs: seq<Pcb>, stack: seq<Frame>, t: nat) {
    forall i :: 0 <= i < |stack| ==> SlotDescribes(pcbs, stack, t, i)
  }

  ghost predicate SlotDescribes(pcbs: seq<Pcb>, stack: seq<Frame>, t: nat, i: int)
    requires 0 <= i < |stack|
  {
    var p := stack[i].pid;
    p < |pcbs| && pcbs[p] == Pcb(p, if i == 0 then 0 else stack[i - 1].pid, t, stack[i].caller)
  }

  lemma StackKeepsDescription(pcbs: seq<Pcb>, stack: seq<Frame>, t: nat, p: nat, pcb: Pcb)
    requires StackDescribed(pcbs, stack, t) && p < |pcbs| && p !in Pids(stack)
    ensures StackDescribed(pcbs[p := pcb], stack, t)
  {
    var pcbs' := pcbs[p := pcb];
    forall i | 0 <= i < |stack| ensures SlotDescribes(pcbs', stack, t, i) {
      assert SlotDescribes(pcbs, stack, t, i);
    }
  }

  lemma FreeSlotIsNotDescribed(pcbs: seq<Pcb>, stacks: seq<seq<Frame>>, p: nat, pcb: Pcb)
    requires |stacks| == TERMINALS && SlotsDescribe(pcbs, stacks) && p < |pcbs| && p !in Live(stacks)
    ensures SlotsDescribe(pcbs[p := pcb], stacks)
  {
    forall t | 0 <= t < TERMINALS
      ensures StackDescribed(pcbs[p := pcb], stacks[t], t)
    {
      StackKeepsDescription(pcbs, stacks[t], t, p, pcb);
    }
  }

  lemma PushSlots(pcbs: seq<Pcb>, m: Machine, cpu: Context)
    requires WellFormed(m) && !Full(Live(m.stacks)) && SlotsDescribe(pcbs, m.stacks)
    ensures var p := LeastFree(Live(m.stacks));
      SlotsDescribe(pcbs[p := Pcb(p, TopPid(m.stacks[m.active]), m.active, cpu)], Push(m, cpu).stacks)
  {
    var p := LeastFree(Live(m.stacks));
    var pcb := Pcb(p, TopPid(m.stacks[m.active]), m.active, cpu);
    FreeSlotIsNotDescribed(pcbs, m.stacks, p, pcb);
    var s, pcbs' := m.stacks[m.active], pcbs[p := pcb];
    var r := s + [Frame(p, cpu)];
    forall i | 0 <= i < |r| ensures SlotDescribes(pcbs', r, m.active, i) {
      if i < |s| { assert SlotDescribes(pcbs', s, m.active, i); }
    }
  }

  lemma StackPrefixDescribed(pcbs: seq<Pcb>, s: seq<Frame>, t: nat)
    requires s != [] && StackDescribed(pcbs, s, t)
    ensures StackDescribed(pcbs, s[..|s| - 1], t)
  {
    var r := s[..|s| - 1];
    forall i | 0 <= i < |r| ensures SlotDescribes(pcbs, r, t, i) {
      assert SlotDescribes(pcbs, s, t, i);
    }
  }

  lemma PopSlots(pcbs: seq<Pcb>, m: Machine)
    requires WellFormed(m) && m.stacks[m.active] != [] && SlotsDescribe(pcbs, m.stacks)
    ensures SlotsDescribe(pcbs, Pop(m).stacks)
  {
    var s := m.stacks[m.active];
    assert StackDescribed(pcbs, s, m.active);
    StackPrefixDescribed(pcbs, s, m.active);
  }

  /** What the methods read off the tables about the active terminal. */
  lemma ActiveTerminal(terms: seq<Terminal>, pcbs: seq<Pcb>, m: Machine)
    requires WellFormed(m) && TopsDescribe(terms, m.stacks) && SlotsDescribe(pcbs, m.stacks)
    ensures m.active < |m.stacks| == |terms| == TERMINALS && |pcbs| == FULL_SLOT + 1
    ensures var s, term := m.stacks[m.active], terms[m.active];
      && term.lastActive == TopPid(s)
      && (term.flag == 1 || (term.flag == 0 && s == []))
      && (s != [] ==> 1 <= TopPid(s) <= MAX_PROCESSES && SlotDescribes(pcbs, s, m.active, |s| - 1))
  {
    var s := m.stacks[m.active];
    if s != [] { assert StackDescribed(pcbs, s, m.active); }
  }

  lemma PopPids(pids: seq<int>, m: Machine)
    requires WellFormed(m) && m.stacks[m.active] != [] && PidsDescribe(pids, Live(m.stacks))
    ensures var p := TopPid(m.stacks[m.active]);
      1 <= p <= |pids| && PidsDescribe(pids[p - 1 := 0], Live(Pop(m).stacks)) && !Full(Live(Pop(m).stacks))
  {
    PopIsWellFormed(m);
  }

  lemma PopTops(terms: seq<Terminal>, m: Machine)
    requires WellFormed(m) && m.stacks[m.active] != [] && TopsDescribe(terms, m.stacks)
    ensures TopsDescribe(terms[m.active := Terminal(TopPid(Pop(m).stacks[m.active]), 1)], Pop(m).stacks)
  {}

  lemma PushTops(terms: seq<Terminal>, m: Machine, cpu: Context)
    requires WellFormed(m) && TopsDescribe(terms, m.stacks)
    ensures TopsDescribe(terms[m.active := Terminal(LeastFree(Live(m.stacks)), 1)], Push(m, cpu).stacks)
  {}

  /** The PIDs met by following Parent_PID from `p`, at most `fuel` of them. */
  function Chain(pcbs: seq<Pcb>, p: nat, fuel: nat): seq<nat>
    decreases fuel
  {
    if p == 0 || p >= |pcbs| || fuel == 0 then [] else [p] + Chain(pcbs, pcbs[p].parent, fuel - 1)
  }

  /** The k-th process of a chain has its own PID and terminal, and its parent comes next. */
  ghost predicate ChainEntry(pcbs: seq<Pcb>, c: seq<nat>, t: nat, k: int)
    requires 0 <= k < |c|
  {
    && c[k] < |pcbs|
    && pcbs[c[k]].pid == c[k] && pcbs[c[k]].terminal == t
    && pcbs[c[k]].parent == if k == |c| - 1 then 0 else c[k + 1]
  }

  /** Following the parent links walks down the stack and stops below its root. */
  lemma {:induction false} ChainIsStack(pcbs: seq<Pcb>, stack: seq<Frame>, t: nat, fuel: nat)
    requires StackDescribed(pcbs, stack, t) && 0 !in Pids(stack) && fuel >= |stack|
    ensures var c := Chain(pcbs, TopPid(stack), fuel);
      |c| == |stack| && forall k :: 0 <= k < |c| ==> c[k] == stack[|stack| - 1 - k].pid
  {
    if stack != [] {
      var r := stack[..|stack| - 1];
      assert SlotDescribes(pcbs, stack, t, |stack| - 1);
      StackPrefixDescribed(pcbs, stack, t);
      assert forall p :: p in Pids(r) ==> p in Pids(stack);
      ChainIsStack(pcbs, r, t, fuel - 1);
      assert pcbs[TopPid(stack)].parent == TopPid(r);
    }
  }

  lemma {:induction false} StackIsShort(stack: seq<Frame>, pids: set<nat>)
    requires Distinct(stack) && Pids(stack) <= pids
    ensures |stack| <= |pids|
    decreases |stack|
  {
    if stack != [] {
      PidsAfterPop(stack);
      StackIsShort(stack[..|stack| - 1], pids - {TopPid(stack)});
    }
  }

  lemma ChainCovers(pcbs: seq<Pcb>, stack: seq<Frame>, t: nat)
    requires StackDescribed(pcbs, stack, t) && Distinct(stack)
    requires forall p :: p in Pids(stack) ==> 1 <= p <= MAX_PROCESSES
    ensures var c := Chain(pcbs, TopPid(stack), MAX_PROCESSES);
      && |c| == |stack| <= MAX_PROCESSES
      && (forall k :: 0 <= k < |stack| ==> c[k] == stack[|stack| - 1 - k].pid)
      && (forall p :: p in c <==> p in Pids(stack))
  {
    StackIsShort(stack, {1, 2, 3, 4, 5, 6});
    ChainIsStack(pcbs, stack, t, MAX_PROCESSES);
    var c := Chain(pcbs, TopPid(stack), MAX_PROCESSES);
    forall p | p in Pids(stack) ensures p in c {
      var i :| 0 <= i < |stack| && stack[i].pid == p;
      assert c[|stack| - 1 - i] == p;
    }
  }

  class Kernel {
    var pidArr: seq<int>
    var terms: seq<Terminal>
    var pcbs: seq<Pcb>           // slot i lies at 8MB - 8KB*i
    var contexts: seq<Context>   // the PIT handler's saved registers
    var active: nat
    var flagger: nat
    var launched2: bool
    var launched3: bool
    var esp0: int
    var userPde: int
    ghost var stacks: seq<seq<Frame>>

    ghost function View(): Machine
      reads this
    {
      Machine(stacks, active, contexts)
    }

    /** The tables describe the three stacks. The active terminal's root may be missing while
        its flag is still set: that is the state in which halt restarts the shell. */
    ghost predicate Tables()
      reads this
    {
      && WellFormed(View())
      && PidsDescribe(pidArr, Live(stacks)) && TopsDescribe(terms, stacks) && SlotsDescribe(pcbs, stacks)
      && Flags()
    }

    /** Only started terminals and the active one carry a set flag. */
    ghost predicate Flags()
      reads this
      requires |stacks| == |terms| == TERMINALS
    {
      && (forall t :: 0 <= t < TERMINALS && t != active && stacks[t] == [] ==> terms[t].flag == 0)
      && (launched2 <==> stacks[1] != [] || active == 1) && (launched3 <==> stacks[2] != [] || active == 2)
    }

    /** The user page and the kernel stack belong to the process on top of the active terminal. */
    ghost predicate Mapped()
      reads this
      requires active < |stacks|
    {
      stacks[active] != [] ==>
        userPde == PageEntry(UserFrame(TopPid(stacks[active]))) && esp0 == KernelStackTop(TopPid(stacks[active]))
    }

    /** The processor has process `p`'s 4MB page, at 4MB*(p+1), and its kernel stack. */
    ghost predicate RunsOn(p: nat)
      reads this
    {
      userPde == 0x40_0000 * (p + 1) + 0x87 && esp0 == 0x80_0000 - 0x2000 * p - 4
    }

    ghost predicate Valid()
      reads this
    {
      && Tables() && Inv(View()) && Mapped() && flagger == 0
      && (stacks[active] == [] ==> terms[active].flag == 0)
      && (launched2 <==> stacks[1] != []) && (launched3 <==> stacks[2] != [])
    }

    constructor ()
      ensures Valid() && View() == Initial()
      ensures stacks == [[], [], []] && active == 0 && forall i :: 0 <= i < MAX_PROCESSES ==> pidArr[i] == 0
    {
      pidArr := seq(MAX_PROCESSES, _ => 0);
      terms := seq(TERMINALS, _ => Terminal(0, 0));
      pcbs := seq(FULL_SLOT + 1, _ => Pcb(0, 0, 0, Context(0, 0)));
      contexts := seq(MAX_PROCESSES, _ => Context(0, 0));
      active, flagger, launched2, launched3 := 0, 0, false, false;
      esp0, userPde := 0, 0;
      stacks := [[], [], []];
    }

    /** Claims the first free PID; a full table yields 7 and changes nothing. */
    method ClaimPid() returns (counter: nat)
      requires WellFormed(View()) && PidsDescribe(pidArr, Live(stacks))
      modifies `pidArr
      ensures counter == LeastFree(Live(stacks))
      ensures counter == FULL_SLOT <==> Full(Live(stacks))
      ensures counter !in Live(stacks)
      ensures PidsDescribe(pidArr, if Full(Live(stacks)) then Live(stacks) else Live(stacks) + {counter})
      ensures counter == FULL_SLOT ==> pidArr == old(pidArr)
    {
      var count, i := 0, 0;
      counter := 0;
      while i < MAX_PROCESSES
        invariant count == i <= MAX_PROCESSES && pidArr == old(pidArr)
        invariant forall p :: 1 <= p <= i ==> p in Live(stacks)
      {
        if pidArr[i] == 0 {
          pidArr := pidArr[i := 1];
          counter := i + 1;
          break;
        }
        assert pidArr[i] == 1;
        count, i := count + 1, i + 1;
      }
      if count > 5 {
        counter := FULL_SLOT;
      }
    }

    /** `execute`; `valid` says whether the command names an executable. A full table goes
        through slot 7 and a flagged halt and leaves every table as it was. Besides valid
        states (which `EmptyActiveMeansRoom` shows to qualify) it is called by halt, with the
        root of the active terminal just removed. */
    method Execute(valid: bool, cpu: Context) returns (o: Outcome)
      requires Tables() && flagger == 0
      requires stacks[active] == [] ==> !Full(Live(stacks))
      requires valid || Valid()
      modifies this
      ensures Valid()
      ensures (View(), o) == Step(old(View()), ProcessMachine.Execute(valid, cpu))
      ensures !valid ==> o == Returned(-1) && unchanged(this)
      ensures valid && old(Full(Live(stacks)) && Valid()) ==>
        && o == Resumed(cpu) && stacks == old(stacks) && active == old(active) && contexts == old(contexts)
        && pidArr == old(pidArr) && terms == old(terms) && userPde == old(userPde) && esp0 == old(esp0)
      ensures valid && !old(Full(Live(stacks))) ==>
        && o.Entered? && IsLeastFree(old(Live(stacks)), o.pid) && RunsOn(o.pid)
        && stacks == old(stacks)[active := old(stacks[active]) + [Frame(o.pid, cpu)]]
        && active == old(active) && contexts == old(contexts)
      decreases if Full(Live(stacks)) then 1 else 0
    {
      hide WellFormed, Pids, Live, PidsDescribe, TopsDescribe, SlotsDescribe;
      if !valid {
        return Returned(-1);
      }
      ActiveTerminal(terms, pcbs, View());
      var counter := ClaimPid();
      userPde := PageEntry(UserFrame(counter));
      FreeSlotIsNotDescribed(pcbs, stacks, counter, pcbs[counter].(caller := cpu, pid := counter));
      pcbs := pcbs[counter := pcbs[counter].(caller := cpu, pid := counter)];
      if counter == FULL_SLOT {
        flagger := 1;
        o := Halt(cpu);
        assert old(Valid()) ==> old(Mapped()) && Mapped();
      } else {
        Install(counter, cpu);
        o := Entered(counter);
      }
    }

    /** Links a claimed slot in on top of the active terminal. */
    method Install(counter: nat, cpu: Context)
      requires WellFormed(View()) && !Full(Live(stacks)) && counter == LeastFree(Live(stacks))
      requires PidsDescribe(pidArr, Live(stacks) + {counter})
      requires TopsDescribe(terms, stacks) && SlotsDescribe(pcbs, stacks)
      requires pcbs[counter].caller == cpu && Flags() && flagger == 0 && userPde == PageEntry(UserFrame(counter))
      modifies this
      ensures Valid() && View() == Push(old(View()), cpu) && RunsOn(counter)
    {
      hide WellFormed, Pids, Live, LeastFree, PidsDescribe, TopsDescribe, SlotsDescribe;
      ActiveTerminal(terms, pcbs, View());
      var pcb := pcbs[counter];
      if terms[active].flag == 0 {
        pcb := pcb.(parent := 0);
        terms := terms[active := terms[active].(flag := 1)];
      } else {
        pcb := pcb.(parent := terms[active].lastActive);
      }
      terms := terms[active := terms[active].(lastActive := counter)];
      pcbs := pcbs[counter := pcb.(pid := counter, terminal := active)];
      esp0 := KernelStackTop(counter);
      assert terms == old(terms)[active := Terminal(counter, 1)];
      PushSlots(old(pcbs), old(View()), cpu);
      PushTops(old(terms), old(View()), cpu);
      PushIsWellFormed(old(View()), cpu);
      stacks := Push(old(View()), cpu).stacks;
      assert Flags() && Mapped();
    }

    /** `halt`; with `flagger` set it undoes an execute that found the table full. */
    method Halt(cpu: Context) returns (o: Outcome)
      requires Tables() && stacks[active] != [] && flagger <= 1
      requires flagger == 0 ==> Valid()
      modifies this
      ensures Valid()
      ensures old(flagger) == 1 ==> View() == old(View()) && o == Resumed(old(pcbs[FULL_SLOT].caller))
      ensures old(flagger) == 1 ==> pidArr == old(pidArr) && terms == old(terms)
      ensures old(flagger) == 0 ==> (View(), o) == Step(old(View()), ProcessMachine.Halt(cpu))
      ensures var s := old(stacks[active]);
        old(flagger) == 0 && |s| > 1 ==>
          && o == Resumed(s[|s| - 1].caller) && stacks == old(stacks)[active := s[..|s| - 1]]
          && active == old(active) && contexts == old(contexts) && RunsOn(s[|s| - 2].pid)
      ensures old(flagger) == 0 && |old(stacks[active])| == 1 ==>
        && o.Entered? && RunsOn(o.pid) && stacks == old(stacks)[active := [Frame(o.pid, cpu)]]
        && active == old(active) && contexts == old(contexts)
      decreases if flagger == 1 then 0 else 2
    {
      hide WellFormed, Pids, Live, PidsDescribe, TopsDescribe, SlotsDescribe;
      ActiveTerminal(terms, pcbs, View());
      var parentNum, pcb;
      if flagger == 1 {
        parentNum := terms[active].lastActive;
        pcb := pcbs[FULL_SLOT];
        flagger := 0;
      } else {
        pcb := Unlink();
        parentNum := pcb.parent;
      }
      if parentNum == 0 {
        o := Execute(true, cpu);
        assert [] + [Frame(o.pid, cpu)] == [Frame(o.pid, cpu)];
        return;
      }
      esp0 := KernelStackTop(parentNum);
      userPde := PageEntry(UserFrame(parentNum));
      o := Resumed(pcb.caller);
    }

    /** Takes the top process off the active terminal and frees its PID. */
    method Unlink() returns (pcb: Pcb)
      requires Valid() && stacks[active] != []
      modifies `terms, `pidArr, `stacks
      ensures Tables() && View() == Pop(old(View())) && !Full(Live(stacks))
      ensures pcb.parent == TopPid(stacks[active]) && (pcb.parent == 0 <==> stacks[active] == [])
      ensures pcb.caller == old(stacks[active])[|old(stacks[active])| - 1].caller
    {
      hide WellFormed, Pids, Live, PidsDescribe, TopsDescribe, SlotsDescribe;
      ActiveTerminal(terms, pcbs, View());
      PopIsWellFormed(View());
      PopPids(pidArr, View());
      PopTops(terms, View());
      PopSlots(pcbs, View());
      ghost var s := stacks[active];
      var curr := terms[active].lastActive;
      pcb := pcbs[curr];
      terms := terms[active := terms[active].(lastActive := pcb.parent)];
      assert terms == old(terms)[active := Terminal(TopPid(s[..|s| - 1]), 1)];
      pidArr := pidArr[pcb.pid - 1 := 0];
      stacks := Pop(View()).stacks;
    }

    /** The handler's search for the next started terminal; it terminates because `from` is
        itself started. */
    method NextTerminal(from: nat) returns (t: nat)
      requires TopsDescribe(terms, stacks) && from < TERMINALS && stacks[from] != []
      requires forall u :: 0 <= u < TERMINALS && stacks[u] == [] ==> terms[u].flag == 0
      ensures t == NextStarted(stacks, from)
    {
      t := (from + 1) % TERMINALS;
      while true
        invariant t < TERMINALS
        invariant t == After(from) || (t == After(After(from)) && stacks[After(from)] == [])
               || (t == from && stacks[After(from)] == [] && stacks[After(After(from))] == [])
        decreases if t == After(from) then 2 else if t == from then 0 else 1
      {
        if terms[t].flag == 1 {
          break;
        }
        t := (t + 1) % TERMINALS;
      }
    }

    /** The PIT handler: stores the interrupted registers in the top process's slot, moves to
        the next started terminal and loads the registers stored for its top process. */
    method Tick(cpu: Context) returns (o: Outcome)
      requires Valid()
      modifies this
      ensures Valid()
      ensures (View(), o) == Step(old(View()), ProcessMachine.Tick(cpu))
      ensures old(stacks[active]) == [] ==> o == Returned(0) && unchanged(this)
      ensures stacks == old(stacks)
      ensures old(stacks[active]) != [] ==>
        && active == NextStarted(stacks, old(active)) && RunsOn(TopPid(stacks[active]))
        && contexts == old(contexts)[TopPid(old(stacks[active])) - 1 := cpu]
        && o == Resumed(contexts[TopPid(stacks[active]) - 1])
    {
      hide Distinct, Live, PidsDescribe, SlotsDescribe;
      ActiveTerminal(terms, pcbs, View());
      var curr := terms[active].lastActive;
      if curr <= 0 {
        return Returned(0);
      }
      contexts := contexts[curr - 1 := cpu];
      var t := NextTerminal(pcbs[curr].terminal);
      active := t;
      o := LoadTop(t);
    }

    /** Kernel stack, user page and registers of the top process of terminal `t`. */
    method LoadTop(t: nat) returns (o: Outcome)
      requires t < |terms| && 1 <= terms[t].lastActive <= |contexts|
      modifies `esp0, `userPde
      ensures RunsOn(terms[t].lastActive) && o == Resumed(contexts[terms[t].lastActive - 1])
    {
      var curr := terms[t].lastActive;
      esp0 := KernelStackTop(curr);
      userPde := PageEntry(UserFrame(curr));
      o := Resumed(contexts[curr - 1]);
    }

    /** universal_count: is there a free PID? */
    method UniversalCount() returns (free: bool)
      requires Tables()
      ensures free <==> !Full(Live(stacks))
    {
      for i := 0 to MAX_PROCESSES
        invariant forall p :: 1 <= p <= i ==> p in Live(stacks)
      {
        if pidArr[i] == 0 {
          return true;
        }
        assert pidArr[i] == 1;
      }
      return false;
    }

    /** The process part of Alt-F2 and Alt-F3: the first switch to terminal `t` starts a
        shell there, if a PID is free. */
    method Launch(t: nat, cpu: Context) returns (o: Outcome)
      requires Valid() && (t == 1 || t == 2)
      modifies this
      ensures Valid()
      ensures (View(), o) == Step(old(View()), ProcessMachine.Launch(t, cpu))
      ensures old(stacks[t] != [] || Full(Live(stacks))) ==> o == Returned(0) && unchanged(this)
      ensures old(stacks[t] == [] && !Full(Live(stacks))) ==>
        && o.Entered? && IsLeastFree(old(Live(stacks)), o.pid) && RunsOn(o.pid)
        && active == t && stacks == old(stacks)[t := [Frame(o.pid, cpu)]] && contexts == old(contexts)
    {
      o := Returned(0);
      var free := UniversalCount();
      var launched := if t == 1 then launched2 else launched3;
      if !free && !launched {
        return;
      }
      if !launched {
        if t == 1 { launched2 := true; } else { launched3 := true; }
        active := t;
        o := Execute(true, cpu);
        assert [] + [Frame(o.pid, cpu)] == [Frame(o.pid, cpu)];
      }
    }

    ghost function ParentChain(t: nat): seq<nat>
      reads this
      requires t < |terms|
    {
      Chain(pcbs, terms[t].lastActive, MAX_PROCESSES)
    }

    lemma ChainCoversStack(t: nat)
      requires Valid() && t < TERMINALS
      ensures |ParentChain(t)| == |stacks[t]| <= MAX_PROCESSES
      ensures forall k :: 0 <= k < |stacks[t]| ==> ParentChain(t)[k] == stacks[t][|stacks[t]| - 1 - k].pid
      ensures forall p :: p in ParentChain(t) <==> p in Pids(stacks[t])
    {
      ChainCovers(pcbs, stacks[t], t);
    }

    /** In the tables themselves: the Parent_PID chain of each terminal is acyclic and ends in
        a root, its members carry their own PID and terminal, and the flag says whether it
        is empty. */
    lemma ParentChainIsAStack(t: nat)
      requires Valid() && t < TERMINALS
      ensures var c := ParentChain(t);
        && (forall j, k :: 0 <= j < k < |c| ==> c[j] != c[k])
        && (forall k :: 0 <= k < |c| ==> ChainEntry(pcbs, c, t, k))
        && (terms[t].flag == 1 <==> c != [])
    {
      hide Chain, PidsDescribe, Live, ParentChain;
      ChainCoversStack(t);
      var c, s := ParentChain(t), stacks[t];
      forall k | 0 <= k < |c| ensures ChainEntry(pcbs, c, t, k) {
        assert StackDescribed(pcbs, s, t) && SlotDescribes(pcbs, s, t, |s| - 1 - k);
      }
    }

    /** The three chains are disjoint and hold exactly the PIDs marked in PID_arr. */
    lemma ParentChainsPartitionLivePids(p: nat)
      requires Valid() && 1 <= p <= MAX_PROCESSES
      ensures pidArr[p - 1] == 1 <==> exists t :: 0 <= t < TERMINALS && p in ParentChain(t)
      ensures forall t, u :: 0 <= t < u < TERMINALS ==> !(p in ParentChain(t) && p in ParentChain(u))
    {
      forall t | 0 <= t < TERMINALS ensures p in ParentChain(t) <==> p in Pids(stacks[t]) {
        ChainCoversStack(t);
      }
      if pidArr[p - 1] == 1 {
        assert p in ParentChain(0) || p in ParentChain(1) || p in ParentChain(2);
      }
    }

    /** Any two processes, running or waiting, have separate user frames above 8MB, separate
        PCBs, and kernel stacks that stay apart while they are at most STACK_ROOM bytes deep; the
        processor has frame and stack of the top process of the active terminal. */
    lemma ProcessesDoNotShareMemory(p: nat, q: nat)
      requires Valid() && 1 <= p <= MAX_PROCESSES && 1 <= q <= MAX_PROCESSES && p != q
      ensures UserFrame(p) >= MB_8 && Apart(UserFrame(p), MB_4, UserFrame(q), MB_4)
      ensures MB_4 <= KernelStackTop(p) - STACK_ROOM && KernelStackTop(p) <= MB_8
      ensures Apart(KernelStackTop(p) - STACK_ROOM, STACK_ROOM, KernelStackTop(q) - STACK_ROOM, STACK_ROOM)
      ensures Apart(PcbAddress(p), PCB_BYTES, PcbAddress(q), PCB_BYTES)
      ensures stacks[active] != [] ==>
        && terms[active].lastActive in Live(stacks)
        && MappedFrame(userPde) == UserFrame(terms[active].lastActive)
        && esp0 == KernelStackTop(terms[active].lastActive)
    {
      if stacks[active] != [] {
        assert terms[active].lastActive in Pids(stacks[active]);
      }
    }

    /** Any run of system calls, ticks and launches is a run of the process machine, and the
        processor goes where that run takes it. */
    method Dispatch(events: seq<Event>) returns (outcomes: seq<Outcome>)
      requires Valid() && Legal(View(), events)
      modifies this
      ensures Valid() && View() == Run(old(View()), events)
      ensures outcomes == Trace(old(View()), events)
    {
      hide Step, Inv, Enabled;
      ghost var m := View();
      outcomes := [];
      ghost var trace := Trace(m, events);
      assert [] + trace == trace;
      for k := 0 to |events|
        invariant Valid() && Legal(View(), events[k..])
        invariant Run(View(), events[k..]) == Run(m, events)
        invariant outcomes + Trace(View(), events[k..]) == trace
      {
        assert events[k..][1..] == events[k + 1..];
        ghost var n := View();
        StepKeepsInv(n, events[k]);
        var o := DispatchOne(events[k]);
        ghost var rest := Trace(View(), events[k + 1..]);
        assert outcomes + ([o] + rest) == outcomes + [o] + rest;
        outcomes := outcomes + [o];
      }
      assert outcomes + [] == outcomes;
    }

    method DispatchOne(e: Event) returns (o: Outcome)
      requires Valid() && Enabled(View(), e)
      modifies this
      ensures Valid() && (View(), o) == Step(old(View()), e)
    {
      EmptyActiveMeansRoom(View());
      match e
      case Execute(valid, cpu) => o := Execute(valid, cpu);
      case Halt(cpu) => o := Halt(cpu);
      case Tick(cpu) => o := Tick(cpu);
      case Launch(t, cpu) => o := Launch(t, cpu);
    }

    /** On the tables: the terminal a tick preempts continues in the interrupted context at the
        tick that next selects it, whatever the other terminals do in between. */
    method PreemptAndResume(cpu: Context, events: seq<Event>, cpu': Context) returns (o: Outcome)
      requires Valid() && stacks[active] != [] && Inv(Step(View(), ProcessMachine.Tick(cpu)).0)
      requires var n := Step(View(), ProcessMachine.Tick(cpu)).0;
        && Legal(n, events) && StaysOff(n, events, active)
        && Step(Run(n, events), ProcessMachine.Tick(cpu')).0.active == active
      modifies this
      ensures Valid() && active == old(active) && o == Resumed(cpu)
    {
      hide Step, Inv, Enabled;
      ghost var m := View();
      var _ := Tick(cpu);
      ghost var n := View();
      var _ := Dispatch(events);
      TickResumesPreemptedContext(m, cpu, n, events, View(), cpu');
      o := Tick(cpu');
    }

    /** And the halt that removes a child continues where its parent called execute. */
    method CallAndReturn(cpu: Context, events: seq<Event>, cpu': Context) returns (o: Outcome)
      requires Valid() && stacks[active] != [] && !Full(Live(stacks))
      requires Inv(Step(View(), ProcessMachine.Execute(true, cpu)).0)
      requires var n, h := Step(View(), ProcessMachine.Execute(true, cpu)).0, |stacks[active]|;
        && Legal(n, events) && StaysAbove(n, events, active, h)
        && Run(n, events).active == active && |Run(n, events).stacks[active]| == h + 1
      modifies this
      ensures Valid() && o == Resumed(cpu) && View().stacks[old(active)] == old(View().stacks[active])
    {
      hide Step, Inv;
      ghost var m := View();
      HaltReturnsToItsExecute(m, cpu, events, cpu');
      var _ := Execute(true, cpu);
      var _ := Dispatch(events);
      o := Halt(cpu');
    }
  }
}
