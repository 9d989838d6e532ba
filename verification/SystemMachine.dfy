/**
 Processes and screens together. The kernel has one active terminal: the scheduler and the
 launches move it, and it decides whose screen output goes to. The theorem is about complete
 runs: each terminal shows what was written while its own processes had the processor.
 */
module SystemMachine {
  import opened Bytes
  import opened Limits
  import opened TextScreen
  import P = ProcessMachine
  import D = Desk

  /** Printed by an execute on a full table. */
  const FULL_TABLE: seq<byte> := Ascii("error: too many processes\n")

  /** Printed by a refused launch. */
  const NO_LAUNCH: seq<byte> := Ascii("too many processes\n")

  datatype System = System(procs: P.Machine, desk: D.Desk)

  datatype Event =
    | Execute(valid: bool, cpu: P.Context)
    | Halt(cpu: P.Context)
    | Tick(cpu: P.Context)
    | Output(text: seq<byte>)                    // write to the screen by the running process
    | AltF(terminal: nat, cpu: P.Context)        // Alt-F1, Alt-F2, Alt-F3
    | Key(action: D.Action)                      // echo, scroll or clear on the viewed terminal

  /** Processes and screens agree on the active terminal. */
  ghost predicate Coupled(s: System) {
    P.Inv(s.procs) && D.WellFormed(s.desk) && s.procs.active == s.desk.active
  }

  ghost predicate Started(s: System, t: nat)
    requires Coupled(s) && t < TERMINALS
  {
    s.procs.stacks[t] != []
  }

  ghost predicate Crowded(s: System)
    requires Coupled(s)
  {
    P.Full(P.Live(s.procs.stacks))
  }

  /** Calls and output come from a running process; the first execute starts the system. */
  ghost predicate Enabled(s: System, e: Event)
    requires Coupled(s)
  {
    match e
    case Execute(_, _) => true
    case Halt(_) => Started(s, s.procs.active)
    case Tick(_) => true
    case Output(text) => Started(s, s.procs.active) && RETURN !in text
    case AltF(t, _) => t < TERMINALS
    case Key(a) => a.Echo? || a.ScrollView? || a.ClearView?
  }

  /** What an event prints on the active terminal. */
  ghost function Printed(s: System, e: Event): seq<byte>
    requires Coupled(s) && Enabled(s, e)
  {
    match e
    case Execute(valid, _) => if valid && Crowded(s) then FULL_TABLE else []
    case Output(text) => text
    case AltF(t, _) => if t != 0 && !Started(s, t) && Crowded(s) then NO_LAUNCH else []
    case _ => []
  }

  /** Whether an Alt-F key starts a terminal. */
  ghost predicate Launches(s: System, t: nat)
    requires Coupled(s) && t < TERMINALS
  {
    t != 0 && !Started(s, t) && !Crowded(s)
  }

  /** The cursor of the viewed terminal goes home. */
  function CursorHome(d: D.Desk): (r: D.Desk)
    requires D.WellFormed(d)
    ensures D.WellFormed(r)
  {
    D.Replaced(d, d.current, d.screens[d.current].(x := 0, y := 0))
  }

  ghost function StepProcs(s: System, e: Event): P.Machine
    requires Coupled(s) && Enabled(s, e)
  {
    match e
    case Execute(valid, cpu) => P.Step(s.procs, P.Execute(valid, cpu)).0
    case Halt(cpu) => P.Step(s.procs, P.Halt(cpu)).0
    case Tick(cpu) => P.Step(s.procs, P.Tick(cpu)).0
    case Output(_) => s.procs
    case Key(_) => s.procs
    case AltF(t, cpu) => if t == 0 then s.procs else P.Step(s.procs, P.Launch(t, cpu)).0
  }

  /** The output of an event stays inside its page. */
  ghost predicate Printable(s: System, e: Event)
    requires Coupled(s) && Enabled(s, e)
  {
    D.Allowed(s.desk, D.Write(Printed(s, e)))
  }

  /** Nothing is stored outside a page. */
  ghost predicate Safe(s: System, e: Event)
    requires Coupled(s) && Enabled(s, e)
  {
    Printable(s, e) && (e.Key? ==> D.Allowed(s.desk, e.action))
  }

  ghost function Written(s: System, e: Event): (d: D.Desk)
    requires Coupled(s) && Enabled(s, e)
    ensures D.WellFormed(d) && d.active == s.desk.active && d.current == s.desk.current
  {
    if Printable(s, e) then D.Step(s.desk, D.Write(Printed(s, e))) else s.desk
  }

  ghost function StepDesk(s: System, e: Event): (d: D.Desk)
    requires Coupled(s) && Enabled(s, e)
    ensures D.WellFormed(d) && d.active == StepProcs(s, e).active
  {
    var written := Written(s, e);
    match e
    case Tick(_) => D.Step(written, D.Schedule(StepProcs(s, e).active))
    case AltF(t, _) =>
      if Printed(s, e) != [] then written
      else
        var viewed := D.Step(written, D.Switch(t));
        if Launches(s, t) then D.Step(CursorHome(viewed), D.Schedule(t)) else viewed
    case Key(a) => if Safe(s, e) then D.Step(written, a) else written
    case _ => written
  }

  ghost function Step(s: System, e: Event): (r: System)
    requires Coupled(s) && Enabled(s, e)
    ensures Coupled(r)
  {
    StepKeepsProcs(s, e);
    System(StepProcs(s, e), StepDesk(s, e))
  }

  lemma StepKeepsProcs(s: System, e: Event)
    requires Coupled(s) && Enabled(s, e)
    ensures P.Inv(StepProcs(s, e))
  {
    match e
    case Execute(valid, cpu) => P.StepKeepsInv(s.procs, P.Execute(valid, cpu));
    case Halt(cpu) => P.StepKeepsInv(s.procs, P.Halt(cpu));
    case Tick(cpu) => P.StepKeepsInv(s.procs, P.Tick(cpu));
    case Output(_) =>
    case Key(_) =>
    case AltF(t, cpu) => if t != 0 { P.StepKeepsInv(s.procs, P.Launch(t, cpu)); }
  }

  // ---------- What an execute and an Alt-F key come to ----------

  /** From `s` to `s'`: nothing for a bad command; on a full table a message and nothing else;
      otherwise one more process on the active terminal. */
  ghost predicate Executed(s: System, s': System, valid: bool)
    requires Coupled(s) && Coupled(s')
  {
    var a := s.procs.active;
    if !valid then s' == s
    else if Crowded(s) then
      && s'.procs == s.procs && D.Allowed(s.desk, D.Write(Ascii("error: too many processes\n")))
      && s'.desk == D.Step(s.desk, D.Write(Ascii("error: too many processes\n")))
    else
      && s'.desk == s.desk && s'.procs.active == a && s'.procs.saved == s.procs.saved
      && |s'.procs.stacks[a]| == |s.procs.stacks[a]| + 1 && s.procs.stacks[a] <= s'.procs.stacks[a]
      && forall t :: 0 <= t < TERMINALS && t != a ==> s'.procs.stacks[t] == s.procs.stacks[t]
  }

  lemma {:induction false} ExecuteIsExecuted(s: System, valid: bool, cpu: P.Context)
    requires Coupled(s) && Printable(s, Execute(valid, cpu))
    ensures Executed(s, Step(s, Execute(valid, cpu)), valid)
  {
    D.WriteNothing(s.desk);
  }

  /** From `s` to `s'`: a terminal that cannot be started is refused with a message; otherwise
      it comes on view with its screen as it was, and the first time with its cursor home, made
      active and running one process. All other screens stay. */
  ghost predicate Switched(s: System, s': System, t: nat)
    requires Coupled(s) && Coupled(s') && t < TERMINALS
  {
    if t != 0 && !Started(s, t) && Crowded(s) then
      && s'.procs == s.procs && D.Allowed(s.desk, D.Write(Ascii("too many processes\n")))
      && s'.desk == D.Step(s.desk, D.Write(Ascii("too many processes\n")))
    else
      && s'.desk.current == t && s'.desk.screens[t].cells == s.desk.screens[t].cells
      && (forall u :: 0 <= u < TERMINALS && u != t ==> s'.desk.screens[u] == s.desk.screens[u])
      && if t == 0 || Started(s, t) then s'.procs == s.procs && s'.desk.screens[t] == s.desk.screens[t]
         else
           && s'.procs.active == t && |s'.procs.stacks[t]| == 1
           && s'.desk.screens[t].x == s'.desk.screens[t].y == 0
           && forall u :: 0 <= u < TERMINALS && u != t ==> s'.procs.stacks[u] == s.procs.stacks[u]
  }

  lemma {:induction false} AltFIsSwitched(s: System, t: nat, cpu: P.Context)
    requires Coupled(s) && t < TERMINALS && Printable(s, AltF(t, cpu))
    ensures Switched(s, Step(s, AltF(t, cpu)), t)
  {
    D.WriteNothing(s.desk);
    assert |NO_LAUNCH| > 0;
  }

  /** From `s` to `s'`, whatever the event: output and keys change one screen and no process,
      a halt no screen, a tick only which terminal is active. */
  ghost predicate Happened(s: System, s': System, e: Event)
    requires Coupled(s) && Coupled(s') && Enabled(s, e)
  {
    match e
    case Execute(valid, _) => Executed(s, s', valid)
    case AltF(t, _) => Switched(s, s', t)
    case Output(text) =>
      s'.procs == s.procs && D.Allowed(s.desk, D.Write(text)) && s'.desk == D.Step(s.desk, D.Write(text))
    case Key(a) => s'.procs == s.procs && D.Allowed(s.desk, a) && s'.desk == D.Step(s.desk, a)
    case Halt(_) => s'.desk == s.desk
    case Tick(_) => s'.desk == s.desk.(active := s'.procs.active) && s'.procs.stacks == s.procs.stacks
  }

  lemma {:induction false} StepIsHappened(s: System, e: Event)
    requires Coupled(s) && Enabled(s, e) && Safe(s, e)
    ensures Happened(s, Step(s, e), e)
  {
    hide Executed, Switched;
    D.WriteNothing(s.desk);
    match e
    case Execute(valid, cpu) => ExecuteIsExecuted(s, valid, cpu);
    case AltF(t, cpu) => AltFIsSwitched(s, t, cpu);
    case _ =>
  }

  // ---------- Complete runs ----------

  ghost predicate Legal(s: System, es: seq<Event>)
    requires Coupled(s)
    decreases |es|
  {
    es == [] || (Enabled(s, es[0]) && Legal(Step(s, es[0]), es[1..]))
  }

  ghost function Run(s: System, es: seq<Event>): (r: System)
    requires Coupled(s) && Legal(s, es)
    ensures Coupled(r)
    decreases |es|
  {
    if es == [] then s else Run(Step(s, es[0]), es[1..])
  }

  /** What can happen depends on the processes alone, not on what the screens hold. */
  lemma {:induction false} LegalWhateverIsShown(s: System, s': System, es: seq<Event>)
    requires Coupled(s) && Coupled(s') && s.procs == s'.procs
    ensures Legal(s, es) <==> Legal(s', es)
    decreases |es|
  {
    hide StepDesk, P.Inv, P.Step;
    if es != [] && Enabled(s, es[0]) {
      LegalWhateverIsShown(Step(s, es[0]), Step(s', es[0]), es[1..]);
    }
  }

  /** An Alt-F key for a terminal that cannot be started. */
  ghost predicate Refused(s: System, t: nat)
    requires Coupled(s) && t < TERMINALS
  {
    t != 0 && s.procs.stacks[t] == [] && forall p :: 1 <= p <= P.MAX_PROCESSES ==> p in P.Live(s.procs.stacks)
  }

  /** The terminal of the last Alt-F key of the run that was not refused. */
  ghost function LastViewed(s: System, es: seq<Event>, current: nat): nat
    requires Coupled(s) && Legal(s, es)
    decreases |es|
  {
    if es == [] then current
    else
      var e := es[0];
      LastViewed(Step(s, e), es[1..], if e.AltF? && !Refused(s, e.terminal) then e.terminal else current)
  }

  lemma StepViews(s: System, e: Event)
    requires Coupled(s) && Enabled(s, e)
    ensures Step(s, e).desk.current
         == if e.AltF? && !Refused(s, e.terminal) then e.terminal else s.desk.current
  {
    assert |NO_LAUNCH| > 0;
  }

  /** After any run that terminal is on view. */
  lemma {:induction false} LastAltFIsOnView(s: System, es: seq<Event>)
    requires Coupled(s) && Legal(s, es)
    ensures Run(s, es).desk.current == LastViewed(s, es, s.desk.current)
    decreases |es|
  {
    hide Step, Enabled, P.Inv;
    if es != [] {
      StepViews(s, es[0]);
      LastAltFIsOnView(Step(s, es[0]), es[1..]);
    }
  }

  /** The text an event writes: a process's output, or a message of the kernel. */
  ghost function Said(s: System, e: Event): seq<byte>
    requires Coupled(s) && Enabled(s, e)
  {
    match e
    case Output(text) => text
    case Execute(valid, _) => if valid && Crowded(s) then Ascii("error: too many processes\n") else []
    case AltF(t, _) => if Refused(s, t) then Ascii("too many processes\n") else []
    case _ => []
  }

  /** Everything written in the run while terminal `t` was active. */
  ghost function TextOf(s: System, es: seq<Event>, t: nat): seq<byte>
    requires Coupled(s) && Legal(s, es)
    decreases |es|
  {
    if es == [] then []
    else (if s.procs.active == t then D.Visible(Said(s, es[0])) else []) + TextOf(Step(s, es[0]), es[1..], t)
  }

  /** No event of the run stores outside a page. */
  ghost predicate SafeRun(s: System, es: seq<Event>)
    requires Coupled(s) && Legal(s, es)
    decreases |es|
  {
    es == [] || (Safe(s, es[0]) && SafeRun(Step(s, es[0]), es[1..]))
  }

  /** The run has no key echoed, scrolled or cleared while terminal `t` is on view. */
  ghost predicate Untouched(s: System, es: seq<Event>, t: nat)
    requires Coupled(s) && Legal(s, es)
    decreases |es|
  {
    es == [] || (!Touches(s, es[0], t) && Untouched(Step(s, es[0]), es[1..], t))
  }

  predicate Touches(s: System, e: Event, t: nat) { e.Key? && s.desk.current == t }

  /** Terminal `t`'s screen shows its text over what it held at first, and none if the
      terminal has not started. */
  ghost predicate ShownBy(s: System, texts: seq<seq<byte>>, backs: seq<seq<byte>>, t: nat)
    requires Coupled(s) && |texts| == |backs| == TERMINALS && t < TERMINALS
  {
    && Shows(s.desk.screens[t], Wrap(texts[t]), backs[t])
    && (t != 0 && !Started(s, t) ==> texts[t] == [])
  }

  lemma SaidIsPrinted(s: System, e: Event)
    requires Coupled(s) && Enabled(s, e)
    ensures Said(s, e) == Printed(s, e)
  {}

  /** Only a terminal with processes prints. */
  lemma PrintsOnlyWhenStarted(s: System, e: Event)
    requires Coupled(s) && Enabled(s, e) && Printed(s, e) != []
    ensures Started(s, s.procs.active)
  {
    P.EmptyActiveMeansRoom(s.procs);
  }

  lemma StartedStays(s: System, e: Event, t: nat)
    requires Coupled(s) && Enabled(s, e) && t < TERMINALS && Started(s, t)
    ensures |StepProcs(s, e).stacks| == TERMINALS && StepProcs(s, e).stacks[t] != []
  {
    StepKeepsProcs(s, e);
  }

  lemma {:induction false} WrapConcat(a: seq<byte>, b: seq<byte>)
    ensures Wrap(a + b) == AddAll(Wrap(a), b)
  {
    AddAllConcat([[]], a, b);
  }

  lemma PrintedIsPlain(s: System, e: Event)
    requires Coupled(s) && Enabled(s, e)
    ensures RETURN !in D.Visible(Printed(s, e))
  {
    assert RETURN !in FULL_TABLE && RETURN !in NO_LAUNCH;
  }

  /** The texts after an event. */
  ghost function Longer(s: System, e: Event, texts: seq<seq<byte>>): (r: seq<seq<byte>>)
    requires Coupled(s) && Enabled(s, e) && |texts| == TERMINALS
    ensures |r| == TERMINALS
  {
    var a := s.procs.active;
    texts[a := texts[a] + D.Visible(Printed(s, e))]
  }

  /** Output on a screen that shows a text stays inside its page. */
  lemma {:induction false} CleanOutputIsPrintable(s: System, e: Event, texts: seq<seq<byte>>, backs: seq<seq<byte>>)
    requires Coupled(s) && Enabled(s, e) && |texts| == |backs| == TERMINALS
    requires ShownBy(s, texts, backs, s.procs.active)
    ensures Printable(s, e)
  {
    var a := s.procs.active;
    PrintedIsPlain(s, e);
    EmitAllShows(s.desk.screens[a], Wrap(texts[a]), backs[a], D.Visible(Printed(s, e)));
  }

  /** The write part of an event. */
  lemma {:induction false} WriteShows(s: System, e: Event, texts: seq<seq<byte>>, backs: seq<seq<byte>>, t: nat)
    requires Coupled(s) && Enabled(s, e) && Printable(s, e) && |texts| == |backs| == TERMINALS
    requires t < TERMINALS && ShownBy(s, texts, backs, t)
    ensures Shows(Written(s, e).screens[t], Wrap(Longer(s, e, texts)[t]), backs[t])
  {
    hide Printed, Wrap, Shows, P.Inv;
    var a, v := s.desk.active, D.Visible(Printed(s, e));
    PrintedIsPlain(s, e);
    if t == a {
      EmitAllShows(s.desk.screens[a], Wrap(texts[a]), backs[a], v);
      WrapConcat(texts[a], v);
    }
  }

  /** One safe event keeps a screen showing its terminal's text, unless it is a key echoed,
      scrolled or cleared there. */
  lemma {:induction false} StepShows(s: System, e: Event, texts: seq<seq<byte>>, backs: seq<seq<byte>>, t: nat)
    requires Coupled(s) && Enabled(s, e) && Printable(s, e) && |texts| == |backs| == TERMINALS
    requires t < TERMINALS && ShownBy(s, texts, backs, t) && !Touches(s, e, t)
    ensures ShownBy(Step(s, e), Longer(s, e, texts), backs, t)
  {
    WriteShows(s, e, texts, backs, t);
    HomeIsWhereItWas(s, e, texts, backs, t);
    if t != 0 && !Started(Step(s, e), t) {
      if Started(s, t) { StartedStays(s, e, t); }
      if t == s.procs.active && Printed(s, e) != [] { PrintsOnlyWhenStarted(s, e); }
      assert D.Visible([]) == [];
    }
  }

  /** The cursor of a terminal about to start is home already. */
  lemma HomeIsWhereItWas(s: System, e: Event, texts: seq<seq<byte>>, backs: seq<seq<byte>>, t: nat)
    requires Coupled(s) && Enabled(s, e) && Printable(s, e) && |texts| == |backs| == TERMINALS
    requires t < TERMINALS && ShownBy(s, texts, backs, t) && !Touches(s, e, t)
    ensures StepDesk(s, e).screens[t] == Written(s, e).screens[t]
  {
    if e.AltF? && Launches(s, e.terminal) {
      D.WriteNothing(s.desk);
      if t == e.terminal {
        assert Wrap(texts[t]) == [[]];
      }
    }
  }

  lemma {:induction false} RunShows(s: System, es: seq<Event>, texts: seq<seq<byte>>, backs: seq<seq<byte>>, t: nat)
    requires Coupled(s) && Legal(s, es) && SafeRun(s, es) && |texts| == |backs| == TERMINALS
    requires t < TERMINALS && ShownBy(s, texts, backs, t) && Untouched(s, es, t)
    ensures Shows(Run(s, es).desk.screens[t], Wrap(texts[t] + TextOf(s, es, t)), backs[t])
    decreases |es|
  {
    hide Printed, Said, Printable, Enabled, Step, Wrap, Shows, Started, P.Inv;
    if es == [] {
      assert texts[t] + [] == texts[t];
    } else {
      var v := D.Visible(Printed(s, es[0]));
      var rest := TextOf(Step(s, es[0]), es[1..], t);
      StepShows(s, es[0], texts, backs, t);
      SaidIsPrinted(s, es[0]);
      RunShows(Step(s, es[0]), es[1..], Longer(s, es[0], texts), backs, t);
      assert texts[t] + (v + rest) == texts[t] + v + rest;
      assert [] + rest == rest;
    }
  }

  /** Without keys nothing is ever stored outside a page. */
  lemma {:induction false} KeyFreeRunIsSafe(s: System, es: seq<Event>, texts: seq<seq<byte>>, backs: seq<seq<byte>>)
    requires Coupled(s) && Legal(s, es) && |texts| == |backs| == TERMINALS
    requires forall t :: 0 <= t < TERMINALS ==> ShownBy(s, texts, backs, t)
    requires forall k :: 0 <= k < |es| ==> !es[k].Key?
    ensures SafeRun(s, es) && forall t :: 0 <= t < TERMINALS ==> Untouched(s, es, t)
    decreases |es|
  {
    hide Printed, Printable, Enabled, Step, ShownBy, P.Inv;
    if es != [] {
      var s' := Step(s, es[0]);
      CleanOutputIsPrintable(s, es[0], texts, backs);
      forall t | 0 <= t < TERMINALS ensures ShownBy(s', Longer(s, es[0], texts), backs, t) {
        StepShows(s, es[0], texts, backs, t);
      }
      KeyFreeRunIsSafe(s', es[1..], Longer(s, es[0], texts), backs);
    }
  }

  /** No process yet, terminal 0 active and on view, every cursor home; the screens hold
      anything. */
  ghost predicate Booted(s: System) {
    && s.procs == P.Initial() && Coupled(s) && s.desk.current == 0
    && forall t :: 0 <= t < TERMINALS ==> s.desk.screens[t].x == s.desk.screens[t].y == 0
  }

  ghost function Cells(s: System): (r: seq<seq<byte>>)
    requires Coupled(s)
    ensures |r| == TERMINALS
  {
    [s.desk.screens[0].cells, s.desk.screens[1].cells, s.desk.screens[2].cells]
  }

  lemma BootedShowsNothing(s: System)
    requires Booted(s)
    ensures forall t :: 0 <= t < TERMINALS ==> ShownBy(s, [[], [], []], Cells(s), t)
  {
    forall t | 0 <= t < TERMINALS ensures ShownBy(s, [[], [], []], Cells(s), t) {
      HomeShowsNothing(s.desk.screens[t].cells);
    }
  }

  /** From boot: whatever processes are executed, halted, preempted and launched, whichever
      terminal is viewed when, and whatever is typed elsewhere, a terminal on which nothing was
      typed shows the last 25 rows of the text printed while its own processes had the
      processor, over what its memory held. */
  lemma {:induction false} UntouchedTerminalShowsItsOwnOutput(s: System, es: seq<Event>, t: nat)
    requires Booted(s) && Legal(s, es) && SafeRun(s, es) && t < TERMINALS && Untouched(s, es, t)
    ensures Shows(Run(s, es).desk.screens[t], Wrap(TextOf(s, es, t)), s.desk.screens[t].cells)
  {
    BootedShowsNothing(s);
    RunShows(s, es, [[], [], []], Cells(s), t);
    assert [] + TextOf(s, es, t) == TextOf(s, es, t);
  }

  /** If nothing is typed at all, this holds of every terminal and every run. */
  lemma {:induction false} EveryTerminalShowsItsOwnOutput(s: System, es: seq<Event>, t: nat)
    requires Booted(s) && Legal(s, es) && t < TERMINALS && forall k :: 0 <= k < |es| ==> !es[k].Key?
    ensures SafeRun(s, es)
    ensures Shows(Run(s, es).desk.screens[t], Wrap(TextOf(s, es, t)), s.desk.screens[t].cells)
  {
    BootedShowsNothing(s);
    KeyFreeRunIsSafe(s, es, [[], [], []], Cells(s));
    UntouchedTerminalShowsItsOwnOutput(s, es, t);
  }
}
