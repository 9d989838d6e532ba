/**
 The kernel's tables and its console side by side, coupled by the one active terminal they
 share: the whole of an Alt-F key, of an execute that finds the table full, and of a tick.
 */
module WholeSystem {
  import opened Bytes
  import opened Limits
  import opened TextScreen
  import P = ProcessMachine
  import D = Desk
  import S = SystemMachine
  import K = KernelTables
  import C = ConsoleDriver

  class Computer {
    const kernel: K.Kernel
    const console: C.Console

    ghost predicate Valid()
      reads this, kernel, console, console.tables
    {
      kernel.Valid() && console.Valid() && kernel.active == console.active
    }

    ghost function View(): S.System
      reads this, kernel, console, console.tables, console.mem
      requires console.Shape()
    {
      S.System(kernel.View(), console.View())
    }

    /** Power-on: empty process tables, terminal 0 active and on view. */
    constructor (memory: array<byte>)
      requires memory.Length == 4 * PAGE
      ensures Valid() && S.Booted(View()) && console.mem == memory && console.current == 0
      ensures fresh(kernel) && fresh(console) && fresh(console.tables)
    {
      kernel := new K.Kernel();
      console := new C.Console(memory);
    }

    /** terminal_write of a kernel message or of a process's buffer. */
    method Print(text: seq<byte>)
      requires Valid() && D.Allowed(console.View(), D.Write(text))
      modifies console, console.mem
      ensures Valid() && console.View() == D.Step(old(console.View()), D.Write(text))
      ensures console.active == old(console.active)
    {
      var buf := new byte[|text|](i requires 0 <= i < |text| => text[i]);
      assert buf[..|text|] == text;
      var _ := console.TerminalWrite(buf, |text|);
    }

    /** Any event of the system. */
    method Handle(e: S.Event)
      requires Valid() && S.Enabled(View(), e) && S.Safe(View(), e)
      modifies kernel, console, console.mem, console.tables
      ensures Valid() && View() == S.Step(old(View()), e) && S.Happened(old(View()), View(), e)
    {
      S.StepIsHappened(View(), e);
      hide S.Step, S.StepDesk, S.StepProcs, S.Executed, S.Switched, S.Happened, P.Inv, P.WellFormed, C.DeskOf;
      match e
      case Execute(valid, cpu) => Execute(valid, cpu);
      case Halt(cpu) => Halt(cpu);
      case Tick(cpu) => Tick(cpu);
      case Output(text) => Output(text);
      case AltF(t, cpu) => AltF(t, cpu);
      case Key(a) => Type(a);
    }

    method Halt(cpu: P.Context)
      requires Valid() && S.Enabled(View(), S.Halt(cpu))
      modifies kernel
      ensures Valid() && View() == S.Step(old(View()), S.Halt(cpu))
    {
      hide P.WellFormed, P.Pids, K.PidsDescribe, K.TopsDescribe, K.SlotsDescribe, C.DeskOf;
      D.WriteNothing(console.View());
      var _ := kernel.Halt(cpu);
    }

    method Tick(cpu: P.Context)
      requires Valid() && S.Enabled(View(), S.Tick(cpu))
      modifies kernel, console
      ensures Valid() && View() == S.Step(old(View()), S.Tick(cpu))
    {
      hide P.WellFormed, P.Pids, K.PidsDescribe, K.TopsDescribe, K.SlotsDescribe, C.DeskOf;
      D.WriteNothing(console.View());
      var _ := kernel.Tick(cpu);
      console.Schedule(kernel.active);
    }

    method Output(text: seq<byte>)
      requires Valid() && S.Enabled(View(), S.Output(text)) && S.Printable(View(), S.Output(text))
      modifies console, console.mem
      ensures Valid() && View() == S.Step(old(View()), S.Output(text))
    {
      hide P.WellFormed, P.Pids, K.PidsDescribe, K.TopsDescribe, K.SlotsDescribe, C.DeskOf;
      Print(text);
    }

    /** Keyboard echo, scroll and clear. */
    method Type(a: D.Action)
      requires Valid() && S.Enabled(View(), S.Key(a)) && S.Safe(View(), S.Key(a))
      modifies console, console.mem
      ensures Valid() && View() == S.Step(old(View()), S.Key(a))
    {
      hide P.Inv, C.DeskOf;
      D.WriteNothing(console.View());
      match a
      case Echo(c) => console.EchoChar(c);
      case ScrollView => console.ScrollView();
      case ClearView => console.ClearView();
    }

    method Execute(valid: bool, cpu: P.Context)
      requires Valid() && S.Printable(View(), S.Execute(valid, cpu))
      modifies kernel, console, console.mem, console.tables
      ensures Valid() && View() == S.Step(old(View()), S.Execute(valid, cpu))
      ensures S.Executed(old(View()), View(), valid)
    {
      hide P.WellFormed, P.Pids, K.PidsDescribe, K.TopsDescribe, K.SlotsDescribe, K.IsLeastFree, C.DeskOf;
      hide S.Executed, S.Switched;
      S.ExecuteIsExecuted(View(), valid, cpu);
      P.EmptyActiveMeansRoom(kernel.View());
      var room := kernel.UniversalCount();
      if valid && !room {
        Print(S.FULL_TABLE);
      } else {
        D.WriteNothing(console.View());
      }
      var _ := kernel.Execute(valid, cpu);
    }

    /** first_, second_ and third_terminal_switch. */
    method AltF(t: nat, cpu: P.Context)
      requires Valid() && S.Enabled(View(), S.AltF(t, cpu)) && S.Printable(View(), S.AltF(t, cpu))
      modifies kernel, console, console.mem, console.tables
      ensures Valid() && View() == S.Step(old(View()), S.AltF(t, cpu))
      ensures S.Switched(old(View()), View(), t) && console.Frame(0) == View().desk.screens[console.current].cells
    {
      hide P.WellFormed, P.Pids, K.PidsDescribe, K.TopsDescribe, K.SlotsDescribe, K.IsLeastFree, C.DeskOf;
      hide S.Executed, S.Switched;
      S.AltFIsSwitched(View(), t, cpu);
      var launched := t == 0 || (if t == 1 then kernel.launched2 else kernel.launched3);
      var room := kernel.UniversalCount();
      if !room && !launched {
        Refuse(t, cpu);
        return;
      }
      D.WriteNothing(console.View());
      console.SwitchTo(t);
      if !launched {
        StartTerminal(t, cpu);
      }
    }

    /** The message of a switch to a terminal that cannot be started. */
    method Refuse(t: nat, cpu: P.Context)
      requires Valid() && (t == 1 || t == 2) && S.Printable(View(), S.AltF(t, cpu))
      requires kernel.stacks[t] == [] && P.Full(P.Live(kernel.stacks))
      modifies console, console.mem
      ensures Valid() && View() == S.Step(old(View()), S.AltF(t, cpu))
    {
      hide P.WellFormed, P.Pids, K.PidsDescribe, K.TopsDescribe, K.SlotsDescribe, C.DeskOf;
      assert |S.NO_LAUNCH| > 0;
      Print(S.NO_LAUNCH);
    }

    /** The first switch to a terminal: home its cursor, make it active and start a shell. */
    method StartTerminal(t: nat, cpu: P.Context)
      requires Valid() && (t == 1 || t == 2) && console.current == t
      requires kernel.stacks[t] == [] && !P.Full(P.Live(kernel.stacks))
      modifies kernel, console
      ensures Valid()
      ensures kernel.View() == P.Step(old(kernel.View()), P.Launch(t, cpu)).0
      ensures console.View() == D.Step(S.CursorHome(old(console.View())), D.Schedule(t))
    {
      hide P.WellFormed, P.Pids, K.PidsDescribe, K.TopsDescribe, K.SlotsDescribe, K.IsLeastFree, C.DeskOf;
      hide S.Executed, S.Switched;
      console.ResetCursor();
      var _ := kernel.Launch(t, cpu);
      console.Schedule(t);
    }

    /** Any run of the machine is a run of the system, and the display shows the screen of the
        terminal whose Alt-F key was accepted last. */
    method Operate(es: seq<S.Event>)
      requires Valid() && S.Legal(View(), es) && S.SafeRun(View(), es)
      modifies kernel, console, console.mem, console.tables
      ensures Valid() && View() == S.Run(old(View()), es)
      ensures console.current == S.LastViewed(old(View()), es, old(console.current))
      ensures console.Frame(0) == console.ScreenOf(console.current).cells
    {
      S.LastAltFIsOnView(View(), es);
      hide S.Printed, S.Enabled, S.Safe, S.Step, S.LastViewed, C.DeskOf, P.Inv;
      ghost var s := View();
      for k := 0 to |es|
        invariant Valid() && S.Legal(View(), es[k..]) && S.SafeRun(View(), es[k..])
        invariant S.Run(View(), es[k..]) == S.Run(s, es)
      {
        assert es[k..][1..] == es[k + 1..];
        Handle(es[k]);
      }
    }
  }

  /** What the three terminals start from: terminal 0 is cleared, the others show the memory
      behind them. */
  ghost predicate StartsFrom(s: S.System, memory: seq<byte>) {
    && S.Booted(s) && |memory| == 4 * PAGE
    && s.desk.screens[0].cells == Cleared(memory[..PAGE])
    && s.desk.screens[1].cells == memory[2 * PAGE..3 * PAGE]
    && s.desk.screens[2].cells == memory[3 * PAGE..]
  }

  /** Power-on and clear(), with anything in video memory. */
  method Boot(memory: array<byte>) returns (c: Computer)
    requires memory.Length == 4 * PAGE
    modifies memory
    ensures fresh(c) && fresh(c.kernel) && fresh(c.console) && fresh(c.console.tables)
    ensures c.Valid() && c.console.mem == memory && StartsFrom(c.View(), old(memory[..]))
  {
    c := new Computer(memory);
    ghost var m := memory[..];
    assert c.console.Frame(0) == m[..PAGE];
    assert c.console.Frame(2) == m[2 * PAGE..3 * PAGE] && c.console.Frame(3) == m[3 * PAGE..];
    c.console.ClearView();
  }

  lemma OneStart(s: S.System, s': S.System, memory: seq<byte>)
    requires StartsFrom(s, memory) && StartsFrom(s', memory)
    ensures s == s'
  {
    assert s.desk.screens == s'.desk.screens;
  }

  /** From power-on, after any legal run, each screen on which nothing was typed is its own
      terminal's text over what the terminal started from. */
  method BootAndOperate(memory: array<byte>, es: seq<S.Event>, ghost start: S.System) returns (c: Computer)
    requires memory.Length == 4 * PAGE && StartsFrom(start, memory[..])
    requires S.Legal(start, es) && S.SafeRun(start, es)
    modifies memory
    ensures fresh(c) && c.Valid() && c.View() == S.Run(start, es)
    ensures forall t :: 0 <= t < TERMINALS && S.Untouched(start, es, t) ==>
      Shows(c.View().desk.screens[t], Wrap(S.TextOf(start, es, t)), start.desk.screens[t].cells)
  {
    hide Shows, Wrap, S.TextOf, S.Legal, S.SafeRun, S.Run, C.DeskOf, P.Inv;
    c := Boot(memory);
    OneStart(start, c.View(), old(memory[..]));
    c.Operate(es);
    forall t | 0 <= t < TERMINALS && S.Untouched(start, es, t)
      ensures Shows(c.View().desk.screens[t], Wrap(S.TextOf(start, es, t)), start.desk.screens[t].cells)
    {
      S.UntouchedTerminalShowsItsOwnOutput(start, es, t);
    }
  }
}
