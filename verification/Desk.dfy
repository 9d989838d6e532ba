/**
 The three terminals as users see them: three independent screens, one on view, one owning
 the processor. `Console` implements this with four physical frames, a page table and copies.
 */
module Desk {
  import opened Bytes
  import opened Limits
  import opened TextScreen

  datatype Desk = Desk(screens: seq<Screen>, current: nat, active: nat)

  datatype Action =
    | Switch(terminal: nat)       // Alt-F1..F3: put a terminal on view
    | Schedule(terminal: nat)     // the PIT handler gives a terminal the processor
    | Write(text: seq<byte>)      // terminal_write by the active terminal's process
    | Echo(c: byte)               // keyboard echo on the viewed terminal
    | ScrollView                  // keyboard scroll of the viewed terminal
    | ClearView                   // clear()

  predicate WellFormed(d: Desk) {
    && |d.screens| == TERMINALS && d.current < TERMINALS && d.active < TERMINALS
    && forall t :: 0 <= t < TERMINALS ==> |d.screens[t].cells| == PAGE && d.screens[t].x < COLS
  }

  /** terminal_write shows a NUL as a space. */
  function Visible(text: seq<byte>): (r: seq<byte>)
    ensures |r| == |text|
    ensures forall i :: 0 <= i < |text| ==> r[i] == if text[i] == NUL then SPACE else text[i]
  {
    seq(|text|, i requires 0 <= i < |text| => if text[i] == NUL then SPACE else text[i])
  }

  predicate Allowed(d: Desk, a: Action)
    requires WellFormed(d)
  {
    match a
    case Switch(t) => t < TERMINALS
    case Schedule(t) => t < TERMINALS
    case Write(text) => Printable(d.screens[d.active], Visible(text))
    case Echo(c) => Storable(d.screens[d.current], c)
    case ScrollView => true
    case ClearView => true
  }

  function Replaced(d: Desk, t: nat, s: Screen): Desk
    requires t < |d.screens|
  {
    d.(screens := d.screens[t := s])
  }

  function Step(d: Desk, a: Action): (r: Desk)
    requires WellFormed(d) && Allowed(d, a)
    ensures WellFormed(r)
  {
    match a
    case Switch(t) => d.(current := t)
    case Schedule(t) => d.(active := t)
    case Write(text) => Replaced(d, d.active, EmitAll(d.screens[d.active], Visible(text)))
    case Echo(c) => Replaced(d, d.current, PutChar(d.screens[d.current], c))
    case ScrollView => Replaced(d, d.current, Screen(Scrolled(d.screens[d.current].cells), 0, ROWS - 2))
    case ClearView => Replaced(d, d.current, Screen(Cleared(d.screens[d.current].cells), 0, 0))
  }

  lemma WriteNothing(d: Desk)
    requires WellFormed(d)
    ensures Allowed(d, Write([])) && Step(d, Write([])) == d
  {
    assert Visible([]) == [];
  }

  predicate Legal(d: Desk, acts: seq<Action>)
    requires WellFormed(d)
    decreases |acts|
  {
    acts == [] || (Allowed(d, acts[0]) && Legal(Step(d, acts[0]), acts[1..]))
  }

  function Run(d: Desk, acts: seq<Action>): (r: Desk)
    requires WellFormed(d) && Legal(d, acts)
    ensures WellFormed(r)
    decreases |acts|
  {
    if acts == [] then d else Run(Step(d, acts[0]), acts[1..])
  }

  /** The terminal of the last switch. */
  function OnView(current: nat, acts: seq<Action>): nat
    decreases |acts|
  {
    if acts == [] then current
    else if acts[|acts| - 1].Switch? then acts[|acts| - 1].terminal
    else OnView(current, acts[..|acts| - 1])
  }

  lemma {:induction false} OnViewAfter(current: nat, a: Action, acts: seq<Action>)
    ensures OnView(current, [a] + acts) == OnView(if a.Switch? then a.terminal else current, acts)
    decreases |acts|
  {
    if acts == [] {
      assert [a] + acts == [a] && [a][..0] == [];
      assert OnView(current, []) == current;
    } else {
      var init := acts[..|acts| - 1];
      assert ([a] + acts)[..|acts|] == [a] + init;
      OnViewAfter(current, a, init);
    }
  }

  /** After any run the terminal of the last switch is on view. */
  lemma {:induction false} LastSwitchIsOnView(d: Desk, acts: seq<Action>)
    requires WellFormed(d) && Legal(d, acts)
    ensures Run(d, acts).current == OnView(d.current, acts)
    decreases |acts|
  {
    if acts != [] {
      LastSwitchIsOnView(Step(d, acts[0]), acts[1..]);
      OnViewAfter(d.current, acts[0], acts[1..]);
      assert [acts[0]] + acts[1..] == acts;
    }
  }

  // ---------- Every terminal shows its own text ----------

  /** Runs made of output, scheduling and terminal switches. */
  predicate OutputOnly(acts: seq<Action>) {
    forall i :: 0 <= i < |acts| ==>
      match acts[i]
      case Switch(t) => t < TERMINALS
      case Schedule(t) => t < TERMINALS
      case Write(text) => RETURN !in text
      case _ => false
  }

  /** Everything processes of terminal `t` wrote, `active` being scheduled first. */
  function TextOf(active: nat, acts: seq<Action>, t: nat): seq<byte>
    decreases |acts|
  {
    if acts == [] then []
    else match acts[0]
      case Schedule(u) => TextOf(u, acts[1..], t)
      case Write(text) => (if active == t then Visible(text) else []) + TextOf(active, acts[1..], t)
      case _ => TextOf(active, acts[1..], t)
  }

  /** However output of the three terminals, scheduling and switches interleave, each screen
      shows the last 25 rows of exactly what its own processes wrote. */
  lemma {:induction false} EachTerminalShowsItsText(d: Desk, acts: seq<Action>, rows: seq<seq<seq<byte>>>,
                                                    backs: seq<seq<byte>>, t: nat)
    requires WellFormed(d) && OutputOnly(acts) && |rows| == |backs| == TERMINALS && t < TERMINALS
    requires forall u :: 0 <= u < TERMINALS ==> rows[u] != [] && Shows(d.screens[u], rows[u], backs[u])
    ensures Legal(d, acts)
    ensures Shows(Run(d, acts).screens[t], AddAll(rows[t], TextOf(d.active, acts, t)), backs[t])
    decreases |acts|
  {
    if acts != [] {
      var a, rest := acts[0], acts[1..];
      if a.Write? {
        var v := Visible(a.text);
        EmitAllShows(d.screens[d.active], rows[d.active], backs[d.active], v);
        AddAllConcat(rows[t], v, TextOf(d.active, rest, t));
        EachTerminalShowsItsText(Step(d, a), rest, rows[d.active := AddAll(rows[d.active], v)], backs, t);
        assert [] + TextOf(d.active, rest, t) == TextOf(d.active, rest, t);
      } else {
        EachTerminalShowsItsText(Step(d, a), rest, rows, backs, t);
      }
    }
  }

  /** With all cursors home at first: the last 25 rows of the wrapped text, over what the screen
      held, cursor at its end. */
  lemma TerminalsShowWrappedText(d: Desk, acts: seq<Action>, t: nat)
    requires WellFormed(d) && OutputOnly(acts) && t < TERMINALS
    requires forall u :: 0 <= u < TERMINALS ==> d.screens[u].x == d.screens[u].y == 0
    ensures Legal(d, acts)
    ensures Shows(Run(d, acts).screens[t], Wrap(TextOf(d.active, acts, t)), d.screens[t].cells)
    ensures OnGrid(Run(d, acts).screens[t])
  {
    var backs := [d.screens[0].cells, d.screens[1].cells, d.screens[2].cells];
    forall u | 0 <= u < TERMINALS ensures Shows(d.screens[u], [[]], backs[u]) {
      HomeShowsNothing(d.screens[u].cells);
    }
    EachTerminalShowsItsText(d, acts, [[[]], [[]], [[]]], backs, t);
  }
}
