/**
 The keyboard's line editor: one 128-byte buffer and count per terminal, one read buffer
 shared by all. The reference treats the keys of each terminal on their own.
 */
module LineEditor {
  import opened Bytes
  import opened Limits

  const LINE: nat := 128

  datatype Key = Char(c: byte) | Backspace | Enter

  /** A key, a terminal switch, or terminal_read called for a terminal's process. */
  datatype Event = Press(key: Key) | View(terminal: nat) | Fetch(terminal: nat)

  /** The lines being typed, the shared read buffer, the enter flags and the viewed terminal. */
  datatype Editor = Editor(typed: seq<seq<byte>>, read: seq<byte>, entered: seq<bool>, current: nat)

  // ---------- The reference ----------

  /** One key on a line: a bounded stack. A key without a character (NUL) does nothing. */
  function Edit(line: seq<byte>, key: Key): seq<byte> {
    match key
    case Char(c) => if c == NUL || |line| >= LINE then line else line + [c]
    case Backspace => if line == [] then line else line[..|line| - 1]
    case Enter => []
  }

  function EditAll(line: seq<byte>, keys: seq<Key>): seq<byte>
    decreases |keys|
  {
    if keys == [] then line else EditAll(Edit(line, keys[0]), keys[1..])
  }

  /** The keys pressed while terminal `t` is on view. */
  function KeysOf(current: nat, events: seq<Event>, t: nat): seq<Key>
    decreases |events|
  {
    if events == [] then []
    else match events[0]
      case View(u) => KeysOf(u, events[1..], t)
      case Fetch(_) => KeysOf(current, events[1..], t)
      case Press(key) => (if current == t then [key] else []) + KeysOf(current, events[1..], t)
  }

  function Padded(line: seq<byte>): (r: seq<byte>)
    requires |line| <= LINE
    ensures |r| == LINE && forall j :: 0 <= j < LINE ==> r[j] == if j < |line| then line[j] else NUL
  {
    seq(LINE, j requires 0 <= j < LINE => if j < |line| then line[j] else NUL)
  }

  predicate Sound(e: Editor) {
    && |e.typed| == |e.entered| == TERMINALS && e.current < TERMINALS && |e.read| == LINE
    && forall t :: 0 <= t < TERMINALS ==> |e.typed[t]| <= LINE && NUL !in e.typed[t]
  }

  predicate Known(ev: Event) { ev.Press? || ev.terminal < TERMINALS }

  /** A read waits until the terminal's flag is set; it then takes the whole shared buffer,
      whichever terminal filled it, and leaves it empty. */
  function Step(e: Editor, ev: Event): (r: Editor)
    requires Sound(e) && Known(ev)
    ensures Sound(r)
  {
    match ev
    case View(t) => e.(current := t)
    case Fetch(t) => if e.entered[t] then e.(read := Padded([]), entered := e.entered[t := false]) else e
    case Press(key) =>
      var line := e.typed[e.current];
      var r := e.(typed := e.typed[e.current := Edit(line, key)]);
      if key.Enter? then r.(read := Padded(line), entered := e.entered[e.current := true]) else r
  }

  predicate Legal(events: seq<Event>) {
    forall k :: 0 <= k < |events| ==> Known(events[k])
  }

  function Run(e: Editor, events: seq<Event>): (r: Editor)
    requires Sound(e) && Legal(events)
    ensures Sound(r)
    decreases |events|
  {
    if events == [] then e else Run(Step(e, events[0]), events[1..])
  }

  /** Whatever is typed on other terminals in between, a terminal's line is the bounded
      push/pop fold of its own keys. */
  lemma {:induction false} LineIsFoldOfOwnKeys(e: Editor, events: seq<Event>, t: nat)
    requires Sound(e) && Legal(events) && t < TERMINALS
    ensures Run(e, events).typed[t] == EditAll(e.typed[t], KeysOf(e.current, events, t))
    decreases |events|
  {
    if events != [] {
      var rest := events[1..];
      LineIsFoldOfOwnKeys(Step(e, events[0]), rest, t);
      if events[0].Press? {
        var keys := KeysOf(e.current, rest, t);
        assert ([events[0].key] + keys)[1..] == keys;
        assert [] + keys == keys;
      }
    }
  }

  /** Enter hands over exactly the fold of the terminal's keys since its previous Enter. */
  lemma EnterDeliversTheLine(e: Editor, events: seq<Event>)
    requires Sound(e) && Legal(events)
    requires e.typed[Run(e, events).current] == []
    ensures var t := Run(e, events).current;
      var line := EditAll([], KeysOf(e.current, events, t));
      |line| <= LINE && Step(Run(e, events), Press(Enter)).read == Padded(line)
      && Step(Run(e, events), Press(Enter)).typed[t] == []
  {
    LineIsFoldOfOwnKeys(e, events, Run(e, events).current);
  }

  // ---------- What a typed line is ----------

  function Chars(text: seq<byte>): (keys: seq<Key>)
    ensures |keys| == |text|
  {
    seq(|text|, i requires 0 <= i < |text| => Char(text[i]))
  }

  function Backspaces(n: nat): (keys: seq<Key>)
    ensures |keys| == n
  {
    seq(n, _ => Backspace)
  }

  /** Typed characters are appended in order, up to 128 of them. */
  lemma {:induction false} CharsAppend(line: seq<byte>, text: seq<byte>)
    requires |line| <= LINE && NUL !in text
    ensures EditAll(line, Chars(text)) == if |line| + |text| <= LINE then line + text else (line + text)[..LINE]
    decreases |text|
  {
    if text == [] {
      assert line + text == line;
    } else {
      assert Chars(text)[1..] == Chars(text[1..]);
      var next := Edit(line, Char(text[0]));
      CharsAppend(next, text[1..]);
      if |line| < LINE {
        assert line + [text[0]] + text[1..] == line + text;
      } else {
        assert (line + text[1..])[..LINE] == line == (line + text)[..LINE];
        assert line + [] == line;
      }
    }
  }

  /** Each backspace takes the last character off, while there is one. */
  lemma {:induction false} BackspacesRemove(line: seq<byte>, n: nat)
    ensures EditAll(line, Backspaces(n)) == if n <= |line| then line[..|line| - n] else []
    decreases n
  {
    if n > 0 {
      assert Backspaces(n)[1..] == Backspaces(n - 1);
      BackspacesRemove(Edit(line, Backspace), n - 1);
    }
  }

  /** A backspace undoes a character exactly where there was room for it. */
  lemma {:induction false} BackspaceUndoes(line: seq<byte>, c: byte)
    requires |line| <= LINE && c != NUL
    ensures EditAll(line, [Char(c), Backspace]) == line <==> |line| < LINE
  {
    assert [Char(c), Backspace][1..] == [Backspace] && [Backspace][1..] == [];
    var next := Edit(line, Char(c));
    assert EditAll(next, [Backspace]) == EditAll(Edit(next, Backspace), []);
    if |line| < LINE {
      assert (line + [c])[..|line|] == line;
    }
  }

  lemma {:induction false} EditAllConcat(line: seq<byte>, a: seq<Key>, b: seq<Key>)
    ensures EditAll(line, a + b) == EditAll(EditAll(line, a), b)
    decreases |a|
  {
    if a == [] {
      assert a + b == b;
    } else {
      assert (a + b)[1..] == a[1..] + b;
      EditAllConcat(Edit(line, a[0]), a[1..], b);
    }
  }

  /** Keys pressed one after the other. */
  function Presses(keys: seq<Key>): (events: seq<Event>)
    ensures |events| == |keys|
  {
    seq(|keys|, i requires 0 <= i < |keys| => Press(keys[i]))
  }

  // ---------- The shared read buffer ----------

  lemma {:induction false} PaddedInjective(a: seq<byte>, b: seq<byte>)
    requires |a| <= LINE && |b| <= LINE && NUL !in a && NUL !in b
    ensures Padded(a) == Padded(b) <==> a == b
  {
    if |a| != |b| {
      var j := if |a| < |b| then |a| else |b|;
      assert Padded(a)[j] != Padded(b)[j];
    } else if a != b {
      var j :| 0 <= j < |a| && a[j] != b[j];
      assert Padded(a)[j] != Padded(b)[j];
    }
  }

  lemma {:induction false} RunLast(e: Editor, events: seq<Event>)
    requires Sound(e) && Legal(events) && events != []
    ensures var n := |events| - 1; Run(e, events) == Step(Run(e, events[..n]), events[n])
    decreases |events|
  {
    hide Step;
    var n := |events| - 1;
    if n > 0 {
      RunLast(Step(e, events[0]), events[1..]);
      assert events[1..][..n - 1] == events[..n][1..];
    }
  }

  /** Event `k` changes the read buffer: an Enter, or a read whose flag is set. */
  predicate Writes(e: Editor, events: seq<Event>, k: nat)
    requires Sound(e) && Legal(events) && k < |events|
  {
    match events[k]
    case Press(key) => key.Enter?
    case View(_) => false
    case Fetch(t) => Run(e, events[..k]).entered[t]
  }

  /** The last event that changes the read buffer, or -1. */
  function LastWrite(e: Editor, events: seq<Event>): (k: int)
    requires Sound(e) && Legal(events)
    ensures -1 <= k < |events|
    decreases |events|
  {
    var n := |events| - 1;
    if n == -1 || Writes(e, events, n) then n else LastWrite(e, events[..n])
  }

  /** The line event `k` leaves in the read buffer: the fold of the viewed terminal's keys so
      far for an Enter, nothing for a read. */
  function LineLeft(e: Editor, events: seq<Event>, k: nat): seq<byte>
    requires Sound(e) && Legal(events) && k < |events|
  {
    if events[k].Fetch? then []
    else
      var before := events[..k];
      var t := Run(e, before).current;
      EditAll(e.typed[t], KeysOf(e.current, before, t))
  }

  /** After any run the read buffer holds the line of the last event that changed it, or what
      it held at first. */
  lemma {:induction false} LastWriteDecides(e: Editor, events: seq<Event>)
    requires Sound(e) && Legal(events)
    ensures var k := LastWrite(e, events);
      if k == -1 then Run(e, events).read == e.read
      else
        var line := LineLeft(e, events, k);
        |line| <= LINE && NUL !in line && Run(e, events).read == Padded(line)
    decreases |events|
  {
    if events != [] {
      var n := |events| - 1;
      var init := events[..n];
      RunLast(e, events);
      if !Writes(e, events, n) {
        LastWriteDecides(e, init);
        var k := LastWrite(e, init);
        if k >= 0 { assert init[..k] == events[..k]; }
      } else if events[n].Press? {
        LineIsFoldOfOwnKeys(e, init, Run(e, init).current);
      }
    }
  }

  lemma {:induction false} FlagStays(e: Editor, events: seq<Event>, t: nat)
    requires Sound(e) && Legal(events) && t < TERMINALS && e.entered[t] && Fetch(t) !in events
    ensures Run(e, events).entered[t]
    decreases |events|
  {
    if events != [] {
      assert events[0] in events && Fetch(t) !in events[1..];
      FlagStays(Step(e, events[0]), events[1..], t);
    }
  }

  /** A terminal enters a line and later reads, anything happening in between: the read
      returns, and with that line exactly when nothing has changed the shared buffer since or
      what last changed it left the same line. */
  lemma {:induction false} ReadGetsItsLineIff(e: Editor, events: seq<Event>)
    requires Sound(e) && Legal(events) && Fetch(e.current) !in events
    ensures var line, a := e.typed[e.current], Step(e, Press(Enter));
      var k := LastWrite(a, events);
      && Run(a, events).entered[e.current]
      && (Run(a, events).read == Padded(line) <==> k == -1 || LineLeft(a, events, k) == line)
  {
    var line, a := e.typed[e.current], Step(e, Press(Enter));
    FlagStays(a, events, e.current);
    LastWriteDecides(a, events);
    var k := LastWrite(a, events);
    if k >= 0 {
      PaddedInjective(LineLeft(a, events, k), line);
    }
  }

  /** So an Enter on another terminal takes an unread line away, unless both typed the same. */
  lemma {:induction false} SecondEnterReplacesUnreadLine(e: Editor, u: nat)
    requires Sound(e) && u < TERMINALS && u != e.current
    ensures var f := Run(Step(e, Press(Enter)), [View(u), Press(Enter)]);
      && f.entered[e.current] && f.entered[u] && f.read == Padded(e.typed[u])
      && (f.read == Padded(e.typed[e.current]) <==> e.typed[u] == e.typed[e.current])
  {
    var a, events := Step(e, Press(Enter)), [View(u), Press(Enter)];
    RunLast(a, events);
    assert events[..1] == [View(u)] && [View(u)][1..] == [];
    assert Run(a, [View(u)]) == Run(Step(a, View(u)), []);
    PaddedInjective(e.typed[u], e.typed[e.current]);
  }

  /** And a read by another terminal, entered earlier, takes it too, leaving NULs. */
  lemma {:induction false} EarlierReaderTakesTheLine(e: Editor, u: nat)
    requires Sound(e) && u < TERMINALS && u != e.current && e.entered[u]
    ensures var a := Step(e, Press(Enter));
      && a.read == Padded(e.typed[e.current])
      && Run(a, [Fetch(u)]).entered[e.current] && Run(a, [Fetch(u)]).read == Padded([])
  {
    var a := Step(e, Press(Enter));
    assert [Fetch(u)][1..] == [];
    assert Run(a, [Fetch(u)]) == Run(Step(a, Fetch(u)), []);
  }

  /** After those keys, before Enter. */
  lemma {:induction false} TypedLineIs(e: Editor, text: seq<byte>, n: nat)
    requires Sound(e) && e.typed[e.current] == [] && NUL !in text
    ensures var keys := Chars(text) + Backspaces(n);
      var kept := if |text| <= LINE then |text| else LINE;
      && Legal(Presses(keys)) && |EditAll([], keys)| <= LINE
      && EditAll([], keys) == text[..if n <= kept then kept - n else 0]
      && Run(e, Presses(keys)).current == e.current
      && Run(e, Presses(keys)).typed == e.typed[e.current := EditAll([], keys)]
      && Run(e, Presses(keys)).entered == e.entered
  {
    var keys := Chars(text) + Backspaces(n);
    CharsAppend([], text);
    assert [] + text == text;
    EditAllConcat([], Chars(text), Backspaces(n));
    BackspacesRemove(EditAll([], Chars(text)), n);
    NoEnterNoSwitch(e, keys);
  }

  /** Without Enter, keys change the line of the viewed terminal only. */
  lemma {:induction false} NoEnterNoSwitch(e: Editor, keys: seq<Key>)
    requires Sound(e) && Enter !in keys
    ensures var r := Run(e, Presses(keys));
      && r.current == e.current && r.entered == e.entered
      && r.typed == e.typed[e.current := EditAll(e.typed[e.current], keys)]
    decreases |keys|
  {
    if keys == [] {
      assert e.typed == e.typed[e.current := e.typed[e.current]];
    } else {
      assert Presses(keys)[1..] == Presses(keys[1..]);
      assert keys[0] in keys && forall k :: k in keys[1..] ==> k in keys;
      NoEnterNoSwitch(Step(e, Press(keys[0])), keys[1..]);
    }
  }

  // ---------- The handler's buffers ----------

  class Keyboard {
    const buffer: array2<byte>
    const read: array<byte>
    var lineCount: seq<nat>
    var entFlag: seq<bool>
    var current: nat
    ghost var typed: seq<seq<byte>>

    /** Each buffer is its typed stack followed by NULs. */
    ghost predicate Valid()
      reads this, buffer, read
    {
      && buffer.Length0 == TERMINALS && buffer.Length1 == LINE && read.Length == LINE
      && |lineCount| == TERMINALS && Sound(Editor(typed, read[..], entFlag, current))
      && (forall t :: 0 <= t < TERMINALS ==> lineCount[t] == |typed[t]|)
      && (forall t, j :: 0 <= t < TERMINALS && 0 <= j < LINE ==>
            buffer[t, j] == if j < |typed[t]| then typed[t][j] else NUL)
    }

    ghost function State(): Editor
      reads this, read
    {
      Editor(typed, read[..], entFlag, current)
    }

    constructor ()
      ensures Valid() && fresh(buffer) && fresh(read)
      ensures State() == Editor([[], [], []], Padded([]), [false, false, false], 0)
    {
      buffer := new byte[TERMINALS, LINE]((_, _) => NUL);
      read := new byte[LINE](_ => NUL);
      lineCount, entFlag, current, typed := [0, 0, 0], [false, false, false], 0, [[], [], []];
    }

    /** The part of the handler that edits the line. */
    method Handle(key: Key)
      requires Valid()
      modifies this, buffer, read
      ensures Valid() && State() == Step(old(State()), Press(key))
    {
      var t, n := current, lineCount[current];
      match key
      case Backspace =>
        if n > 0 {
          lineCount := lineCount[t := n - 1];
          buffer[t, n - 1] := NUL;
          typed := typed[t := typed[t][..n - 1]];
        } else {
          assert typed == typed[t := typed[t]];
        }
      case Char(c) =>
        if c != NUL && n < LINE {
          buffer[t, n] := c;
          lineCount := lineCount[t := n + 1];
          typed := typed[t := typed[t] + [c]];
        } else {
          assert typed == typed[t := typed[t]];
        }
      case Enter =>
        entFlag := entFlag[t := true];
        DeliverLine(t);
        lineCount := lineCount[t := 0];
        typed := typed[t := []];
    }

    /** Clears the read buffer, fills it from the line and flushes the line. */
    method DeliverLine(t: nat)
      requires t < TERMINALS && buffer.Length0 == TERMINALS && buffer.Length1 == LINE && read.Length == LINE
      modifies buffer, read
      ensures forall j :: 0 <= j < LINE ==> read[j] == old(buffer[t, j]) && buffer[t, j] == NUL
      ensures forall u, j :: 0 <= u < TERMINALS && u != t && 0 <= j < LINE ==> buffer[u, j] == old(buffer[u, j])
    {
      for j := 0 to LINE
        modifies read
      {
        read[j] := NUL;
      }
      for j := 0 to LINE
        invariant forall k :: 0 <= k < j ==> read[k] == old(buffer[t, k])
        modifies read
      {
        read[j] := buffer[t, j];
      }
      for j := 0 to LINE
        invariant forall k :: 0 <= k < j ==> buffer[t, k] == NUL
        invariant forall u, k :: 0 <= u < TERMINALS && u != t && 0 <= k < LINE ==> buffer[u, k] == old(buffer[u, k])
        modifies buffer
      {
        buffer[t, j] := NUL;
      }
    }

    /** terminal_read once the flag of the active terminal is set. The whole read buffer is
        flushed however few bytes were asked for, and 128 is returned. */
    method TerminalRead(active: nat, buf: array<byte>, nbytes: int) returns (r: int)
      requires Valid() && active < TERMINALS && entFlag[active]
      requires buf.Length >= LINE && nbytes <= LINE && buf != read
      modifies this`entFlag, read, buf
      ensures Valid() && State() == Step(old(State()), Fetch(active))
      ensures r == LINE && !entFlag[active] && forall j :: 0 <= j < LINE ==> read[j] == NUL
      ensures forall j :: 0 <= j < LINE ==> buf[j] == if j < nbytes then old(read[j]) else NUL
      ensures forall j :: LINE <= j < buf.Length ==> buf[j] == old(buf[j])
    {
      entFlag := entFlag[active := false];
      for j := 0 to LINE
        invariant forall k :: 0 <= k < j ==> buf[k] == NUL
        invariant forall k :: LINE <= k < buf.Length ==> buf[k] == old(buf[k])
        modifies buf
      {
        buf[j] := NUL;
      }
      var j := 0;
      while j < nbytes
        invariant 0 <= j <= LINE && (j > 0 ==> j <= nbytes)
        invariant forall k :: 0 <= k < LINE ==> buf[k] == if k < j then old(read[k]) else NUL
        invariant forall k :: LINE <= k < buf.Length ==> buf[k] == old(buf[k])
        modifies buf
      {
        buf[j] := read[j];
        j := j + 1;
      }
      j := 0;
      while j < LINE
        invariant 0 <= j <= LINE && forall k :: 0 <= k < j ==> read[k] == NUL
        modifies read
      {
        read[j] := NUL;
        j := j + 1;
      }
      assert read[..] == Padded([]);
      return j;
    }

    /** Characters, backspaces and Enter on an empty line: terminal_read will find the first
        characters, at most 128 less one per backspace, then NULs. */
    method TypeLine(text: seq<byte>, n: nat)
      requires Valid() && typed[current] == [] && NUL !in text
      modifies this, buffer, read
      ensures Valid() && current == old(current) && typed[current] == [] && entFlag[current]
      ensures var kept := if |text| <= LINE then |text| else LINE;
        var left := if n <= kept then kept - n else 0;
        forall j :: 0 <= j < LINE ==> read[j] == if j < left then text[j] else NUL
      ensures forall t :: 0 <= t < TERMINALS && t != current ==>
        typed[t] == old(typed[t]) && entFlag[t] == old(entFlag[t])
    {
      ghost var e := State();
      var keys := Chars(text) + Backspaces(n);
      TypedLineIs(e, text, n);
      Type(Presses(keys));
      ghost var f := State();
      assert typed[current] == EditAll([], keys);
      Handle(Enter);
      assert read[..] == Padded(EditAll([], keys));
    }

    /** Any run of keys, terminal switches and reads. */
    method Type(events: seq<Event>)
      requires Valid() && Legal(events)
      modifies this, buffer, read
      ensures Valid() && State() == Run(old(State()), events)
    {
      ghost var e := State();
      for k := 0 to |events|
        invariant Valid() && Run(State(), events[k..]) == Run(e, events)
      {
        assert events[k..][1..] == events[k + 1..];
        match events[k]
        case View(t) => current := t;
        case Fetch(t) =>
          if entFlag[t] {
            var buf := new byte[LINE];
            var _ := TerminalRead(t, buf, LINE);
          }
        case Press(key) => Handle(key);
      }
    }
  }
}
