/**
 Terminal video as the kernel implements it. Physical frame 0xB8 is what the display shows;
 frames 0xB9..0xBB back the three terminals. Terminal t's processes write through virtual
 page 0xB9+t, which the page table points at the display while t is on view; the keyboard
 echoes through page 0xB8. A switch remaps and copies pages. Every method takes the step of
 `Desk` it stands for.
 */
module ConsoleDriver {
  import opened Bytes
  import opened Limits
  import opened TextScreen
  import D = Desk

  const ENTRIES: nat := 1024
  const VIDEO: nat := 0xB8       // page number of the display, virtual and physical
  const TERM_VID: nat := 0xB9    // page number of terminal 0; 1 and 2 follow

  /** Bits 31..12 and bit 0 of a 4KB page-table entry. */
  datatype Pte = Pte(frame: nat, present: bool)

  /** The frame (0 for the display) that holds terminal `t`'s screen. */
  function Home(t: nat, current: nat): nat { if t == current then 0 else t + 1 }

  predicate Sizes(frames: seq<seq<byte>>, xs: seq<nat>, ys: seq<nat>, current: nat, active: nat) {
    && |frames| == 4 && (forall f :: 0 <= f < 4 ==> |frames[f]| == PAGE)
    && |xs| == |ys| == TERMINALS && (forall t :: 0 <= t < TERMINALS ==> xs[t] < COLS)
    && current < TERMINALS && active < TERMINALS
  }

  /** The screens behind the frames and cursors. */
  function DeskOf(frames: seq<seq<byte>>, xs: seq<nat>, ys: seq<nat>, current: nat, active: nat): (d: D.Desk)
    requires Sizes(frames, xs, ys, current, active)
    ensures D.WellFormed(d)
  {
    D.Desk(seq(TERMINALS, t requires 0 <= t < TERMINALS => Screen(frames[Home(t, current)], xs[t], ys[t])),
           current, active)
  }

  /** Changing the frame behind a terminal changes that terminal's screen and no other. */
  lemma FrameIsPrivate(frames: seq<seq<byte>>, xs: seq<nat>, ys: seq<nat>, current: nat, active: nat,
                       t: nat, s: Screen)
    requires Sizes(frames, xs, ys, current, active) && t < TERMINALS
    requires |s.cells| == PAGE && s.x < COLS
    ensures DeskOf(frames[Home(t, current) := s.cells], xs[t := s.x], ys[t := s.y], current, active)
         == D.Replaced(DeskOf(frames, xs, ys, current, active), t, s)
  {
    var d := DeskOf(frames, xs, ys, current, active);
    var d' := DeskOf(frames[Home(t, current) := s.cells], xs[t := s.x], ys[t := s.y], current, active);
    assert d'.screens == d.screens[t := s];
  }

  /** Saving the display into the old terminal's frame and loading it from the new one's
      leaves all three screens as they were. */
  lemma SwitchKeepsScreens(frames: seq<seq<byte>>, xs: seq<nat>, ys: seq<nat>, current: nat, active: nat, t: nat)
    requires Sizes(frames, xs, ys, current, active) && t < TERMINALS
    ensures var saved := frames[current + 1 := frames[0]];
      Sizes(saved[0 := saved[t + 1]], xs, ys, t, active)
      && DeskOf(saved[0 := saved[t + 1]], xs, ys, t, active) == DeskOf(frames, xs, ys, current, active).(current := t)
  {
    var saved := frames[current + 1 := frames[0]];
    assert DeskOf(saved[0 := saved[t + 1]], xs, ys, t, active).screens
        == DeskOf(frames, xs, ys, current, active).screens;
  }

  /** How many bytes a call with this count handles: none for a negative one. */
  function Count(nbytes: int): nat { if nbytes < 0 then 0 else nbytes }

  /** A forward copy of `a` over `b`, one byte further. */
  lemma Overwrite(a: seq<byte>, b: seq<byte>, i: nat)
    requires i < |a| <= |b|
    ensures (a[..i] + b[i..])[i := a[i]] == a[..i + 1] + b[i + 1..]
  {}

  class Console {
    const mem: array<byte>       // physical memory from 0xB8000 to 0xBC000
    const tables: array<Pte>
    var screenX: seq<nat>
    var screenY: seq<nat>
    var current: nat
    var active: nat

    ghost function Frame(f: nat): (r: seq<byte>)
      reads mem
      requires f < 4 && mem.Length == 4 * PAGE
      ensures |r| == PAGE
    {
      mem[f * PAGE..(f + 1) * PAGE]
    }

    ghost function Frames(): (r: seq<seq<byte>>)
      reads mem
      requires mem.Length == 4 * PAGE
      ensures |r| == 4 && forall f :: 0 <= f < 4 ==> |r[f]| == PAGE
    {
      [Frame(0), Frame(1), Frame(2), Frame(3)]
    }

    /** The four video pages are present and map into the four video frames. */
    ghost predicate Shape()
      reads this, tables
    {
      && mem.Length == 4 * PAGE && tables.Length == ENTRIES
      && |screenX| == |screenY| == TERMINALS && (forall t :: 0 <= t < TERMINALS ==> screenX[t] < COLS)
      && current < TERMINALS && active < TERMINALS
      && forall p :: VIDEO <= p < VIDEO + 4 ==> tables[p].present && VIDEO <= tables[p].frame < VIDEO + 4
    }

    /** Only the terminal on view is mapped to the display, every other to its own frame. */
    ghost predicate Valid()
      reads this, tables
    {
      && Shape()
      && tables[VIDEO].frame == VIDEO
      && forall p :: TERM_VID <= p < TERM_VID + TERMINALS ==>
          tables[p].frame == if p - TERM_VID == current then VIDEO else p
    }

    ghost function View(): (d: D.Desk)
      reads this, mem, tables
      requires Shape()
      ensures D.WellFormed(d) && d.current == current && d.active == active
      ensures d.screens[current].cells == Frame(0)
    {
      DeskOf(Frames(), screenX, screenY, current, active)
    }

    /** The screen terminal `t` owns, wherever its bytes are. */
    ghost function ScreenOf(t: nat): (s: Screen)
      reads this, mem, tables
      requires Shape() && t < TERMINALS
      ensures s.x == screenX[t] && s.y == screenY[t]
    {
      View().screens[t]
    }

    lemma ScreenIs(t: nat)
      requires Shape() && t < TERMINALS
      ensures ScreenOf(t) == Screen(Frames()[Home(t, current)], screenX[t], screenY[t])
    {}

    /** init_paging, on memory holding `initial`. */
    constructor (initial: array<byte>)
      requires initial.Length == 4 * PAGE
      ensures Valid() && mem == initial && fresh(tables) && current == active == 0
      ensures forall t :: 0 <= t < TERMINALS ==> View().screens[t] == Screen(Frame(Home(t, 0)), 0, 0)
    {
      mem := initial;
      tables := new Pte[ENTRIES];
      screenX, screenY, current, active := [0, 0, 0], [0, 0, 0], 0, 0;
      new;
      for i := 0 to ENTRIES
        invariant forall j :: 0 <= j < i ==> tables[j] == Pte(j, false)
        modifies tables
      {
        tables[i] := Pte(i, false);
      }
      tables[VIDEO] := Pte(VIDEO, true);
      tables[TERM_VID] := Pte(VIDEO, true);
      tables[TERM_VID + 1] := Pte(TERM_VID + 1, true);
      tables[TERM_VID + 2] := Pte(TERM_VID + 2, true);
    }

    /** A byte store through virtual page `page`. */
    method Store(page: nat, off: nat, c: byte)
      requires Shape() && VIDEO <= page < VIDEO + 4 && off < PAGE
      modifies mem
      ensures var f := tables[page].frame - VIDEO;
        Frames() == old(Frames())[f := old(Frames())[f][off := c]]
    {
      var f := tables[page].frame - VIDEO;
      mem[f * PAGE + off] := c;
      assert forall g :: 0 <= g < 4 && g != f ==> Frame(g) == old(Frame(g));
      assert Frame(f) == old(Frame(f))[off := c];
    }

    method Load(page: nat, off: nat) returns (c: byte)
      requires Shape() && VIDEO <= page < VIDEO + 4 && off < PAGE
      ensures c == Frames()[tables[page].frame - VIDEO][off]
    {
      c := mem[(tables[page].frame - VIDEO) * PAGE + off];
    }

    /** Copies a whole page (memcpy of WINDOW_SIZE bytes). */
    method CopyPage(dst: nat, src: nat)
      requires Shape() && VIDEO <= dst < VIDEO + 4 && VIDEO <= src < VIDEO + 4
      requires tables[dst].frame != tables[src].frame
      modifies mem
      ensures Frames() == old(Frames())[tables[dst].frame - VIDEO := old(Frames())[tables[src].frame - VIDEO]]
    {
      ghost var fs := Frames();
      ghost var d, s := tables[dst].frame - VIDEO, tables[src].frame - VIDEO;
      assert fs[s][..0] + fs[d][0..] == fs[d];
      for i := 0 to PAGE
        invariant Frames() == fs[d := fs[s][..i] + fs[d][i..]]
      {
        var c := Load(src, i);
        Store(dst, i, c);
        Overwrite(fs[s], fs[d], i);
      }
      assert fs[s][..PAGE] + fs[d][PAGE..] == fs[s];
    }

    /** Where terminal `t`'s screen lives: `page` maps to the frame behind it. */
    ghost predicate Backs(page: nat, t: nat)
      reads this, tables
      requires Shape()
    {
      && t < TERMINALS && VIDEO <= page < VIDEO + 4
      && tables[page].frame == if t == current then VIDEO else TERM_VID + t
    }

    /** A character and its attribute. */
    method StoreCell(page: nat, off: nat, c: byte)
      requires Shape() && VIDEO <= page < VIDEO + 4 && off + 1 < PAGE
      modifies mem
      ensures var f := tables[page].frame - VIDEO;
        Frames() == old(Frames())[f := old(Frames())[f][off := c][off + 1 := ATTRIB]]
    {
      Store(page, off, c);
      Store(page, off + 1, ATTRIB);
    }

    /** The body shared by putc and putc_number_2. */
    method PutVia(page: nat, t: nat, c: byte)
      requires Valid() && Backs(page, t) && Storable(ScreenOf(t), c)
      modifies mem, `screenX, `screenY
      ensures Valid() && View() == D.Replaced(old(View()), t, PutChar(old(ScreenOf(t)), c))
    {
      hide DeskOf;
      ScreenIs(t);
      FrameIsPrivate(Frames(), screenX, screenY, current, active, t, PutChar(ScreenOf(t), c));
      if IsBreak(c) {
        assert Frames() == Frames()[Home(t, current) := ScreenOf(t).cells];
        screenX := screenX[t := 0];
        screenY := screenY[t := screenY[t] + 1];
      } else {
        var off := 2 * (COLS * screenY[t] + screenX[t]);
        StoreCell(page, off, c);
        var x := (screenX[t] + 1) % COLS;
        assert x / COLS == 0;
        screenX := screenX[t := x];
        screenY := screenY[t := (screenY[t] + x / COLS) % ROWS];
      }
    }

    /** putc: output of the scheduled terminal. */
    method Putc(c: byte)
      requires Valid() && Storable(ScreenOf(active), c)
      modifies mem, `screenX, `screenY
      ensures Valid() && View() == D.Replaced(old(View()), active, PutChar(old(ScreenOf(active)), c))
    {
      PutVia(TERM_VID + active, active, c);
    }

    /** putc_number_2: keyboard echo on the viewed terminal. */
    method EchoChar(c: byte)
      requires Valid() && Storable(ScreenOf(current), c)
      modifies mem, `screenX, `screenY
      ensures Valid() && View() == D.Step(old(View()), D.Echo(c))
      ensures var x, y := old(screenX[current]), old(screenY[current]);
        if IsBreak(c) then Frame(0) == old(Frame(0)) && screenX[current] == 0 && screenY[current] == y + 1
        else
          && Frame(0) == old(Frame(0))[2 * (COLS * y + x) := c][2 * (COLS * y + x) + 1 := ATTRIB]
          && screenX[current] == (x + 1) % COLS && screenY[current] == y % ROWS
      ensures forall u :: 0 <= u < TERMINALS && u != current ==> ScreenOf(u) == old(ScreenOf(u))
    {
      PutVia(VIDEO, current, c);
    }

    /** The body shared by scroll and scroll_2: build the moved grid, then copy it back. */
    method ScrollVia(page: nat, t: nat)
      requires Valid() && Backs(page, t)
      modifies mem, `screenX, `screenY
      ensures Valid()
      ensures View() == D.Replaced(old(View()), t, Screen(Scrolled(old(ScreenOf(t)).cells), 0, ROWS - 2))
    {
      ghost var cells := ScreenOf(t).cells;
      var temp := ScrolledGrid(page);
      FrameIsPrivate(Frames(), screenX, screenY, current, active, t, Screen(Scrolled(cells), 0, ROWS - 2));
      StoreGrid(page, temp);
      assert Scrolled(cells)[..GRID_BYTES] + cells[GRID_BYTES..] == Scrolled(cells);
      screenX := screenX[t := 0];
      screenY := screenY[t := ROWS - 2];
    }

    method ScrolledGrid(page: nat) returns (temp: array<byte>)
      requires Shape() && VIDEO <= page < VIDEO + 4
      ensures fresh(temp) && temp.Length == GRID_BYTES
      ensures temp[..] == Scrolled(Frames()[tables[page].frame - VIDEO])[..GRID_BYTES]
    {
      ghost var cells := Frames()[tables[page].frame - VIDEO];
      temp := new byte[GRID_BYTES];
      for i := 0 to GRID_BYTES / 2 - COLS
        invariant forall k :: 0 <= k < 2 * i ==> temp[k] == ScrolledByte(cells, k)
        modifies temp
      {
        temp[2 * i] := Load(page, 2 * (i + COLS));
        temp[2 * i + 1] := ATTRIB;
      }
      for i := GRID_BYTES / 2 - COLS to GRID_BYTES / 2
        invariant forall k :: 0 <= k < 2 * i ==> temp[k] == ScrolledByte(cells, k)
        modifies temp
      {
        temp[2 * i] := SPACE;
        temp[2 * i + 1] := ATTRIB;
      }
    }

    method StoreGrid(page: nat, temp: array<byte>)
      requires Shape() && VIDEO <= page < VIDEO + 4 && temp.Length == GRID_BYTES && temp != mem
      modifies mem
      ensures var f := tables[page].frame - VIDEO;
        Frames() == old(Frames())[f := temp[..] + old(Frames())[f][GRID_BYTES..]]
    {
      ghost var fs := Frames();
      ghost var f := tables[page].frame - VIDEO;
      assert temp[..0] + fs[f][0..] == fs[f];
      for i := 0 to GRID_BYTES
        invariant Frames() == fs[f := temp[..i] + fs[f][i..]]
      {
        Store(page, i, temp[i]);
        Overwrite(temp[..], fs[f], i);
        assert temp[..][..i] == temp[..i] && temp[..][..i + 1] == temp[..i + 1];
      }
      assert temp[..GRID_BYTES] == temp[..];
    }

    method Scroll()
      requires Valid()
      modifies mem, `screenX, `screenY
      ensures Valid()
      ensures View() == D.Replaced(old(View()), active, Screen(Scrolled(old(ScreenOf(active)).cells), 0, ROWS - 2))
    {
      ScrollVia(TERM_VID + active, active);
    }

    /** scroll_2 */
    method ScrollView()
      requires Valid()
      modifies mem, `screenX, `screenY
      ensures Valid() && View() == D.Step(old(View()), D.ScrollView)
      ensures forall r, k :: 0 <= r < ROWS && 0 <= k < COLS ==> MovedUp(old(Frame(0)), Frame(0), r, k)
      ensures screenX[current] == 0 && screenY[current] == ROWS - 2
      ensures forall u :: 0 <= u < TERMINALS && u != current ==> ScreenOf(u) == old(ScreenOf(u))
    {
      hide Scrolled, DeskOf;
      ScrolledMovesUp(Frame(0));
      ScrollVia(VIDEO, current);
      assert ScreenOf(current) == Screen(Scrolled(old(Frame(0))), 0, ROWS - 2);
    }

    /** clear */
    method ClearView()
      requires Valid()
      modifies mem, `screenX, `screenY
      ensures Valid() && View() == D.Step(old(View()), D.ClearView)
      ensures forall r, k :: 0 <= r < ROWS && 0 <= k < COLS ==> CellIs(Frame(0), r, k, SPACE)
      ensures screenX[current] == 0 && screenY[current] == 0
      ensures forall u :: 0 <= u < TERMINALS && u != current ==> ScreenOf(u) == old(ScreenOf(u))
    {
      FrameIsPrivate(Frames(), screenX, screenY, current, active, current, Screen(Cleared(Frames()[0]), 0, 0));
      BlankGrid();
      screenX := screenX[current := 0];
      screenY := screenY[current := 0];
    }

    method BlankGrid()
      requires Shape() && tables[VIDEO].frame == VIDEO
      modifies mem
      ensures Frames() == old(Frames())[0 := Cleared(old(Frames())[0])]
    {
      ghost var fs := Frames();
      ghost var done := Cleared(fs[0]);
      assert done[..0] + fs[0][0..] == fs[0];
      for i := 0 to GRID_BYTES / 2
        invariant Frames() == fs[0 := done[..2 * i] + fs[0][2 * i..]]
      {
        Store(VIDEO, 2 * i, SPACE);
        Store(VIDEO, 2 * i + 1, ATTRIB);
        Overwrite(done, fs[0], 2 * i);
        Overwrite(done, fs[0], 2 * i + 1);
      }
      assert done[..GRID_BYTES] + fs[0][GRID_BYTES..] == done;
    }

    /** The switch to terminal `t`: give the viewed terminal its own frame back, save the
        display into it, load the display from `t`'s frame and map `t` to the display. */
    method SwitchTo(t: nat)
      requires Valid() && t < TERMINALS
      modifies this, mem, tables
      ensures Valid() && View() == D.Step(old(View()), D.Switch(t))
      ensures current == t && active == old(active) && Frame(0) == old(ScreenOf(t)).cells
      ensures forall u :: 0 <= u < TERMINALS ==> ScreenOf(u) == old(ScreenOf(u))
    {
      hide DeskOf;
      SwitchKeepsScreens(Frames(), screenX, screenY, current, active, t);
      SaveDisplay();
      current := t;
      CopyPage(VIDEO, TERM_VID + current);
      tables[TERM_VID + current] := Pte(VIDEO, true);
    }

    /** The first half of a switch; the viewed terminal then has its own frame. */
    method SaveDisplay()
      requires Valid()
      modifies mem, tables
      ensures Shape() && Frames() == old(Frames())[current + 1 := old(Frames())[0]]
      ensures forall p :: VIDEO <= p < VIDEO + 4 ==> tables[p] == Pte(p, true)
    {
      tables[TERM_VID + current] := Pte(TERM_VID + current, true);
      CopyPage(TERM_VID + current, VIDEO);
    }

    /** scroll followed by the newline: the cursor ends on the blank bottom row. */
    method ScrollThenNewline()
      requires Valid()
      modifies mem, `screenX, `screenY
      ensures Valid()
      ensures View() == D.Replaced(old(View()), active, Screen(Scrolled(old(ScreenOf(active)).cells), 0, ROWS - 1))
    {
      hide Scrolled, DeskOf;
      Scroll();
      Putc(NEWLINE);
    }

    /** One turn of terminal_write's loop: which of putc and scroll to call, and in what
        order, depends on the byte and on the edges the cursor touches. */
    method WriteByte(c: byte)
      requires Valid() && Storable(ScreenOf(active), c)
      modifies mem, `screenX, `screenY
      ensures Valid() && View() == D.Replaced(old(View()), active, Emit(old(ScreenOf(active)), c))
    {
      hide Scrolled, PutCell, DeskOf;
      var x, y := screenX[active], screenY[active];
      if x == COLS - 1 && y == ROWS - 1 && c != NEWLINE {
        Putc(c);
        ScrollThenNewline();
      } else if x == COLS - 1 && y == ROWS - 1 && c == NEWLINE {
        ScrollThenNewline();
      } else if y == ROWS - 1 && c == NEWLINE {
        ScrollThenNewline();
      } else if x == COLS - 1 && c == NEWLINE {
        Putc(c);
      } else if x == COLS - 1 {
        Putc(c);
        Putc(NEWLINE);
      } else if c == NEWLINE {
        Putc(NEWLINE);
      } else {
        Putc(c);
      }
    }

    /** terminal_write: shows NULs as spaces (overwriting them in the caller's buffer) and
        prints the bytes on the active terminal. */
    method TerminalWrite(buf: array?<byte>, nbytes: int) returns (j: int)
      requires Valid()
      requires buf != null ==> nbytes <= buf.Length && buf != mem
      requires buf != null ==> D.Allowed(View(), D.Write(buf[..Count(nbytes)]))
      modifies mem, `screenX, `screenY, buf
      ensures Valid()
      ensures buf == null ==> j == -1 && View() == old(View())
      ensures buf != null ==> j == Count(nbytes) && View() == D.Step(old(View()), D.Write(old(buf[..j])))
      ensures buf != null ==> buf[..] == D.Visible(old(buf[..j])) + old(buf[j..])
      ensures active != current ==> Frame(0) == old(Frame(0))
    {
      hide DeskOf, Emit, Storable;
      if buf == null {
        return -1;
      }
      var n := Count(nbytes);
      ReplaceNuls(buf, n);
      ghost var text := buf[..n];
      ghost var d := View();
      j := 0;
      assert text[0..] == text;
      assert d.screens == d.screens[active := d.screens[active]];
      while j < nbytes
        invariant 0 <= j <= n && buf[..n] == text && buf[n..] == old(buf[n..])
        invariant Valid() && active == d.active
        invariant View() == D.Replaced(d, active, ScreenOf(active))
        invariant Printable(ScreenOf(active), text[j..])
        invariant EmitAll(ScreenOf(active), text[j..]) == EmitAll(d.screens[d.active], text)
      {
        WriteByte(buf[j]);
        assert text[j..][0] == buf[j] && text[j..][1..] == text[j + 1..];
        j := j + 1;
      }
      assert text[j..] == [];
      assert Frame(0) == ScreenOf(current).cells && old(Frame(0)) == d.screens[current].cells;
    }

    method ReplaceNuls(buf: array<byte>, nbytes: nat)
      requires nbytes <= buf.Length
      modifies buf
      ensures buf[..nbytes] == D.Visible(old(buf[..nbytes])) && buf[nbytes..] == old(buf[nbytes..])
    {
      for i := 0 to nbytes
        invariant forall k :: 0 <= k < i ==> buf[k] == if old(buf[k]) == NUL then SPACE else old(buf[k])
        invariant forall k :: i <= k < buf.Length ==> buf[k] == old(buf[k])
      {
        if buf[i] == NUL {
          buf[i] := SPACE;
        }
      }
    }

    /** reset_cursor */
    method ResetCursor()
      requires Valid()
      modifies `screenX, `screenY
      ensures Valid()
      ensures View() == D.Replaced(old(View()), current, old(ScreenOf(current)).(x := 0, y := 0))
    {
      FrameIsPrivate(Frames(), screenX, screenY, current, active, current, ScreenOf(current).(x := 0, y := 0));
      assert Frames() == Frames()[Home(current, current) := ScreenOf(current).cells];
      screenX := screenX[current := 0];
      screenY := screenY[current := 0];
    }

    /** change_active_term */
    method Schedule(t: nat)
      requires Valid() && t < TERMINALS
      modifies `active
      ensures Valid() && View() == D.Step(old(View()), D.Schedule(t))
    {
      active := t;
    }

    /** Any run of switches, scheduling, output and echo is a run of three independent
        screens, and the display shows the screen of the terminal switched to last. */
    method Session(acts: seq<D.Action>)
      requires Valid() && D.Legal(View(), acts)
      modifies this, mem, tables
      ensures Valid() && View() == D.Run(old(View()), acts)
      ensures current == D.OnView(old(current), acts) && Frame(0) == ScreenOf(current).cells
    {
      hide DeskOf, D.OnView;
      D.LastSwitchIsOnView(View(), acts);
      ghost var d := View();
      for k := 0 to |acts|
        invariant Valid() && D.Legal(View(), acts[k..])
        invariant D.Run(View(), acts[k..]) == D.Run(d, acts)
      {
        assert acts[k..][1..] == acts[k + 1..];
        match acts[k]
        case Switch(t) => SwitchTo(t);
        case Schedule(t) => Schedule(t);
        case Write(text) =>
          var buf := new byte[|text|](i requires 0 <= i < |text| => text[i]);
          assert buf[..|text|] == text;
          var _ := TerminalWrite(buf, |text|);
        case Echo(c) => EchoChar(c);
        case ScrollView => ScrollView();
        case ClearView => ClearView();
      }
    }
  }
}
