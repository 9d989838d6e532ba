/**
 The reference for the blink list: the plain sequence of elements, newest first, the screen
 they are drawn on, and what any run of operations and timer ticks does to both.
 */
module BlinkRuns {
  import opened Bytes
  import opened BlinkTiming

  const SLOTS: nat := 2000

  /** The first (most recently added) element at a location, or the length. */
  function FirstAt(c: seq<Blink>, loc: word16): (i: nat)
    ensures i <= |c| && (i < |c| ==> c[i].location == loc)
    ensures forall j :: 0 <= j < i ==> c[j].location != loc
  {
    if c == [] || c[0].location == loc then 0 else 1 + FirstAt(c[1..], loc)
  }

  lemma FirstAtIs(c: seq<Blink>, loc: word16, i: nat)
    requires i <= |c| && (i < |c| ==> c[i].location == loc)
    requires forall j :: 0 <= j < i ==> c[j].location != loc
    ensures FirstAt(c, loc) == i
  {}

  // ---------- One tick of the whole list ----------

  function TickAll(c: seq<Blink>): (r: seq<Blink>)
    ensures |r| == |c|
  {
    seq(|c|, i requires 0 <= i < |c| => TickNode(c[i]))
  }

  lemma TickNext(c: seq<Blink>, i: nat)
    requires i < |c|
    ensures (TickAll(c)[..i] + c[i..])[i := TickNode(c[i])] == TickAll(c)[..i + 1] + c[i + 1..]
    ensures (TickAll(c)[..i] + c[i..])[i] == c[i]
  {}

  /** What ticking one element does to the screen. */
  function Poked(v: seq<byte>, b: Blink): (r: seq<byte>)
    ensures |r| == |v|
  {
    var at := 2 * b.location as int;
    if Runs(b) || at >= |v| then v else v[at := Shown(Toggled(b))]
  }

  function Drawn(v: seq<byte>, c: seq<Blink>): (r: seq<byte>)
    ensures |r| == |v|
    decreases |c|
  {
    if c == [] then v else Drawn(Poked(v, c[0]), c[1..])
  }

  /** No other element sits at the place of the i-th. */
  predicate Alone(c: seq<Blink>, i: nat)
    requires i < |c|
  {
    forall j :: 0 <= j < |c| && j != i ==> c[j].location != c[i].location
  }

  lemma {:induction false} DrawnKeepsCell(v: seq<byte>, c: seq<Blink>, at: nat)
    requires at < |v| && forall j :: 0 <= j < |c| ==> 2 * c[j].location as int != at
    ensures Drawn(v, c)[at] == v[at]
    decreases |c|
  {
    if c != [] { DrawnKeepsCell(Poked(v, c[0]), c[1..], at); }
  }

  /** The cell of an element that is alone there keeps showing the right character, and
      regains it when its phase ends. */
  lemma {:induction false} DrawnShows(v: seq<byte>, c: seq<Blink>, i: nat)
    requires i < |c| && Alone(c, i) && 2 * c[i].location as int < |v|
    requires v[2 * c[i].location as int] == Shown(c[i]) || !Runs(c[i])
    ensures Drawn(v, c)[2 * c[i].location as int] == Shown(TickNode(c[i]))
    decreases |c|
  {
    var at := 2 * c[i].location as int;
    if i == 0 {
      DrawnKeepsCell(Poked(v, c[0]), c[1..], at);
    } else {
      assert c[0].location != c[i].location && c[1..][i - 1] == c[i];
      DrawnShows(Poked(v, c[0]), c[1..], i - 1);
    }
  }

  // ---------- Runs on the plain sequence ----------

  datatype Op = AddOp(b: Blink) | RemoveOp(loc: word16) | SyncOp(from: word16, to: word16) | TickOp

  /** The element `b` with the timing of `a`. */
  function Synced(a: Blink, b: Blink): Blink {
    b.(onLength := a.onLength, offLength := a.offLength, countdown := a.countdown, status := a.status)
  }

  function PerformOne(c: seq<Blink>, op: Op): (r: seq<Blink>)
    ensures |c| <= SLOTS ==> |r| <= SLOTS
  {
    match op
    case AddOp(b) => if b.location >= 2000 || |c| == SLOTS then c else [Started(b)] + c
    case RemoveOp(loc) => var i := FirstAt(c, loc); if i < |c| then c[..i] + c[i + 1..] else c
    case SyncOp(from, to) =>
      var i, j := FirstAt(c, from), FirstAt(c, to);
      if i < |c| && j < |c| then c[j := Synced(c[i], c[j])] else c
    case TickOp => TickAll(c)
  }

  function PerformAll(c: seq<Blink>, ops: seq<Op>): seq<Blink>
    decreases |ops|
  {
    if ops == [] then c else PerformAll(PerformOne(c, ops[0]), ops[1..])
  }

  /** What an operation does to the screen. Sync redraws with the off character. */
  function DrawOne(v: seq<byte>, c: seq<Blink>, op: Op): (r: seq<byte>)
    ensures |r| == |v|
  {
    match op
    case AddOp(b) => if b.location >= 2000 || |c| == SLOTS then v else Plot(v, b.location, b.onChar)
    case RemoveOp(_) => v
    case SyncOp(from, to) =>
      if FirstAt(c, from) < |c| && FirstAt(c, to) < |c| then Plot(v, to, c[FirstAt(c, to)].offChar) else v
    case TickOp => Drawn(v, c)
  }

  function Plot(v: seq<byte>, loc: word16, ch: byte): (r: seq<byte>)
    ensures |r| == |v|
  {
    if 2 * loc as int < |v| then v[2 * loc as int := ch] else v
  }

  function DrawAll(v: seq<byte>, c: seq<Blink>, ops: seq<Op>): (r: seq<byte>)
    ensures |r| == |v|
    decreases |ops|
  {
    if ops == [] then v else DrawAll(DrawOne(v, c, ops[0]), PerformOne(c, ops[0]), ops[1..])
  }

  // ---------- One element over a whole run ----------

  /** The operation adds, removes and syncs nothing at `loc`. */
  predicate Spares(op: Op, loc: word16) {
    match op
    case AddOp(b) => b.location != loc
    case RemoveOp(l) => l != loc
    case SyncOp(_, to) => to != loc
    case TickOp => true
  }

  predicate AllSpare(ops: seq<Op>, loc: word16) {
    forall k :: 0 <= k < |ops| ==> Spares(ops[k], loc)
  }

  function TickCount(ops: seq<Op>): nat {
    if ops == [] then 0 else (if ops[0].TickOp? then 1 else 0) + TickCount(ops[1..])
  }

  lemma {:induction false} SparedByRemove(c: seq<Blink>, l: word16, loc: word16)
    requires FirstAt(c, loc) < |c| && l != loc
    ensures var i, c' := FirstAt(c, loc), PerformOne(c, RemoveOp(l));
      var i' := FirstAt(c', loc);
      i' < |c'| && c'[i'] == c[i] && (Alone(c, i) ==> Alone(c', i'))
  {
    hide FirstAt;
    var i, j := FirstAt(c, loc), FirstAt(c, l);
    if j < |c| {
      var c', i' := c[..j] + c[j + 1..], if j < i then i - 1 else i;
      forall k | 0 <= k < |c'|
        ensures c'[k] == c[if k < j then k else k + 1]
        ensures k < i' ==> c'[k].location != loc
        ensures Alone(c, i) && k != i' ==> c'[k].location != loc
      {}
      FirstAtIs(c', loc, i');
    }
  }

  /** Nothing but ticks changes the first element at a location the operation spares. */
  lemma {:induction false} SparedElement(c: seq<Blink>, op: Op, loc: word16)
    requires FirstAt(c, loc) < |c| && Spares(op, loc)
    ensures var i, c' := FirstAt(c, loc), PerformOne(c, op);
      var i' := FirstAt(c', loc);
      && i' < |c'| && c'[i'] == (if op.TickOp? then TickNode(c[i]) else c[i])
      && (Alone(c, i) ==> Alone(c', i'))
  {
    hide TickNode;
    var i, c' := FirstAt(c, loc), PerformOne(c, op);
    match op
    case AddOp(b) => if |c'| > |c| { FirstAtIs(c', loc, i + 1); }
    case RemoveOp(l) => SparedByRemove(c, l, loc);
    case SyncOp(_, to) => FirstAtIs(c', loc, i);
    case TickOp =>
      TickKeepsPlace(c);
      FirstAtIs(c', loc, i);
  }

  lemma TickKeepsPlace(c: seq<Blink>)
    ensures forall i :: 0 <= i < |c| ==> TickAll(c)[i].location == c[i].location
  {}

  lemma {:induction false} SparedCell(v: seq<byte>, c: seq<Blink>, op: Op, loc: word16)
    requires FirstAt(c, loc) < |c| && Spares(op, loc) && Alone(c, FirstAt(c, loc))
    requires 2 * loc as int < |v| && v[2 * loc as int] == Shown(c[FirstAt(c, loc)])
    ensures var c' := PerformOne(c, op);
      FirstAt(c', loc) < |c'| && DrawOne(v, c, op)[2 * loc as int] == Shown(c'[FirstAt(c', loc)])
  {
    hide TickNode, PerformOne, Drawn;
    SparedElement(c, op, loc);
    if op.TickOp? {
      DrawnShows(v, c, FirstAt(c, loc));
    }
  }

  lemma {:induction false} TickFirst(b: Blink, n: nat)
    ensures Ticks(TickNode(b), n) == Ticks(b, n + 1)
  {
    hide TickNode;
    if n > 0 { TickFirst(b, n - 1); }
  }

  /** Over any run that spares its location the first element there just ticks; if it is alone
      and its cell is right, both stay so. */
  lemma {:induction false} SparedOverRun(v: seq<byte>, c: seq<Blink>, ops: seq<Op>, loc: word16)
    requires FirstAt(c, loc) < |c| && AllSpare(ops, loc)
    ensures var i, c' := FirstAt(c, loc), PerformAll(c, ops);
      var i' := FirstAt(c', loc);
      && i' < |c'| && c'[i'] == Ticks(c[i], TickCount(ops))
      && (Alone(c, i) ==> Alone(c', i'))
      && (Alone(c, i) && 2 * loc as int < |v| && v[2 * loc as int] == Shown(c[i])
          ==> DrawAll(v, c, ops)[2 * loc as int] == Shown(c'[i']))
    decreases |ops|
  {
    hide TickNode, PerformOne, DrawOne, Shown, Alone, FirstAt;
    if ops != [] {
      var i, op := FirstAt(c, loc), ops[0];
      SparedElement(c, op, loc);
      if Alone(c, i) && 2 * loc as int < |v| && v[2 * loc as int] == Shown(c[i]) {
        SparedCell(v, c, op, loc);
      }
      SparedOverRun(DrawOne(v, c, op), PerformOne(c, op), ops[1..], loc);
      if op.TickOp? { TickFirst(c[i], TickCount(ops[1..])); }
    }
  }

  /** An element added where nothing else blinks, after any run that does not add, remove or
      sync at its place: it has ticked as often as the run, and it is on, with its on character
      in its cell, exactly in the first part of its period. */
  lemma {:induction false} BlinksInPeriod(v: seq<byte>, c: seq<Blink>, b: Blink, ops: seq<Op>)
    requires b.location < 2000 && |c| < SLOTS && 2 * b.location as int < |v|
    requires FirstAt(c, b.location) == |c| && AllSpare(ops, b.location)
    ensures var c', n := PerformAll(c, [AddOp(b)] + ops), TickCount(ops);
      var i, on := FirstAt(c', b.location), n % Period(b) < Lasts(b.onLength);
      && i < |c'| && c'[i] == Ticks(Started(b), n) && (IsOn(c'[i]) <==> on)
      && DrawAll(v, c, [AddOp(b)] + ops)[2 * b.location as int] == if on then b.onChar else b.offChar
  {
    hide TickNode, Period, Lasts;
    var all := [AddOp(b)] + ops;
    assert all[1..] == ops;
    var c1, v1 := PerformOne(c, AddOp(b)), DrawOne(v, c, AddOp(b));
    assert FirstAt(c1, b.location) == 0 && Alone(c1, 0);
    SparedOverRun(v1, c1, ops, b.location);
    OnDuringFirstPart(b, TickCount(ops));
  }

  /** After a sync the two elements keep the same timing over any run that spares both, and the
      second keeps its place and characters. */
  lemma {:induction false} SyncKeepsPace(c: seq<Blink>, from: word16, to: word16, ops: seq<Op>)
    requires FirstAt(c, from) < |c| && FirstAt(c, to) < |c|
    requires AllSpare(ops, from) && AllSpare(ops, to)
    ensures var c' := PerformAll(c, [SyncOp(from, to)] + ops);
      var i, j := FirstAt(c', from), FirstAt(c', to);
      && i < |c'| && j < |c'| && SameTiming(c'[i], c'[j])
      && c'[i] == Ticks(c[FirstAt(c, from)], TickCount(ops)) && SameLook(c'[j], c[FirstAt(c, to)])
  {
    hide TickNode, SameTiming;
    var op := SyncOp(from, to);
    assert ([op] + ops)[1..] == ops;
    var c1 := PerformOne(c, op);
    SyncedFirsts(c, from, to);
    SparedOverRun([], c1, ops, from);
    SparedOverRun([], c1, ops, to);
    SyncedStaySynced(c1[FirstAt(c1, from)], c1[FirstAt(c1, to)], TickCount(ops));
    TicksKeepLook(c1[FirstAt(c1, to)], TickCount(ops));
  }

  lemma {:induction false} SyncedFirsts(c: seq<Blink>, from: word16, to: word16)
    requires FirstAt(c, from) < |c| && FirstAt(c, to) < |c|
    ensures var c' := PerformOne(c, SyncOp(from, to));
      && FirstAt(c', from) == FirstAt(c, from) && FirstAt(c', to) == FirstAt(c, to)
      && c'[FirstAt(c, from)] == c[FirstAt(c, from)]
      && SameTiming(c[FirstAt(c, from)], c'[FirstAt(c, to)]) && SameLook(c[FirstAt(c, to)], c'[FirstAt(c, to)])
      && forall k :: 0 <= k < |c| && k != FirstAt(c, to) ==> c'[k] == c[k]
  {
    var c' := PerformOne(c, SyncOp(from, to));
    FirstAtIs(c', from, FirstAt(c, from));
    FirstAtIs(c', to, FirstAt(c, to));
  }

  /** A sync leaves the wrong character exactly when the element is left on and its two
      characters differ; the end of that phase puts it right. */
  lemma {:induction false} SyncedCell(v: seq<byte>, c: seq<Blink>, from: word16, to: word16)
    requires FirstAt(c, from) < |c| && FirstAt(c, to) < |c| && 2 * to as int < |v|
    ensures var c', v' := PerformOne(c, SyncOp(from, to)), DrawOne(v, c, SyncOp(from, to));
      var j := FirstAt(c', to);
      && j < |c'| && (v'[2 * to as int] == Shown(c'[j]) <==> !IsOn(c'[j]) || c'[j].onChar == c'[j].offChar)
      && (Alone(c', j) && !Runs(c'[j]) ==> Drawn(v', c')[2 * to as int] == Shown(TickNode(c'[j])))
  {
    var c', v' := PerformOne(c, SyncOp(from, to)), DrawOne(v, c, SyncOp(from, to));
    var j := FirstAt(c, to);
    FirstAtIs(c', to, j);
    if Alone(c', j) && !Runs(c'[j]) {
      DrawnShows(v', c', j);
    }
  }
}
