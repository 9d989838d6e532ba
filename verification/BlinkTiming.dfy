/**
 One blinking character: sixteen-bit countdowns, a status word, and what one timer tick does
 to them.
 */
module BlinkTiming {
  import opened Bytes
  import opened Arithmetic

  newtype word16 = w: int | 0 <= w < 0x1_0000

  datatype Blink = Blink(location: word16, onChar: byte, offChar: byte, onLength: word16, offLength: word16,
                         countdown: word16, status: word16)

  predicate IsOn(b: Blink) { b.status % 2 == 1 }

  /** The character its cell should show. */
  function Shown(b: Blink): byte { if IsOn(b) then b.onChar else b.offChar }

  /** decw followed by a signed test: does the countdown stay positive? */
  function Decremented(c: word16): word16 { if c == 0 then 0xFFFF else c - 1 }

  predicate Runs(b: Blink) { 0 < Decremented(b.countdown) < 0x8000 }

  function Toggled(b: Blink): Blink {
    if IsOn(b) then b.(countdown := b.offLength, status := b.status - 1)
    else b.(countdown := b.onLength, status := b.status + 1)
  }

  function TickNode(b: Blink): Blink {
    if Runs(b) then b.(countdown := Decremented(b.countdown)) else Toggled(b)
  }

  function Ticks(b: Blink, n: nat): (r: Blink)
    decreases n
  {
    if n == 0 then b else TickNode(Ticks(b, n - 1))
  }

  /** mp1_ioctl_add starts an element on, with a full countdown. */
  function Started(b: Blink): Blink { b.(status := 1, countdown := b.onLength) }

  /** How many ticks a phase of this length lasts: a zero length, or one beyond the signed
      range by more than the first decrement, lasts a single tick. */
  function Lasts(length: word16): (t: nat)
    ensures t >= 1
  {
    if 1 <= length <= 0x8000 then length as nat else 1
  }

  function Period(b: Blink): (p: nat)
    ensures p >= 2
  {
    Lasts(b.onLength) + Lasts(b.offLength)
  }

  /** The state `p` ticks into a period. */
  function AtPhase(b: Blink, p: nat): Blink
    requires p < Period(b)
  {
    if p < Lasts(b.onLength) then
      b.(status := 1, countdown := if p == 0 then b.onLength else (b.onLength as nat - p) as word16)
    else
      var q := p - Lasts(b.onLength);
      b.(status := 0, countdown := if q == 0 then b.offLength else (b.offLength as nat - q) as word16)
  }

  lemma PhaseAdvances(b: Blink, p: nat)
    requires p < Period(b)
    ensures TickNode(AtPhase(b, p)) == AtPhase(b, if p + 1 == Period(b) then 0 else p + 1)
  {}

  lemma PhaseStarts(b: Blink)
    ensures AtPhase(b, 0) == Started(b) && 0 % Period(b) == 0
  {}

  lemma {:induction false} TicksArePeriodic(b: Blink, n: nat)
    ensures Ticks(Started(b), n) == AtPhase(b, n % Period(b))
  {
    hide AtPhase, TickNode;
    PhaseStarts(b);
    if n > 0 {
      TicksArePeriodic(b, n - 1);
      PhaseAdvances(b, (n - 1) % Period(b));
      NextPhase(n - 1, Period(b));
    }
  }

  lemma NextPhase(n: nat, p: nat)
    requires p >= 2
    ensures (n + 1) % p == if n % p + 1 == p then 0 else n % p + 1
  {
    var q, r := n / p, n % p;
    assert n == q * p + r;
    if r + 1 == p {
      assert n + 1 == (q + 1) * p;
      UniqueRemainder(n + 1, q + 1, 0, p);
    } else {
      UniqueRemainder(n + 1, q, r + 1, p);
    }
  }

  lemma UniqueRemainder(n: nat, q: nat, r: nat, p: nat)
    requires p > 0 && r < p && n == q * p + r
    ensures n % p == r
  {
    var d := n / p - q;
    assert n == (n / p) * p + n % p;
    assert (n / p) * p == (d + q) * p == d * p + q * p;
    assert d * p == r - n % p;
    if d != 0 { AtLeastOnce(d, p); }
  }

  lemma AtLeastOnce(d: int, p: int)
    requires d != 0 && p > 0
    ensures d * p >= p || d * p <= -p
  {
    if d > 0 {
      Product(d - 1, p);
      assert (d - 1) * p == d * p - p;
    } else {
      Product(-d - 1, p);
      assert (-d - 1) * p == -(d * p) - p;
    }
  }

  /** After n ticks an element is on exactly during the first part of its period. */
  lemma OnDuringFirstPart(b: Blink, n: nat)
    ensures IsOn(Ticks(Started(b), n)) <==> n % Period(b) < Lasts(b.onLength)
    ensures var c := Ticks(Started(b), n);
      c.location == b.location && Shown(c) == if n % Period(b) < Lasts(b.onLength) then b.onChar else b.offChar
  {
    TicksArePeriodic(b, n);
  }

  /** For lengths from 1 to 0x8000: on for exactly onLength ticks, then off for offLength, then
      on again. */
  lemma {:induction false} PhaseLengths(b: Blink, n: nat)
    requires 1 <= b.onLength <= 0x8000 && 1 <= b.offLength <= 0x8000
    ensures n < b.onLength as nat ==> IsOn(Ticks(Started(b), n))
    ensures b.onLength as nat <= n < b.onLength as nat + b.offLength as nat ==> !IsOn(Ticks(Started(b), n))
    ensures n == b.onLength as nat + b.offLength as nat ==> Ticks(Started(b), n) == Started(b)
  {
    var p := Period(b);
    TicksArePeriodic(b, n);
    PhaseStarts(b);
    if n < p {
      UniqueRemainder(n, 0, n, p);
    } else if n == p {
      UniqueRemainder(n, 1, 0, p);
    }
  }

  predicate SameLook(a: Blink, b: Blink) {
    a.location == b.location && a.onChar == b.onChar && a.offChar == b.offChar
  }

  /** Ticking changes neither place nor characters. */
  lemma {:induction false} TicksKeepLook(b: Blink, n: nat)
    ensures SameLook(Ticks(b, n), b)
  {
    if n > 0 { TicksKeepLook(b, n - 1); }
  }

  predicate SameTiming(a: Blink, b: Blink) {
    a.onLength == b.onLength && a.offLength == b.offLength && a.countdown == b.countdown && a.status == b.status
  }

  /** Two elements that agree on their timing fields agree after every later tick. */
  lemma {:induction false} SyncedStaySynced(a: Blink, b: Blink, n: nat)
    requires SameTiming(a, b)
    ensures SameTiming(Ticks(a, n), Ticks(b, n))
  {
    if n > 0 { SyncedStaySynced(a, b, n - 1); }
  }
}
