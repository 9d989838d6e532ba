/**
 itoa and strrev: digits are written lowest first and the string is reversed in place. The
 reference reads a digit string back as a number.
 */
module Numbers {
  import opened Bytes
  import opened Limits
  import opened Arithmetic
  import opened Strings

  const ZERO: byte := 48

  // ---------- Digit strings ----------

  /** The lookup table "0123456789ABCDEFGHIJKLMNOPQRSTUVWXYZ". */
  function Digit(d: nat): (b: byte)
    requires d < 36
    ensures b != NUL
  {
    if d < 10 then (48 + d) as byte else (55 + d) as byte
  }

  function DigitValue(b: byte): (d: nat)
    requires 48 <= b < 58 || 65 <= b < 91
    ensures d < 36 && Digit(d) == b
  {
    if b < 58 then b as int - 48 else b as int - 55
  }

  predicate IsDigit(b: byte, radix: nat) {
    (48 <= b < 58 || 65 <= b < 91) && DigitValue(b) < radix
  }

  predicate IsNumeral(s: seq<byte>, radix: nat) {
    forall i :: 0 <= i < |s| ==> IsDigit(s[i], radix)
  }

  /** The number a digit string denotes, most significant digit first. */
  function Value(s: seq<byte>, radix: nat): nat
    requires IsNumeral(s, radix)
  {
    if s == [] then 0 else Value(s[..|s| - 1], radix) * radix + DigitValue(s[|s| - 1])
  }

  function Quotient(v: nat, radix: nat): nat
    requires radix > 0
  {
    v / radix
  }

  function Remainder(v: nat, radix: nat): (d: nat)
    requires radix > 0
    ensures d < radix
  {
    v % radix
  }

  lemma DivMod(v: nat, radix: nat)
    requires radix > 0
    ensures v == Quotient(v, radix) * radix + Remainder(v, radix)
  {}

  lemma Shrinks(v: nat, radix: nat)
    requires v > 0 && radix >= 2
    ensures Quotient(v, radix) < v && 2 * Quotient(v, radix) <= v
  {
    hide Quotient, Remainder;
    var q := Quotient(v, radix);
    DivMod(v, radix);
    MulMono(2, radix, q);
  }

  /** The digits of a number; none for 0. */
  function Digits(v: nat, radix: nat): (s: seq<byte>)
    requires 2 <= radix <= 36
    ensures NUL !in s
  {
    if v == 0 then []
    else Shrinks(v, radix); Digits(Quotient(v, radix), radix) + [Digit(Remainder(v, radix))]
  }

  lemma {:induction false} AppendDigit(s: seq<byte>, d: nat, radix: nat)
    requires IsNumeral(s, radix) && d < radix <= 36
    ensures IsNumeral(s + [Digit(d)], radix) && Value(s + [Digit(d)], radix) == Value(s, radix) * radix + d
    ensures Digit(d) == ZERO <==> d == 0
  {
    assert (s + [Digit(d)])[..|s|] == s;
    assert DigitValue(Digit(d)) == d;
  }

  lemma NoDigitsIsZero(radix: nat)
    ensures IsNumeral([], radix) && Value([], radix) == 0
  {}

  /** Reading the digits back gives the number, and the first digit is not a zero. */
  lemma {:induction false} DigitsDenote(v: nat, radix: nat)
    requires 2 <= radix <= 36
    ensures IsNumeral(Digits(v, radix), radix) && Value(Digits(v, radix), radix) == v
    ensures v > 0 ==> Digits(v, radix) != [] && Digits(v, radix)[0] != ZERO
  {
    hide Quotient, Remainder, IsDigit, Value;
    if v > 0 {
      var q, d := Quotient(v, radix), Remainder(v, radix);
      Shrinks(v, radix);
      DivMod(v, radix);
      DigitsDenote(q, radix);
      AppendDigit(Digits(q, radix), d, radix);
    } else {
      NoDigitsIsZero(radix);
    }
  }

  function Pow(b: nat, k: nat): nat { if k == 0 then 1 else b * Pow(b, k - 1) }

  /** A number below radix^k has at most k digits. */
  lemma {:induction false} DigitCount(v: nat, radix: nat, k: nat)
    requires 2 <= radix <= 36 && v < Pow(radix, k)
    ensures |Digits(v, radix)| <= k
  {
    hide Quotient, Remainder;
    if v > 0 {
      Shrinks(v, radix);
      QuotientBelow(v, radix, Pow(radix, k - 1));
      DigitCount(Quotient(v, radix), radix, k - 1);
    }
  }

  lemma QuotientBelow(v: nat, radix: nat, p: nat)
    requires radix > 0 && v < radix * p
    ensures Quotient(v, radix) < p
  {
    hide Quotient, Remainder;
    DivMod(v, radix);
    if Quotient(v, radix) >= p {
      MulMono(p, Quotient(v, radix), radix);
      assert false;
    }
  }

  function Reversed(s: seq<byte>): (r: seq<byte>)
    ensures |r| == |s| && forall i :: 0 <= i < |s| ==> r[i] == s[|s| - 1 - i]
  {
    seq(|s|, i requires 0 <= i < |s| => s[|s| - 1 - i])
  }

  // ---------- The loops ----------

  /** strrev: reverses the string at `at` in place. */
  method Strrev(buf: array<byte>, at: nat)
    requires at + |CString(buf[..], at)| < buf.Length
    modifies buf
    ensures var s := old(CString(buf[..], at));
      buf[..] == old(buf[..at]) + Reversed(s) + old(buf[at + |s|..])
  {
    hide CString;
    var n := Strlen(buf, at);
    SwapEnds(buf, at, at + n);
  }

  /** `m` is `was` with everything in lo..hi outside beg..end mirrored. */
  predicate Mirrored(was: seq<byte>, m: seq<byte>, lo: nat, hi: nat, beg: int, end: int)
    requires lo <= hi <= |was| == |m| && beg <= hi && lo - 1 <= end
  {
    forall k :: 0 <= k < |m| ==> m[k] == was[if lo <= k < beg || end < k < hi then lo + hi - 1 - k else k]
  }

  lemma {:induction false} SwapMirrors(was: seq<byte>, m: seq<byte>, lo: nat, hi: nat, beg: nat, end: nat)
    requires lo <= beg < end < hi <= |was| == |m| && beg + end == lo + hi - 1
    requires Mirrored(was, m, lo, hi, beg, end)
    ensures Mirrored(was, m[beg := m[end]][end := m[beg]], lo, hi, beg + 1, end - 1)
  {
    assert m[beg] == was[beg] && m[end] == was[end];
  }

  method SwapEnds(buf: array<byte>, lo: nat, hi: nat)
    requires lo <= hi <= buf.Length
    modifies buf
    ensures buf[..] == old(buf[..lo]) + Reversed(old(buf[lo..hi])) + old(buf[hi..])
  {
    hide Mirrored;
    ghost var was := buf[..];
    var beg, end := lo, hi - 1;
    NothingMirrored(was, lo, hi);
    while beg < end
      invariant lo <= beg <= end + 1 <= hi && beg + end == lo + hi - 1
      invariant Mirrored(was, buf[..], lo, hi, beg, end)
    {
      SwapMirrors(was, buf[..], lo, hi, beg, end);
      buf[beg], buf[end] := buf[end], buf[beg];
      beg, end := beg + 1, end - 1;
    }
    MirroredIsReversed(was, buf[..], lo, hi, beg, end);
  }

  lemma NothingMirrored(was: seq<byte>, lo: nat, hi: nat)
    requires lo <= hi <= |was|
    ensures Mirrored(was, was, lo, hi, lo, hi - 1)
  {}

  lemma {:induction false} MirroredIsReversed(was: seq<byte>, m: seq<byte>, lo: nat, hi: nat, beg: nat, end: int)
    requires lo <= beg <= hi <= |was| == |m| && beg + end == lo + hi - 1 && end <= beg
    requires Mirrored(was, m, lo, hi, beg, end)
    ensures m == was[..lo] + Reversed(was[lo..hi]) + was[hi..]
  {
    var r := was[..lo] + Reversed(was[lo..hi]) + was[hi..];
    assert forall k :: 0 <= k < |m| ==> m[k] == r[k];
  }

  lemma {:induction false} PowSplit(b: nat, m: nat, n: nat)
    ensures Pow(b, m + n) == Pow(b, m) * Pow(b, n)
  {
    if m > 0 {
      PowSplit(b, m - 1, n);
      Assoc(b, Pow(b, m - 1), Pow(b, n));
    }
  }

  lemma Assoc(a: nat, b: nat, c: nat)
    ensures a * b * c == a * (b * c)
  {}

  lemma WordPowers()
    ensures Pow(2, 32) == WORD_LIMIT && Pow(16, 8) == WORD_LIMIT
  {
    assert Pow(2, 2) == 4;
    PowSplit(2, 2, 2);
    PowSplit(2, 4, 4);
    PowSplit(2, 8, 8);
    PowSplit(2, 16, 16);
    assert Pow(16, 2) == 256;
    PowSplit(16, 2, 2);
    PowSplit(16, 4, 4);
  }

  /** What itoa should leave in the buffer. */
  function Numeral(v: nat, radix: nat): (s: seq<byte>)
    requires 2 <= radix <= 36
    ensures NUL !in s
  {
    if v == 0 then [ZERO] else Digits(v, radix)
  }

  /** The numeral of a 32-bit number reads back as the number, has no leading zero and takes
      at most 32 characters; in hexadecimal, 8. */
  lemma NumeralDenotes(v: nat, radix: nat)
    requires v < WORD_LIMIT && 2 <= radix <= 36
    ensures var s := Numeral(v, radix);
      && IsNumeral(s, radix) && Value(s, radix) == v
      && 1 <= |s| <= 32 && (radix == 16 ==> |s| <= 8)
      && (s[0] == ZERO <==> v == 0)
  {
    hide Digits, Pow;
    DigitsDenote(v, radix);
    WordPowers();
    PowMono(2, radix, 32);
    DigitCount(v, radix, 32);
    if radix == 16 { DigitCount(v, 16, 8); }
    if v == 0 { assert [ZERO][..0] == []; }
  }

  lemma {:induction false} PowMono(a: nat, b: nat, k: nat)
    requires a <= b
    ensures Pow(a, k) <= Pow(b, k)
  {
    if k > 0 {
      PowMono(a, b, k - 1);
      Product(b - a, Pow(a, k - 1));
      Product(b, Pow(b, k - 1) - Pow(a, k - 1));
      assert b * Pow(b, k - 1) - a * Pow(a, k - 1)
          == (b - a) * Pow(a, k - 1) + b * (Pow(b, k - 1) - Pow(a, k - 1));
    }
  }

  /** itoa: leaves exactly the numeral, NUL-terminated, at `at`. */
  method Itoa(value: nat, buf: array<byte>, at: nat, radix: nat)
    requires value < WORD_LIMIT && 2 <= radix <= 36 && at + 33 <= buf.Length
    modifies buf
    ensures CString(buf[..], at) == Numeral(value, radix)
    ensures forall i :: 0 <= i < buf.Length && !(at <= i <= at + |Numeral(value, radix)|) ==> buf[i] == old(buf[i])
  {
    hide CString, Digits, Reversed;
    if value == 0 {
      buf[at] := ZERO;
      buf[at + 1] := NUL;
      IsString(buf[..], at, [ZERO]);
      return;
    }
    var k := WriteDigits(value, buf, at, radix);
    buf[at + k] := NUL;
    ghost var low := buf[at..at + k];
    IsString(buf[..], at, low);
    Strrev(buf, at);
    assert buf[at..at + k] == Reversed(low);
    IsString(buf[..], at, Digits(value, radix));
  }

  /** Writing the lowest remaining digit. */
  lemma OneDigitLess(v: nat, radix: nat, low: seq<byte>)
    requires v > 0 && 2 <= radix <= 36
    ensures var d := Digit(Remainder(v, radix));
      Digits(Quotient(v, radix), radix) + Reversed(low + [d]) == Digits(v, radix) + Reversed(low)
    ensures Quotient(v, radix) < v
  {
    hide Quotient, Remainder;
    Shrinks(v, radix);
    var d := Digit(Remainder(v, radix));
    assert Reversed(low + [d]) == [d] + Reversed(low);
  }

  /** The digits, lowest first. */
  method WriteDigits(value: nat, buf: array<byte>, at: nat, radix: nat) returns (k: nat)
    requires value < WORD_LIMIT && 2 <= radix <= 36 && at + 33 <= buf.Length
    modifies buf
    ensures k <= 32 && Reversed(buf[at..at + k]) == Digits(value, radix) && NUL !in buf[at..at + k]
    ensures forall i :: 0 <= i < buf.Length && !(at <= i < at + k) ==> buf[i] == old(buf[i])
  {
    hide Digits, Pow, Reversed, Quotient, Remainder;
    WordPowers();
    NoDigits(radix);
    k := 0;
    var newval: nat := value;
    ghost var low: seq<byte> := [];
    assert Digits(value, radix) + Reversed(low) == Digits(value, radix);
    while newval > 0
      invariant k <= 32 && newval < Pow(2, 32 - k) && low == buf[at..at + k]
      invariant Digits(newval, radix) + Reversed(low) == Digits(value, radix) && NUL !in low
      invariant forall i :: 0 <= i < buf.Length && !(at <= i < at + k) ==> buf[i] == old(buf[i])
      decreases newval
    {
      HalvesRoom(newval, radix, 32 - k);
      OneDigitLess(newval, radix, low);
      var d := Remainder(newval, radix);
      buf[at + k] := Digit(d);
      low := low + [Digit(d)];
      newval := Quotient(newval, radix);
      k := k + 1;
    }
    assert [] + Reversed(low) == Reversed(low);
  }

  lemma NoDigits(radix: nat)
    requires 2 <= radix <= 36
    ensures Digits(0, radix) == [] && Reversed([]) == []
  {}

  lemma HalvesRoom(v: nat, radix: nat, k: nat)
    requires 0 < v < Pow(2, k) && radix >= 2
    ensures k > 0 && Quotient(v, radix) < Pow(2, k - 1)
  {
    hide Quotient;
    Shrinks(v, radix);
  }

  /** printf's %#x: eight hexadecimal digits, zero-padded on the left. */
  method HexDigits(value: nat, buf: array<byte>) returns (start: nat)
    requires value < WORD_LIMIT && buf.Length == 64
    modifies buf
    ensures start <= 8 && |CString(buf[..], start)| == 8
    ensures IsNumeral(CString(buf[..], start), 16) && Value(CString(buf[..], start), 16) == value
  {
    hide CString, Value, Digits;
    NumeralDenotes(value, 16);
    Itoa(value, buf, 8, 16);
    ghost var s := Numeral(value, 16);
    start := Strlen(buf, 8);
    for i := start to 8
      invariant forall k :: start <= k < i ==> buf[k] == ZERO
      invariant CString(buf[..], 8) == s
    {
      ghost var before := buf[..];
      buf[i] := ZERO;
      SameTail(before, buf[..], 8);
    }
    ghost var zeros := seq(8 - start, _ => ZERO);
    IsString(buf[..], start, zeros + s);
    LeadingZeros(8 - start, s, 16);
  }

  lemma {:induction false} SameTail(m: seq<byte>, m': seq<byte>, a: nat)
    requires |m| == |m'| && forall i :: a <= i < |m| ==> m[i] == m'[i]
    ensures CString(m, a) == CString(m', a)
    decreases |m| - a
  {
    if a < |m| { SameTail(m, m', a + 1); }
  }

  lemma {:induction false} LeadingZeros(n: nat, s: seq<byte>, radix: nat)
    requires IsNumeral(s, radix) && radix >= 2
    ensures var t := seq(n, _ => ZERO) + s; IsNumeral(t, radix) && Value(t, radix) == Value(s, radix)
    decreases |s|, n
  {
    var t := seq(n, _ => ZERO) + s;
    if s != [] {
      LeadingZeros(n, s[..|s| - 1], radix);
      assert t[..|t| - 1] == seq(n, _ => ZERO) + s[..|s| - 1];
    } else if n > 0 {
      LeadingZeros(n - 1, [], radix);
      assert t[..|t| - 1] == seq(n - 1, _ => ZERO) + [];
    }
  }
}
