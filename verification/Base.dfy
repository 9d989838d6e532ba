/** Bytes and the characters the kernel treats specially. */
module Bytes {
  newtype byte = b: int | 0 <= b < 256

  const NUL: byte := 0
  const NEWLINE: byte := 10
  const RETURN: byte := 13
  const SPACE: byte := 32

  function Ascii(s: string): seq<byte> {
    seq(|s|, i requires 0 <= i < |s| => if s[i] < 128 as char then s[i] as byte else NUL)
  }
}

/** Sizes several parts share. */
module Limits {
  const TERMINALS: nat := 3
  const WORD_LIMIT: int := 0x1_0000_0000
}

/** Facts about products, kept apart from the proofs that need them. */
module Arithmetic {
  lemma Product(a: int, b: int)
    requires a >= 0 && b >= 0
    ensures a * b >= 0
  {}

  lemma MulMono(a: int, b: int, c: int)
    requires a <= b && c >= 0
    ensures a * c <= b * c
  {
    Product(b - a, c);
    assert (b - a) * c == b * c - a * c;
  }
}
