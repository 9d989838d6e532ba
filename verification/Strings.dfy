/** NUL-terminated strings in memory, and the kernel's loops over them. */
module Strings {
  import opened Bytes

  /** The NUL-terminated string at address `a`. */
  function CString(m: seq<byte>, a: nat): (s: seq<byte>)
    ensures a + |s| <= |m| || s == []
    ensures forall i :: 0 <= i < |s| ==> s[i] == m[a + i] && s[i] != NUL
    ensures a + |s| < |m| ==> m[a + |s|] == NUL
    decreases |m| - a
  {
    if a < |m| && m[a] != NUL then [m[a]] + CString(m, a + 1) else []
  }

  lemma {:induction false} StopsByNul(m: seq<byte>, a: nat, n: nat)
    requires a + n < |m| && m[a + n] == NUL
    ensures |CString(m, a)| <= n
    decreases n
  {
    if n > 0 && m[a] != NUL {
      StopsByNul(m, a + 1, n - 1);
    }
  }

  lemma {:induction false} IsString(m: seq<byte>, a: nat, s: seq<byte>)
    requires a + |s| < |m| && m[a + |s|] == NUL
    requires forall i :: 0 <= i < |s| ==> s[i] == m[a + i] && s[i] != NUL
    ensures CString(m, a) == s
    decreases |s|
  {
    if s != [] {
      assert s[0] == m[a + 0];
      assert forall i :: 0 <= i < |s| - 1 ==> s[1..][i] == m[a + 1 + i];
      IsString(m, a + 1, s[1..]);
    }
  }

  method Strlen(mem: array<byte>, a: nat) returns (n: nat)
    requires a + |CString(mem[..], a)| < mem.Length
    ensures n == |CString(mem[..], a)|
  {
    ghost var s := CString(mem[..], a);
    n := 0;
    while mem[a + n] != NUL
      invariant n <= |s|
      decreases |s| - n
    {
      n := n + 1;
    }
    StopsByNul(mem[..], a, n);
  }
}
