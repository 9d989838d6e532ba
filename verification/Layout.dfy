/** Images put together from parts, with nothing said about addresses. */
module Layout {
  import opened Bytes
  import opened Arithmetic

  function Concat(parts: seq<seq<byte>>): seq<byte> {
    if parts == [] then [] else parts[0] + Concat(parts[1..])
  }

  /** The number four bytes stand for, lowest first. */
  function LittleEndian(b: seq<byte>): nat
    requires |b| == 4
  {
    b[0] as int + 0x100 * b[1] as int + 0x1_0000 * b[2] as int + 0x100_0000 * b[3] as int
  }

  ghost predicate AllSized(parts: seq<seq<byte>>, size: nat) {
    forall k :: 0 <= k < |parts| ==> |parts[k]| == size
  }

  /** Part `k` of equally long parts starts at k times their length. */
  lemma {:induction false} PartAt(parts: seq<seq<byte>>, size: nat, k: nat)
    requires AllSized(parts, size) && k < |parts|
    ensures |Concat(parts)| == |parts| * size && k * size + size <= |parts| * size
    ensures Concat(parts)[k * size..k * size + size] == parts[k]
  {
    var rest := parts[1..];
    assert |parts| * size == size + |rest| * size;
    MulMono(k + 1, |parts|, size);
    assert (k + 1) * size == k * size + size;
    ConcatSize(rest, size);
    var all := parts[0] + Concat(rest);
    if k == 0 {
      assert all[..size] == parts[0] && all[0..size] == all[..size];
    } else {
      PartAt(rest, size, k - 1);
      assert k * size == size + (k - 1) * size;
      assert all[k * size..k * size + size] == Concat(rest)[(k - 1) * size..(k - 1) * size + size];
    }
  }

  lemma {:induction false} ConcatSize(parts: seq<seq<byte>>, size: nat)
    requires AllSized(parts, size)
    ensures |Concat(parts)| == |parts| * size
  {
    if parts != [] {
      ConcatSize(parts[1..], size);
      assert |parts| * size == size + |parts[1..]| * size;
    }
  }
}
