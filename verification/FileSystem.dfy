/**
 The read-only file system: a flat memory image holding the boot block, the inodes and the
 data blocks. read_data walks an inode's block pointers; file_read and cat read a file chunk
 by chunk through it. The reference is the flat view of the inode's blocks.
 */
module FileSystem {
  import opened Bytes
  import opened Limits
  import opened Arithmetic

  const BLOCK: nat := 4096

  // ---------- The image ----------

  function Word(m: seq<byte>, a: nat): (w: nat)
    requires a + 4 <= |m|
    ensures w < WORD_LIMIT
  {
    m[a] as int + 256 * (m[a + 1] as int + 256 * (m[a + 2] as int + 256 * m[a + 3] as int))
  }

  function NumInodes(m: seq<byte>): nat
    requires |m| >= BLOCK
  {
    Word(m, 4)
  }

  function NumBlocks(m: seq<byte>): nat
    requires |m| >= BLOCK
  {
    Word(m, 8)
  }

  function InodeAddr(inode: nat): nat { BLOCK + inode * BLOCK }

  function DataAddr(m: seq<byte>): nat
    requires |m| >= BLOCK
  {
    BLOCK + BLOCK * NumInodes(m)
  }

  function Min(a: nat, b: nat): nat { if a <= b then a else b }

  /** The memory the code touches is there: the boot block, the inode's words as far as they
      are copied and walked, and all data blocks. */
  ghost predicate Mapped(m: seq<byte>, inode: nat, offset: nat) {
    && |m| >= BLOCK
    && InodeAddr(inode) + 4 + 4 * NumBlocks(m) <= |m|
    && InodeAddr(inode) + 8 + 4 * ((offset + Word(m, InodeAddr(inode))) / BLOCK) <= |m|
    && DataAddr(m) + NumBlocks(m) * BLOCK <= |m|
  }

  function Size(m: seq<byte>, inode: nat): nat
    requires InodeAddr(inode) + 4 <= |m|
  {
    Word(m, InodeAddr(inode))
  }

  function Pointer(m: seq<byte>, inode: nat, k: nat): nat
    requires InodeAddr(inode) + 8 + 4 * k <= |m|
  {
    Word(m, InodeAddr(inode) + 4 + 4 * k)
  }

  /** The inode's k-th pointer names a data block of the image. */
  predicate GoodPointer(m: seq<byte>, inode: nat, k: nat) {
    && |m| >= BLOCK && InodeAddr(inode) + 8 + 4 * k <= |m|
    && Pointer(m, inode, k) < NumBlocks(m)
    && BlockAddr(m, inode, k) + BLOCK <= |m|
  }

  /** Every block pointer from `offset` to the end of a file-sized walk, the one loaded when
      the walk ends on a block boundary included, names a data block. */
  ghost predicate WalkInRange(m: seq<byte>, inode: nat, offset: nat)
    requires Mapped(m, inode, offset)
  {
    forall k :: offset / BLOCK <= k <= (offset + Size(m, inode)) / BLOCK ==> GoodPointer(m, inode, k)
  }

  /** Where that block is in memory. */
  function BlockAddr(m: seq<byte>, inode: nat, k: nat): nat
    requires |m| >= BLOCK && InodeAddr(inode) + 8 + 4 * k <= |m|
  {
    DataAddr(m) + Pointer(m, inode, k) * BLOCK
  }

  lemma GoodBlock(m: seq<byte>, inode: nat, k: nat)
    requires GoodPointer(m, inode, k)
    ensures |m| >= BLOCK && InodeAddr(inode) + 8 + 4 * k <= |m| && BlockAddr(m, inode, k) + BLOCK <= |m|
  {}

  /** The byte at position `pos` of the inode's blocks laid end to end (NUL where there is no
      block). */
  function FlatByte(m: seq<byte>, inode: nat, pos: nat): (b: byte) {
    if GoodPointer(m, inode, pos / BLOCK)
    then m[BlockAddr(m, inode, pos / BLOCK) + pos % BLOCK]
    else NUL
  }

  /** `count` bytes of the flat view, from `offset` on. */
  function FlatBytes(m: seq<byte>, inode: nat, offset: nat, count: nat): (r: seq<byte>)
    ensures |r| == count
  {
    seq(count, i requires 0 <= i < count => FlatByte(m, inode, offset + i))
  }

  lemma BlockFits(p: nat, n: nat)
    requires p < n
    ensures p * BLOCK + BLOCK <= n * BLOCK
  {}

  lemma SplitPosition(pos: nat, q: nat, r: nat)
    requires pos == BLOCK * q + r && r < BLOCK
    ensures pos / BLOCK == q && pos % BLOCK == r
  {}

  lemma DivMono(a: nat, b: nat)
    requires a <= b
    ensures a / BLOCK <= b / BLOCK
  {}

  // ---------- read_data ----------

  /** Byte `i` of a word, counted from the low end. */
  function ByteOf(w: nat, i: nat): (b: byte) {
    if i == 0 then (w % 256) as byte else ByteOf(w / 256, i - 1)
  }

  method StoreWord(mem: array<byte>, a: nat, w: nat)
    requires a + 4 <= mem.Length && w < WORD_LIMIT
    modifies mem
    ensures mem[..]
         == old(mem[..])[a := ByteOf(w, 0)][a + 1 := ByteOf(w, 1)][a + 2 := ByteOf(w, 2)][a + 3 := ByteOf(w, 3)]
  {
    mem[a] := ByteOf(w, 0);
    mem[a + 1] := ByteOf(w, 1);
    mem[a + 2] := ByteOf(w, 2);
    mem[a + 3] := ByteOf(w, 3);
  }

  lemma LowByte(b: byte, rest: nat)
    ensures var w := b as int + 256 * rest; ByteOf(w, 0) == b && forall i: nat :: ByteOf(w, i + 1) == ByteOf(rest, i)
  {
    var w := b as int + 256 * rest;
    assert w % 256 == b as int && w / 256 == rest;
  }

  lemma WordBytes(m: seq<byte>, a: nat)
    requires a + 4 <= |m|
    ensures forall i :: 0 <= i < 4 ==> ByteOf(Word(m, a), i) == m[a + i]
  {
    var w3 := m[a + 3] as int;
    var w2 := m[a + 2] as int + 256 * w3;
    var w1 := m[a + 1] as int + 256 * w2;
    LowByte(m[a + 3], 0);
    LowByte(m[a + 2], w3);
    LowByte(m[a + 1], w2);
    LowByte(m[a], w1);
    assert ByteOf(w1, 0) == m[a + 1] && ByteOf(w1, 1) == m[a + 2] && ByteOf(w1, 2) == m[a + 3];
  }

  method LoadWord(mem: array<byte>, a: nat) returns (w: nat)
    requires a + 4 <= mem.Length
    ensures w == Word(mem[..], a)
  {
    w := mem[a] as int + 256 * (mem[a + 1] as int + 256 * (mem[a + 2] as int + 256 * mem[a + 3] as int));
  }

  /** The loop that copies each block pointer of the inode onto itself: nothing changes. */
  method CopyPointers(mem: array<byte>, inode: nat, count: nat)
    requires InodeAddr(inode) + 4 + 4 * count <= mem.Length
    modifies mem
    ensures mem[..] == old(mem[..])
  {
    for j := 0 to count
      invariant mem[..] == old(mem[..])
    {
      var a := InodeAddr(inode) + 4 * (j + 1);
      var hold := LoadWord(mem, a);
      hide Word, ByteOf;
      WordBytes(mem[..], a);
      StoreWord(mem, a, hold);
    }
  }

  /** Loads a block pointer and checks it against the number of data blocks. */
  method LocateBlock(mem: array<byte>, inode: nat, idx: nat) returns (ok: bool, addr: nat)
    requires mem.Length >= BLOCK && InodeAddr(inode) + 8 + 4 * idx <= mem.Length
    requires DataAddr(mem[..]) + NumBlocks(mem[..]) * BLOCK <= mem.Length
    ensures ok <==> GoodPointer(mem[..], inode, idx)
    ensures ok ==> addr == BlockAddr(mem[..], inode, idx)
  {
    hide Word;
    var numBlocks := LoadWord(mem, 8);
    var numInodes := LoadWord(mem, 4);
    var dataIdx := LoadWord(mem, InodeAddr(inode) + 4 + 4 * idx);
    if dataIdx >= numBlocks {
      return false, 0;
    }
    BlockFits(dataIdx, numBlocks);
    return true, BLOCK + BLOCK * numInodes + dataIdx * BLOCK;
  }

  lemma FlatByteAt(m: seq<byte>, inode: nat, pos: nat, q: nat, r: nat)
    requires GoodPointer(m, inode, q) && pos == BLOCK * q + r && r < BLOCK
    ensures FlatByte(m, inode, pos) == m[BlockAddr(m, inode, q) + r]
  {
    SplitPosition(pos, q, r);
  }

  /** The block walk: fills a buffer of the file's size, or stops at the first pointer that
      names no block. */
  method Walk(mem: array<byte>, inode: nat, offset: nat) returns (ok: bool, buffer: array<byte>)
    requires Mapped(mem[..], inode, offset)
    ensures fresh(buffer) && (ok <==> WalkInRange(mem[..], inode, offset))
    ensures ok ==> buffer[..] == FlatBytes(mem[..], inode, offset, Size(mem[..], inode))
  {
    hide Word, FlatByte, GoodPointer;
    ghost var m := mem[..];
    var size := LoadWord(mem, InodeAddr(inode));
    buffer := new byte[size];
    var startIdx, initOffset := offset / BLOCK, offset % BLOCK;
    var block: nat;
    DivMono(offset, offset + size);
    ok, block := LocateBlock(mem, inode, startIdx);
    if !ok {
      return;
    }
    var dataOffset := block + initOffset;
    var j, k, count, tempLen := 0, 0, initOffset, size;
    while tempLen > 0
      invariant mem[..] == m && fresh(buffer) && buffer.Length == size
      invariant j + tempLen == size && offset + j == BLOCK * startIdx + count && 0 <= k <= count < BLOCK
      invariant forall q :: offset / BLOCK <= q <= startIdx ==> GoodPointer(m, inode, q)
      invariant offset / BLOCK <= startIdx && InodeAddr(inode) + 8 + 4 * startIdx <= |m|
      invariant dataOffset + k == BlockAddr(m, inode, startIdx) + count
      invariant forall i :: 0 <= i < j ==> buffer[i] == FlatByte(m, inode, offset + i)
      decreases tempLen
    {
      FlatByteAt(m, inode, offset + j, startIdx, count);
      GoodBlock(m, inode, startIdx);
      buffer[j] := mem[dataOffset + k];
      j, k, tempLen, count := j + 1, k + 1, tempLen - 1, count + 1;
      if count == BLOCK {
        count, k, startIdx := 0, 0, startIdx + 1;
        SplitPosition(offset + j, startIdx, 0);
        DivMono(offset + j, offset + size);
        ok, block := LocateBlock(mem, inode, startIdx);
        if !ok {
          return;
        }
        dataOffset := block;
      }
    }
    SplitPosition(offset + j, startIdx, count);
    return true, buffer;
  }

  /** read_data into `buf` from `at` on: on success the first bytes of the flat view from
      `offset` on, as many as asked for but never more than the file's size; the image is left
      as it was. */
  method ReadData(mem: array<byte>, inode: nat, offset: nat, buf: array<byte>, at: nat, length: nat) returns (r: int)
    requires Mapped(mem[..], inode, offset) && buf != mem
    requires at + Min(Size(mem[..], inode), length) <= buf.Length
    modifies mem, buf
    ensures mem[..] == old(mem[..])
    ensures r == if inode < NumInodes(mem[..]) && WalkInRange(mem[..], inode, offset)
                 then Min(Size(mem[..], inode), length) else -1
    ensures r >= 0 ==> buf[..] == old(buf[..at]) + FlatBytes(mem[..], inode, offset, r) + old(buf[at + r..])
    ensures r < 0 ==> buf[..] == old(buf[..])
  {
    hide Word;
    var numBlocks := LoadWord(mem, 8);
    CopyPointers(mem, inode, numBlocks);
    var numInodes := LoadWord(mem, 4);
    if inode >= numInodes {
      return -1;
    }
    var ok, buffer := Walk(mem, inode, offset);
    if !ok {
      return -1;
    }
    r := Min(buffer.Length, length);
    Memcpy(buf, at, buffer, r);
    assert buffer[..r] == FlatBytes(mem[..], inode, offset, r);
  }

  method Memcpy(dst: array<byte>, at: nat, src: array<byte>, n: nat)
    requires n <= src.Length && at + n <= dst.Length && src != dst
    modifies dst
    ensures dst[..] == old(dst[..at]) + src[..n] + old(dst[at + n..])
  {
    for i := 0 to n
      invariant dst[..] == old(dst[..at]) + src[..i] + old(dst[at + i..])
    {
      dst[at + i] := src[i];
    }
  }

  // ---------- file_read and cat ----------

  /** A file descriptor of a regular file, as file_read uses it. */
  class OpenFile {
    const inode: nat
    var position: nat

    constructor (inode: nat)
      ensures this.inode == inode && position == 0
    {
      this.inode := inode;
      position := 0;
    }

    /** file_read: an empty string in the buffer counts as the end of the file; otherwise the
        position advances by what read_data returned, in 32-bit arithmetic. */
    method FileRead(mem: array<byte>, buf: array<byte>, at: nat, nbytes: nat) returns (r: int)
      requires Mapped(mem[..], inode, position) && buf != mem
      requires at < buf.Length && at + Min(Size(mem[..], inode), nbytes) <= buf.Length
      modifies this, mem, buf
      ensures mem[..] == old(mem[..])
      ensures var got := if inode < NumInodes(mem[..]) && WalkInRange(mem[..], inode, old(position))
                         then Min(Size(mem[..], inode), nbytes) else -1;
        && (got >= 0 ==>
              buf[..] == old(buf[..at]) + FlatBytes(mem[..], inode, old(position), got) + old(buf[at + got..]))
        && (got < 0 ==> buf[..] == old(buf[..]))
        && r == (if buf[at] == NUL then 0 else got)
        && position == if buf[at] == NUL then old(position) else (old(position) + got) % WORD_LIMIT
    {
      var got := ReadData(mem, inode, position, buf, at, nbytes);
      if buf[at] == NUL {
        return 0;
      }
      position := (position + got) % WORD_LIMIT;
      return got;
    }
  }

  /** The inode stores `content` followed by NULs, with valid pointers as far as reads of `n`
      bytes at a time walk. */
  ghost predicate Stores(m: seq<byte>, inode: nat, content: seq<byte>, n: nat) {
    && |content| + n < WORD_LIMIT
    && (forall pos :: 0 <= pos < |content| + n ==> Mapped(m, inode, pos) && WalkInRange(m, inode, pos))
    && Mapped(m, inode, 0) && Size(m, inode) == |content| && inode < NumInodes(m)
    && (forall i :: 0 <= i < |content| ==> FlatByte(m, inode, i) == content[i])
    && (forall i :: |content| <= i < |content| + n ==> FlatByte(m, inode, i) == NUL)
  }

  /** Where chunked reading from `p` stops: at the first chunk that starts with a NUL, or past
      the end. */
  function StopsAt(content: seq<byte>, chunk: nat, p: nat): (r: nat)
    requires chunk > 0 || content == []
    ensures p <= r
    decreases |content| - p
  {
    if p >= |content| || content[p] == NUL then p else StopsAt(content, chunk, p + chunk)
  }

  /** One chunk, into `buf` from `at` on. */
  method ReadChunk(file: OpenFile, mem: array<byte>, buf: array<byte>, at: nat, n: nat, ghost content: seq<byte>)
    returns (cnt: nat)
    requires Stores(mem[..], file.inode, content, n) && 0 < n && at + n <= buf.Length && buf != mem
    requires file.position < |content| + n
    modifies file, mem, buf
    ensures mem[..] == old(mem[..]) && cnt <= n
    ensures buf[..at] == old(buf[..at]) && buf[at + n..] == old(buf[at + n..])
    ensures var pos := old(file.position);
      if pos < |content| && content[pos] != NUL then
        && cnt == Min(|content|, n) && buf[at..at + cnt] == FlatBytes(mem[..], file.inode, pos, cnt)
        && file.position == pos + cnt
      else cnt == 0 && file.position == pos
  {
    hide FlatByte, Word, WalkInRange;
    ghost var pos, m := file.position, mem[..];
    assert Mapped(m, file.inode, pos) && WalkInRange(m, file.inode, pos);
    assert FlatByte(m, file.inode, pos + 0) == if pos < |content| then content[pos] else NUL;
    cnt := file.FileRead(mem, buf, at, n);
  }

  /** The flat view of a stored file. */
  lemma {:induction false} StoredBytes(m: seq<byte>, inode: nat, content: seq<byte>, n: nat, pos: nat, count: nat)
    requires Stores(m, inode, content, n) && pos + count <= |content|
    ensures FlatBytes(m, inode, pos, count) == content[pos..pos + count]
  {
    hide FlatByte;
    var a, b := FlatBytes(m, inode, pos, count), content[pos..pos + count];
    assert forall i :: 0 <= i < count ==> a[i] == FlatByte(m, inode, pos + i) == content[pos + i] == b[i];
  }

  lemma StoresForShorterReads(m: seq<byte>, inode: nat, content: seq<byte>, n: nat, n': nat)
    requires Stores(m, inode, content, n) && n' <= n
    ensures Stores(m, inode, content, n')
  {
    hide FlatByte, Word, WalkInRange, Mapped;
  }

  /** cat's loop: the chunks put together are the file up to the first chunk that starts with a
      NUL, padded with fewer than `n` NULs. */
  method ReadWhole(file: OpenFile, mem: array<byte>, buf: array<byte>, n: nat, ghost content: seq<byte>)
    returns (out: seq<byte>)
    requires Stores(mem[..], file.inode, content, n) && 0 < n <= buf.Length && buf != mem
    requires file.position == 0
    modifies file, mem, buf
    ensures mem[..] == old(mem[..])
    ensures |out| == StopsAt(content, Min(|content|, n), 0) < |content| + n
    ensures forall i :: 0 <= i < |out| ==> out[i] == if i < |content| then content[i] else NUL
  {
    hide FlatByte, Word;
    ghost var m, chunk := mem[..], Min(|content|, n);
    out := [];
    while true
      invariant mem[..] == m && file.position == |out| < |content| + n
      invariant StopsAt(content, chunk, |out|) == StopsAt(content, chunk, 0)
      invariant out == FlatBytes(m, file.inode, 0, |out|)
      decreases |content| + n - |out|
    {
      var cnt := ReadChunk(file, mem, buf, 0, n, content);
      if cnt == 0 {
        break;
      }
      out := out + buf[0..cnt];
    }
  }

  /** The whole file comes out exactly when no chunk starts with a NUL; in particular for
      every NUL-free file. */
  lemma WholeFileIsRead(content: seq<byte>, chunk: nat)
    requires chunk > 0 || content == []
    ensures StopsAt(content, chunk, 0) >= |content|
       <==> forall i: nat :: i * chunk < |content| ==> content[i * chunk] != NUL
  {
    StopsAfter(content, chunk, 0);
  }

  /** Reading stops at the first chunk that starts with a NUL, or past the end. */
  lemma {:induction false} StopsAtFirstNul(content: seq<byte>, chunk: nat, k: nat) returns (n: nat)
    requires chunk > 0 || content == []
    ensures n >= k && StopsAt(content, chunk, k * chunk) == n * chunk
    ensures n * chunk < |content| ==> content[n * chunk] == NUL
    ensures forall i :: k <= i < n ==> i * chunk < |content| && content[i * chunk] != NUL
    decreases |content| - k * chunk
  {
    if k * chunk < |content| && content[k * chunk] != NUL {
      assert (k + 1) * chunk == k * chunk + chunk;
      n := StopsAtFirstNul(content, chunk, k + 1);
    } else {
      n := k;
    }
  }

  /** A NUL at the start of a later chunk cuts the file short. */
  lemma {:induction false} NulAtChunkStartEndsReading(first: byte, last: byte)
    requires first != NUL
    ensures StopsAt([first, NUL, last], 1, 0) == 1
  {
    var content := [first, NUL, last];
    assert StopsAt(content, 1, 1) == 1;
    assert content[0] == first && StopsAt(content, 1, 0) == StopsAt(content, 1, 0 + 1);
  }

  lemma {:induction false} StopsAfter(content: seq<byte>, chunk: nat, k: nat)
    requires chunk > 0 || content == []
    ensures StopsAt(content, chunk, k * chunk) >= |content|
       <==> forall i: nat :: i >= k && i * chunk < |content| ==> content[i * chunk] != NUL
    decreases |content| - k * chunk
  {
    if k * chunk < |content| {
      if content[k * chunk] != NUL {
        assert (k + 1) * chunk == k * chunk + chunk;
        StopsAfter(content, chunk, k + 1);
      }
    } else {
      forall i: nat | i >= k ensures i * chunk >= k * chunk { MulMono(k, i, chunk); }
    }
  }
}
