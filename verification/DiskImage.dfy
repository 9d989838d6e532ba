/**
 A file system image as it is laid out on disk: a boot block with the counts, one block per
 inode, then the data blocks. What read_data and the directory functions deliver is stated
 here in terms of these parts.
 */
module DiskImage {
  import opened Bytes
  import opened Limits
  import opened Layout
  import FS = FileSystem

  const BLOCK: nat := 4096
  const MAX_BLOCKS: nat := 1023    // block numbers in one inode block

  datatype Image = Image(boot: seq<byte>, inodes: seq<seq<byte>>, blocks: seq<seq<byte>>)

  ghost predicate WellFormed(img: Image) {
    && |img.boot| == BLOCK && AllSized(img.inodes, BLOCK) && AllSized(img.blocks, BLOCK)
    && LittleEndian(img.boot[4..8]) == |img.inodes| && LittleEndian(img.boot[8..12]) == |img.blocks|
  }

  function Serialized(img: Image): seq<byte> {
    img.boot + Concat(img.inodes) + Concat(img.blocks)
  }

  /** The length in the first word of the i-th inode block. */
  function FileLength(img: Image, i: nat): nat
    requires i < |img.inodes| && |img.inodes[i]| == BLOCK
  {
    LittleEndian(img.inodes[i][0..4])
  }

  /** The k-th block number behind it. */
  function BlockNumber(img: Image, i: nat, k: nat): nat
    requires i < |img.inodes| && |img.inodes[i]| == BLOCK && k < MAX_BLOCKS
  {
    LittleEndian(img.inodes[i][4 + 4 * k..8 + 4 * k])
  }

  ghost predicate HasBlock(img: Image, i: nat, k: nat) {
    && i < |img.inodes| && |img.inodes[i]| == BLOCK && k < MAX_BLOCKS
    && BlockNumber(img, i, k) < |img.blocks| && |img.blocks[BlockNumber(img, i, k)]| == BLOCK
  }

  /** Byte `pos` of the file's blocks (NUL where there is none). */
  ghost function FileByte(img: Image, i: nat, pos: nat): byte {
    if HasBlock(img, i, pos / BLOCK) then img.blocks[BlockNumber(img, i, pos / BLOCK)][pos % BLOCK] else NUL
  }

  ghost function FileBytes(img: Image, i: nat, offset: nat, count: nat): (r: seq<byte>)
    ensures |r| == count
  {
    seq(count, j requires 0 <= j < count => FileByte(img, i, offset + j))
  }

  /** Every block number from `offset` to the end of a file-sized walk names a data block. */
  ghost predicate BlocksInRange(img: Image, i: nat, offset: nat)
    requires i < |img.inodes| && |img.inodes[i]| == BLOCK
  {
    forall k :: offset / BLOCK <= k <= (offset + FileLength(img, i)) / BLOCK ==> HasBlock(img, i, k)
  }

  // ---------- The parts in the serialized image ----------

  lemma SizeOfImage(img: Image)
    requires WellFormed(img)
    ensures |Serialized(img)| == BLOCK + |img.inodes| * BLOCK + |img.blocks| * BLOCK
  {
    ConcatSize(img.inodes, BLOCK);
    ConcatSize(img.blocks, BLOCK);
  }

  lemma {:induction false} InodeBlockAt(img: Image, i: nat)
    requires WellFormed(img) && i < |img.inodes|
    ensures var m := Serialized(img);
      BLOCK + i * BLOCK + BLOCK <= |m| && m[BLOCK + i * BLOCK..BLOCK + i * BLOCK + BLOCK] == img.inodes[i]
  {
    SizeOfImage(img);
    PartAt(img.inodes, BLOCK, i);
    Inside(img.boot, Concat(img.inodes), Concat(img.blocks), i * BLOCK, i * BLOCK + BLOCK);
  }

  lemma {:induction false} DataBlockAt(img: Image, b: nat)
    requires WellFormed(img) && b < |img.blocks|
    ensures var m, a := Serialized(img), BLOCK + |img.inodes| * BLOCK + b * BLOCK;
      a + BLOCK <= |m| && m[a..a + BLOCK] == img.blocks[b]
  {
    SizeOfImage(img);
    ConcatSize(img.inodes, BLOCK);
    PartAt(img.blocks, BLOCK, b);
    var front := img.boot + Concat(img.inodes);
    Inside(front, Concat(img.blocks), [], b * BLOCK, b * BLOCK + BLOCK);
    assert front + Concat(img.blocks) + [] == Serialized(img);
  }

  lemma {:induction false} Inside(x: seq<byte>, y: seq<byte>, z: seq<byte>, lo: nat, hi: nat)
    requires lo <= hi <= |y|
    ensures (x + y + z)[|x| + lo..|x| + hi] == y[lo..hi]
  {
    var a, b := (x + y + z)[|x| + lo..|x| + hi], y[lo..hi];
    assert forall k :: 0 <= k < hi - lo ==> a[k] == b[k];
  }

  lemma {:induction false} SameWord(m: seq<byte>, a: nat, part: seq<byte>, lo: nat)
    requires a + |part| <= |m| && m[a..a + |part|] == part && lo + 4 <= |part|
    ensures FS.Word(m, a + lo) == LittleEndian(part[lo..lo + 4])
  {
    var w := part[lo..lo + 4];
    assert forall k :: 0 <= k < 4 ==> w[k] == m[a..a + |part|][lo + k] == m[a + lo + k];
    assert w[0] == m[a + lo + 0];
  }

  /** Counts, lengths and block numbers are found where the image has them. */
  lemma {:induction false} CountsAt(img: Image)
    requires WellFormed(img)
    ensures var m := Serialized(img);
      |m| >= BLOCK && FS.NumInodes(m) == |img.inodes| && FS.NumBlocks(m) == |img.blocks|
  {
    hide FS.Word;
    SizeOfImage(img);
    var m := Serialized(img);
    assert m[0..0 + |img.boot|] == img.boot;
    SameWord(m, 0, img.boot, 4);
    SameWord(m, 0, img.boot, 8);
  }

  lemma {:induction false} InodeWordsAt(img: Image, i: nat)
    requires WellFormed(img) && i < |img.inodes|
    ensures var m := Serialized(img);
      && FS.InodeAddr(i) + BLOCK <= |m| && FS.Size(m, i) == FileLength(img, i)
      && forall k :: 0 <= k < MAX_BLOCKS ==> FS.Pointer(m, i, k) == BlockNumber(img, i, k)
  {
    hide FS.Word;
    InodeBlockAt(img, i);
    var m := Serialized(img);
    SameWord(m, FS.InodeAddr(i), img.inodes[i], 0);
    forall k | 0 <= k < MAX_BLOCKS ensures FS.Pointer(m, i, k) == BlockNumber(img, i, k) {
      SameWord(m, FS.InodeAddr(i), img.inodes[i], 4 + 4 * k);
    }
  }

  lemma {:induction false} BlockIsThere(img: Image, i: nat, k: nat)
    requires WellFormed(img) && i < |img.inodes| && k < MAX_BLOCKS
    ensures FS.GoodPointer(Serialized(img), i, k) <==> HasBlock(img, i, k)
  {
    hide FS.Word;
    CountsAt(img);
    InodeWordsAt(img, i);
    var m := Serialized(img);
    assert FS.Pointer(m, i, k) == BlockNumber(img, i, k);
    if BlockNumber(img, i, k) < |img.blocks| {
      DataBlockAt(img, BlockNumber(img, i, k));
    }
  }

  lemma {:induction false} ByteIsThere(img: Image, i: nat, pos: nat)
    requires WellFormed(img) && HasBlock(img, i, pos / BLOCK)
    ensures FS.FlatByte(Serialized(img), i, pos) == FileByte(img, i, pos)
  {
    hide FS.Word;
    var k, m := pos / BLOCK, Serialized(img);
    CountsAt(img);
    InodeWordsAt(img, i);
    BlockIsThere(img, i, k);
    var b := BlockNumber(img, i, k);
    assert FS.Pointer(m, i, k) == b;
    DataBlockAt(img, b);
    var a := BLOCK + |img.inodes| * BLOCK + b * BLOCK;
    assert m[a..a + BLOCK][pos % BLOCK] == m[a + pos % BLOCK];
  }

  lemma {:induction false} ImageIsMapped(img: Image, i: nat, offset: nat)
    requires WellFormed(img) && i < |img.inodes| && (offset + FileLength(img, i)) / BLOCK < MAX_BLOCKS
    ensures FS.Mapped(Serialized(img), i, offset)
  {
    hide FS.Word;
    CountsAt(img);
    SizeOfImage(img);
    InodeWordsAt(img, i);
    assert i * BLOCK + BLOCK <= |img.inodes| * BLOCK;
  }

  // ---------- What is read ----------

  lemma {:induction false} BytesAreThere(img: Image, i: nat, offset: nat, count: nat)
    requires WellFormed(img) && i < |img.inodes| && BlocksInRange(img, i, offset) && count <= FileLength(img, i)
    ensures FS.FlatBytes(Serialized(img), i, offset, count) == FileBytes(img, i, offset, count)
  {
    hide FS.Word, FS.FlatByte, HasBlock, Serialized, FileByte;
    var m := Serialized(img);
    var a, b := FS.FlatBytes(m, i, offset, count), FileBytes(img, i, offset, count);
    forall j | 0 <= j < count ensures a[j] == b[j] {
      FS.DivMono(offset, offset + j);
      FS.DivMono(offset + j, offset + FileLength(img, i));
      ByteIsThere(img, i, offset + j);
    }
  }

  lemma {:induction false} WalkIsInRange(img: Image, i: nat, offset: nat)
    requires WellFormed(img) && i < |img.inodes| && (offset + FileLength(img, i)) / BLOCK < MAX_BLOCKS
    ensures FS.Mapped(Serialized(img), i, offset)
    ensures FS.WalkInRange(Serialized(img), i, offset) <==> BlocksInRange(img, i, offset)
  {
    hide FS.Word, FS.Mapped, FS.GoodPointer, HasBlock, Serialized;
    ImageIsMapped(img, i, offset);
    InodeWordsAt(img, i);
    forall k | offset / BLOCK <= k <= (offset + FileLength(img, i)) / BLOCK
      ensures FS.GoodPointer(Serialized(img), i, k) <==> HasBlock(img, i, k)
    {
      BlockIsThere(img, i, k);
    }
  }

  /** read_data of inode `i` delivers the bytes of the data blocks listed in the i-th inode
      block, as many as its length and the caller allow; -1 exactly when a block number on the
      way is out of range. */
  method ReadFile(mem: array<byte>, ghost img: Image, i: nat, offset: nat, buf: array<byte>, at: nat, length: nat)
    returns (r: int)
    requires WellFormed(img) && mem[..] == Serialized(img) && i < |img.inodes| && buf != mem
    requires (offset + FileLength(img, i)) / BLOCK < MAX_BLOCKS
    requires at + FS.Min(FileLength(img, i), length) <= buf.Length
    modifies mem, buf
    ensures mem[..] == Serialized(img)
    ensures r == if BlocksInRange(img, i, offset) then FS.Min(FileLength(img, i), length) else -1
    ensures r < 0 ==> buf[..] == old(buf[..])
    ensures r >= 0 ==> buf[..] == old(buf[..at]) + FileBytes(img, i, offset, r) + old(buf[at + r..])
  {
    hide FS.Word, FS.Mapped, FS.WalkInRange, FS.FlatBytes, FileBytes, BlocksInRange, Serialized;
    CountsAt(img);
    InodeWordsAt(img, i);
    WalkIsInRange(img, i, offset);
    r := FS.ReadData(mem, i, offset, buf, at, length);
    if r >= 0 {
      BytesAreThere(img, i, offset, r);
    }
  }

  // ---------- Whole files ----------

  /** The i-th file of the image is `content`, padded with NULs as far as reads of `n` bytes
      at a time go. */
  ghost predicate Contains(img: Image, i: nat, content: seq<byte>, n: nat) {
    && i < |img.inodes| && |img.inodes[i]| == BLOCK && FileLength(img, i) == |content|
    && |content| + n < WORD_LIMIT && (2 * |content| + n) / BLOCK < MAX_BLOCKS
    && (forall k :: 0 <= k <= (2 * |content| + n) / BLOCK ==> HasBlock(img, i, k))
    && (forall pos :: 0 <= pos < |content| + n ==>
          FileByte(img, i, pos) == if pos < |content| then content[pos] else NUL)
  }

  /** Such a file is what file_read and cat take it to be (`FileSystem.ReadWhole`). */
  lemma {:induction false} ContainedFileIsStored(img: Image, i: nat, content: seq<byte>, n: nat)
    requires WellFormed(img) && Contains(img, i, content, n)
    ensures FS.Stores(Serialized(img), i, content, n)
  {
    hide FS.Word, FS.Mapped, FS.WalkInRange, FS.FlatByte, HasBlock, Serialized, FileByte;
    CountsAt(img);
    InodeWordsAt(img, i);
    forall pos | 0 <= pos < |content| + n
      ensures FS.Mapped(Serialized(img), i, pos) && FS.WalkInRange(Serialized(img), i, pos)
    {
      FS.DivMono(pos + |content|, 2 * |content| + n);
      WalkIsInRange(img, i, pos);
    }
    FS.DivMono(|content|, 2 * |content| + n);
    ImageIsMapped(img, i, 0);
    forall pos | 0 <= pos < |content| + n
      ensures FS.FlatByte(Serialized(img), i, pos) == FileByte(img, i, pos)
    {
      FS.DivMono(pos, 2 * |content| + n);
      ByteIsThere(img, i, pos);
    }
  }

  /** cat of a file without NULs prints the file, followed by fewer NULs than a chunk. */
  method Cat(mem: array<byte>, ghost img: Image, i: nat, buf: array<byte>, n: nat, ghost content: seq<byte>)
    returns (out: seq<byte>)
    requires WellFormed(img) && mem[..] == Serialized(img) && buf != mem && 0 < n <= buf.Length
    requires Contains(img, i, content, n) && NUL !in content
    modifies mem, buf
    ensures mem[..] == Serialized(img)
    ensures content <= out && |out| < |content| + n && forall j :: |content| <= j < |out| ==> out[j] == NUL
  {
    hide FS.Stores, Serialized, Contains;
    ContainedFileIsStored(img, i, content, n);
    var file := new FS.OpenFile(i);
    out := FS.ReadWhole(file, mem, buf, n, content);
    FS.WholeFileIsRead(content, FS.Min(|content|, n));
  }
}
