/**
 grep over the kernel's own file_read, which pads the last chunk of a longer file with NULs
 instead of returning a short count. Where the padding reaches the buffer the scanner mixes it
 with bytes of earlier chunks; where it does not, grep is what it is over a plain reader.
 */
module KernelGrep {
  import opened Bytes
  import opened FileSystem
  import opened Grep

  /** From `base` on, full buffers end exactly at the end of the file. */
  predicate Aligned(content: seq<byte>, base: nat)
    decreases |content| - base
  {
    base + BUFSIZE == |content|
    || (base + BUFSIZE < |content| && Aligned(content, base + Consumed(content[base..base + BUFSIZE])))
  }

  /** No read of the scanner is padded: one read takes the whole file, or full ones do. */
  predicate Unpadded(content: seq<byte>) {
    |content| <= BUFSIZE || Aligned(content, 0)
  }

  /** Where the scanner stands before a read. */
  ghost predicate ReadsOn(content: seq<byte>, pos: nat, last: nat) {
    || pos == |content|
    || (pos == last == 0 && |content| <= BUFSIZE)
    || (last <= pos && Aligned(content, pos - last))
  }

  /** A read into the space behind the carried-over bytes: it fills the buffer or takes all
      that is left, without padding. */
  method Refill(ghost fname: seq<byte>, ghost s: seq<byte>, file: OpenFile, mem: array<byte>,
                data: array<byte>, last: nat, ghost content: seq<byte>, ghost out: seq<byte>) returns (cnt: nat)
    requires Stores(mem[..], file.inode, content, BUFSIZE) && mem != data && NUL !in content
    requires Scanned(fname, s, content, file.position, data, 0, last, out) && last < BUFSIZE
    requires data.Length == BUFSIZE + 1 && ReadsOn(content, file.position, last)
    modifies file, mem, data
    ensures mem[..] == old(mem[..]) && file.position == old(file.position) + cnt
    ensures Scanned(fname, s, content, file.position, data, 0, last + cnt, out)
    ensures last + cnt == BUFSIZE || file.position == |content|
    ensures cnt == 0 ==> file.position == |content|
    ensures file.position == |content| || (last + cnt == BUFSIZE && Aligned(content, old(file.position) - last))
  {
    hide Grep.Grep, FlatByte, Word, Aligned;
    ghost var pos := file.position;
    NextReadFits(content, pos, last);
    StoresForShorterReads(mem[..], file.inode, content, BUFSIZE, BUFSIZE - last);
    cnt := ReadChunk(file, mem, data, last, BUFSIZE - last, content);
    StoredBytes(mem[..], file.inode, content, BUFSIZE, pos, cnt);
    Joined(content, pos, last, cnt, data[..]);
    assert data[last + (BUFSIZE - last)..][0] == data[BUFSIZE];
  }

  lemma NextReadFits(content: seq<byte>, pos: nat, last: nat)
    requires last < BUFSIZE && last <= pos <= |content| && ReadsOn(content, pos, last)
    ensures pos < |content| ==> pos + Min(|content|, BUFSIZE - last) <= |content|
    ensures pos < |content| && pos + (BUFSIZE - last) != |content| ==>
      (pos == last == 0 && |content| <= BUFSIZE) || pos + (BUFSIZE - last) < |content|
  {}

  lemma {:induction false} Joined(content: seq<byte>, pos: nat, last: nat, cnt: nat, data: seq<byte>)
    requires last <= pos && pos + cnt <= |content| && last + cnt <= |data|
    requires data[0..last] == content[pos - last..pos] && data[last..last + cnt] == content[pos..pos + cnt]
    ensures data[0..last + cnt] == content[pos - last..pos + cnt]
  {
    Adjacent(data, 0, last, last + cnt);
    Adjacent(content, pos - last, pos, pos + cnt);
  }

  lemma StartsReading(content: seq<byte>)
    requires Unpadded(content)
    ensures ReadsOn(content, 0, 0)
  {}

  lemma GoesOnReading(content: seq<byte>, base: nat, pos: nat, left: nat)
    requires pos <= |content| && left <= pos
    requires pos == |content|
          || (pos == base + BUFSIZE && Aligned(content, base) && left == BUFSIZE - Consumed(content[base..pos]))
    ensures ReadsOn(content, pos, left)
  {}

  /** Over a stored file whose reads are not padded grep prints what it should. */
  method DoOneStoredFile(fname: seq<byte>, s: seq<byte>, file: OpenFile, mem: array<byte>, data: array<byte>,
                         ghost content: seq<byte>) returns (out: seq<byte>)
    requires Stores(mem[..], file.inode, content, BUFSIZE) && file.position == 0 && mem != data
    requires data.Length == BUFSIZE + 1 && data[BUFSIZE] != NEWLINE
    requires NUL !in s && NUL !in content && Unpadded(content)
    modifies file, mem, data
    ensures mem[..] == old(mem[..]) && out == Grep.Grep(fname, s, content)
  {
    hide Grep.Grep, Stores, ReadsOn, Aligned;
    out := [];
    var last: nat := 0;
    assert content[0..] == content && ReadsOn(content, 0, 0) by { StartsReading(content); }
    while true
      invariant Stores(mem[..], file.inode, content, BUFSIZE) && mem[..] == old(mem[..])
      invariant Scanned(fname, s, content, file.position, data, 0, last, out) && last < BUFSIZE
      invariant ReadsOn(content, file.position, last)
      decreases |content| - file.position
    {
      ghost var base := file.position - last;
      var cnt := Refill(fname, s, file, mem, data, last, content, out);
      last, out := ScanBuffer(fname, s, content, file.position, cnt, data, last + cnt, out);
      if cnt == 0 {
        break;
      }
      GoesOnReading(content, base, file.position, last);
    }
    assert last == 0 && content[file.position..] == [];
    EmptyTextMatchesNothing(fname, s);
  }

  // ---------- A padded read ----------

  /** A file of one full buffer of lines, then a line of three `b`s and an unfinished `c`. */
  ghost predicate Spoiled(content: seq<byte>, b: byte, c: byte) {
    && |content| == BUFSIZE + 5 && content[BUFSIZE - 1] == NEWLINE
    && content[BUFSIZE..] == [b, b, b, NEWLINE, c]
    && 0 < b < 128 && b != c && b != NEWLINE && c != NEWLINE && NUL !in content && c != NUL
  }

  lemma SpoiledIsPadded(content: seq<byte>, b: byte, c: byte)
    requires Spoiled(content, b, c)
    ensures !Unpadded(content)
  {
    var first := content[0..BUFSIZE];
    AfterLastNewlineIs(first, BUFSIZE);
    assert Consumed(first) == BUFSIZE && !Aligned(content, 0 + BUFSIZE);
  }

  /** What grep should print of the second buffer. */
  lemma {:induction false} SpoiledTail(fname: seq<byte>, b: byte, c: byte)
    requires 0 < b < 128 && b != c && b != NEWLINE && c != NEWLINE
    ensures Grep.Grep(fname, [b], [b, b, b, NEWLINE, c]) == fname + [COLON] + [b, b, b] + [NEWLINE]
  {
    assert [b, b, b, NEWLINE, c] == [b, b, b] + [NEWLINE] + [c];
    GrepFirstLine(fname, [b], [b, b, b], [c]);
    GrepLastLine(fname, [b], [c]);
    assert OccursAt([b, b, b], [b], 0);
    assert !Contains([c], [b]);
  }

  /** The second and third reads of such a file, step by step as do_one_file takes them: the
      third pass finds a `b` left over from the second buffer and prints the line `c` for it. */
  method PaddedTailIsMisread(fname: seq<byte>, b: byte, c: byte, file: OpenFile, mem: array<byte>,
                             data: array<byte>, ghost content: seq<byte>) returns (out: seq<byte>)
    requires Spoiled(content, b, c) && Stores(mem[..], file.inode, content, 2 * BUFSIZE) && mem != data
    requires file.position == BUFSIZE && data.Length == BUFSIZE + 1 && data[BUFSIZE] != NEWLINE
    modifies file, mem, data
    ensures out == fname + [COLON] + [b, b, b] + [NEWLINE] + (fname + [COLON] + [c] + [NEWLINE])
    ensures out != Grep.Grep(fname, [b], content[BUFSIZE..])
  {
    hide Grep.Grep, FlatByte, Word, WalkInRange, Mapped;
    SpoiledTail(fname, b, c);
    ReadPadded(b, c, file, mem, data, content);
    out := SecondPass(fname, b, c, data);
    ReadNothing(file, mem, data, BUFSIZE - 4, content);
    var more := ThirdPass(fname, b, c, data);
    out := out + more;
  }

  /** The line of three is printed, then the unfinished line is carried over. */
  method SecondPass(fname: seq<byte>, b: byte, ghost c: byte, data: array<byte>) returns (out: seq<byte>)
    requires data.Length == BUFSIZE + 1 && data[BUFSIZE] != NEWLINE && 0 < b < 128 && b != NEWLINE
    requires data[..5] == [b, b, b, NEWLINE, c] && c != NEWLINE && c != NUL
    requires forall i :: 5 <= i < BUFSIZE ==> data[i] == NUL
    modifies data
    ensures out == fname + [COLON] + [b, b, b] + [NEWLINE]
    ensures data[..4] == [c, NUL, b, NUL]
    ensures forall i :: 4 <= i < BUFSIZE ==> data[i] != NEWLINE
  {
    assert data[0] == data[1] == data[2] == b && data[3] == NEWLINE && data[4] == c;
    var end := LineEnd(data, 0, BUFSIZE);
    assert end == 3;
    data[end] := NUL;
    assert data[0..3] == [b, b, b] && OccursAt([b, b, b], [b], 0);
    var found := LineMatches(data, 0, end, [b]);
    out := [];
    if found {
      out := fname + [COLON] + data[0..3] + [NEWLINE];
    }
    var start := end + 1;
    end := LineEnd(data, start, BUFSIZE);
    assert end == BUFSIZE;
    data[end] := NUL;
    assert data[4..5] == [c];
    ShiftDown(data, start, 5);
    assert data[0] == data[..1][0] == c;
  }

  /** The whole rest of the buffer is one line; what is printed of it ends at its first NUL. */
  method ThirdPass(fname: seq<byte>, b: byte, ghost c: byte, data: array<byte>) returns (out: seq<byte>)
    requires data.Length == BUFSIZE + 1 && 0 < b < 128 && c != NEWLINE && b != NEWLINE
    requires data[..4] == [c, NUL, b, NUL] && data[BUFSIZE - 4] == NUL
    requires forall i :: 4 <= i < BUFSIZE - 4 ==> data[i] != NEWLINE
    modifies data
    ensures out == fname + [COLON] + [c] + [NEWLINE]
  {
    assert data[0] == c && data[1] == NUL && data[2] == b && data[3] == NUL;
    var end := LineEnd(data, 0, BUFSIZE - 4);
    assert end == BUFSIZE - 4;
    data[end] := NUL;
    ghost var line := data[0..end];
    assert line[2] == b && OccursAt(line, [b], 2);
    var found := LineMatches(data, 0, end, [b]);
    out := [];
    if found {
      out := fname + [COLON] + data[0..1] + [NEWLINE];
    }
  }

  /** The second read: five bytes of the file, then NULs. */
  method ReadPadded(ghost b: byte, ghost c: byte, file: OpenFile, mem: array<byte>, data: array<byte>,
                    ghost content: seq<byte>)
    requires Spoiled(content, b, c) && Stores(mem[..], file.inode, content, 2 * BUFSIZE) && mem != data
    requires file.position == BUFSIZE && data.Length == BUFSIZE + 1
    modifies file, mem, data
    ensures mem[..] == old(mem[..]) && file.position == 2 * BUFSIZE && data[BUFSIZE] == old(data[BUFSIZE])
    ensures data[..5] == [b, b, b, NEWLINE, c] && forall i :: 5 <= i < BUFSIZE ==> data[i] == NUL
  {
    hide FlatByte, Word, WalkInRange, Mapped;
    ghost var m := mem[..];
    StoresForShorterReads(m, file.inode, content, 2 * BUFSIZE, BUFSIZE);
    var cnt := ReadChunk(file, mem, data, 0, BUFSIZE, content);
    forall i | 0 <= i < BUFSIZE ensures data[i] == if i < 5 then [b, b, b, NEWLINE, c][i] else NUL {
      assert data[i] == data[0..cnt][i] == FlatByte(m, file.inode, BUFSIZE + i);
      assert i < 5 ==> content[BUFSIZE + i] == content[BUFSIZE..][i];
    }
    assert data[0 + BUFSIZE..][0] == data[BUFSIZE];
  }

  /** The third read, past the end: 0, with NULs in the buffer. */
  method ReadNothing(file: OpenFile, mem: array<byte>, data: array<byte>, last: nat, ghost content: seq<byte>)
    requires Stores(mem[..], file.inode, content, 2 * BUFSIZE) && mem != data && |content| > BUFSIZE
    requires file.position == 2 * BUFSIZE && |content| < file.position && last + 4 == BUFSIZE < data.Length
    modifies file, mem, data
    ensures mem[..] == old(mem[..]) && data[..last] == old(data[..last]) && data[last] == NUL
  {
    hide FlatByte, Word, WalkInRange;
    ghost var pos, m := file.position, mem[..];
    assert Mapped(m, file.inode, pos) && WalkInRange(m, file.inode, pos);
    assert FlatByte(m, file.inode, pos + 0) == NUL;
    var _ := file.FileRead(mem, data, last, BUFSIZE - last);
  }
}
