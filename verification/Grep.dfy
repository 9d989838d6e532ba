/**
 grep's scanner: it reads a file in chunks into a 1024-byte buffer, cuts lines out of it in
 place and carries the unfinished line over to the next chunk. The reference splits the
 whole file into lines and keeps those that contain the pattern.
 */
module Grep {
  import opened Bytes

  const BUFSIZE: nat := 1024
  const COLON: byte := 58
  const OPEN_FAILED: seq<byte> := Ascii("file open failed\n")
  const READ_FAILED: seq<byte> := Ascii("file read failed\n")
  const CLOSE_FAILED: seq<byte> := Ascii("file close failed\n")

  // ---------- The reference ----------

  /** The first index of `c`, or the length if it does not occur. */
  function IndexOf(text: seq<byte>, c: byte): (i: nat)
    ensures i <= |text| && c !in text[..i]
    ensures i < |text| ==> text[i] == c
  {
    if text == [] || text[0] == c then 0
    else
      var i := 1 + IndexOf(text[1..], c);
      assert text[..i] == [text[0]] + text[1..][..i - 1];
      i
  }

  /** The whole text cut at its newlines. */
  function Lines(text: seq<byte>): (lines: seq<seq<byte>>)
    decreases |text|
  {
    var i := IndexOf(text, NEWLINE);
    if i == |text| then [text] else [text[..i]] + Lines(text[i + 1..])
  }

  /** Lines put together again with newlines between them. */
  function Unlines(lines: seq<seq<byte>>): seq<byte> {
    if lines == [] then []
    else if |lines| == 1 then lines[0]
    else lines[0] + [NEWLINE] + Unlines(lines[1..])
  }

  lemma {:induction false} LinesRoundTrip(text: seq<byte>)
    ensures Lines(text) != [] && Unlines(Lines(text)) == text
    ensures forall k :: 0 <= k < |Lines(text)| ==> NEWLINE !in Lines(text)[k]
    decreases |text|
  {
    hide IndexOf;
    var i := IndexOf(text, NEWLINE);
    if i == |text| {
      assert Lines(text) == [text] && text[..i] == text;
    } else {
      var line, more := text[..i], Lines(text[i + 1..]);
      LinesRoundTrip(text[i + 1..]);
      assert Lines(text) == [line] + more && ([line] + more)[1..] == more;
      assert text == line + [NEWLINE] + text[i + 1..];
    }
  }

  ghost predicate Contains(line: seq<byte>, s: seq<byte>) {
    exists k :: 0 <= k <= |line| - |s| && OccursAt(line, s, k)
  }

  predicate OccursAt(line: seq<byte>, s: seq<byte>, k: nat)
    requires k + |s| <= |line|
  {
    line[k..k + |s|] == s
  }

  ghost function Matching(lines: seq<seq<byte>>, s: seq<byte>): seq<seq<byte>> {
    if lines == [] then []
    else (if Contains(lines[0], s) then [lines[0]] else []) + Matching(lines[1..], s)
  }

  function Report(fname: seq<byte>, lines: seq<seq<byte>>): seq<byte> {
    if lines == [] then [] else fname + [COLON] + lines[0] + [NEWLINE] + Report(fname, lines[1..])
  }

  /** The reference: every line of the text that contains the pattern, once, in order. */
  ghost function PlainGrep(fname: seq<byte>, s: seq<byte>, text: seq<byte>): seq<byte> {
    Report(fname, Matching(Lines(text), s))
  }

  /** The reference keeps exactly the lines that contain the pattern, in the order of the text. */
  lemma {:induction false} MatchingIsFilter(a: seq<seq<byte>>, line: seq<byte>, s: seq<byte>)
    ensures Matching(a + [line], s) == Matching(a, s) + if Contains(line, s) then [line] else []
    decreases |a|
  {
    hide Contains;
    var last := if Contains(line, s) then [line] else [];
    if a == [] {
      assert a + [line] == [line] && [line][1..] == [];
      assert Matching([], s) == [] && last + [] == last && [] + last == last;
    } else {
      MatchingIsFilter(a[1..], line, s);
      assert (a + [line])[1..] == a[1..] + [line];
      var first := if Contains(a[0], s) then [a[0]] else [];
      assert first + (Matching(a[1..], s) + last) == first + Matching(a[1..], s) + last;
    }
  }

  /** Each line is reported as name, colon, line, newline. */
  lemma {:induction false} ReportIsLineByLine(fname: seq<byte>, a: seq<seq<byte>>, line: seq<byte>)
    ensures Report(fname, a + [line]) == Report(fname, a) + (fname + Ascii(":") + line + Ascii("\n"))
    decreases |a|
  {
    var last := fname + [COLON] + line + [NEWLINE];
    assert Ascii(":") == [COLON] && Ascii("\n") == [NEWLINE];
    if a == [] {
      assert a + [line] == [line] && [line][1..] == [] && Report(fname, []) == [];
      assert last + [] == last && [] + last == last;
    } else {
      assert (a + [line])[1..] == a[1..] + [line];
      ReportIsLineByLine(fname, a[1..], line);
      var first, rest := fname + [COLON] + a[0] + [NEWLINE], Report(fname, a[1..]);
      assert first + (rest + last) == first + rest + last;
    }
  }

  // ---------- What the scanner makes of patterns and long lines ----------

  /** The pattern's first byte is compared as a signed character before the rest is, so a
      pattern that is empty or starts above 127 matches nothing. */
  predicate Searchable(s: seq<byte>) { s != [] && s[0] < 128 }

  ghost function Found(lines: seq<seq<byte>>, s: seq<byte>): seq<seq<byte>> {
    if Searchable(s) then Matching(lines, s) else []
  }

  /** Lines as the buffer sees them: also cut after 1024 bytes without a newline. */
  function Pieces(text: seq<byte>): (pieces: seq<seq<byte>>)
    ensures forall k :: 0 <= k < |pieces| ==> |pieces[k]| <= BUFSIZE
    decreases |text|
  {
    var i := IndexOf(text, NEWLINE);
    if i >= BUFSIZE then [text[..BUFSIZE]] + Pieces(text[BUFSIZE..])
    else if i == |text| then [text]
    else [text[..i]] + Pieces(text[i + 1..])
  }

  function Flat(pieces: seq<seq<byte>>): seq<byte> {
    if pieces == [] then [] else pieces[0] + Flat(pieces[1..])
  }

  function WithoutNewlines(text: seq<byte>): seq<byte> {
    if text == [] then [] else (if text[0] == NEWLINE then [] else [text[0]]) + WithoutNewlines(text[1..])
  }

  lemma {:induction false} NewlinesSplit(line: seq<byte>, rest: seq<byte>)
    requires NEWLINE !in line
    ensures WithoutNewlines(line + rest) == line + WithoutNewlines(rest)
  {
    if line == [] {
      assert line + rest == rest;
    } else {
      assert (line + rest)[1..] == line[1..] + rest;
      NewlinesSplit(line[1..], rest);
    }
  }

  /** How much of a text its first piece takes, the newline behind it included. */
  function Taken(text: seq<byte>): (n: nat)
    ensures n <= |text| && (text != [] ==> n > 0)
  {
    var i := IndexOf(text, NEWLINE);
    if i >= BUFSIZE then BUFSIZE else if i == |text| then i else i + 1
  }

  lemma {:induction false} FirstPiece(text: seq<byte>) returns (piece: seq<byte>)
    ensures NEWLINE !in piece && (text[..Taken(text)] == piece || text[..Taken(text)] == piece + [NEWLINE])
    ensures var more := if |text| == |piece| < BUFSIZE then [] else Pieces(text[Taken(text)..]);
      Pieces(text) == [piece] + more
  {
    hide IndexOf;
    var i := IndexOf(text, NEWLINE);
    piece := text[..if i >= BUFSIZE then BUFSIZE else i];
    if i == |text| < BUFSIZE {
      assert piece == text && [piece] + [] == [piece];
    }
  }

  lemma {:induction false} FlatCons(piece: seq<byte>, more: seq<seq<byte>>)
    ensures Flat([piece] + more) == piece + Flat(more)
  {
    assert ([piece] + more)[1..] == more;
  }

  /** Cutting long lines loses nothing: the pieces hold every byte but the newlines, in order. */
  lemma {:induction false} PiecesKeepEveryByte(text: seq<byte>)
    ensures Flat(Pieces(text)) == WithoutNewlines(text)
    ensures forall k :: 0 <= k < |Pieces(text)| ==> NEWLINE !in Pieces(text)[k]
    decreases |text|
  {
    hide Pieces, Taken, Flat, WithoutNewlines;
    var piece := FirstPiece(text);
    var rest := text[Taken(text)..];
    assert text == text[..Taken(text)] + rest;
    if |text| == |piece| < BUFSIZE {
      FlatCons(piece, []);
      EmptyIsEmpty();
      NewlinesSplit(piece, []);
      assert piece + [] == piece == text;
    } else if text != [] {
      PiecesKeepEveryByte(rest);
      FlatCons(piece, Pieces(rest));
      DropNewline(piece, rest, text);
    }
  }

  lemma EmptyIsEmpty()
    ensures Flat([]) == [] && WithoutNewlines([]) == []
  {}

  lemma {:induction false} DropNewline(piece: seq<byte>, rest: seq<byte>, text: seq<byte>)
    requires NEWLINE !in piece && (text == piece + rest || text == piece + [NEWLINE] + rest)
    ensures WithoutNewlines(text) == piece + WithoutNewlines(rest)
  {
    if text == piece + rest {
      NewlinesSplit(piece, rest);
    } else {
      var tail := [NEWLINE] + rest;
      assert text == piece + tail && tail[1..] == rest;
      NewlinesSplit(piece, tail);
      assert [] + WithoutNewlines(rest) == WithoutNewlines(rest);
    }
  }

  ghost function Grep(fname: seq<byte>, s: seq<byte>, text: seq<byte>): seq<byte> {
    Report(fname, Found(Pieces(text), s))
  }

  ghost function GrepLine(fname: seq<byte>, s: seq<byte>, line: seq<byte>): seq<byte> {
    if Searchable(s) && Contains(line, s) then fname + [COLON] + line + [NEWLINE] else []
  }

  lemma {:induction false} GrepCons(fname: seq<byte>, s: seq<byte>, line: seq<byte>, rest: seq<seq<byte>>)
    ensures Report(fname, Found([line] + rest, s)) == GrepLine(fname, s, line) + Report(fname, Found(rest, s))
  {
    assert ([line] + rest)[1..] == rest;
    var m := Matching(rest, s);
    if Searchable(s) && Contains(line, s) {
      assert ([line] + m)[1..] == m;
    } else {
      assert [] + m == m;
    }
  }

  lemma {:induction false} GrepLastLine(fname: seq<byte>, s: seq<byte>, line: seq<byte>)
    requires NEWLINE !in line && |line| < BUFSIZE
    ensures Grep(fname, s, line) == GrepLine(fname, s, line)
  {
    assert Pieces(line) == [line] + [];
    GrepCons(fname, s, line, []);
  }

  lemma {:induction false} FirstNewline(line: seq<byte>, rest: seq<byte>)
    requires NEWLINE !in line
    ensures IndexOf(line + [NEWLINE] + rest, NEWLINE) == |line|
    ensures IndexOf(line + rest, NEWLINE) >= |line|
  {
    if line == [] {
      assert [] + rest == rest;
    } else {
      FirstNewline(line[1..], rest);
      assert (line + [NEWLINE] + rest)[1..] == line[1..] + [NEWLINE] + rest;
      assert (line + rest)[1..] == line[1..] + rest;
    }
  }

  lemma {:induction false} GrepFirstLine(fname: seq<byte>, s: seq<byte>, line: seq<byte>, rest: seq<byte>)
    requires NEWLINE !in line && |line| < BUFSIZE
    ensures Grep(fname, s, line + [NEWLINE] + rest) == GrepLine(fname, s, line) + Grep(fname, s, rest)
  {
    hide Found, Report, GrepLine;
    var text := line + [NEWLINE] + rest;
    FirstNewline(line, rest);
    assert text[..|line|] == line && text[|line| + 1..] == rest;
    assert Pieces(text) == [line] + Pieces(rest);
    GrepCons(fname, s, line, Pieces(rest));
  }

  lemma {:induction false} GrepFirstPiece(fname: seq<byte>, s: seq<byte>, piece: seq<byte>, rest: seq<byte>)
    requires NEWLINE !in piece && |piece| == BUFSIZE
    ensures Grep(fname, s, piece + rest) == GrepLine(fname, s, piece) + Grep(fname, s, rest)
  {
    FirstNewline(piece, rest);
    assert (piece + rest)[..BUFSIZE] == piece && (piece + rest)[BUFSIZE..] == rest;
    GrepCons(fname, s, piece, Pieces(rest));
  }

  lemma {:induction false} EmptyTextMatchesNothing(fname: seq<byte>, s: seq<byte>)
    ensures Grep(fname, s, []) == []
  {
    GrepLastLine(fname, s, []);
  }

  // ---------- String helpers of the user library ----------

  /** ece391_strncmp of the NUL-terminated bytes at `at` with the first `|s|` bytes of `s`. */
  method Strncmp(data: array<byte>, at: nat, ghost end: nat, s: seq<byte>) returns (same: bool)
    requires at <= end < data.Length && data[end] == NUL && NUL !in s
    ensures same <==> at + |s| <= end && data[at..at + |s|] == s
  {
    if |s| == 0 {
      return true;
    }
    var k := 0;
    while data[at + k] == s[k]
      invariant 0 <= k < |s| && at + k <= end && data[at..at + k] == s[..k]
      decreases |s| - k
    {
      if data[at + k] == NUL || k + 1 == |s| {
        return true;
      }
      k := k + 1;
    }
    if at + |s| <= end {
      assert data[at..at + |s|][k] == data[at + k];
    }
    return false;
  }

  /** ece391_strcpy down to the start of the same buffer. */
  method ShiftDown(data: array<byte>, from: nat, ghost end: nat)
    requires 0 < from <= end < data.Length && data[end] == NUL && NUL !in data[from..end]
    modifies data
    ensures data[..end - from] == old(data[from..end]) && data[end - from] == NUL
    ensures forall i :: end - from < i < data.Length ==> data[i] == old(data[i])
  {
    var k := 0;
    while true
      invariant 0 <= k <= end - from
      invariant forall i :: 0 <= i < k ==> data[i] == old(data[from + i])
      invariant forall i :: k <= i < data.Length ==> data[i] == old(data[i])
      decreases end - k
    {
      assert from + k < end ==> data[from + k] == old(data[from..end])[k];
      data[k] := data[from + k];
      if data[k] == NUL {
        break;
      }
      k := k + 1;
    }
  }

  /** The loop that looks for the end of the line starting at `start`. */
  method LineEnd(data: array<byte>, start: nat, last: nat) returns (end: nat)
    requires start <= last <= data.Length
    ensures start <= end <= last && NEWLINE !in data[start..end]
    ensures forall k :: start <= k < end ==> data[k] != NEWLINE
    ensures end < last ==> data[end] == NEWLINE
  {
    end := start;
    while end < last && data[end] != NEWLINE
      invariant start <= end <= last && NEWLINE !in data[start..end]
      invariant forall k :: start <= k < end ==> data[k] != NEWLINE
    {
      end := end + 1;
    }
  }

  function Signed(b: byte): int { if b < 128 then b as int else b as int - 256 }

  /** The search of one NUL-terminated line. */
  method LineMatches(data: array<byte>, start: nat, end: nat, s: seq<byte>) returns (found: bool)
    requires start <= end < data.Length && data[end] == NUL && NUL !in s
    ensures found <==>
      (Searchable(s) && Contains(data[start..end], s)) || (s == [] && NUL in data[start..end])
  {
    var first := if s == [] then NUL else s[0];
    ghost var line := data[start..end];
    for check := start to end
      invariant Searchable(s) ==> forall k :: 0 <= k < check - start && k <= |line| - |s| ==> !OccursAt(line, s, k)
      invariant s == [] ==> NUL !in line[..check - start]
    {
      assert line[check - start] == data[check];
      SameBytes(data[..], start, end, check, s);
      if Signed(first) == data[check] as int {
        var same := Strncmp(data, check, end, s);
        if same {
          assert OccursAt(line, s, check - start);
          return true;
        }
      }
    }
    return false;
  }

  lemma {:induction false} SliceOfSlice(data: seq<byte>, start: nat, end: nat, lo: nat, hi: nat)
    requires start <= end <= |data| && lo <= hi <= end - start
    ensures data[start..end][lo..hi] == data[start + lo..start + hi]
  {
    var a, b := data[start..end][lo..hi], data[start + lo..start + hi];
    assert forall k :: 0 <= k < |a| ==> a[k] == b[k];
  }

  /** An occurrence in the line, seen from the buffer that holds it. */
  lemma {:induction false} SameBytes(data: seq<byte>, start: nat, end: nat, check: nat, s: seq<byte>)
    requires start <= check < end <= |data|
    ensures check + |s| <= end ==>
      (OccursAt(data[start..end], s, check - start) <==> data[check..check + |s|] == s)
    ensures check + |s| <= end && s != [] && data[check..check + |s|] == s ==> data[check] == s[0]
  {
    if check + |s| <= end {
      SliceOfSlice(data, start, end, check - start, check - start + |s|);
      assert s != [] ==> data[check..check + |s|][0] == data[check];
    }
  }

  // ---------- do_one_file ----------

  /** A read that returns what was asked for, or what is left. */
  method Read(file: seq<byte>, pos: nat, data: array<byte>, at: nat, n: nat) returns (cnt: nat)
    requires pos <= |file| && at + n <= data.Length
    modifies data
    ensures cnt == if n <= |file| - pos then n else |file| - pos
    ensures data[..at + cnt] == old(data[..at]) + file[pos..pos + cnt]
    ensures forall i :: at + cnt <= i < data.Length ==> data[i] == old(data[i])
  {
    cnt := if n <= |file| - pos then n else |file| - pos;
    for k := 0 to cnt
      invariant data[..at + k] == old(data[..at]) + file[pos..pos + k]
      invariant forall i :: at + k <= i < data.Length ==> data[i] == old(data[i])
    {
      data[at + k] := file[pos + k];
      assert file[pos..pos + k + 1] == file[pos..pos + k] + [file[pos + k]];
    }
  }

  /** What the buffer holds from `start` on, and what has been printed before it. */
  ghost predicate Scanned(fname: seq<byte>, s: seq<byte>, file: seq<byte>, pos: nat,
                          data: array<byte>, start: nat, last: nat, out: seq<byte>)
    reads data
  {
    && start <= last <= BUFSIZE < data.Length && last <= pos <= |file|
    && data[BUFSIZE] != NEWLINE
    && data[start..last] == file[pos - last + start..pos]
    && out + Grep(fname, s, file[pos - last + start..]) == Grep(fname, s, file)
  }

  lemma {:induction false} Adjacent(file: seq<byte>, a: nat, b: nat, c: nat)
    requires a <= b <= c <= |file|
    ensures file[a..b] + file[b..c] == file[a..c]
  {
    var x, y := file[a..b] + file[b..c], file[a..c];
    forall k | 0 <= k < c - a ensures x[k] == y[k] {
      assert y[k] == file[a + k];
    }
  }

  /** Reads as much as fits behind the carried-over bytes. */
  method Refill(ghost fname: seq<byte>, ghost s: seq<byte>, file: seq<byte>, pos: nat,
                data: array<byte>, last: nat, ghost out: seq<byte>) returns (cnt: nat)
    requires Scanned(fname, s, file, pos, data, 0, last, out) && last < BUFSIZE
    modifies data
    ensures Scanned(fname, s, file, pos + cnt, data, 0, last + cnt, out)
    ensures last + cnt == BUFSIZE || pos + cnt == |file|
    ensures cnt == 0 ==> pos == |file|
  {
    hide Grep;
    cnt := Read(file, pos, data, last, BUFSIZE - last);
    assert data[0..last + cnt] == data[..last + cnt];
    Adjacent(file, pos - last, pos, pos + cnt);
  }

  lemma {:induction false} NulFree(file: seq<byte>, lo: nat, hi: nat)
    requires NUL !in file && lo <= hi <= |file|
    ensures NUL !in file[lo..hi]
  {}

  lemma {:induction false} AfterLine(fname: seq<byte>, s: seq<byte>, file: seq<byte>, a: nat, b: nat,
                                     before: seq<byte>)
    requires a <= b < |file| && file[b] == NEWLINE && NEWLINE !in file[a..b] && b - a < BUFSIZE
    requires before + Grep(fname, s, file[a..]) == Grep(fname, s, file)
    ensures before + GrepLine(fname, s, file[a..b]) + Grep(fname, s, file[b + 1..]) == Grep(fname, s, file)
  {
    hide Grep, GrepLine;
    assert file[a..] == file[a..b] + [NEWLINE] + file[b + 1..];
    GrepFirstLine(fname, s, file[a..b], file[b + 1..]);
    var x, y := GrepLine(fname, s, file[a..b]), Grep(fname, s, file[b + 1..]);
    assert before + x + y == before + (x + y);
  }

  lemma {:induction false} AfterUnfinished(fname: seq<byte>, s: seq<byte>, file: seq<byte>, a: nat, b: nat,
                                           before: seq<byte>)
    requires a <= b <= |file| && NEWLINE !in file[a..b]
    requires b - a == BUFSIZE || (b == |file| && b - a < BUFSIZE)
    requires before + Grep(fname, s, file[a..]) == Grep(fname, s, file)
    ensures before + GrepLine(fname, s, file[a..b]) + Grep(fname, s, file[b..]) == Grep(fname, s, file)
  {
    hide Grep, GrepLine;
    assert file[a..] == file[a..b] + file[b..];
    if b - a == BUFSIZE {
      GrepFirstPiece(fname, s, file[a..b], file[b..]);
    } else {
      assert file[a..] == file[a..b] && file[b..] == [];
      GrepLastLine(fname, s, file[a..b]);
      EmptyTextMatchesNothing(fname, s);
    }
    var x, y := GrepLine(fname, s, file[a..b]), Grep(fname, s, file[b..]);
    assert before + x + y == before + (x + y);
  }

  lemma {:induction false} PrintedLine(fname: seq<byte>, s: seq<byte>, line: seq<byte>, found: bool,
                                       before: seq<byte>, out: seq<byte>)
    requires found <==> Searchable(s) && Contains(line, s)
    requires out == if found then before + fname + [COLON] + line + [NEWLINE] else before
    ensures out == before + GrepLine(fname, s, line)
  {}

  /** Terminates the line in the buffer, searches it and prints it. */
  method HandleLine(fname: seq<byte>, s: seq<byte>, ghost file: seq<byte>, ghost pos: nat,
                    data: array<byte>, start: nat, end: nat, last: nat, before: seq<byte>) returns (out: seq<byte>)
    requires Scanned(fname, s, file, pos, data, start, last, before) && NUL !in s && NUL !in file
    requires start <= end <= last && NEWLINE !in data[start..end]
    requires if end < last then data[end] == NEWLINE else end - start == BUFSIZE || pos == |file|
    modifies data
    ensures if end + 1 < last then Scanned(fname, s, file, pos, data, end + 1, last, out)
            else Scanned(fname, s, file, pos, data, 0, 0, out)
  {
    hide Grep, GrepLine;
    ghost var a, b := pos - last + start, pos - last + end;
    ghost var line := data[start..end];
    SliceOfSlice(data[..], start, last, 0, end - start);
    SliceOfSlice(file, a, pos, 0, end - start);
    assert data[..][start..last] == data[start..last] == file[a..pos];
    assert line == file[a..b];
    NulFree(file, a, b);
    if end < last {
      assert data[start..last][end - start] == file[a..pos][end - start] == file[b];
      AfterLine(fname, s, file, a, b, before);
      assert data[end + 1..last] == data[start..last][end + 1 - start..] == file[b + 1..pos];
    } else {
      AfterUnfinished(fname, s, file, a, b, before);
    }
    data[end] := NUL;
    assert data[start..end] == line;
    assert data[end + 1..] == old(data[end + 1..]);
    assert end < last ==> data[end + 1..last] == data[end + 1..][..last - end - 1] == old(data[end + 1..last]);
    var found := LineMatches(data, start, end, s);
    out := before;
    if found {
      out := out + fname + [COLON] + data[start..end] + [NEWLINE];
    }
    PrintedLine(fname, s, line, found, before, out);
  }

  /** Moves the unfinished line at `start` to the front of the buffer. */
  method CarryOver(ghost fname: seq<byte>, ghost s: seq<byte>, ghost file: seq<byte>, ghost pos: nat,
                   data: array<byte>, start: nat, end: nat, ghost out: seq<byte>)
    requires Scanned(fname, s, file, pos, data, start, end, out) && 0 < start && NUL !in file
    modifies data
    ensures Scanned(fname, s, file, pos, data, 0, end - start, out)
  {
    hide Grep;
    NulFree(file, pos - end + start, pos);
    data[end] := NUL;
    assert data[start..end] == file[pos - end + start..pos];
    ShiftDown(data, start, end);
    assert data[0..end - start] == data[..end - start];
  }

  /** How much of a full buffer is handled at once: all up to the last newline, or everything
      if there is none. */
  function Consumed(w: seq<byte>): (n: nat)
    ensures n <= |w| && (w != [] ==> n > 0)
  {
    var n := AfterLastNewline(w);
    if n == 0 then |w| else n
  }

  function AfterLastNewline(w: seq<byte>): (n: nat)
    ensures n <= |w| && NEWLINE !in w[n..] && (n > 0 ==> w[n - 1] == NEWLINE)
  {
    if w == [] || w[|w| - 1] == NEWLINE then |w| else AfterLastNewline(w[..|w| - 1])
  }

  lemma {:induction false} AfterLastNewlineIs(w: seq<byte>, n: nat)
    requires n <= |w| && NEWLINE !in w[n..] && (n > 0 ==> w[n - 1] == NEWLINE)
    ensures AfterLastNewline(w) == n
  {}

  /** What the end of the line at `start` says about the last newline in the buffer. */
  lemma {:induction false} LastLineStart(fname: seq<byte>, s: seq<byte>, file: seq<byte>, pos: nat, data: array<byte>,
                                         start: nat, end: nat, last: nat, out: seq<byte>)
    requires Scanned(fname, s, file, pos, data, start, last, out) && start <= end <= last
    requires NEWLINE !in data[start..end] && (end < last ==> data[end] == NEWLINE)
    requires start == 0 || file[pos - last + start - 1] == NEWLINE
    ensures end < last ==> file[pos - last + end] == NEWLINE
    ensures end + 1 < last || Consumed(file[pos - last..pos]) == if end == last && start > 0 then start else last
  {
    hide Grep;
    var w := file[pos - last..pos];
    assert forall k :: start <= k < last ==> data[k] == data[start..last][k - start] == w[k];
    if end == last {
      assert w[start..] == data[start..end];
      AfterLastNewlineIs(w, start);
    } else if end + 1 == last {
      AfterLastNewlineIs(w, last);
    }
  }

  lemma ScannedBounds(fname: seq<byte>, s: seq<byte>, file: seq<byte>, pos: nat, data: array<byte>,
                      start: nat, last: nat, out: seq<byte>)
    requires Scanned(fname, s, file, pos, data, start, last, out)
    ensures start <= last <= BUFSIZE < data.Length && last <= pos <= |file| && data[BUFSIZE] != NEWLINE
  {}

  /** How the system calls of one file turn out: whether it opens, which reads fail, whether
      it closes. */
  datatype Device = Device(opens: bool, fails: nat -> bool, closes: bool)

  /** Prints the pieces of the file that contain the pattern, in order, wherever the chunk
      boundaries fall; a failing read leaves a part of that output and a message. `data` is the
      buffer with whatever it held before. */
  method DoOneFile(fname: seq<byte>, s: seq<byte>, file: seq<byte>, dev: Device, data: array<byte>)
    returns (r: int, out: seq<byte>)
    requires data.Length == BUFSIZE + 1 && data[BUFSIZE] != NEWLINE
    requires NUL !in s && NUL !in file
    modifies data
    ensures !dev.opens ==> r == -1 && out == OPEN_FAILED
    ensures dev.opens && (forall k :: !dev.fails(k)) ==>
      if dev.closes then r == 0 && out == Grep(fname, s, file)
      else r == -1 && out == Grep(fname, s, file) + CLOSE_FAILED
    ensures r == 0 ==> out == Grep(fname, s, file)
    ensures r != 0 && dev.opens && dev.closes ==>
      r == -1 && exists printed: seq<byte> :: printed <= Grep(fname, s, file) && out == printed + READ_FAILED
  {
    hide Grep;
    out := [];
    if !dev.opens {
      return -1, OPEN_FAILED;
    }
    var last: nat, pos: nat := 0, 0;
    ghost var all := Grep(fname, s, file);
    assert file[0..] == file;
    var readNo := 0;
    while true
      invariant Scanned(fname, s, file, pos, data, 0, last, out) && last < BUFSIZE
      decreases |file| - pos
    {
      if dev.fails(readNo) {
        assert out <= all;
        return -1, out + READ_FAILED;
      }
      readNo := readNo + 1;
      var cnt := Refill(fname, s, file, pos, data, last, out);
      last, pos := last + cnt, pos + cnt;
      last, out := ScanBuffer(fname, s, file, pos, cnt, data, last, out);
      if cnt == 0 {
        break;
      }
    }
    assert last == 0 && file[pos..] == [];
    EmptyTextMatchesNothing(fname, s);
    if !dev.closes {
      return -1, out + CLOSE_FAILED;
    }
    return 0, out;
  }

  /** Handles every finished line in the buffer and carries the last one over; with nothing
      new read, or a full buffer without a newline, the last one is handled too. */
  method ScanBuffer(fname: seq<byte>, s: seq<byte>, ghost file: seq<byte>, ghost pos: nat, cnt: nat,
                    data: array<byte>, last: nat, before: seq<byte>) returns (left: nat, out: seq<byte>)
    requires Scanned(fname, s, file, pos, data, 0, last, before) && NUL !in s && NUL !in file
    requires last == BUFSIZE || pos == |file|
    requires cnt == 0 ==> pos == |file|
    modifies data
    ensures Scanned(fname, s, file, pos, data, 0, left, out) && left < BUFSIZE
    ensures cnt == 0 ==> left == 0
    ensures cnt != 0 && last == BUFSIZE ==> left == last - Consumed(file[pos - last..pos])
  {
    hide Grep, Scanned, Consumed, AfterLastNewline;
    ScannedBounds(fname, s, file, pos, data, 0, last, before);
    left, out := last, before;
    var start := 0;
    while true
      invariant 0 <= start <= last && Scanned(fname, s, file, pos, data, start, last, out)
      invariant start == 0 || file[pos - last + start - 1] == NEWLINE
      decreases last - start
    {
      ScannedBounds(fname, s, file, pos, data, start, last, out);
      var end := LineEnd(data, start, last);
      LastLineStart(fname, s, file, pos, data, start, end, last, out);
      if data[end] != NEWLINE && cnt != 0 && start != 0 {
        CarryOver(fname, s, file, pos, data, start, end, out);
        return last - start, out;
      }
      out := HandleLine(fname, s, file, pos, data, start, end, last, out);
      start := end + 1;
      if start >= last {
        return 0, out;
      }
    }
  }

  // ---------- When that is grep ----------

  ghost predicate LinesFit(text: seq<byte>) {
    var lines := Lines(text);
    forall k :: 0 <= k < |lines| ==> |lines[k]| <= BUFSIZE
  }

  /** With no line over 1024 bytes the output for a searchable pattern is the reference's. */
  lemma {:induction false} FittingLinesAreAllFound(fname: seq<byte>, s: seq<byte>, text: seq<byte>)
    requires LinesFit(text) && Searchable(s)
    ensures Grep(fname, s, text) == PlainGrep(fname, s, text)
    decreases |text|
  {
    hide Grep, PlainGrep, GrepLine, LinesFit;
    var i := IndexOf(text, NEWLINE);
    var line := text[..i];
    FirstLineFits(text);
    if i == |text| {
      assert line == text;
      PlainLastLine(fname, s, text);
      UnterminatedLine(fname, s, text);
    } else {
      var rest := text[i + 1..];
      assert text == line + [NEWLINE] + rest;
      FittingLinesAreAllFound(fname, s, rest);
      PlainFirstLine(fname, s, line, rest);
      TerminatedLine(fname, s, line, rest);
    }
  }

  lemma {:induction false} FirstLineFits(text: seq<byte>)
    requires LinesFit(text)
    ensures var i := IndexOf(text, NEWLINE);
      i <= BUFSIZE && (i < |text| ==> LinesFit(text[i + 1..]))
  {
    hide IndexOf;
    var i, lines := IndexOf(text, NEWLINE), Lines(text);
    assert lines[0] == text[..i];
    if i < |text| {
      var rest := Lines(text[i + 1..]);
      assert lines == [text[..i]] + rest;
      hide Lines;
      forall k | 0 <= k < |rest| ensures |rest[k]| <= BUFSIZE {
        assert rest[k] == lines[k + 1];
      }
    }
  }

  lemma {:induction false} PlainLastLine(fname: seq<byte>, s: seq<byte>, line: seq<byte>)
    requires NEWLINE !in line && Searchable(s)
    ensures PlainGrep(fname, s, line) == GrepLine(fname, s, line)
  {
    assert Lines(line) == [line] + [];
    GrepCons(fname, s, line, []);
  }

  lemma {:induction false} PlainFirstLine(fname: seq<byte>, s: seq<byte>, line: seq<byte>, rest: seq<byte>)
    requires NEWLINE !in line && Searchable(s)
    ensures PlainGrep(fname, s, line + [NEWLINE] + rest) == GrepLine(fname, s, line) + PlainGrep(fname, s, rest)
  {
    var text := line + [NEWLINE] + rest;
    FirstNewline(line, rest);
    assert text[..|line|] == line && text[|line| + 1..] == rest;
    GrepCons(fname, s, line, Lines(rest));
  }

  lemma {:induction false} UnterminatedLine(fname: seq<byte>, s: seq<byte>, line: seq<byte>)
    requires NEWLINE !in line && |line| <= BUFSIZE
    ensures Grep(fname, s, line) == GrepLine(fname, s, line)
  {
    hide Grep, GrepLine;
    if |line| < BUFSIZE {
      GrepLastLine(fname, s, line);
    } else {
      assert line == line + [];
      GrepFirstPiece(fname, s, line, []);
      EmptyTextMatchesNothing(fname, s);
    }
  }

  lemma {:induction false} TerminatedLine(fname: seq<byte>, s: seq<byte>, line: seq<byte>, rest: seq<byte>)
    requires NEWLINE !in line && |line| <= BUFSIZE
    ensures Grep(fname, s, line + [NEWLINE] + rest) == GrepLine(fname, s, line) + Grep(fname, s, rest)
  {
    hide Grep, GrepLine;
    if |line| < BUFSIZE {
      GrepFirstLine(fname, s, line, rest);
    } else {
      var rest' := [] + [NEWLINE] + rest;
      assert line + [NEWLINE] + rest == line + rest';
      GrepFirstPiece(fname, s, line, rest');
      GrepFirstLine(fname, s, [], rest);
      GrepLastLine(fname, s, []);
      EmptyTextMatchesNothing(fname, s);
    }
  }

  lemma {:induction false} NothingMatches(lines: seq<seq<byte>>, s: seq<byte>)
    requires forall k :: 0 <= k < |lines| ==> |lines[k]| < |s|
    ensures Matching(lines, s) == []
  {
    if lines != [] {
      NothingMatches(lines[1..], s);
    }
  }

  lemma {:induction false} SomethingMatches(lines: seq<seq<byte>>, s: seq<byte>)
    requires s in lines
    ensures Matching(lines, s) != []
  {
    if lines[0] == s {
      assert OccursAt(s, s, 0);
    } else {
      SomethingMatches(lines[1..], s);
    }
  }

  /** A longer line that starts with an ASCII byte is not even found by itself, so the limit
      is exact for ASCII text. */
  lemma {:induction false} LongLineIsMissed(fname: seq<byte>, line: seq<byte>, text: seq<byte>)
    requires line in Lines(text) && |line| > BUFSIZE && line[0] < 128
    ensures Grep(fname, line, text) == [] && PlainGrep(fname, line, text) != []
  {
    NothingMatches(Pieces(text), line);
    SomethingMatches(Lines(text), line);
  }

  ghost predicate NoneContains(lines: seq<seq<byte>>, s: seq<byte>) {
    forall k :: 0 <= k < |lines| ==> !Contains(lines[k], s)
  }

  lemma {:induction false} NothingMatchesIffNoneContains(lines: seq<seq<byte>>, s: seq<byte>)
    ensures Matching(lines, s) == [] <==> NoneContains(lines, s)
  {
    if lines != [] {
      var rest := lines[1..];
      NothingMatchesIffNoneContains(rest, s);
      assert forall k :: 0 < k < |lines| ==> lines[k] == rest[k - 1];
      assert forall k :: 0 <= k < |rest| ==> rest[k] == lines[k + 1];
    }
  }

  lemma NothingReported(fname: seq<byte>, lines: seq<seq<byte>>)
    ensures Report(fname, lines) == [] <==> lines == []
  {}

  /** With lines that fit, the scanner is right about a pattern exactly when the pattern is
      searchable or there is nothing to find. */
  lemma {:induction false} GrepIsPlainGrepIffSearchable(fname: seq<byte>, s: seq<byte>, text: seq<byte>)
    requires LinesFit(text)
    ensures Grep(fname, s, text) == PlainGrep(fname, s, text) <==>
      Searchable(s) || NoneContains(Lines(text), s)
  {
    var lines := Lines(text);
    hide Lines, NoneContains;
    if Searchable(s) {
      FittingLinesAreAllFound(fname, s, text);
    } else {
      NothingMatchesIffNoneContains(lines, s);
      NothingReported(fname, Matching(lines, s));
    }
  }

  /** grep without an argument searches for the empty string, which every line contains, and
      prints nothing. */
  lemma {:induction false} EmptyPatternIsMissed(fname: seq<byte>, text: seq<byte>)
    ensures Grep(fname, [], text) == [] && PlainGrep(fname, [], text) != []
  {
    var lines := Lines(text);
    assert OccursAt(lines[0], [], 0);
    assert Contains(lines[0], []);
    NothingMatchesIffNoneContains(lines, []);
  }

  /** For ASCII text the scanner is right about every searchable pattern exactly when all
      lines fit. */
  lemma {:induction false} GrepIsPlainGrepIffLinesFit(fname: seq<byte>, text: seq<byte>)
    requires forall b :: b in text ==> b < 128
    ensures LinesFit(text) <==>
      forall s: seq<byte> :: Searchable(s) ==> Grep(fname, s, text) == PlainGrep(fname, s, text)
  {
    if LinesFit(text) {
      forall s: seq<byte> | Searchable(s) ensures Grep(fname, s, text) == PlainGrep(fname, s, text) {
        FittingLinesAreAllFound(fname, s, text);
      }
    } else {
      var lines := Lines(text);
      var k :| 0 <= k < |lines| && |lines[k]| > BUFSIZE;
      var line := lines[k];
      LinesAreSlices(text, line);
      assert line[0] in line;
      LongLineIsMissed(fname, line, text);
    }
  }

  lemma {:induction false} LinesAreSlices(text: seq<byte>, line: seq<byte>)
    requires line in Lines(text)
    ensures forall b :: b in line ==> b in text
    decreases |text|
  {
    var i := IndexOf(text, NEWLINE);
    if i < |text| && line in Lines(text[i + 1..]) {
      LinesAreSlices(text[i + 1..], line);
    }
  }
}
