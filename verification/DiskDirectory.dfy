/**
 The directory in the boot block, in 64-byte records, and the table of 44-byte entries that
 fs_init makes of it.
 */
module DiskDirectory {
  import opened Bytes
  import opened Layout
  import opened Strings
  import FS = FileSystem
  import D = Directory
  import I = DiskImage

  const RECORD: nat := 64
  const CAPACITY: nat := 63

  /** A name of at most 32 bytes, a type, the bytes of an inode number and reserved bytes. */
  datatype Entry = Entry(name: seq<byte>, ftype: byte, inode: seq<byte>, reserved: seq<byte>)

  ghost predicate WellFormed(e: Entry) {
    && 0 < |e.name| <= 32 && NUL !in e.name && e.ftype <= 2 && |e.inode| == 4 && |e.reserved| == 24
  }

  function Padding(n: nat): (r: seq<byte>)
    ensures |r| == n
  {
    seq(n, _ => NUL)
  }

  /** The name padded to 32 bytes, then type, inode number and reserved bytes. */
  function RecordBytes(e: Entry): seq<byte>
    requires |e.name| <= 32
  {
    e.name + Padding(32 - |e.name|) + [e.ftype, NUL, NUL, NUL] + e.inode + e.reserved
  }

  ghost predicate AllWellFormed(es: seq<Entry>) {
    forall k :: 0 <= k < |es| ==> WellFormed(es[k])
  }

  ghost function Records(es: seq<Entry>): (r: seq<seq<byte>>)
    requires AllWellFormed(es)
    ensures |r| == |es| && AllSized(r, RECORD)
  {
    seq(|es|, k requires 0 <= k < |es| => RecordBytes(es[k]))
  }

  /** The boot block counts and holds these entries. */
  ghost predicate Lists(img: I.Image, es: seq<Entry>) {
    && AllWellFormed(es) && |es| <= CAPACITY && |img.boot| == I.BLOCK
    && LittleEndian(img.boot[0..4]) == |es|
    && img.boot[RECORD..RECORD + RECORD * |es|] == Concat(Records(es))
  }

  /** The first 44 bytes of each record stand one after the other in `m`. */
  ghost predicate Loaded(m: seq<byte>, es: seq<Entry>) {
    && AllWellFormed(es) && 44 * |es| <= |m|
    && forall k :: 0 <= k < |es| ==> LoadedAt(m, es[k], k)
  }

  ghost predicate LoadedAt(m: seq<byte>, e: Entry, k: nat) {
    |e.name| <= 32 && 44 * k + 44 <= |m| && |RecordBytes(e)| >= 44
    && m[44 * k..44 * k + 44] == RecordBytes(e)[..44]
  }

  lemma {:induction false} RecordAt(img: I.Image, es: seq<Entry>, k: nat)
    requires I.WellFormed(img) && Lists(img, es) && k < |es|
    ensures var m, a := I.Serialized(img), RECORD + RECORD * k;
      a + RECORD <= I.BLOCK <= |m| && m[a..a + RECORD] == RecordBytes(es[k])
  {
    hide Concat;
    I.SizeOfImage(img);
    PartAt(Records(es), RECORD, k);
    var m, lo, size := I.Serialized(img), RECORD * k, RECORD * |es|;
    assert m[..I.BLOCK] == img.boot;
    SubSlice(m, 0, I.BLOCK, RECORD, RECORD + size);
    SubSlice(m, RECORD, RECORD + size, lo, lo + RECORD);
    assert m[0..I.BLOCK] == m[..I.BLOCK];
  }

  lemma {:induction false} SubSlice(m: seq<byte>, start: nat, end: nat, lo: nat, hi: nat)
    requires start <= end <= |m| && lo <= hi <= end - start
    ensures m[start..end][lo..hi] == m[start + lo..start + hi]
  {
    var a, b := m[start..end][lo..hi], m[start + lo..start + hi];
    assert forall k :: 0 <= k < hi - lo ==> a[k] == b[k];
  }

  /** fs_init: copies every entry out of the boot block. */
  method Load(mem: array<byte>, ghost img: I.Image, ghost es: seq<Entry>) returns (dentries: array<byte>, num: nat)
    requires I.WellFormed(img) && mem[..] == I.Serialized(img) && Lists(img, es)
    ensures fresh(dentries) && num == |es| && Loaded(dentries[..], es)
  {
    hide FS.Word, RecordBytes, Records, Concat, I.Serialized;
    ghost var m := mem[..];
    CountAt(img, es);
    num := FS.LoadWord(mem, 0);
    dentries := new byte[44 * 64];
    for i := 0 to num
      invariant mem[..] == m && forall k :: 0 <= k < i ==> LoadedAt(dentries[..], es[k], k)
    {
      RecordAt(img, es, i);
      ghost var before := dentries[..];
      CopyEntry(mem, RECORD + i * RECORD, dentries, 44 * i);
      FirstBytes(m, RECORD + RECORD * i, es[i]);
      OneMoreLoaded(before, dentries[..], es, i);
    }
  }

  lemma {:induction false} OneMoreLoaded(before: seq<byte>, after: seq<byte>, es: seq<Entry>, i: nat)
    requires AllWellFormed(es) && i < |es| && 44 * i + 44 <= |before| && |RecordBytes(es[i])| == RECORD
    requires forall k :: 0 <= k < i ==> LoadedAt(before, es[k], k)
    requires after == before[..44 * i] + RecordBytes(es[i])[..44] + before[44 * i + 44..]
    ensures forall k :: 0 <= k <= i ==> LoadedAt(after, es[k], k)
  {
    hide RecordBytes;
    forall k | 0 <= k <= i ensures LoadedAt(after, es[k], k) {
      if k < i {
        assert LoadedAt(before, es[k], k);
        assert after[44 * k..44 * k + 44] == before[44 * k..44 * k + 44];
      }
    }
  }

  lemma {:induction false} FirstBytes(m: seq<byte>, a: nat, e: Entry)
    requires a + RECORD <= |m| && WellFormed(e) && m[a..a + RECORD] == RecordBytes(e)
    ensures |RecordBytes(e)| == RECORD && m[a..a + 44] == RecordBytes(e)[..44]
  {
    assert m[a..a + RECORD][..44] == m[a..a + 44];
  }

  lemma {:induction false} CountAt(img: I.Image, es: seq<Entry>)
    requires I.WellFormed(img) && Lists(img, es)
    ensures var m := I.Serialized(img); |m| >= I.BLOCK && FS.Word(m, 0) == |es|
  {
    hide FS.Word;
    I.SizeOfImage(img);
    var m := I.Serialized(img);
    assert m[0..0 + |img.boot|] == img.boot;
    I.SameWord(m, 0, img.boot, 0);
  }

  method CopyEntry(mem: array<byte>, from: nat, dst: array<byte>, to: nat)
    requires from + 44 <= mem.Length && to + 44 <= dst.Length && mem != dst
    modifies dst
    ensures dst[..] == old(dst[..to]) + mem[from..from + 44] + old(dst[to + 44..])
  {
    for k := 0 to 44
      invariant forall j :: 0 <= j < dst.Length ==>
        dst[j] == if to <= j < to + k then mem[from + (j - to)] else old(dst[j])
    {
      dst[to + k] := mem[from + k];
    }
  }

  // ---------- One entry ----------

  lemma {:induction false} EntryFields(e: Entry)
    requires WellFormed(e)
    ensures var b := RecordBytes(e);
      && |b| == RECORD && (forall k :: 0 <= k < 32 ==> b[k] == if k < |e.name| then e.name[k] else NUL)
      && b[32] == e.ftype && b[33] == b[34] == b[35] == NUL && b[36..40] == e.inode
  {}

  lemma {:induction false} EntryWordsAt(m: seq<byte>, a: nat, e: Entry)
    requires WellFormed(e) && a + 44 <= |m| && |RecordBytes(e)| == RECORD && m[a..a + 44] == RecordBytes(e)[..44]
    ensures m[a + 32] <= 2 && m[a + 33] == m[a + 34] == m[a + 35] == NUL
    ensures FS.Word(m, a + 32) == e.ftype as int && FS.Word(m, a + 36) == LittleEndian(e.inode)
  {
    hide RecordBytes;
    EntryFields(e);
    var b := RecordBytes(e)[..44];
    assert m[a + 32] == b[32] && m[a + 33] == b[33] && m[a + 34] == b[34] && m[a + 35] == b[35];
    assert b[36..40] == e.inode;
    assert b[36..40][0] == m[a + 36] && b[36..40][1] == m[a + 37];
    assert b[36..40][2] == m[a + 38] && b[36..40][3] == m[a + 39];
  }

  /** What string functions see of an entry. */
  function Seen(e: Entry): (s: seq<byte>)
    ensures |e.name| <= 32 ==> |s| <= 33 && (|s| > 32 <==> |e.name| == 32 && e.ftype != NUL)
    ensures |e.name| <= 32 ==> (if |s| <= 32 then s else s[..32]) == e.name
  {
    if |e.name| == 32 && e.ftype != NUL then e.name + [e.ftype] else e.name
  }

  lemma {:induction false} EntrySeenAt(m: seq<byte>, a: nat, e: Entry)
    requires WellFormed(e) && a + 44 <= |m| && |RecordBytes(e)| == RECORD && m[a..a + 44] == RecordBytes(e)[..44]
    ensures CString(m, a) == Seen(e)
  {
    hide CString, RecordBytes;
    EntryFields(e);
    var s, b := Seen(e), RecordBytes(e)[..44];
    assert b[|s|] == NUL && m[a + |s|] == b[|s|];
    forall k | 0 <= k < |s| ensures s[k] == m[a + k] && s[k] != NUL {
      assert m[a + k] == b[k];
      assert k < |e.name| ==> e.name[k] in e.name;
    }
    IsString(m, a, s);
  }

  /** Entry `i` has the name, type and inode number it was written with. */
  lemma {:induction false} EntryIsThere(m: seq<byte>, es: seq<Entry>, i: nat)
    requires Loaded(m, es) && i < |es|
    ensures 44 * i + 44 <= |m| && D.EntryIsTyped(m, i) && D.Name(m, i) == es[i].name
    ensures D.DentryAt(m, i) == D.Dentry(es[i].ftype as int, LittleEndian(es[i].inode))
    ensures |D.EntryString(m, i)| > 32 <==> |es[i].name| == 32 && es[i].ftype != NUL
  {
    hide FS.Word, CString, RecordBytes;
    assert LoadedAt(m, es[i], i);
    EntryFields(es[i]);
    EntryWordsAt(m, 44 * i, es[i]);
    EntrySeenAt(m, 44 * i, es[i]);
  }

  lemma {:induction false} DirectoryIsWellTyped(m: seq<byte>, es: seq<Entry>)
    requires Loaded(m, es)
    ensures D.WellTyped(m, |es|)
  {
    hide D.EntryIsTyped;
    forall i | 0 <= i < |es| ensures D.EntryIsTyped(m, i) {
      EntryIsThere(m, es, i);
    }
  }

  // ---------- Files by name ----------

  /** No two entries have the same name. */
  ghost predicate DistinctNames(es: seq<Entry>) {
    forall i, j :: 0 <= i < j < |es| ==> es[i].name != es[j].name
  }

  /** A full-length name of a type other than 0 that starts with the name of entry `i`. */
  ghost predicate Hides(es: seq<Entry>, j: nat, i: nat)
    requires j < |es| && i < |es|
  {
    |es[j].name| == 32 && es[j].ftype != NUL && |es[i].name| < 32 && es[i].name <= es[j].name
  }

  /** Entry `i` is not hidden by an earlier one. */
  ghost predicate Visible(es: seq<Entry>, i: nat)
    requires i < |es|
  {
    forall j :: 0 <= j < i ==> !Hides(es, j, i)
  }

  lemma {:induction false} LookupIsThere(m: seq<byte>, es: seq<Entry>, i: nat)
    requires Loaded(m, es) && DistinctNames(es) && i < |es| && D.WellTyped(m, |es|)
    ensures D.Lookup(m, |es|, es[i].name) == D.Some(i) <==> Visible(es, i)
  {
    hide Loaded, D.Lookup, D.Name, D.EntryString, D.WellTyped;
    forall k | 0 <= k < |es|
      ensures D.Name(m, k) == es[k].name && 0 < |es[k].name| <= 32
      ensures |D.EntryString(m, k)| > 32 <==> |es[k].name| == 32 && es[k].ftype != NUL
    {
      EntryIsThere(m, es, k);
      NameIsNotEmpty(m, es, k);
    }
    D.LookupFindsUnlessHidden(m, |es|, i, 0);
    forall j | 0 <= j < i ensures D.Hides(m, j, es[i].name) <==> Hides(es, j, i) {}
  }

  lemma NameIsNotEmpty(m: seq<byte>, es: seq<Entry>, k: nat)
    requires Loaded(m, es) && k < |es|
    ensures 0 < |es[k].name| <= 32
  {}

  /** Looking up the name of a visible entry yields its type and inode number. */
  method FindByName(dentries: array<byte>, num: nat, ghost es: seq<Entry>, ghost i: nat, name: seq<byte>)
    returns (r: D.Option<D.Dentry>)
    requires Loaded(dentries[..], es) && DistinctNames(es) && num == |es| && i < |es|
    requires name == es[i].name && Visible(es, i)
    modifies dentries
    ensures dentries[..] == old(dentries[..])
    ensures r == D.Some(D.Dentry(es[i].ftype as int, LittleEndian(es[i].inode)))
  {
    hide D.Lookup, D.DentryAt;
    DirectoryIsWellTyped(dentries[..], es);
    EntryIsThere(dentries[..], es, i);
    LookupIsThere(dentries[..], es, i);
    r := D.ReadDentryByName(dentries, num, name);
  }

  /** From the image to the bytes of a named file: fs_init, lookup and read_data deliver the
      blocks listed in the inode block the directory entry names. */
  method ReadNamedFile(mem: array<byte>, ghost img: I.Image, ghost es: seq<Entry>, ghost i: nat, name: seq<byte>,
                       buf: array<byte>, length: nat) returns (r: int)
    requires I.WellFormed(img) && mem[..] == I.Serialized(img) && Lists(img, es) && DistinctNames(es)
    requires i < |es| && name == es[i].name && Visible(es, i) && buf != mem
    requires |es[i].inode| == 4 && LittleEndian(es[i].inode) < |img.inodes|
    requires var n := LittleEndian(es[i].inode);
      && I.FileLength(img, n) / I.BLOCK < I.MAX_BLOCKS && I.BlocksInRange(img, n, 0)
      && FS.Min(I.FileLength(img, n), length) <= buf.Length
    modifies mem, buf
    ensures mem[..] == I.Serialized(img)
    ensures var n := LittleEndian(es[i].inode);
      r == FS.Min(I.FileLength(img, n), length) && buf[..r] == I.FileBytes(img, n, 0, r)
  {
    hide I.Serialized, I.WellFormed, I.BlocksInRange, I.FileLength, I.FileBytes, Loaded, Lists;
    var dentries, num := Load(mem, img, es);
    var d := FindByName(dentries, num, es, i, name);
    r := I.ReadFile(mem, img, d.value.inode, 0, buf, 0, length);
  }
}
