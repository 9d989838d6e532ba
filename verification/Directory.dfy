/**
 The directory: a table of 44-byte entries (32 name bytes, a 4-byte type, a 4-byte inode, 4
 more), where a full-length name has no terminator, so that string functions run on into the
 type field. Lookup by name, lookup by index and enumeration.
 */
module Directory {
  import opened Bytes
  import opened FileSystem
  import opened Strings

  const ENTRY: nat := 44
  const NAME: nat := 32

  datatype Option<T> = None | Some(value: T)

  datatype Dentry = Dentry(ftype: nat, inode: nat)

  /** Entries 0..num-1 are in memory and have types 0, 1 or 2. */
  predicate WellTyped(m: seq<byte>, num: nat) {
    && ENTRY * num <= |m|
    && forall i :: 0 <= i < num ==> EntryIsTyped(m, i)
  }

  predicate EntryIsTyped(m: seq<byte>, i: nat) {
    var a := ENTRY * i + NAME;
    a + 4 <= |m| && m[a] <= 2 && m[a + 1] == m[a + 2] == m[a + 3] == NUL
  }

  /** What strlen and strncmp see of entry `i`: its name and, if that fills all 32 bytes and
      the type is not 0, the type byte. */
  function EntryString(m: seq<byte>, i: nat): seq<byte> { CString(m, ENTRY * i) }

  /** The file name of entry `i`. */
  function Name(m: seq<byte>, i: nat): (s: seq<byte>)
    ensures |s| <= NAME
  {
    var e := EntryString(m, i);
    if |e| <= NAME then e else e[..NAME]
  }

  function DentryAt(m: seq<byte>, i: nat): Dentry
    requires ENTRY * i + ENTRY <= |m|
  {
    Dentry(Word(m, ENTRY * i + NAME), Word(m, ENTRY * i + NAME + 4))
  }

  lemma EntryIsShort(m: seq<byte>, num: nat, i: nat)
    requires WellTyped(m, num) && i < num
    ensures |EntryString(m, i)| <= NAME + 1
    ensures ENTRY * i + |EntryString(m, i)| < |m|
    ensures |EntryString(m, i)| == NAME + 1 ==> EntryString(m, i)[NAME] == m[ENTRY * i + NAME] != NUL
  {
    assert EntryIsTyped(m, i);
    StopsByNul(m, ENTRY * i, NAME + 1);
  }

  // ---------- Lookup by name ----------

  predicate Matches(m: seq<byte>, i: nat, fname: seq<byte>) {
    var e := EntryString(m, i);
    if |e| <= NAME then fname == e else fname <= e
  }

  /** The entry read_dentry_by_name settles on, scanning from `i`. */
  function Lookup(m: seq<byte>, num: nat, fname: seq<byte>, i: nat := 0): (r: Option<nat>)
    ensures r.Some? ==> i <= r.value < num
    decreases num - i
  {
    if i >= num || fname == [] then None
    else if Matches(m, i, fname) then
      if |fname| < NAME && |EntryString(m, i)| > NAME then None else Some(i)
    else Lookup(m, num, fname, i + 1)
  }

  lemma LookupAt(m: seq<byte>, num: nat, fname: seq<byte>, i: nat)
    requires i < num && fname != []
    ensures Lookup(m, num, fname, i) ==
      if !Matches(m, i, fname) then Lookup(m, num, fname, i + 1)
      else if |fname| < NAME && |EntryString(m, i)| > NAME then None else Some(i)
  {}

  lemma LookupEnds(m: seq<byte>, num: nat, fname: seq<byte>)
    ensures Lookup(m, num, fname, num) == None && (fname == [] ==> Lookup(m, num, fname) == None)
  {}

  /** The kernel's strncmp over the whole of `fname`. */
  method SameName(fname: seq<byte>, mem: array<byte>, a: nat) returns (same: bool)
    requires NUL !in fname && a + |CString(mem[..], a)| < mem.Length
    ensures same <==> fname <= CString(mem[..], a)
  {
    ghost var e := CString(mem[..], a);
    for i := 0 to |fname|
      invariant i <= |e| && fname[..i] == e[..i]
    {
      assert mem[a + i] == if i < |e| then e[i] else NUL;
      if fname[i] != mem[a + i] || fname[i] == NUL {
        return false;
      }
    }
    return true;
  }

  /** Writes a prefix of the string at `a` back over it. */
  method CopyBack(mem: array<byte>, a: nat, fname: seq<byte>)
    requires a + |CString(mem[..], a)| <= mem.Length && fname <= CString(mem[..], a)
    modifies mem
    ensures mem[..] == old(mem[..])
  {
    ghost var s := CString(mem[..], a);
    for j := 0 to |fname|
      invariant mem[..] == old(mem[..])
    {
      assert mem[..][a + j] == s[j] == fname[j];
      mem[a + j] := fname[j];
    }
  }

  /** read_dentry_by_name; the name it copies back over a matching entry is already there. */
  method ReadDentryByName(dir: array<byte>, num: nat, fname: seq<byte>) returns (r: Option<Dentry>)
    requires WellTyped(dir[..], num) && NUL !in fname
    modifies dir
    ensures dir[..] == old(dir[..])
    ensures r == match Lookup(dir[..], num, fname) case None => None case Some(i) => Some(DentryAt(dir[..], i))
  {
    hide Word, CString, Lookup;
    ghost var m := dir[..];
    LookupEnds(m, num, fname);
    for i := 0 to num
      invariant dir[..] == m && Lookup(m, num, fname) == Lookup(m, num, fname, i)
    {
      EntryIsShort(m, num, i);
      var length := Strlen(dir, ENTRY * i);
      if |fname| == 0 {
        return None;
      }
      LookupAt(m, num, fname, i);
      if length <= NAME && |fname| != length {
        continue;
      }
      var same := SameName(fname, dir, ENTRY * i);
      if same {
        if |fname| < NAME && length > NAME {
          return None;
        }
        CopyBack(dir, ENTRY * i, fname);
        var ftype := LoadWord(dir, ENTRY * i + NAME);
        var inode := LoadWord(dir, ENTRY * i + NAME + 4);
        return Some(Dentry(ftype, inode));
      }
    }
    return None;
  }

  /** A name of at most 32 bytes is only ever found as the full name of an entry. */
  lemma {:induction false} FoundNameIsExact(m: seq<byte>, num: nat, fname: seq<byte>, i: nat)
    requires WellTyped(m, num) && |fname| <= NAME && Lookup(m, num, fname, i).Some?
    ensures var k := Lookup(m, num, fname, i).value; i <= k < num && Name(m, k) == fname
    decreases num - i
  {
    if !Matches(m, i, fname) {
      FoundNameIsExact(m, num, fname, i + 1);
    }
  }

  /** Entry `j` stops the search for `fname`: a proper prefix of its unterminated name. */
  predicate Hides(m: seq<byte>, j: nat, fname: seq<byte>) {
    |EntryString(m, j)| > NAME && |fname| < NAME && fname <= Name(m, j)
  }

  predicate DistinctNames(m: seq<byte>, num: nat) {
    forall i, j :: 0 <= i < j < num ==> Name(m, i) != Name(m, j)
  }

  lemma MismatchOrHides(m: seq<byte>, i: nat, fname: seq<byte>)
    requires |fname| <= NAME && fname != Name(m, i)
    ensures Matches(m, i, fname) <==> Hides(m, i, fname)
    ensures Matches(m, i, fname) ==> |fname| < NAME && |EntryString(m, i)| > NAME
  {
    var e := EntryString(m, i);
    if |e| > NAME {
      assert fname <= e <==> fname <= e[..NAME];
    }
  }

  /** An existing name is found exactly when no earlier unterminated name hides it. */
  lemma {:induction false} LookupFindsUnlessHidden(m: seq<byte>, num: nat, k: nat, i: nat)
    requires WellTyped(m, num) && DistinctNames(m, num) && i <= k < num && Name(m, k) != []
    ensures Lookup(m, num, Name(m, k), i) == Some(k) <==> forall j :: i <= j < k ==> !Hides(m, j, Name(m, k))
    decreases k - i
  {
    var fname := Name(m, k);
    hide Lookup, Matches, Hides, Name, EntryString, WellTyped;
    LookupAt(m, num, fname, i);
    if i == k {
      OwnNameMatches(m, k);
    } else {
      MismatchOrHides(m, i, fname);
      if !Matches(m, i, fname) {
        LookupFindsUnlessHidden(m, num, k, i + 1);
      }
    }
  }

  lemma OwnNameMatches(m: seq<byte>, k: nat)
    ensures Matches(m, k, Name(m, k)) && (|Name(m, k)| == NAME || |EntryString(m, k)| <= NAME)
  {}

  /** Longer arguments never name a file, yet 33 bytes can succeed: a full name followed by its
      entry's type byte. */
  lemma {:induction false} LongNameLookup(m: seq<byte>, num: nat, fname: seq<byte>, i: nat)
    requires WellTyped(m, num) && |fname| > NAME && i <= num
    ensures Lookup(m, num, fname, i).Some?
       <==> exists k :: i <= k < num && EntryString(m, k) == fname
    ensures |fname| > NAME + 1 ==> Lookup(m, num, fname, i).None?
    decreases num - i
  {
    if i < num {
      EntryIsShort(m, num, i);
      LongNameLookup(m, num, fname, i + 1);
    }
  }

  /** Two files of type 2: thirty-two letters, then a single one. */
  const HIDING: seq<byte> :=
    seq(2 * ENTRY, i => if i < NAME || i == ENTRY then LETTER else if i % ENTRY == NAME then 2 else NUL)
  const LETTER: byte := 97

  /** There the second file cannot be opened, although the names differ, and the first is also
      found under a 33-byte name. */
  lemma {:induction false} FullNameHidesItsPrefix()
    ensures WellTyped(HIDING, 2) && DistinctNames(HIDING, 2)
    ensures Name(HIDING, 1) == [LETTER] && Lookup(HIDING, 2, [LETTER]) == None
    ensures Lookup(HIDING, 2, seq(NAME, _ => LETTER) + [2]) == Some(0)
  {
    var m, long := HIDING, seq(NAME, _ => LETTER) + [2];
    IsString(m, 0, long);
    IsString(m, ENTRY, [LETTER]);
    assert EntryString(m, 0) == long && EntryString(m, 1) == [LETTER];
    assert [LETTER] <= long && long != [];
    assert Matches(m, 0, [LETTER]) && Matches(m, 0, long);
    assert |Name(m, 0)| == NAME;
  }

  // ---------- Lookup by index and enumeration ----------

  /** read_dentry_by_index fills a dentry of its own; a full-length name spills its terminator
      into the type field, which is written afterwards. */
  method ReadDentryByIndex(dir: array<byte>, num: nat, index: nat, dentry: array<byte>) returns (ok: bool)
    requires WellTyped(dir[..], num) && dentry.Length == ENTRY && dentry != dir
    modifies dentry
    ensures ok <==> index < num
    ensures ok ==> CString(dentry[..], 0) == EntryString(dir[..], index)
    ensures ok ==> DentryAt(dentry[..], 0) == DentryAt(dir[..], index)
  {
    hide CString;
    if index >= num {
      return false;
    }
    ghost var e := EntryString(dir[..], index);
    EntryIsShort(dir[..], num, index);
    var n := Strlen(dir, ENTRY * index);
    for j := 0 to n
      invariant forall k :: 0 <= k < j ==> dentry[k] == e[k]
    {
      assert dir[..][ENTRY * index + j] == e[j];
      dentry[j] := dir[ENTRY * index + j];
    }
    dentry[n] := NUL;
    for j := NAME to NAME + 8
      invariant forall k :: 0 <= k < n && k < NAME ==> dentry[k] == e[k]
      invariant n < NAME ==> dentry[n] == NUL
      invariant forall k :: NAME <= k < j ==> dentry[k] == dir[ENTRY * index + k]
    {
      dentry[j] := dir[ENTRY * index + j];
    }
    FilledString(dentry[..], dir[..], num, index);
    return true;
  }

  lemma FilledString(d: seq<byte>, m: seq<byte>, num: nat, index: nat)
    requires WellTyped(m, num) && index < num && |d| == ENTRY
    requires var e := EntryString(m, index);
      && (forall k :: 0 <= k < |e| && k < NAME ==> d[k] == e[k])
      && (|e| < NAME ==> d[|e|] == NUL)
      && (forall k :: NAME <= k < NAME + 8 ==> d[k] == m[ENTRY * index + k])
    ensures CString(d, 0) == EntryString(m, index)
  {
    var e := EntryString(m, index);
    EntryIsShort(m, num, index);
    assert EntryIsTyped(m, index);
    assert |e| >= NAME ==> d[|e|] == m[ENTRY * index + |e|] == NUL;
    IsString(d, 0, e);
  }

  /** A directory descriptor. */
  class OpenDirectory {
    var position: nat

    constructor ()
      ensures position == 0
    {
      position := 0;
    }

    /** direct_read: at most `nbytes` bytes of the next entry's string; 0 past the end. */
    method DirectRead(dir: array<byte>, num: nat, buf: array<byte>, nbytes: nat) returns (r: nat)
      requires WellTyped(dir[..], num) && buf != dir && nbytes <= buf.Length
      modifies this, buf
      ensures dir[..] == old(dir[..])
      ensures var p := old(position);
        if p < num && nbytes != 0 then
          && r == Min(nbytes, |EntryString(dir[..], p)|) && position == p + 1
          && buf[..] == EntryString(dir[..], p)[..r] + old(buf[r..])
        else r == 0 && position == p && buf[..] == old(buf[..])
    {
      hide Word, CString;
      var dentry := new byte[ENTRY];
      var ok := ReadDentryByIndex(dir, num, position, dentry);
      if !ok || nbytes == 0 {
        return 0;
      }
      ghost var e := EntryString(dir[..], position);
      EntryIsShort(dir[..], num, position);
      var n := Strlen(dentry, 0);
      r := Min(nbytes, n);
      for i := 0 to r
        invariant forall k :: 0 <= k < i ==> buf[k] == e[k]
        invariant forall k :: i <= k < buf.Length ==> buf[k] == old(buf[k])
        modifies buf
      {
        assert dentry[..][i] == e[i];
        buf[i] := dentry[i];
      }
      position := position + 1;
    }
  }

  /** ls: 32-byte reads list every name once, in order, when no name is empty. */
  method List(dir: array<byte>, num: nat, buf: array<byte>) returns (names: seq<seq<byte>>)
    requires WellTyped(dir[..], num) && buf != dir && buf.Length >= NAME
    requires forall i :: 0 <= i < num ==> Name(dir[..], i) != []
    modifies buf
    ensures dir[..] == old(dir[..])
    ensures |names| == num && forall i :: 0 <= i < num ==> names[i] == Name(dir[..], i)
  {
    var fd := new OpenDirectory();
    names := [];
    while true
      invariant dir[..] == old(dir[..]) && fd.position == |names| <= num
      invariant forall i :: 0 <= i < |names| ==> names[i] == Name(dir[..], i)
      decreases num - |names|
    {
      assert |names| < num ==> Name(dir[..], |names|) != [];
      var cnt := fd.DirectRead(dir, num, buf, NAME);
      if cnt == 0 {
        break;
      }
      names := names + [buf[..cnt]];
    }
  }

  /** A listed name opens its own file, unless an earlier unterminated name hides it. */
  lemma ListedNameLooksUpItself(m: seq<byte>, num: nat, k: nat)
    requires WellTyped(m, num) && DistinctNames(m, num) && k < num && Name(m, k) != []
    ensures Lookup(m, num, Name(m, k)) == Some(k) <==> forall j :: 0 <= j < k ==> !Hides(m, j, Name(m, k))
  {
    LookupFindsUnlessHidden(m, num, k, 0);
  }
}
