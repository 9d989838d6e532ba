/**
 The file descriptor table of a process: descriptors 0 and 1 are the keyboard and the screen,
 2..7 are opened and closed, and every call goes through a jump table in which the two
 standard ones have holes.
 */
module FdTable {
  import opened Bytes
  import opened Directory

  const TOTAL: nat := 8
  const FIRST: nat := 2
  const NO_POSITION: nat := 0xFFFF_FFFF

  datatype Table = NoTable | Stdin | Stdout | Rtc | DirectoryTable | FileTable

  datatype Call = OpenCall | ReadCall | WriteCall | CloseCall

  /** Whether the jump table's entry for a call is a function. */
  predicate HasEntry(table: Table, call: Call) {
    match table
    case NoTable => false
    case Stdin => call.ReadCall?
    case Stdout => call.WriteCall?
    case _ => true
  }

  datatype Fd = Fd(table: Table, inode: nat, position: nat, flags: nat)

  const UNUSED: Fd := Fd(NoTable, 0, NO_POSITION, 0)

  predicate InUse(fd: Fd) {
    fd.flags == 1 && (fd.table == Rtc || fd.table == DirectoryTable || fd.table == FileTable)
  }

  /** The descriptor an open of this entry installs. */
  function Opened(d: Dentry): Fd {
    if d.ftype == 0 then Fd(Rtc, 0, NO_POSITION, 1)
    else if d.ftype == 1 then Fd(DirectoryTable, 0, 0, 1)
    else Fd(FileTable, d.inode, 0, 1)
  }

  /** The first descriptor at or above `i` that is not in use. */
  function LeastFree(fds: seq<Fd>, i: nat): (r: nat)
    requires i <= |fds|
    ensures i <= r <= |fds| && (r < |fds| ==> fds[r].flags == 0)
    ensures forall k :: i <= k < r ==> fds[k].flags != 0
    decreases |fds| - i
  {
    if i == |fds| || fds[i].flags == 0 then i else LeastFree(fds, i + 1)
  }

  /** `fd` stands for the file of entry `d`: its jump table, for a regular file its inode, and
      the start of the file or directory as position. */
  predicate StandsFor(fd: Fd, d: Dentry) {
    && fd.flags == 1
    && (d.ftype == 0 ==> fd.table == Rtc)
    && (d.ftype == 1 ==> fd.table == DirectoryTable && fd.position == 0)
    && (d.ftype == 2 ==> fd.table == FileTable && fd.inode == d.inode && fd.position == 0)
  }

  /** The result of a dispatched call: an error, or the table it went through. */
  datatype Dispatch = Refused | Called(table: Table)

  // ---------- The table as a value ----------

  /** An operation of a process on its table. */
  datatype Request =
    | OpenReq(fname: seq<byte>)
    | CloseReq(fd: int)
    | ReadReq(fd: int, bufIsNull: bool, position: nat)    // the position the called entry leaves
    | WriteReq(fd: int, bufIsNull: bool)

  /** What a request comes to: a value returned at once, or a call for descriptor `fd` through
      an entry of a jump table. */
  datatype Reply = Returned(value: int) | Through(fd: int, table: Table, call: Call)

  const STDIN: Fd := Fd(Stdin, 0, NO_POSITION, 1)
  const STDOUT: Fd := Fd(Stdout, 0, NO_POSITION, 1)

  /** Standard descriptors in place; every other one is unused or has a complete table. */
  predicate Sound(fds: seq<Fd>) {
    && |fds| == TOTAL && fds[0] == STDIN && fds[1] == STDOUT
    && forall i :: FIRST <= i < TOTAL ==> fds[i] == UNUSED || InUse(fds[i])
  }

  /** The table of a new process. */
  const NEW_TABLE: seq<Fd> := [STDIN, STDOUT, UNUSED, UNUSED, UNUSED, UNUSED, UNUSED, UNUSED]

  /** A descriptor after a read through its table: files and directories move their position. */
  function Moved(fd: Fd, position: nat): Fd {
    if fd.table == FileTable || fd.table == DirectoryTable then fd.(position := position) else fd
  }

  function Answer(fds: seq<Fd>, m: seq<byte>, num: nat, req: Request): (r: (seq<Fd>, Reply))
    requires Sound(fds) && WellTyped(m, num)
    ensures Sound(r.0)
  {
    match req
    case OpenReq(fname) =>
      var hit, free := Lookup(m, num, fname), LeastFree(fds, 0);
      if hit.None? || free == TOTAL then (fds, Returned(-1))
      else
        FoundTypeIsSmall(m, num, hit.value);
        var file := Opened(DentryAt(m, hit.value));
        (fds[free := file], Through(free, file.table, OpenCall))
    case CloseReq(fd) =>
      if FIRST <= fd < TOTAL && fds[fd].flags != 0 then (fds[fd := UNUSED], Returned(0))
      else (fds, Returned(-1))
    case ReadReq(fd, noBuf, position) =>
      if noBuf || fd < 0 || fd >= TOTAL || fd == 1 || fds[fd].flags == 0 then (fds, Returned(-1))
      else (fds[fd := Moved(fds[fd], position)], Through(fd, fds[fd].table, ReadCall))
    case WriteReq(fd, noBuf) =>
      if noBuf || fd <= 0 || fd >= TOTAL || fds[fd].flags == 0 then (fds, Returned(-1))
      else (fds, Through(fd, fds[fd].table, WriteCall))
  }

  /** The table after a sequence of requests, and the replies along the way. */
  function AnswerAll(fds: seq<Fd>, m: seq<byte>, num: nat, reqs: seq<Request>): (r: (seq<Fd>, seq<Reply>))
    requires Sound(fds) && WellTyped(m, num)
    ensures Sound(r.0) && |r.1| == |reqs|
    decreases |reqs|
  {
    if reqs == [] then (fds, [])
    else
      var before := AnswerAll(fds, m, num, reqs[..|reqs| - 1]);
      var last := Answer(before.0, m, num, reqs[|reqs| - 1]);
      (last.0, before.1 + [last.1])
  }

  /** What a reply should be, the table being `fds` when the request is made. */
  ghost predicate Proper(fds: seq<Fd>, m: seq<byte>, num: nat, req: Request, reply: Reply)
    requires Sound(fds)
  {
    match req
    case OpenReq(fname) =>
      if Lookup(m, num, fname).Some? && (exists j :: FIRST <= j < TOTAL && fds[j] == UNUSED)
      then
        && reply.Through? && FIRST <= reply.fd < TOTAL && fds[reply.fd] == UNUSED
        && (forall j :: FIRST <= j < reply.fd ==> InUse(fds[j]))
        && reply.call == OpenCall && HasEntry(reply.table, OpenCall)
      else reply == Returned(-1)
    case CloseReq(fd) =>
      reply == Returned(if FIRST <= fd < TOTAL && InUse(fds[fd]) then 0 else -1)
    case ReadReq(fd, noBuf, _) =>
      if !noBuf && (fd == 0 || (FIRST <= fd < TOTAL && InUse(fds[fd])))
      then reply == Through(fd, fds[fd].table, ReadCall) && HasEntry(fds[fd].table, ReadCall)
      else reply == Returned(-1)
    case WriteReq(fd, noBuf) =>
      if !noBuf && (fd == 1 || (FIRST <= fd < TOTAL && InUse(fds[fd])))
      then reply == Through(fd, fds[fd].table, WriteCall) && HasEntry(fds[fd].table, WriteCall)
      else reply == Returned(-1)
  }

  lemma {:induction false} AnswerIsProper(fds: seq<Fd>, m: seq<byte>, num: nat, req: Request)
    requires Sound(fds) && WellTyped(m, num)
    ensures Proper(fds, m, num, req, Answer(fds, m, num, req).1)
  {
    if req.OpenReq? {
      var free := LeastFree(fds, 0);
      assert free >= FIRST;
      if free == TOTAL {
        assert forall j :: FIRST <= j < TOTAL ==> fds[j] != UNUSED;
      } else {
        assert fds[free] == UNUSED;
      }
      var hit := Lookup(m, num, req.fname);
      if hit.Some? {
        FoundTypeIsSmall(m, num, hit.value);
      }
    }
  }

  lemma {:induction false} AnswerPrefix(fds: seq<Fd>, m: seq<byte>, num: nat, reqs: seq<Request>, k: nat)
    requires Sound(fds) && WellTyped(m, num) && k < |reqs|
    ensures AnswerAll(fds, m, num, reqs).1[k] == Answer(AnswerAll(fds, m, num, reqs[..k]).0, m, num, reqs[k]).1
    decreases |reqs|
  {
    var init := reqs[..|reqs| - 1];
    if k < |init| {
      AnswerPrefix(fds, m, num, init, k);
      assert init[..k] == reqs[..k];
    }
  }

  /** Whatever a process asks of its table, in any order: the standard descriptors stay, every
      open takes the least free descriptor of 2..7 and fails exactly when the name is absent or
      none is free, and every entry called is a function. */
  lemma {:induction false} EveryReplyIsProper(m: seq<byte>, num: nat, reqs: seq<Request>, k: nat)
    requires WellTyped(m, num) && k < |reqs|
    ensures
      var before := AnswerAll(NEW_TABLE, m, num, reqs[..k]).0;
      var reply := AnswerAll(NEW_TABLE, m, num, reqs).1[k];
      && before[0] == STDIN && before[1] == STDOUT
      && Proper(before, m, num, reqs[k], reply)
      && (reply.Through? ==> HasEntry(reply.table, reply.call))
  {
    var before := AnswerAll(NEW_TABLE, m, num, reqs[..k]).0;
    AnswerPrefix(NEW_TABLE, m, num, reqs, k);
    AnswerIsProper(before, m, num, reqs[k]);
  }

  /** The same open file, at whatever position. */
  predicate SameFile(a: Fd, b: Fd) { a.table == b.table && a.inode == b.inode && a.flags == b.flags }

  /** A descriptor in use keeps its file until it is closed, whatever else is opened, closed,
      read and written. */
  lemma {:induction false} OpenFileStays(fds: seq<Fd>, m: seq<byte>, num: nat, reqs: seq<Request>, fd: nat)
    requires Sound(fds) && WellTyped(m, num) && fd < TOTAL && fds[fd].flags != 0
    requires CloseReq(fd) !in reqs || fd < FIRST
    ensures SameFile(AnswerAll(fds, m, num, reqs).0[fd], fds[fd])
    decreases |reqs|
  {
    if reqs != [] {
      var init := reqs[..|reqs| - 1];
      assert forall r :: r in init ==> r in reqs;
      OpenFileStays(fds, m, num, init, fd);
      assert reqs[|reqs| - 1] in reqs;
    }
  }

  /** A successful open changes one descriptor, which then stands for the entry the name looks
      up to; until it is closed it has that entry's inode, and reads and writes of it go through
      the table for the file's type. */
  lemma {:induction false} OpenedFileIsRead(fds: seq<Fd>, m: seq<byte>, num: nat, fname: seq<byte>,
                                            reqs: seq<Request>)
    requires Sound(fds) && WellTyped(m, num)
    requires Answer(fds, m, num, OpenReq(fname)).1.Through?
    requires CloseReq(Answer(fds, m, num, OpenReq(fname)).1.fd) !in reqs
    ensures Lookup(m, num, fname).Some?
    ensures
      var file := Answer(fds, m, num, OpenReq(fname));
      var fd, table := file.1.fd, file.1.table;
      var later := AnswerAll(file.0, m, num, reqs).0;
      var entry := DentryAt(m, Lookup(m, num, fname).value);
      && FIRST <= fd < TOTAL && fds[fd] == UNUSED && StandsFor(file.0[fd], entry)
      && (forall k :: 0 <= k < TOTAL && k != fd ==> file.0[k] == fds[k])
      && table == (match entry.ftype case 0 => Rtc case 1 => DirectoryTable case _ => FileTable)
      && (entry.ftype == 2 ==> later[fd].inode == entry.inode)
      && (forall pos :: Answer(later, m, num, ReadReq(fd, false, pos)).1 == Through(fd, table, ReadCall))
      && Answer(later, m, num, WriteReq(fd, false)).1 == Through(fd, table, WriteCall)
  {
    var file := Answer(fds, m, num, OpenReq(fname));
    AnswerIsProper(fds, m, num, OpenReq(fname));
    FoundTypeIsSmall(m, num, Lookup(m, num, fname).value);
    OpenFileStays(file.0, m, num, reqs, file.1.fd);
  }

  /** A close frees the descriptor for the next open and touches no other. */
  lemma {:induction false} ClosedIsUnused(fds: seq<Fd>, m: seq<byte>, num: nat, fd: nat)
    requires Sound(fds) && WellTyped(m, num) && FIRST <= fd < TOTAL && InUse(fds[fd])
    ensures var later := Answer(fds, m, num, CloseReq(fd)).0;
      later[fd] == UNUSED && forall k :: 0 <= k < TOTAL && k != fd ==> later[k] == fds[k]
  {}

  class Process {
    const fds: array<Fd>

    ghost predicate Valid()
      reads fds
    {
      Sound(fds[..])
    }

    /** c_pcb */
    constructor ()
      ensures Valid() && fresh(fds) && fds[..] == NEW_TABLE
    {
      fds := new Fd[TOTAL](_ => UNUSED);
      new;
      fds[0] := STDIN;
      fds[1] := STDOUT;
      for i := FIRST to TOTAL
        invariant fds[0] == STDIN && fds[1] == STDOUT
        invariant forall k :: FIRST <= k < TOTAL ==> fds[k] == UNUSED
        modifies fds
      {
        fds[i] := UNUSED;
      }
    }

    /** c_open over FD_Populate: fails exactly when the name is not found or no descriptor is
        free; otherwise the least free one in 2..7 is set up for the file's type, through a
        table whose open entry exists. */
    method Open(dir: array<byte>, num: nat, fname: seq<byte>) returns (fd: int)
      requires Valid() && WellTyped(dir[..], num) && NUL !in fname
      modifies fds, dir
      ensures Valid() && dir[..] == old(dir[..])
      ensures var hit, free := Lookup(dir[..], num, fname), LeastFree(old(fds[..]), 0);
        if hit.None? || free == TOTAL then fd == -1 && fds[..] == old(fds[..])
        else fd == free >= FIRST && fds[..] == old(fds[..])[free := Opened(DentryAt(dir[..], hit.value))]
             && HasEntry(fds[fd].table, OpenCall) && StandsFor(fds[fd], DentryAt(dir[..], hit.value))
    {
      hide Lookup, WellTyped;
      var found := ReadDentryByName(dir, num, fname);
      var i := 0;
      while i < TOTAL && fds[i].flags != 0
        invariant i <= TOTAL && LeastFree(fds[..], 0) == LeastFree(fds[..], i)
        invariant i >= 2 || LeastFree(fds[..], 0) >= 2
      {
        i := i + 1;
      }
      if i > 7 || found.None? {
        return -1;
      }
      if found.value.ftype == 0 {
        fds[i] := Fd(Rtc, 0, NO_POSITION, 1);
      } else if found.value.ftype == 1 {
        fds[i] := Fd(DirectoryTable, 0, 0, 1);
      } else if found.value.ftype == 2 {
        fds[i] := Fd(FileTable, found.value.inode, 0, 1);
      }
      FoundTypeIsSmall(dir[..], num, Lookup(dir[..], num, fname).value);
      return i;
    }

    /** c_close */
    method Close(fd: int) returns (r: int)
      requires Valid()
      modifies fds
      ensures Valid()
      ensures if FIRST <= fd < TOTAL && old(fds[..])[fd].flags != 0
              then r == 0 && fds[..] == old(fds[..])[fd := UNUSED]
              else r == -1 && fds[..] == old(fds[..])
    {
      if fd < FIRST || fd > 7 || fds[fd].flags == 0 {
        return -1;
      }
      fds[fd] := UNUSED;
      return 0;
    }

    /** c_read up to the call through the table: never through an empty entry. */
    method Read(fd: int, bufIsNull: bool) returns (d: Dispatch)
      requires Valid()
      ensures d.Refused? <==> bufIsNull || fd < 0 || fd >= TOTAL || fd == 1 || fds[fd].flags == 0
      ensures d.Called? ==> HasEntry(d.table, ReadCall) && d.table == fds[fd].table
    {
      if fd > 7 || fd < 0 || bufIsNull || fds[fd].flags == 0 || fd == 1 {
        return Refused;
      }
      return Called(fds[fd].table);
    }

    /** c_write up to the call through the table. */
    method Write(fd: int, bufIsNull: bool) returns (d: Dispatch)
      requires Valid()
      ensures d.Refused? <==> bufIsNull || fd <= 0 || fd >= TOTAL || fds[fd].flags == 0
      ensures d.Called? ==> HasEntry(d.table, WriteCall) && d.table == fds[fd].table
    {
      if fd > 7 || fd <= 0 || bufIsNull || fds[fd].flags == 0 {
        return Refused;
      }
      return Called(fds[fd].table);
    }

    /** halt's loop over the open descriptors: which it closes, in order, and through which
        tables, whose close entries exist. */
    method CloseOpenOnes() returns (closed: seq<nat>, calls: seq<Table>)
      requires Valid()
      ensures forall i :: FIRST <= i < TOTAL ==> (i in closed <==> fds[i].flags == 1)
      ensures forall k :: 0 <= k < |closed| ==> FIRST <= closed[k] < TOTAL
      ensures forall j, k :: 0 <= j < k < |closed| ==> closed[j] < closed[k]
      ensures |calls| == |closed| && forall k :: 0 <= k < |calls| ==>
        calls[k] == fds[closed[k]].table && HasEntry(calls[k], CloseCall)
    {
      closed, calls := [], [];
      for i := FIRST to TOTAL
        invariant forall j :: FIRST <= j < i ==> (j in closed <==> fds[j].flags == 1)
        invariant forall k :: 0 <= k < |closed| ==> FIRST <= closed[k] < i
        invariant forall j, k :: 0 <= j < k < |closed| ==> closed[j] < closed[k]
        invariant |calls| == |closed| && forall k :: 0 <= k < |calls| ==>
          calls[k] == fds[closed[k]].table && HasEntry(calls[k], CloseCall)
      {
        assert i !in closed;
        if fds[i].flags == 1 {
          closed, calls := closed + [i], calls + [fds[i].table];
        }
      }
    }

    /** The class takes the steps of the value, for every sequence of requests. */
    method Serve(dir: array<byte>, num: nat, requests: seq<Request>) returns (replies: seq<Reply>)
      requires Valid() && WellTyped(dir[..], num)
      requires forall k :: 0 <= k < |requests| && requests[k].OpenReq? ==> NUL !in requests[k].fname
      modifies fds, dir
      ensures Valid() && dir[..] == old(dir[..])
      ensures (fds[..], replies) == AnswerAll(old(fds[..]), dir[..], num, requests)
    {
      hide Lookup, WellTyped, LeastFree;
      replies := [];
      for k := 0 to |requests|
        invariant Valid() && dir[..] == old(dir[..])
        invariant (fds[..], replies) == AnswerAll(old(fds[..]), dir[..], num, requests[..k])
      {
        assert requests[..k + 1][..k] == requests[..k];
        var reply := AnswerOne(dir, num, requests[k]);
        replies := replies + [reply];
      }
      assert requests[..|requests|] == requests;
    }

    method AnswerOne(dir: array<byte>, num: nat, req: Request) returns (reply: Reply)
      requires Valid() && WellTyped(dir[..], num) && (req.OpenReq? ==> NUL !in req.fname)
      modifies fds, dir
      ensures Valid() && dir[..] == old(dir[..])
      ensures (fds[..], reply) == Answer(old(fds[..]), dir[..], num, req)
    {
      hide Lookup, WellTyped, LeastFree;
      match req
      case OpenReq(fname) =>
        var fd := Open(dir, num, fname);
        if fd == -1 {
          return Returned(-1);
        }
        return Through(fd, fds[fd].table, OpenCall);
      case CloseReq(fd) =>
        var r := Close(fd);
        return Returned(r);
      case ReadReq(fd, noBuf, position) =>
        var d := Read(fd, noBuf);
        if d.Refused? {
          return Returned(-1);
        }
        fds[fd] := Moved(fds[fd], position);
        return Through(fd, d.table, ReadCall);
      case WriteReq(fd, noBuf) =>
        var d := Write(fd, noBuf);
        return if d.Called? then Through(fd, d.table, WriteCall) else Returned(-1);
    }
  }

  /** With types 0..2 in the directory, one of the three cases of an open applies. */
  lemma FoundTypeIsSmall(m: seq<byte>, num: nat, i: nat)
    requires WellTyped(m, num) && i < num
    ensures DentryAt(m, i).ftype <= 2
  {
    assert EntryIsTyped(m, i);
  }
}
