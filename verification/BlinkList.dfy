/**
 The fish program's blink list: elements live in a fixed array of 2000 slots, a slot being
 free when its location is 0, and are chained through slot links. Add, remove, find, sync and
 the timer tasklet.
 */
module BlinkElements {
  import opened Bytes
  import opened BlinkTiming
  import opened BlinkRuns

  const NULL: int := -1

  datatype Slot = Slot(data: Blink, next: int)

  // ---------- The chain ----------

  /** The i-th link target of a chain: the i-th slot, NULL after the last. */
  function Target(list: seq<int>, i: nat): int { if i < |list| then list[i] else NULL }

  ghost predicate Distinct(list: seq<int>) {
    forall i, j :: 0 <= i < j < |list| ==> list[i] != list[j]
  }

  /** `list` is the chain from `head`: acyclic, linked in order, and made of exactly the slots
      whose location is not 0. */
  ghost predicate Chained(slots: seq<Slot>, head: int, list: seq<int>) {
    && |slots| == SLOTS && Distinct(list) && head == Target(list, 0)
    && (forall i :: 0 <= i < |list| ==> 0 <= list[i] < SLOTS)
    && (forall i :: 0 <= i < |list| ==> LinkHolds(slots, list, i))
    && (forall s :: 0 <= s < SLOTS ==> (s in list <==> slots[s].data.location != 0))
    && (forall s :: 0 <= s < SLOTS ==> slots[s].data.location < 2000)
  }

  predicate LinkHolds(slots: seq<Slot>, list: seq<int>, i: int)
    requires 0 <= i < |list| && 0 <= list[i] < |slots|
  {
    slots[list[i]].next == Target(list, i + 1)
  }

  /** The elements in chain order. */
  function Elements(slots: seq<Slot>, list: seq<int>): (c: seq<Blink>)
    requires forall i :: 0 <= i < |list| ==> 0 <= list[i] < |slots|
    ensures |c| == |list|
  {
    seq(|list|, i requires 0 <= i < |list| => slots[list[i]].data)
  }

  function Range(n: nat): (r: set<int>)
    ensures |r| == n && forall s :: s in r <==> 0 <= s < n
  {
    if n == 0 then {} else Range(n - 1) + {n - 1}
  }

  /** A chain of distinct slots is full exactly when every slot is on it. */
  lemma {:induction false} FullWhenAllUsed(list: seq<int>, n: nat)
    requires Distinct(list) && forall i :: 0 <= i < |list| ==> 0 <= list[i] < n
    ensures |list| <= n && (|list| == n <==> forall s :: 0 <= s < n ==> s in list)
  {
    var used := set i | 0 <= i < |list| :: list[i];
    ImageSize(list);
    assert forall s :: s in used <==> s in list;
    assert used <= Range(n);
    SubsetSize(used, Range(n));
  }

  lemma {:induction false} ImageSize(list: seq<int>)
    requires Distinct(list)
    ensures |set i | 0 <= i < |list| :: list[i]| == |list|
  {
    if list != [] {
      var n := |list| - 1;
      var rest := list[..n];
      ImageSize(rest);
      var a, b := set i | 0 <= i < |list| :: list[i], set i | 0 <= i < |rest| :: rest[i];
      forall x | x in a ensures x in b + {list[n]} {
        var i :| 0 <= i < |list| && list[i] == x;
        if i < n { assert rest[i] == x; }
      }
      forall x | x in b ensures x in a {
        var i :| 0 <= i < |rest| && rest[i] == x;
        assert list[i] == x;
      }
      assert a == b + {list[n]};
    }
  }

  lemma {:induction false} SubsetSize<T>(a: set<T>, b: set<T>)
    requires a <= b
    ensures |a| <= |b| && (|a| == |b| <==> a == b)
  {
    assert b == a + (b - a);
  }

  lemma PushedLinks(slots: seq<Slot>, head: int, list: seq<int>, s: int, b: Blink)
    requires Chained(slots, head, list) && 0 <= s < SLOTS && s !in list
    ensures var slots', list' := slots[s := Slot(b, head)], [s] + list;
      && (forall i :: 0 <= i < |list'| ==> 0 <= list'[i] < SLOTS && LinkHolds(slots', list', i))
      && Elements(slots', list') == [b] + Elements(slots, list)
  {
    hide Distinct;
    var slots', list' := slots[s := Slot(b, head)], [s] + list;
    forall i | 0 <= i < |list'|
      ensures 0 <= list'[i] < SLOTS && LinkHolds(slots', list', i)
      ensures slots'[list'[i]].data == if i == 0 then b else slots[list[i - 1]].data
    {
      if i > 0 { assert list'[i] == list[i - 1] && LinkHolds(slots, list, i - 1); }
    }
  }

  /** Putting a free slot in front. */
  lemma PushChained(slots: seq<Slot>, head: int, list: seq<int>, s: int, b: Blink)
    requires Chained(slots, head, list) && 0 <= s < SLOTS && s !in list && 0 < b.location < 2000
    ensures Chained(slots[s := Slot(b, head)], s, [s] + list)
    ensures Elements(slots[s := Slot(b, head)], [s] + list) == [b] + Elements(slots, list)
  {
    hide LinkHolds, Elements;
    PushedLinks(slots, head, list, s, b);
    assert forall i :: 0 <= i < |list| ==> ([s] + list)[i + 1] == list[i];
  }

  function Without(list: seq<int>, i: nat): (r: seq<int>)
    requires i < |list|
    ensures |r| == |list| - 1
    ensures forall k :: 0 <= k < |r| ==> r[k] == list[if k < i then k else k + 1]
  {
    list[..i] + list[i + 1..]
  }

  lemma WithoutKeepsRest(list: seq<int>, i: nat)
    requires Distinct(list) && i < |list|
    ensures Distinct(Without(list, i))
    ensures forall s :: s in Without(list, i) <==> s in list && s != list[i]
  {
    var r := Without(list, i);
    forall s | s in list && s != list[i] ensures s in r {
      var k :| 0 <= k < |list| && list[k] == s;
      assert r[if k < i then k else k - 1] == s;
    }
    forall s | s in r ensures s in list && s != list[i] {
      var k :| 0 <= k < |r| && r[k] == s;
    }
  }

  /** The slots after the i-th one has been skipped and zeroed. */
  function Unlinked(slots: seq<Slot>, list: seq<int>, i: nat): (r: seq<Slot>)
    requires i < |list| && forall k :: 0 <= k < |list| ==> 0 <= list[k] < |slots|
    ensures |r| == |slots|
  {
    var linked := if i == 0 then slots else slots[list[i - 1] := slots[list[i - 1]].(next := Target(list, i + 1))];
    linked[list[i] := Zero()]
  }

  lemma UnlinkedSlot(slots: seq<Slot>, list: seq<int>, i: nat, k: nat)
    requires i < |list| && k < |list| && k != i && Distinct(list)
    requires forall j :: 0 <= j < |list| ==> 0 <= list[j] < |slots|
    ensures var s := Unlinked(slots, list, i)[list[k]];
      s.data == slots[list[k]].data && s.next == if k + 1 == i then Target(list, i + 1) else slots[list[k]].next
  {
    assert list[k] != list[i];
    if i > 0 && k != i - 1 { assert list[k] != list[i - 1]; }
  }

  lemma UnlinkedLink(slots: seq<Slot>, list: seq<int>, i: nat, k: nat)
    requires i < |list| && k < |list| - 1 && Distinct(list)
    requires forall j :: 0 <= j < |list| ==> 0 <= list[j] < |slots|
    requires forall j :: 0 <= j < |list| ==> LinkHolds(slots, list, j)
    ensures LinkHolds(Unlinked(slots, list, i), Without(list, i), k)
    ensures Unlinked(slots, list, i)[Without(list, i)[k]].data == slots[list[if k < i then k else k + 1]].data
  {
    hide Unlinked;
    var k' := if k < i then k else k + 1;
    UnlinkedSlot(slots, list, i, k');
    assert LinkHolds(slots, list, k');
  }

  lemma UnlinkedLinks(slots: seq<Slot>, list: seq<int>, i: nat)
    requires i < |list| && Distinct(list)
    requires forall j :: 0 <= j < |list| ==> 0 <= list[j] < |slots|
    requires forall j :: 0 <= j < |list| ==> LinkHolds(slots, list, j)
    ensures forall k :: 0 <= k < |list| - 1 ==> LinkHolds(Unlinked(slots, list, i), Without(list, i), k)
    ensures Elements(Unlinked(slots, list, i), Without(list, i))
         == Elements(slots, list)[..i] + Elements(slots, list)[i + 1..]
  {
    hide Unlinked, Distinct;
    forall k | 0 <= k < |list| - 1
      ensures LinkHolds(Unlinked(slots, list, i), Without(list, i), k)
      ensures Unlinked(slots, list, i)[Without(list, i)[k]].data == slots[list[if k < i then k else k + 1]].data
    {
      UnlinkedLink(slots, list, i, k);
    }
  }

  /** Taking the i-th slot out: its predecessor (or the head) skips it, the slot is zeroed. */
  lemma UnlinkChained(slots: seq<Slot>, head: int, list: seq<int>, i: nat)
    requires Chained(slots, head, list) && i < |list|
    ensures Chained(Unlinked(slots, list, i), if i == 0 then Target(list, 1) else head, Without(list, i))
    ensures Elements(Unlinked(slots, list, i), Without(list, i))
         == Elements(slots, list)[..i] + Elements(slots, list)[i + 1..]
  {
    hide Unlinked, Distinct, LinkHolds, Elements;
    WithoutKeepsRest(list, i);
    UnlinkedLinks(slots, list, i);
    UnlinkedLocations(slots, list, i);
  }

  lemma UnlinkedLocations(slots: seq<Slot>, list: seq<int>, i: nat)
    requires i < |list| && forall j :: 0 <= j < |list| ==> 0 <= list[j] < |slots|
    ensures forall s :: 0 <= s < |slots| ==>
      Unlinked(slots, list, i)[s].data.location == if s == list[i] then 0 else slots[s].data.location
  {}

  function Zero(): Slot { Slot(Blink(0, 0, 0, 0, 0, 0, 0), NULL) }

  /** Changing an element without moving it. */
  lemma UpdateChained(slots: seq<Slot>, head: int, list: seq<int>, i: nat, b: Blink)
    requires Chained(slots, head, list) && i < |list| && b.location == slots[list[i]].data.location
    ensures var slots' := slots[list[i] := slots[list[i]].(data := b)];
      Chained(slots', head, list) && Elements(slots', list) == Elements(slots, list)[i := b]
  {
    var slots' := slots[list[i] := slots[list[i]].(data := b)];
    forall k | 0 <= k < |list| ensures LinkHolds(slots', list, k) {
      assert LinkHolds(slots, list, k);
    }
    assert Elements(slots', list) == Elements(slots, list)[i := b];
  }

  // ---------- The program ----------

  class BlinkList {
    const slots: array<Slot>
    const vmem: array<byte>
    var head: int
    ghost var list: seq<int>

    ghost predicate Valid()
      reads this, slots
    {
      Chained(slots[..], head, list) && vmem.Length >= 2 * SLOTS
    }

    ghost function Contents(): (c: seq<Blink>)
      reads this, slots
      requires Valid()
    {
      Elements(slots[..], list)
    }

    constructor (vmem: array<byte>)
      requires vmem.Length >= 2 * SLOTS
      ensures Valid() && Contents() == [] && fresh(slots) && this.vmem == vmem
    {
      this.vmem := vmem;
      slots := new Slot[SLOTS](_ => Zero());
      head := NULL;
      list := [];
    }

    /** mp1_malloc: the first slot whose location is 0. */
    method Malloc() returns (s: int)
      requires slots.Length == SLOTS
      ensures s == NULL ==> forall k :: 0 <= k < SLOTS ==> slots[k].data.location != 0
      ensures s != NULL ==> 0 <= s < SLOTS && slots[s].data.location == 0
      ensures s != NULL ==> forall k :: 0 <= k < s ==> slots[k].data.location != 0
    {
      for i := 0 to SLOTS
        invariant forall k :: 0 <= k < i ==> slots[k].data.location != 0
      {
        if slots[i].data.location == 0 {
          return i;
        }
      }
      return NULL;
    }

    /** mp1_ioctl_add, as the assembly does it, on any slots. */
    method AddRaw(b: Blink) returns (r: int)
      requires slots.Length == SLOTS && vmem.Length >= 2 * SLOTS
      modifies this, slots, vmem
      ensures r == 0 || r == -1
      ensures r == -1 ==> slots[..] == old(slots[..]) && head == old(head) && list == old(list)
      ensures r == -1 ==> vmem[..] == old(vmem[..])
      ensures r == -1 <==> b.location >= 2000 || forall k :: 0 <= k < SLOTS ==> old(slots[..])[k].data.location != 0
      ensures r == 0 ==> 0 <= head < SLOTS && old(slots[..])[head].data.location == 0
      ensures r == 0 ==> forall k :: 0 <= k < head ==> old(slots[..])[k].data.location != 0
      ensures r == 0 ==> slots[..] == old(slots[..])[head := Slot(Started(b), old(head))] && list == [head] + old(list)
      ensures r == 0 ==> vmem[..] == old(vmem[..])[2 * b.location as int := b.onChar]
    {
      if b.location >= 2000 {
        return -1;
      }
      var s := Malloc();
      if s == NULL {
        return -1;
      }
      assert old(slots[..])[s].data.location == 0;
      slots[s] := Slot(Started(b), head);
      head := s;
      list := [s] + list;
      vmem[2 * b.location as int] := b.onChar;
      return 0;
    }

    /** On a well-formed list add fails exactly for an off-screen location or when all slots
        are used; otherwise the element, switched on, comes first and its character is
        drawn. The list stays well-formed exactly when the location is not 0. */
    method Add(b: Blink) returns (r: int)
      requires Valid()
      modifies this, slots, vmem
      ensures r == if b.location >= 2000 || |old(Contents())| == SLOTS then -1 else 0
      ensures Valid() <==> r == -1 || b.location != 0
      ensures r == 0 && b.location != 0 ==> Contents() == [Started(b)] + old(Contents())
      ensures r == 0 ==> vmem[..] == old(vmem[..])[2 * b.location as int := b.onChar]
      ensures r == -1 ==> Contents() == old(Contents()) && vmem[..] == old(vmem[..])
    {
      hide LinkHolds, Distinct;
      FullWhenAllUsed(list, SLOTS);
      r := AddRaw(b);
      if r == 0 {
        if b.location != 0 {
          PushChained(old(slots[..]), old(head), old(list), head, Started(b));
        } else {
          assert list[0] == head && slots[head].data.location == 0;
        }
      }
    }

    /** An element added at location 0 sits in a slot that still looks free, so whatever is
        added next takes the same slot and is linked to itself: the list becomes a cycle. */
    method AddAfterZeroLocationCycles(a: Blink, b: Blink)
      requires Valid() && |Contents()| < SLOTS && a.location == 0 && b.location < 2000
      modifies this, slots, vmem
      ensures 0 <= head < SLOTS && slots[head] == Slot(Started(b), head)
    {
      hide LinkHolds, Distinct;
      FullWhenAllUsed(list, SLOTS);
      var r := AddRaw(a);
      var first := head;
      assert slots[first].data.location == 0 && forall k :: 0 <= k < first ==> slots[k].data.location != 0;
      r := AddRaw(b);
    }

    /** mp1_find_helper: the most recently added element at a location. */
    method Find(loc: word16) returns (s: int)
      requires Valid()
      ensures s == Target(list, FirstAt(Contents(), loc))
    {
      s := head;
      ghost var i := 0;
      while s != NULL && slots[s].data.location != loc
        invariant 0 <= i <= |list| && s == Target(list, i)
        invariant forall j :: 0 <= j < i ==> Contents()[j].location != loc
        decreases |list| - i
      {
        assert Contents()[i] == slots[s].data && LinkHolds(slots[..], list, i);
        s := slots[s].next;
        i := i + 1;
      }
      FirstAtIs(Contents(), loc, i);
    }

    /** mp1_ioctl_remove: takes out the most recently added element at the location and keeps
        the order of the rest. */
    method Remove(loc: word16) returns (r: int)
      requires Valid()
      modifies this, slots
      ensures Valid()
      ensures var c, i := old(Contents()), FirstAt(old(Contents()), loc);
        if i < |c| then r == 0 && Contents() == c[..i] + c[i + 1..] else r == -1 && Contents() == c
    {
      var node := Find(loc);
      if node == NULL {
        return -1;
      }
      Unlink(node, FirstAt(Contents(), loc));
      return 0;
    }

    /** The loop that looks for the link to a slot: the slot before it, or null for the head. */
    method Previous(node: int, ghost i: nat) returns (prev: int)
      requires Valid() && i < |list| && node == list[i]
      ensures prev == if i == 0 then NULL else list[i - 1]
    {
      prev := NULL;
      var cur := head;
      ghost var k := 0;
      while cur != node
        invariant 0 <= k <= i && cur == list[k] && prev == if k == 0 then NULL else list[k - 1]
        decreases i - k
      {
        assert LinkHolds(slots[..], list, k);
        prev := cur;
        cur := slots[cur].next;
        k := k + 1;
      }
    }

    /** Takes the i-th slot off the chain and zeroes it (mp1_free). */
    method Unlink(node: int, ghost i: nat)
      requires Valid() && i < |list| && node == list[i]
      modifies this, slots
      ensures Valid() && Contents() == old(Contents())[..i] + old(Contents())[i + 1..]
    {
      hide Distinct, Elements;
      var prev := Previous(node, i);
      assert LinkHolds(slots[..], list, i);
      UnlinkChained(slots[..], head, list, i);
      var next := slots[node].next;
      if prev == NULL {
        head := next;
      } else {
        slots[prev] := slots[prev].(next := next);
      }
      slots[node] := Zero();
      assert slots[..] == Unlinked(old(slots[..]), list, i);
      list := Without(list, i);
    }

    /** mp1_ioctl_sync: the element at `to` takes over the timing of the one at `from`. It is
        redrawn with its off character whatever its status. */
    method Sync(from: word16, to: word16) returns (r: int)
      requires Valid()
      modifies slots, vmem
      ensures Valid()
      ensures var c := old(Contents());
        var i, j := FirstAt(c, from), FirstAt(c, to);
        if i < |c| && j < |c| then
          var b := Synced(c[i], c[j]);
          r == 0 && Contents() == c[j := b] && SameTiming(c[i], b) && SameLook(c[j], b)
          && vmem[..] == old(vmem[..])[2 * b.location as int := b.offChar]
        else r == -1 && Contents() == c && vmem[..] == old(vmem[..])
    {
      var s := Find(from);
      if s == NULL {
        return -1;
      }
      var d := Find(to);
      if d == NULL {
        return -1;
      }
      var src, dst := slots[s].data, slots[d].data;
      var b := dst.(onLength := src.onLength, offLength := src.offLength,
                    countdown := src.countdown, status := src.status);
      assert src == Contents()[FirstAt(Contents(), from)] && dst == Contents()[FirstAt(Contents(), to)];
      UpdateChained(slots[..], head, list, FirstAt(Contents(), to), b);
      slots[d] := slots[d].(data := b);
      vmem[2 * b.location as int] := b.offChar;
      return 0;
    }

    /** mp1_rtc_tasklet: every element ticks once; those whose phase ends are redrawn. */
    method Tasklet()
      requires Valid()
      modifies slots, vmem
      ensures Valid() && Contents() == TickAll(old(Contents()))
      ensures vmem[..] == Drawn(old(vmem[..]), old(Contents()))
    {
      hide LinkHolds, Distinct, TickNode, Poked;
      ghost var c := Contents();
      var cur := head;
      ghost var i := 0;
      assert c[0..] == c && TickAll(c)[..0] + c[0..] == c;
      while cur != NULL
        invariant Valid() && 0 <= i <= |c| && cur == Target(list, i)
        invariant Contents() == TickAll(c)[..i] + c[i..]
        invariant Drawn(vmem[..], c[i..]) == Drawn(old(vmem[..]), c)
        decreases |c| - i
      {
        TickSlot(cur, i);
        TickNext(c, i);
        assert c[i..][0] == c[i] && c[i..][1..] == c[i + 1..];
        cur := slots[cur].next;
        i := i + 1;
      }
      assert c[i..] == [];
    }

    /** One turn of that loop, for the slot of the i-th element. */
    method TickSlot(cur: int, ghost i: nat)
      requires Valid() && i < |list| && cur == list[i]
      modifies slots, vmem
      ensures Valid() && Contents() == old(Contents())[i := TickNode(old(Contents())[i])]
      ensures vmem[..] == Poked(old(vmem[..]), old(Contents())[i])
      ensures slots[cur].next == Target(list, i + 1)
    {
      hide Distinct;
      assert LinkHolds(slots[..], list, i);
      UpdateChained(slots[..], head, list, i, TickNode(slots[cur].data));
      var b := slots[cur].data;
      b := b.(countdown := Decremented(b.countdown));
      if !(0 < b.countdown < 0x8000) {
        var at := 2 * b.location as int;
        if b.status % 2 == 1 {
          vmem[at] := b.offChar;
          b := b.(countdown := b.offLength, status := b.status - 1);
        } else {
          vmem[at] := b.onChar;
          b := b.(countdown := b.onLength, status := b.status + 1);
        }
      }
      slots[cur] := slots[cur].(data := b);
    }

    /** Any run of adds (at locations other than 0), removes, syncs and ticks keeps the list a
        chain and computes the plain sequence of elements and the screen they draw. */
    method Perform(ops: seq<Op>)
      requires Valid() && forall k :: 0 <= k < |ops| && ops[k].AddOp? ==> ops[k].b.location != 0
      modifies this, slots, vmem
      ensures Valid() && Contents() == PerformAll(old(Contents()), ops)
      ensures vmem[..] == DrawAll(old(vmem[..]), old(Contents()), ops)
    {
      hide Chained, Elements, FirstAt, TickAll, Started, Drawn, SameTiming, Synced;
      ghost var c, v := Contents(), vmem[..];
      for k := 0 to |ops|
        invariant Valid() && PerformAll(Contents(), ops[k..]) == PerformAll(c, ops)
        invariant DrawAll(vmem[..], Contents(), ops[k..]) == DrawAll(v, c, ops)
      {
        assert ops[k..][1..] == ops[k + 1..];
        PerformOp(ops[k]);
      }
    }

    method PerformOp(op: Op)
      requires Valid() && (op.AddOp? ==> op.b.location != 0)
      modifies this, slots, vmem
      ensures Valid() && Contents() == PerformOne(old(Contents()), op)
      ensures vmem[..] == DrawOne(old(vmem[..]), old(Contents()), op)
    {
      hide Chained, Elements, TickAll, Started, Drawn, SameTiming;
      match op
      case AddOp(b) => var _ := Add(b);
      case RemoveOp(loc) => var _ := Remove(loc);
      case SyncOp(from, to) => var _ := Sync(from, to);
      case TickOp => Tasklet();
    }

    /** An element added where nothing else blinks, whatever is then added, removed and synced
        elsewhere and however often the timer ticks: its cell shows its on character exactly in
        the first part of its period. */
    method AddThenPerform(b: Blink, ops: seq<Op>)
      requires Valid() && 0 < b.location < 2000 && |Contents()| < SLOTS
      requires FirstAt(Contents(), b.location) == |Contents()| && AllSpare(ops, b.location)
      requires forall k :: 0 <= k < |ops| && ops[k].AddOp? ==> ops[k].b.location != 0
      modifies this, slots, vmem
      ensures Valid() && FirstAt(Contents(), b.location) < |Contents()|
      ensures Contents()[FirstAt(Contents(), b.location)] == Ticks(Started(b), TickCount(ops))
      ensures vmem[2 * b.location as int]
           == if TickCount(ops) % Period(b) < Lasts(b.onLength) then b.onChar else b.offChar
    {
      hide Chained, Elements, FirstAt, PerformAll, DrawAll, Ticks, Started, Period, Lasts;
      BlinksInPeriod(vmem[..], Contents(), b, ops);
      Perform([AddOp(b)] + ops);
    }
  }
}
