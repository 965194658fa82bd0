/** The request memory of a program (cldmem.c): a growable table of raw blocks, each carrying in its first
    bytes its own place in the table.  A raw block is an array of bytes; a client's pointer is sixteen bytes
    into one. */
module Allocator {

  type byte = n: int | 0 <= n < 256

  const CLDALIGN := 16
  const CLDMSIZE := 128
  const INT_LIMIT := 0x8000_0000
  const MAGIC1: byte := 193
  const MAGIC2: byte := 37
  const GUARD: byte := 67

  /** A client's pointer: NULL, the shared empty string, or sixteen bytes into a raw block. */
  datatype Ptr = Null | EmptyString | Inside(block: array<byte>)

  /** cld_check_memory: the process aborts, or the place in the table and the size are known. */
  datatype Checked = Aborted | Good(index: nat, size: int)

  // ----- Integers in memory: least significant byte first

  function Unsigned(b0: byte, b1: byte, b2: byte, b3: byte): (n: int)
    ensures 0 <= n < 0x1_0000_0000
  {
    b0 + 0x100 * b1 + 0x1_0000 * b2 + 0x100_0000 * b3
  }

  function Signed(n: int): int {
    if n < INT_LIMIT then n else n - 0x1_0000_0000
  }

  function Bytes(n: nat): (s: seq<byte>)
    ensures |s| == 4
  {
    [n % 0x100, n / 0x100 % 0x100, n / 0x1_0000 % 0x100, n / 0x100_0000 % 0x100]
  }

  /** The four bytes written for a number read back as the number modulo 2^32. */
  lemma BytesRead(n: nat)
    ensures Unsigned(Bytes(n)[0], Bytes(n)[1], Bytes(n)[2], Bytes(n)[3]) == n % 0x1_0000_0000
  {
    assert n / 0x100 == 0x100 * (n / 0x1_0000) + n / 0x100 % 0x100;
    assert n / 0x1_0000 == 0x100 * (n / 0x100_0000) + n / 0x1_0000 % 0x100;
    assert n / 0x100_0000 == 0x100 * (n / 0x1_0000_0000) + n / 0x100_0000 % 0x100;
  }

  /** The check reads the size_t of the header as an int: it sees the true size exactly when that fits one. */
  lemma SizeAsInt(t: nat)
    ensures Signed(t % 0x1_0000_0000) == t <==> t < INT_LIMIT
  {
  }

  function ReadInt(b: array<byte>, at: nat): int
    requires at + 4 <= b.Length
    reads b
  {
    Signed(Unsigned(b[at], b[at + 1], b[at + 2], b[at + 3]))
  }

  // ----- Blocks

  /** What vmset and the guard byte leave in a block, and no client may disturb. */
  predicate Marked(b: array<byte>, index: nat)
    reads b
  {
    && CLDALIGN < b.Length < INT_LIMIT
    && b[0] == MAGIC1 && b[1] == MAGIC2
    && ReadInt(b, 4) == index
    && ReadInt(b, 8) == b.Length
    && b[b.Length - 1] == GUARD
  }

  /** The bytes a client asked for. */
  function Payload(b: array<byte>): seq<byte>
    requires CLDALIGN < b.Length
    reads b
  {
    b[CLDALIGN..b.Length - 1]
  }

  /** memcpy of an integer into a block. */
  method WriteInt(b: array<byte>, at: nat, n: nat)
    requires at + 4 <= b.Length
    modifies b
    ensures ReadInt(b, at) == Signed(n % 0x1_0000_0000)
    ensures forall k :: 0 <= k < b.Length && !(at <= k < at + 4) ==> b[k] == old(b[k])
  {
    var bytes := Bytes(n);
    BytesRead(n);
    hide Bytes, Unsigned;
    b[at], b[at + 1], b[at + 2], b[at + 3] := bytes[0], bytes[1], bytes[2], bytes[3];
  }

  /** vmset */
  method VmSet(b: array<byte>, r: nat)
    requires CLDALIGN < b.Length < INT_LIMIT && r < INT_LIMIT
    requires b[b.Length - 1] == GUARD
    modifies b
    ensures Marked(b, r)
    ensures forall k :: CLDALIGN <= k < b.Length ==> b[k] == old(b[k])
  {
    hide Unsigned;
    b[0] := MAGIC1;
    b[1] := MAGIC2;
    WriteInt(b, 4, r);
    WriteInt(b, 8, b.Length);
    WriteInt(b, 12, b.Length / 0x1_0000_0000);
  }

  // ----- Conservation

  /** Whatever was taken from the system was taken once, and is either outstanding or given back, once. */
  ghost predicate Balanced<T>(acquired: seq<T>, released: seq<T>, live: set<T>) {
    && (forall i, j :: 0 <= i < j < |acquired| ==> acquired[i] != acquired[j])
    && multiset(acquired) == multiset(released) + multiset(live)
  }

  lemma Acquire<T>(acquired: seq<T>, released: seq<T>, live: set<T>, b: T)
    requires Balanced(acquired, released, live) && b !in live && b !in acquired
    ensures Balanced(acquired + [b], released, live + {b})
  {
    assert multiset(live + {b}) == multiset(live) + multiset{b};
  }

  lemma Release<T>(acquired: seq<T>, released: seq<T>, live: set<T>, b: T)
    requires Balanced(acquired, released, live) && b in live
    ensures Balanced(acquired, released + [b], live - {b})
  {
    assert multiset(live) == multiset(live - {b}) + multiset{b};
  }

  lemma GaveBack<T>(acquired: seq<T>, before: seq<T>, given: seq<T>, live: set<T>)
    requires Balanced(acquired, before, live) && Balanced(acquired, before + given, {})
    ensures multiset(given) == multiset(live)
  {
    assert multiset(given) == multiset(acquired) - multiset(before);
  }

  // ----- The table, as a value

  /** Each outstanding block is in its slot, and each filled slot is that of an outstanding block. */
  ghost predicate Linked(slots: seq<array?<byte>>, home: map<array<byte>, nat>) {
    && (forall b :: b in home ==> home[b] < |slots| && slots[home[b]] == b)
    && (forall i :: 0 <= i < |slots| && slots[i] != null ==> slots[i] in home && home[slots[i]] == i)
  }

  lemma LinkedAdd(slots: seq<array?<byte>>, home: map<array<byte>, nat>, b: array<byte>)
    requires Linked(slots, home) && b !in home
    ensures Linked(slots + [b], home[b := |slots|])
    ensures home[b := |slots|].Keys == home.Keys + {b}
  {
  }

  lemma LinkedDrop(slots: seq<array?<byte>>, home: map<array<byte>, nat>, b: array<byte>)
    requires Linked(slots, home) && b in home
    ensures home[b] < |slots| && Linked(slots[home[b] := null], home - {b})
    ensures (home - {b}).Keys == home.Keys - {b}
  {
  }

  lemma LinkedEmpty(slots: seq<array?<byte>>, home: map<array<byte>, nat>)
    requires Linked(slots, home) && forall i :: 0 <= i < |slots| ==> slots[i] == null
    ensures home == map[]
  {
  }

  ghost predicate Intact(home: map<array<byte>, nat>)
    reads home.Keys
  {
    forall b :: b in home ==> Marked(b, home[b])
  }

  lemma IntactAdd(home: map<array<byte>, nat>, b: array<byte>, r: nat)
    requires Intact(home) && Marked(b, r)
    ensures Intact(home[b := r])
  {
  }

  // ----- The allocator

  class Memory {
    var vmmem: array<array?<byte>>
    var vmmemCurr: nat
    var vmmemTot: nat
    /** The raw blocks outstanding, each with its slot of the table, and all those ever taken from and given
        back to the system, in order. */
    ghost var home: map<array<byte>, nat>
    ghost var acquired: seq<array<byte>>
    ghost var released: seq<array<byte>>
    /** False before the first request and between cld_done and the new table. */
    ghost var usable: bool

    ghost predicate Shaped()
      reads this`vmmem, this`vmmemCurr, this`vmmemTot, this`usable, vmmem
    {
      vmmem.Length == vmmemTot && vmmemCurr <= vmmemTot && (usable ==> vmmemCurr < vmmemTot)
    }

    ghost function Slots(): (s: seq<array?<byte>>)
      requires vmmemCurr <= vmmem.Length
      reads this`vmmem, this`vmmemCurr, vmmem
      ensures |s| == vmmemCurr
    {
      vmmem[..vmmemCurr]
    }

    ghost predicate Core()
      reads this, vmmem, home.Keys
    {
      && Shaped()
      && Linked(Slots(), home)
      && Intact(home)
      && Balanced(acquired, released, home.Keys)
    }

    ghost predicate Valid()
      reads this, vmmem, home.Keys
    {
      Core() && usable
    }

    /** The program before its first request. */
    constructor ()
      ensures Core() && !usable && vmmemTot == 0 && home == map[] && acquired == [] && fresh(vmmem)
    {
      vmmem := new array?<byte>[0];
      vmmemCurr, vmmemTot := 0, 0;
      home, acquired, released, usable := map[], [], [], false;
    }

    /** add_mem: the next slot, and room for one more after it. */
    method AddMem(b: array<byte>) returns (r: nat)
      requires Shaped() && usable
      modifies this`vmmem, this`vmmemCurr, this`vmmemTot, vmmem
      ensures Shaped() && (vmmem == old(vmmem) || fresh(vmmem))
      ensures r == old(vmmemCurr) && Slots() == old(Slots()) + [b]
    {
      r := vmmemCurr;
      vmmem[r] := b;
      vmmemCurr := vmmemCurr + 1;
      if vmmemCurr >= vmmemTot {
        vmmemTot := vmmemTot + CLDMSIZE;
        var bigger := new array?<byte>[vmmemTot];
        forall i | 0 <= i < vmmem.Length { bigger[i] := vmmem[i]; }
        vmmem := bigger;
      }
    }

    /** Enters a new raw block with its guard byte set. */
    method Enter(b: array<byte>) returns (p: Ptr)
      requires Valid() && b !in home && b !in acquired && vmmemCurr < INT_LIMIT - CLDMSIZE
      requires CLDALIGN < b.Length < INT_LIMIT && b[b.Length - 1] == GUARD
      modifies this, vmmem, b
      ensures Valid() && p == Inside(b) && (vmmem == old(vmmem) || fresh(vmmem))
      ensures home == old(home)[b := old(vmmemCurr)] && Slots() == old(Slots()) + [b]
      ensures acquired == old(acquired) + [b] && released == old(released)
      ensures forall k :: CLDALIGN <= k < b.Length ==> b[k] == old(b[k])
    {
      hide Balanced, Marked, Linked, Slots, Intact;
      LinkedAdd(Slots(), home, b);
      Acquire(acquired, released, home.Keys, b);
      var r := AddMem(b);
      VmSet(b, r);
      IntactAdd(home, b, r);
      home, acquired := home[b := r], acquired + [b];
      p := Inside(b);
    }

    /** __cld_malloc: the raw block is larger by the header and the guard. */
    method Malloc(size: nat) returns (p: Ptr)
      requires Valid() && vmmemCurr < INT_LIMIT - CLDMSIZE && size + CLDALIGN + 1 < INT_LIMIT
      modifies this, vmmem
      ensures Valid() && p.Inside? && fresh(p.block) && p.block.Length == CLDALIGN + size + 1
      ensures vmmem == old(vmmem) || fresh(vmmem)
      ensures home == old(home)[p.block := old(vmmemCurr)] && Slots() == old(Slots()) + [p.block]
      ensures acquired == old(acquired) + [p.block] && released == old(released)
    {
      hide Balanced, Marked, Linked, Shaped, Slots;
      var t := size + CLDALIGN + 1;
      var b := new byte[t];
      b[t - 1] := GUARD;
      p := Enter(b);
    }

    /** __cld_calloc: the same, zeroed. */
    method Calloc(nmemb: nat, size: nat) returns (p: Ptr)
      requires Valid() && vmmemCurr < INT_LIMIT - CLDMSIZE && nmemb * size + CLDALIGN + 1 < INT_LIMIT
      modifies this, vmmem
      ensures Valid() && p.Inside? && fresh(p.block) && p.block.Length == CLDALIGN + nmemb * size + 1
      ensures forall k :: 0 <= k < nmemb * size ==> Payload(p.block)[k] == 0
      ensures vmmem == old(vmmem) || fresh(vmmem)
      ensures home == old(home)[p.block := old(vmmemCurr)] && Slots() == old(Slots()) + [p.block]
      ensures acquired == old(acquired) + [p.block] && released == old(released)
    {
      hide Balanced, Marked, Linked, Shaped, Slots;
      var t: nat := nmemb * size + CLDALIGN + 1;
      var b := new byte[t](_ => 0);
      b[t - 1] := GUARD;
      p := Enter(b);
    }

    /** cld_check_memory, for any memory at all whose size field points inside it: it passes exactly when the
        magic bytes, the guard byte and the cross-reference are all in order, and so for each block outstanding,
        whatever its client wrote in it. */
    method CheckMemory(p: Ptr) returns (c: Checked)
      requires Shaped()
      requires p.Inside? ==> CLDALIGN < p.block.Length && 0 < ReadInt(p.block, 8) <= p.block.Length
      ensures !p.Inside? ==> c == Good(0, 0)
      ensures p.Inside? ==>
                var b := p.block;
                (c.Good? <==>
                  && 0 <= ReadInt(b, 4) < vmmemCurr && Slots()[ReadInt(b, 4)] == b
                  && b[0] == MAGIC1 && b[1] == MAGIC2 && b[ReadInt(b, 8) - 1] == GUARD)
      ensures p.Inside? && Core() && p.block in home ==> c == Good(home[p.block], p.block.Length)
    {
      if !p.Inside? { return Good(0, 0); }
      var b := p.block;
      var r := ReadInt(b, 4);
      if r < 0 || r >= vmmemCurr { return Aborted; }
      if b[0] != MAGIC1 || b[1] != MAGIC2 { return Aborted; }
      var sz := ReadInt(b, 8);
      if b[sz - 1] != GUARD || vmmem[r] != b { return Aborted; }
      c := Good(r, sz);
    }

    lemma OwnBlock(b: array<byte>)
      requires Core() && b in home
      ensures CLDALIGN < b.Length && 0 < ReadInt(b, 8) <= b.Length && home[b] < vmmemCurr
    {
    }

    /** A client writes one of the bytes it asked for: nothing the allocator relies on changes. */
    method ClientWrite(p: Ptr, k: nat, v: byte)
      requires Core() && p.Inside? && p.block in home && CLDALIGN + k < p.block.Length - 1
      modifies p.block
      ensures Core() && Payload(p.block) == old(Payload(p.block))[k := v]
    {
      p.block[CLDALIGN + k] := v;
    }

    /** The slot of a block is cleared and the block given back. */
    method Drop(b: array<byte>, r: nat)
      requires Core() && b in home && r == home[b]
      modifies this`home, this`released, vmmem
      ensures Core() && home == old(home) - {b} && Slots() == old(Slots())[r := null]
      ensures released == old(released) + [b]
    {
      hide Balanced, Marked, Linked;
      LinkedDrop(Slots(), home, b);
      Release(acquired, released, home.Keys, b);
      vmmem[r] := null;
      home, released := home - {b}, released + [b];
    }

    /** The check, which never fails on a block outstanding, and the slot cleared. */
    method Unlink(p: Ptr) returns (ok: bool)
      requires Core() && p.Inside? && p.block in home
      modifies this`home, this`released, vmmem
      ensures Core() && ok && home == old(home) - {p.block} && old(home)[p.block] < vmmemCurr
      ensures Slots() == old(Slots())[old(home)[p.block] := null] && released == old(released) + [p.block]
    {
      hide Balanced, Marked, Linked, ReadInt;
      OwnBlock(p.block);
      var c := CheckMemory(p);
      if c.Aborted? { return false; }
      Drop(p.block, c.index);
      ok := true;
    }

    /** __cld_free: NULL and the empty string are left alone. */
    method Free(p: Ptr) returns (ok: bool)
      requires Core() && (p.Inside? ==> p.block in home)
      modifies this`home, this`released, vmmem
      ensures Core() && ok
      ensures if !p.Inside? then home == old(home) && Slots() == old(Slots()) && released == old(released)
              else home == old(home) - {p.block} && old(home)[p.block] < vmmemCurr
                   && Slots() == old(Slots())[old(home)[p.block] := null]
                   && released == old(released) + [p.block]
    {
      if !p.Inside? { return true; }
      ok := Unlink(p);
    }

    /** The system's realloc of a raw block: a new one of `t` bytes, with as much of the old one as both hold.
        (Growing in place would differ only in the identity of the block.) */
    method SystemRealloc(b: array<byte>, t: nat) returns (n: array<byte>)
      ensures fresh(n) && n.Length == t
      ensures forall k :: 0 <= k < t && k < b.Length ==> n[k] == b[k]
    {
      n := new byte[t];
      forall k | 0 <= k < t && k < b.Length { n[k] := b[k]; }
    }

    /** __cld_realloc: always a new slot, the old one stays empty; what both sizes hold is kept. */
    method Realloc(p: Ptr, size: nat) returns (ok: bool, q: Ptr)
      requires Valid() && vmmemCurr < INT_LIMIT - CLDMSIZE && size + CLDALIGN + 1 < INT_LIMIT
      requires p.Inside? ==> p.block in home
      modifies this, vmmem
      ensures Valid() && ok && q.Inside? && fresh(q.block) && q.block.Length == CLDALIGN + size + 1
      ensures vmmem == old(vmmem) || fresh(vmmem)
      ensures acquired == old(acquired) + [q.block]
      ensures !p.Inside? ==>
                && home == old(home)[q.block := old(vmmemCurr)] && Slots() == old(Slots()) + [q.block]
                && released == old(released)
      ensures p.Inside? ==>
                && home == (old(home) - {p.block})[q.block := old(vmmemCurr)]
                && old(home)[p.block] < old(vmmemCurr)
                && Slots() == old(Slots())[old(home)[p.block] := null] + [q.block]
                && released == old(released) + [p.block]
      ensures p.Inside? ==> forall k :: CLDALIGN <= k < CLDALIGN + size && k < p.block.Length - 1 ==>
                q.block[k] == p.block[k]
    {
      hide Balanced, Marked, Linked, Shaped, Slots, Intact;
      if !p.Inside? {
        q := Malloc(size);
        return true, q;
      }
      ok := Unlink(p);
      if !ok { return false, Null; }
      var t := size + CLDALIGN + 1;
      var b := SystemRealloc(p.block, t);
      b[t - 1] := GUARD;
      q := Enter(b);
      ok := true;
    }

    /** cld_checkmem: every block outstanding passes. */
    method CheckMem() returns (ok: bool)
      requires Core()
      ensures ok
    {
      hide Marked, ReadInt;
      var i := 0;
      while i < vmmemCurr
        invariant i <= vmmemCurr
      {
        if vmmem[i] != null {
          assert Slots()[i] == vmmem[i];
          OwnBlock(vmmem[i]);
          var c := CheckMemory(Inside(vmmem[i]));
          if c.Aborted? { return false; }
        }
        i := i + 1;
      }
      ok := true;
    }

    /** One round of cld_done. */
    method FreeSlot(i: nat)
      requires Core() && i < vmmemCurr
      modifies this`home, this`released, vmmem
      ensures Core() && Slots() == old(Slots())[i := null]
      ensures |released| >= |old(released)| && released[..|old(released)|] == old(released)
    {
      hide Marked, ReadInt;
      if vmmem[i] != null {
        assert Slots()[i] == vmmem[i];
        var ok := Free(Inside(vmmem[i]));
      }
    }

    /** cld_done: every block outstanding is given back, each once. */
    method CldDone()
      requires Core()
      modifies this`home, this`released, this`usable, vmmem
      ensures Core() && !usable && home == map[]
      ensures |released| >= |old(released)| && released[..|old(released)|] == old(released)
      ensures multiset(released[|old(released)|..]) == multiset(old(home.Keys))
    {
      hide Balanced, Marked, Linked, Slots;
      var i := 0;
      while i < vmmemCurr
        invariant i <= vmmemCurr && Core()
        invariant forall j :: 0 <= j < i ==> Slots()[j] == null
        invariant |released| >= |old(released)| && released[..|old(released)|] == old(released)
      {
        FreeSlot(i);
        i := i + 1;
      }
      LinkedEmpty(Slots(), home);
      assert released == old(released) + released[|old(released)|..];
      assert home.Keys == {};
      GaveBack(acquired, old(released), released[|old(released)|..], old(home.Keys));
      usable := false;
    }

    /** cld_memory_init: every request starts with nothing outstanding. */
    method MemoryInit()
      requires Core()
      modifies this, vmmem
      ensures Valid() && home == map[] && vmmemCurr == 0 && fresh(vmmem)
      ensures acquired == old(acquired) && Balanced(acquired, released, {})
    {
      CldDone();
      vmmemTot := CLDMSIZE;
      vmmem := new array?<byte>[vmmemTot](_ => null);
      vmmemCurr := 0;
      usable := true;
    }

    /** The pointer a client holds to the block of a slot. */
    method PointerAt(i: nat) returns (p: Ptr)
      requires Core()
      ensures p.Inside? ==> p.block in home && home[p.block] == i
      ensures i < vmmemCurr && Slots()[i] != null ==> p == Inside(Slots()[i])
    {
      hide Intact;
      p := Null;
      if i < vmmemCurr && vmmem[i] != null {
        assert Slots()[i] == vmmem[i];
        p := Inside(vmmem[i]);
      }
    }

    method ResizeAt(slot: nat, size: nat) returns (ok: bool)
      requires Valid() && Fits(Resize(slot, size)) && vmmemCurr < INT_LIMIT - CLDMSIZE
      modifies this, vmmem
      ensures Valid() && ok && vmmemCurr <= old(vmmemCurr) + 1
      ensures Sizes(Slots()) == Cleared(old(Sizes(Slots())), slot) + [CLDALIGN + size + 1]
      ensures Lengths(acquired) == Lengths(old(acquired)) + [CLDALIGN + size + 1]
      ensures vmmem == old(vmmem) || fresh(vmmem)
      ensures fresh(home.Keys - old(home.Keys))
    {
      hide Balanced, Linked, Intact, Slots, Sizes, Lengths, Cleared;
      ghost var slots, before := Slots(), acquired;
      var p := PointerAt(slot);
      var q;
      ok, q := Realloc(p, size);
      SizesClear(slots, slot);
      SizesAdd(if p.Inside? then slots[slot := null] else slots, q.block);
      LengthsAdd(before, q.block);
    }

    method Step(op: Op) returns (ok: bool)
      requires Valid() && Fits(op) && vmmemCurr < INT_LIMIT - CLDMSIZE
      modifies this, vmmem, home.Keys
      ensures Valid() && ok && vmmemCurr <= old(vmmemCurr) + 1
      ensures Sizes(Slots()) == Occupied(old(Sizes(Slots())), op)
      ensures Lengths(acquired) == Lengths(old(acquired)) + Raw(op)
      ensures vmmem == old(vmmem) || fresh(vmmem)
      ensures fresh(home.Keys - old(home.Keys))
    {
      hide Balanced, Linked, Intact, Slots, Sizes, Lengths;
      ghost var slots, before := Slots(), acquired;
      NoChange(slots, before);
      ok := true;
      match op
      case Allocate(size) =>
        var p := Malloc(size);
        SizesAdd(slots, p.block);
        LengthsAdd(before, p.block);
      case AllocateZeroed(nmemb, size) =>
        var p := Calloc(nmemb, size);
        SizesAdd(slots, p.block);
        LengthsAdd(before, p.block);
      case Resize(slot, size) => ok := ResizeAt(slot, size);
      case Discard(slot) =>
        var p := PointerAt(slot);
        ok := Free(p);
        SizesClear(slots, slot);
      case Write(slot, k, v) =>
        var p := PointerAt(slot);
        if p.Inside? && k + CLDALIGN + 1 < p.block.Length {
          ClientWrite(p, k, v);
        }
      case CheckAll => ok := CheckMem();
    }

    /** A request: everything of the previous one is given back, whatever the client does no check fails, and
        the slots hold the blocks it was given and has not given back since, with the sizes it asked for. */
    method Request(ops: seq<Op>) returns (ok: bool)
      requires Core() && |ops| < INT_LIMIT - CLDMSIZE && forall k :: 0 <= k < |ops| ==> Fits(ops[k])
      modifies this, vmmem, home.Keys
      ensures Valid() && ok && Sizes(Slots()) == OccupiedAfter(ops)
      ensures Lengths(acquired) == Lengths(old(acquired)) + RawOf(ops)
      ensures fresh(vmmem) && fresh(home.Keys - old(home.Keys))
    {
      hide Balanced, Linked, Intact, Slots, Sizes, Lengths, OccupiedAfter, Occupied, RawOf, Raw;
      MemoryInit();
      Nothing(ops, old(acquired));
      ok := true;
      var k := 0;
      while k < |ops| && ok
        invariant k <= |ops| && ok && Valid() && vmmemCurr <= k
        invariant Sizes(Slots()) == OccupiedAfter(ops[..k])
        invariant Lengths(acquired) == Lengths(old(acquired)) + RawOf(ops[..k])
        invariant fresh(vmmem) && fresh(home.Keys)
      {
        OneMore(ops, k);
        ghost var raw := RawOf(ops[..k]);
        ok := Step(ops[k]);
        assert Lengths(old(acquired)) + raw + Raw(ops[k]) == Lengths(old(acquired)) + (raw + Raw(ops[k]));
        k := k + 1;
      }
      assert ops[..k] == ops;
    }
  }

  /** What a client may do, in any order; it names a block by its slot, and a slot without one stands for NULL. */
  datatype Op =
    | Allocate(size: nat)
    | AllocateZeroed(nmemb: nat, size: nat)
    | Resize(slot: nat, size: nat)
    | Discard(slot: nat)
    | Write(slot: nat, k: nat, v: byte)
    | CheckAll

  /** The sizes of the raw blocks in the slots, 0 for an empty slot. */
  function Sizes(slots: seq<array?<byte>>): (f: seq<nat>)
    ensures |f| == |slots| && forall i :: 0 <= i < |f| ==> f[i] == (if slots[i] == null then 0 else slots[i].Length)
  {
    seq(|slots|, i requires 0 <= i < |slots| => if slots[i] == null then 0 else slots[i].Length)
  }

  lemma SizesAdd(slots: seq<array?<byte>>, b: array<byte>)
    ensures Sizes(slots + [b]) == Sizes(slots) + [b.Length]
  {
  }

  lemma SizesClear(slots: seq<array?<byte>>, r: nat)
    ensures Cleared(Sizes(slots), r) ==
            if r < |slots| && slots[r] != null then Sizes(slots[r := null]) else Sizes(slots)
  {
  }

  lemma NoChange(slots: seq<array?<byte>>, blocks: seq<array<byte>>)
    ensures Sizes(slots) + [] == Sizes(slots) && Lengths(blocks) + [] == Lengths(blocks)
  {
  }

  function Cleared(f: seq<nat>, slot: nat): seq<nat> {
    if slot < |f| then f[slot := 0] else f
  }

  /** The sizes of the raw blocks that a step takes from the system. */
  function Raw(op: Op): seq<nat> {
    match op
    case Allocate(size) => [CLDALIGN + size + 1]
    case AllocateZeroed(nmemb, size) => [CLDALIGN + nmemb * size + 1]
    case Resize(_, size) => [CLDALIGN + size + 1]
    case _ => []
  }

  /** The slots after one step: every allocation and every resizing takes a new one. */
  function Occupied(f: seq<nat>, op: Op): seq<nat> {
    match op
    case Resize(slot, _) => Cleared(f, slot) + Raw(op)
    case Discard(slot) => Cleared(f, slot)
    case _ => f + Raw(op)
  }

  function OccupiedAfter(ops: seq<Op>): seq<nat> {
    if ops == [] then [] else Occupied(OccupiedAfter(ops[..|ops| - 1]), ops[|ops| - 1])
  }

  /** All that a request takes from the system, and all that a run of requests does. */
  function RawOf(ops: seq<Op>): seq<nat> {
    if ops == [] then [] else RawOf(ops[..|ops| - 1]) + Raw(ops[|ops| - 1])
  }

  lemma OneMore(ops: seq<Op>, k: nat)
    requires k < |ops|
    ensures OccupiedAfter(ops[..k + 1]) == Occupied(OccupiedAfter(ops[..k]), ops[k])
    ensures RawOf(ops[..k + 1]) == RawOf(ops[..k]) + Raw(ops[k])
  {
    assert ops[..k + 1][..k] == ops[..k];
  }

  lemma Nothing(ops: seq<Op>, blocks: seq<array<byte>>)
    ensures OccupiedAfter(ops[..0]) == [] && RawOf(ops[..0]) == [] && Sizes([]) == []
    ensures Lengths(blocks) + [] == Lengths(blocks)
  {
  }

  function RawOfAll(requests: seq<seq<Op>>): seq<nat> {
    if requests == [] then [] else RawOfAll(requests[..|requests| - 1]) + RawOf(requests[|requests| - 1])
  }

  lemma LengthsAdd(blocks: seq<array<byte>>, b: array<byte>)
    ensures Lengths(blocks + [b]) == Lengths(blocks) + [b.Length]
  {
  }

  function Lengths(blocks: seq<array<byte>>): (f: seq<nat>)
    ensures |f| == |blocks| && forall i :: 0 <= i < |f| ==> f[i] == blocks[i].Length
  {
    seq(|blocks|, i requires 0 <= i < |blocks| => blocks[i].Length)
  }

  /** Sizes are within the reach of the int that the check reads them with. */
  predicate Fits(op: Op) {
    match op
    case Allocate(size) => size + CLDALIGN + 1 < INT_LIMIT
    case AllocateZeroed(nmemb, size) => nmemb * size + CLDALIGN + 1 < INT_LIMIT
    case Resize(_, size) => size + CLDALIGN + 1 < INT_LIMIT
    case _ => true
  }

  /** Any run of requests: no check ever fails, exactly the blocks that the requests ask for are taken, and once
      the next request begins, each was taken once and has been given back once. */
  method Session(requests: seq<seq<Op>>) returns (ok: bool, ghost taken: seq<array<byte>>, ghost given: seq<array<byte>>)
    requires forall r :: 0 <= r < |requests| ==> |requests[r]| < INT_LIMIT - CLDMSIZE
    requires forall r, k :: 0 <= r < |requests| && 0 <= k < |requests[r]| ==> Fits(requests[r][k])
    ensures ok && Lengths(taken) == RawOfAll(requests) && multiset(taken) == multiset(given)
    ensures forall i, j :: 0 <= i < j < |taken| ==> taken[i] != taken[j]
  {
    var m := new Memory();
    ok := true;
    var r := 0;
    while r < |requests| && ok
      invariant r <= |requests| && ok && m.Core()
      invariant Lengths(m.acquired) == RawOfAll(requests[..r])
      invariant fresh(m) && fresh(m.vmmem) && fresh(m.home.Keys)
    {
      ok := m.Request(requests[r]);
      assert requests[..r + 1][..r] == requests[..r];
      r := r + 1;
    }
    assert requests[..r] == requests;
    m.MemoryInit();
    taken, given := m.acquired, m.released;
  }
}
