/** Which blocks a client holds (cldmem.c), told on its steps alone. */
module AllocatorSlots {
  import opened Allocator

  predicate TakesSlot(op: Op) {
    op.Allocate? || op.AllocateZeroed? || op.Resize?
  }

  /** The number of bytes asked for. */
  function Asked(op: Op): nat
    requires TakesSlot(op)
  {
    match op
    case Allocate(size) => size
    case AllocateZeroed(nmemb, size) => nmemb * size
    case Resize(_, size) => size
  }

  /** The step gives the block of the slot back. */
  predicate GivesBack(op: Op, slot: nat) {
    (op.Discard? || op.Resize?) && op.slot == slot
  }

  /** How many slots are taken. */
  function Taken(ops: seq<Op>): nat {
    if ops == [] then 0 else Taken(ops[..|ops| - 1]) + (if TakesSlot(ops[|ops| - 1]) then 1 else 0)
  }

  lemma TakenNext(ops: seq<Op>, k: nat)
    requires k < |ops|
    ensures Taken(ops[..k + 1]) == Taken(ops[..k]) + (if TakesSlot(ops[k]) then 1 else 0)
  {
    assert ops[..k + 1][..k] == ops[..k];
  }

  lemma {:induction false} TakenGrows(ops: seq<Op>, j: nat, k: nat)
    requires j <= k <= |ops|
    ensures Taken(ops[..j]) <= Taken(ops[..k])
    decreases k
  {
    if j < k {
      TakenNext(ops, k - 1);
      TakenGrows(ops, j, k - 1);
    }
  }

  lemma OccupiedNext(f: seq<nat>, op: Op)
    ensures Occupied(f, op) ==
            (if op.Discard? || op.Resize? then Cleared(f, op.slot) else f) +
            (if TakesSlot(op) then [Asked(op) + 17] else [])
    ensures Raw(op) == if TakesSlot(op) then [Asked(op) + 17] else []
  {
    if !TakesSlot(op) {
      assert f + [] == f;
      if op.Discard? { assert Cleared(f, op.slot) + [] == Cleared(f, op.slot); }
    }
  }

  lemma {:induction false} AllSlots(ops: seq<Op>)
    ensures |OccupiedAfter(ops)| == |RawOf(ops)| == Taken(ops)
  {
    if ops != [] {
      var n := |ops| - 1;
      AllSlots(ops[..n]);
      OccupiedNext(OccupiedAfter(ops[..n]), ops[n]);
    }
  }

  /** Each step that takes a block takes the next slot.  Its block is 17 bytes larger than was asked for, and is there
      until a later step names the slot to free or to resize it. */
  lemma {:induction false} SlotIs(ops: seq<Op>, k: nat)
    requires k < |ops| && TakesSlot(ops[k])
    ensures var slot := Taken(ops[..k]);
            && slot < |OccupiedAfter(ops)| == |RawOf(ops)| == Taken(ops)
            && RawOf(ops)[slot] == Asked(ops[k]) + 17
            && OccupiedAfter(ops)[slot] ==
               if exists j :: k < j < |ops| && GivesBack(ops[j], slot) then 0 else Asked(ops[k]) + 17
    decreases |ops|
  {
    hide Taken, Occupied;
    var n, slot := |ops| - 1, Taken(ops[..k]);
    var f, op := ops[..n], ops[n];
    AllSlots(ops);
    AllSlots(f);
    OccupiedNext(OccupiedAfter(f), op);
    TakenNext(ops, n);
    assert ops[..n + 1] == ops;
    if k < n {
      SlotIs(f, k);
      assert f[..k] == ops[..k];
      BackNext(ops, k, slot);
      TakenGrows(ops, k + 1, n);
      TakenNext(ops, k);
    }
  }

  lemma BackNext(ops: seq<Op>, k: nat, slot: nat)
    requires k < |ops| - 1
    ensures var n := |ops| - 1;
            (exists j :: k < j < |ops| && GivesBack(ops[j], slot)) <==>
            GivesBack(ops[n], slot) || exists j :: k < j < n && GivesBack(ops[..n][j], slot)
  {
    var n := |ops| - 1;
    forall j | k < j < n ensures ops[..n][j] == ops[j] {}
    if j :| k < j < |ops| && GivesBack(ops[j], slot) && j < n { assert GivesBack(ops[..n][j], slot); }
    if j :| k < j < n && GivesBack(ops[..n][j], slot) { assert GivesBack(ops[j], slot); }
  }
}
