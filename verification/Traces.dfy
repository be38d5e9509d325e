/**
 What a run of operations leaves behind, read off the operations alone: every tag and every
 byte is the work of the last operation that touched it.
 */
module Traces {
  import opened Words
  import opened Capabilities
  import opened Layout
  import opened TaggedMemory

  /** The position of the last operation that touched a slot. */
  function LastTouch(cfg: Config, ops: seq<Op>, slot: nat): (last: Option<nat>)
    requires AllFit(cfg, ops)
    ensures last.Some? ==> last.value < |ops| && EffectOf(cfg, ops[last.value]).Touches(slot)
  {
    if ops == [] then None
    else
      var k := |ops| - 1;
      if EffectOf(cfg, ops[k]).Touches(slot) then Some(k) else LastTouch(cfg, ops[..k], slot)
  }

  /** It is the last: no later operation touched the slot. */
  lemma {:induction false} NoneTouchesLater(cfg: Config, ops: seq<Op>, slot: nat, j: nat)
    requires AllFit(cfg, ops) && j < |ops|
    requires LastTouch(cfg, ops, slot).Some? ==> LastTouch(cfg, ops, slot).value < j
    ensures !EffectOf(cfg, ops[j]).Touches(slot)
    decreases |ops|
  {
    var k := |ops| - 1;
    if j == k {
    } else {
      assert !EffectOf(cfg, ops[k]).Touches(slot);
      assert LastTouch(cfg, ops, slot) == LastTouch(cfg, ops[..k], slot);
      NoneTouchesLater(cfg, ops[..k], slot, j);
    }
  }

  /** The byte stored by the last operation that covered an address. */
  function LastByte(cfg: Config, ops: seq<Op>, addr: nat): Option<byte>
    requires AllFit(cfg, ops)
  {
    if ops == [] then None
    else
      var k := |ops| - 1;
      var e := EffectOf(cfg, ops[k]);
      if e.Covers(addr) then Some(e.ByteAt(addr)) else LastByte(cfg, ops[..k], addr)
  }

  /** An effect that does not touch a slot covers none of its bytes. */
  lemma UntouchedSlot(cfg: Config, e: Effect, slot: nat, addr: nat)
    requires e.Fits(cfg) && !e.Touches(slot) && InSlot(addr, slot)
    ensures !e.Covers(addr)
  {
  }

  lemma SlotKept(cfg: Config, m: Mem, e: Effect, slot: nat)
    requires IsMem(cfg, m) && e.Fits(cfg) && slot < cfg.NumPointers() && !e.Touches(slot)
    ensures slot in Apply(cfg, m, e).tags <==> slot in m.tags
    ensures SlotBytes(Apply(cfg, m, e), slot) == SlotBytes(m, slot)
  {
    var after := Apply(cfg, m, e);
    forall i | 0 <= i < 8
      ensures SlotBytes(after, slot)[i] == SlotBytes(m, slot)[i]
    {
      UntouchedSlot(cfg, e, slot, 8 * slot + i);
    }
  }

  /** The operation puts capref r at an address. */
  predicate Puts(op: Op, addr: nat, r: capref) {
    op.PutCap? && op.stored == r && FromCapref(op.cap).base + op.offset == addr
  }

  /** What a run leaves in a slot, given the last operation to touch it. */
  ghost predicate LeftInSlot(cfg: Config, before: Mem, after: Mem, slot: nat, last: Option<Op>)
    requires 8 * slot + 8 <= |before.data| && |after.data| == |before.data|
  {
    match last
    case None => (slot in after.tags <==> slot in before.tags) && SlotBytes(after, slot) == SlotBytes(before, slot)
    case Some(op) =>
      && (slot in after.tags <==> op.PutCap?)
      && (op.PutCap? ==>
            && Puts(op, 8 * slot, op.stored)
            && SlotBytes(after, slot) == StoredBytes(op.stored)
            && !cfg.Exceeds(8 * slot + 8, cfg.Size()))
  }

  function LastOp(cfg: Config, ops: seq<Op>, slot: nat): Option<Op>
    requires AllFit(cfg, ops)
  {
    match LastTouch(cfg, ops, slot)
    case None => None
    case Some(k) => Some(ops[k])
  }

  lemma StepLeaves(cfg: Config, before: Mem, m: Mem, op: Op, slot: nat)
    requires IsMem(cfg, before) && IsMem(cfg, m) && OpFits(cfg, op) && slot < cfg.NumPointers()
    requires EffectOf(cfg, op).Touches(slot)
    ensures LeftInSlot(cfg, before, Step(cfg, m, op), slot, Some(op))
  {
    var after := Step(cfg, m, op);
    if op.PutCap? {
      assert EffectOf(cfg, op) == Store(8 * slot, StoredBytes(op.stored));
      assert SlotBytes(after, slot) == StoredBytes(op.stored);
    }
  }

  lemma StepKeeps(cfg: Config, before: Mem, m: Mem, e: Effect, slot: nat, last: Option<Op>)
    requires IsMem(cfg, before) && IsMem(cfg, m) && e.Fits(cfg) && slot < cfg.NumPointers()
    requires !e.Touches(slot) && LeftInSlot(cfg, before, m, slot, last)
    ensures LeftInSlot(cfg, before, Apply(cfg, m, e), slot, last)
  {
    SlotKept(cfg, m, e, slot);
  }

  lemma LastOpUnfolds(cfg: Config, ops: seq<Op>, slot: nat)
    requires AllFit(cfg, ops) && ops != []
    ensures var k := |ops| - 1;
            LastOp(cfg, ops, slot)
            == if EffectOf(cfg, ops[k]).Touches(slot) then Some(ops[k]) else LastOp(cfg, ops[..k], slot)
  {
  }

  /** A slot is tagged exactly when the last operation on it was a PutCap there, and then still holds its capref. */
  lemma {:induction false} SlotTrace(cfg: Config, m: Mem, ops: seq<Op>, slot: nat)
    requires IsMem(cfg, m) && AllFit(cfg, ops) && slot < cfg.NumPointers()
    ensures LeftInSlot(cfg, m, Run(cfg, m, ops), slot, LastOp(cfg, ops, slot))
    decreases |ops|
  {
    if ops == [] {
    } else {
      var k := |ops| - 1;
      LastOpUnfolds(cfg, ops, slot);
      if EffectOf(cfg, ops[k]).Touches(slot) {
        StepLeaves(cfg, m, Run(cfg, m, ops[..k]), ops[k], slot);
      } else {
        SlotTrace(cfg, m, ops[..k], slot);
        StepKeeps(cfg, m, Run(cfg, m, ops[..k]), EffectOf(cfg, ops[k]), slot, LastOp(cfg, ops[..k], slot));
      }
    }
  }

  /** A load from a slot that holds a capref yields that capref. */
  lemma LoadTagged(cfg: Config, m: Mem, c: Capability, offset: int, r: capref)
    requires IsMem(cfg, m)
    requires Denied(cfg, c, c.Readable(), offset, 8) == None
    requires (c.base + offset) % 8 == 0 && (c.base + offset) / 8 in m.tags
    requires !cfg.Exceeds(c.base + offset + 8, cfg.Size())
    requires SlotBytes(m, (c.base + offset) / 8) == StoredBytes(r)
    ensures GetResponse(cfg, m, c, offset) == Loaded(r)
  {
    var addr := c.base + offset;
    assert m.data[addr..addr + 8] == SlotBytes(m, addr / 8);
    StoreLoadRoundTrip(r);
  }

  lemma LoadUntagged(cfg: Config, m: Mem, c: Capability, offset: int)
    requires IsMem(cfg, m)
    requires Denied(cfg, c, c.Readable(), offset, 8) == None
    requires (c.base + offset) % 8 != 0 || (c.base + offset) / 8 !in m.tags
    ensures GetResponse(cfg, m, c, offset) == Failure(NoAccess)
  {
  }

  /** The last operation put capref r at the address. */
  predicate PutLast(last: Option<Op>, addr: nat, r: capref) {
    last.Some? && Puts(last.value, addr, r)
  }

  lemma UnalignedIsNeverPut(cfg: Config, ops: seq<Op>, addr: nat, r: capref)
    requires AllFit(cfg, ops) && addr % 8 != 0
    ensures !PutLast(LastOp(cfg, ops, addr / 8), addr, r)
  {
  }

  /** What a load yields, from what the last operation left in its slot. */
  lemma LoadLeft(cfg: Config, m: Mem, c: Capability, offset: int, last: Option<Op>, r: capref)
    requires IsMem(cfg, m)
    requires Denied(cfg, c, c.Readable(), offset, 8) == None && (c.base + offset) / 8 < cfg.NumPointers()
    requires LeftInSlot(cfg, ZeroMem(cfg), m, (c.base + offset) / 8, last)
    ensures GetResponse(cfg, m, c, offset) == Loaded(r) <==> PutLast(last, c.base + offset, r)
    ensures GetResponse(cfg, m, c, offset) == Failure(NoAccess)
            <==> !(last.Some? && last.value.PutCap? && (c.base + offset) % 8 == 0)
  {
    if last.Some? && last.value.PutCap? && (c.base + offset) % 8 == 0 {
      LoadTagged(cfg, m, c, offset, last.value.stored);
    } else {
      LoadUntagged(cfg, m, c, offset);
    }
  }

  /** Behind the end of the store only unaligned addresses trip no assertion, and nothing is ever loaded. */
  lemma LoadBeyond(cfg: Config, m: Mem, ops: seq<Op>, c: Capability, offset: int, r: capref)
    requires IsMem(cfg, m) && AllFit(cfg, ops) && GetFits(cfg, c, offset)
    requires Denied(cfg, c, c.Readable(), offset, 8) == None && (c.base + offset) / 8 >= cfg.NumPointers()
    ensures GetResponse(cfg, m, c, offset) == Failure(NoAccess)
    ensures (c.base + offset) % 8 != 0
    ensures !PutLast(LastOp(cfg, ops, (c.base + offset) / 8), c.base + offset, r)
  {
    SlotOfAddress(cfg, c.base + offset);
    LoadUntagged(cfg, m, c, offset);
    UnalignedIsNeverPut(cfg, ops, c.base + offset, r);
  }

  /**
   From a zeroed memory, after any run: a readable, in-range load through any capability yields
   r exactly when the last operation to touch its slot was a PutCap of r at exactly its address,
   and is refused access exactly when it was not a PutCap at that address.
   */
  lemma GetCapTrace(cfg: Config, ops: seq<Op>, c: Capability, offset: int, r: capref)
    requires cfg.Valid() && AllFit(cfg, ops) && GetFits(cfg, c, offset)
    requires Denied(cfg, c, c.Readable(), offset, 8) == None
    ensures var addr := c.base + offset;
            var last := LastOp(cfg, ops, addr / 8);
            var response := GetResponse(cfg, Run(cfg, ZeroMem(cfg), ops), c, offset);
            && (response == Loaded(r) <==> PutLast(last, addr, r))
            && (response == Failure(NoAccess) <==> !(last.Some? && last.value.PutCap? && addr % 8 == 0))
  {
    var m, slot := Run(cfg, ZeroMem(cfg), ops), (c.base + offset) / 8;
    if slot < cfg.NumPointers() {
      SlotTrace(cfg, ZeroMem(cfg), ops, slot);
      LoadLeft(cfg, m, c, offset, LastOp(cfg, ops, slot), r);
    } else {
      LoadBeyond(cfg, m, ops, c, offset, r);
    }
  }

  /**
   The file's own statement of it: after any operations on a freshly created file, GetCap of a
   capref loads r exactly when a PutCap of r at that address was the last to touch the slot.
   */
  lemma GetCapTraceOnFile(cfg: Config, ops: seq<Op>, img: seq<byte>, cap: capref, offset: int, r: capref)
    requires Leads(cfg, Zeros(cfg.TotalSize()), ops, img) && GetFits(cfg, FromCapref(cap), offset)
    requires Denied(cfg, FromCapref(cap), FromCapref(cap).Readable(), offset, 8) == None
    ensures var addr := FromCapref(cap).base + offset;
            Respond(cfg, Abs(cfg, img), Op.GetCap(cap, offset)) == Loaded(r)
            <==> PutLast(LastOp(cfg, ops, addr / 8), addr, r)
  {
    var c := FromCapref(cap);
    assert Abs(cfg, img) == Run(cfg, ZeroMem(cfg), ops) by {
      ZeroImageIsUntagged(cfg);
    }
    assert Respond(cfg, Abs(cfg, img), Op.GetCap(cap, offset)) == GetResponse(cfg, Abs(cfg, img), c, offset);
    GetCapTrace(cfg, ops, c, offset, r);
  }

  /** Put, then get at the same address through any readable capability: the capref comes back bit for bit. */
  lemma PutThenGet(cfg: Config, m: Mem, into: capref, at: int, r: capref, from: capref, offset: int)
    requires IsMem(cfg, m)
    requires Respond(cfg, m, Op.PutCap(into, at, r)) == Done
    requires Denied(cfg, FromCapref(from), FromCapref(from).Readable(), offset, 8) == None
    requires FromCapref(into).base + at == FromCapref(from).base + offset
    ensures Respond(cfg, Step(cfg, m, Op.PutCap(into, at, r)), Op.GetCap(from, offset)) == Loaded(r)
  {
    var after := Step(cfg, m, Op.PutCap(into, at, r));
    var addr := FromCapref(into).base + at;
    assert EffectOf(cfg, Op.PutCap(into, at, r)) == Store(addr, StoredBytes(r));
    assert SlotBytes(after, addr / 8) == StoredBytes(r);
    LoadTagged(cfg, after, FromCapref(from), offset, r);
  }

  /** The byte last stored at an address, or the initial byte if there is none. */
  function ByteAfter(cfg: Config, m: Mem, ops: seq<Op>, addr: nat): byte
    requires IsMem(cfg, m) && AllFit(cfg, ops) && addr < cfg.Size()
  {
    match LastByte(cfg, ops, addr)
    case Some(b) => b
    case None => m.data[addr]
  }

  /** Every byte of the memory is the one last stored at its address. */
  lemma {:induction false} ByteTrace(cfg: Config, m: Mem, ops: seq<Op>, addr: nat)
    requires IsMem(cfg, m) && AllFit(cfg, ops) && addr < cfg.Size()
    ensures Run(cfg, m, ops).data[addr] == ByteAfter(cfg, m, ops, addr)
    decreases |ops|
  {
    if ops == [] {
    } else {
      var k := |ops| - 1;
      ByteTrace(cfg, m, ops[..k], addr);
      assert Run(cfg, m, ops) == Apply(cfg, Run(cfg, m, ops[..k]), EffectOf(cfg, ops[k]));
    }
  }

  /**
   Read after write, over any interleaving and however the capabilities used overlap: an
   accepted Read returns at each position the byte last stored at its absolute address.
   */
  lemma ReadTrace(cfg: Config, m: Mem, ops: seq<Op>, cap: capref, offset: int, len: nat)
    requires IsMem(cfg, m) && AllFit(cfg, ops)
    requires Denied(cfg, FromCapref(cap), FromCapref(cap).Readable(), offset, len) == None
    requires !cfg.Exceeds(FromCapref(cap).base + offset + len, cfg.Size())
    ensures var addr := FromCapref(cap).base + offset;
            var response := Respond(cfg, Run(cfg, m, ops), Op.Read(cap, offset, len));
            && response.Data?
            && |response.bytes| == len
            && forall b: nat | addr <= b < addr + len ::
                 response.bytes[b - addr] == ByteAfter(cfg, m, ops, b)
  {
    var addr := FromCapref(cap).base + offset;
    var data := Run(cfg, m, ops).data;
    assert Respond(cfg, Run(cfg, m, ops), Op.Read(cap, offset, len)) == Data(data[addr..addr + len]);
    forall b: nat | addr <= b < addr + len
      ensures data[b] == ByteAfter(cfg, m, ops, b)
    {
      ByteTrace(cfg, m, ops, b);
    }
  }
}
