/**
 What operations cannot do: reach outside the capability used, leave a tag over written bytes,
 interfere from disjoint slots, or change anything when they fail.
 */
module Isolation {
  import opened Words
  import opened Capabilities
  import opened Layout
  import opened TaggedMemory
  import Traces

  /** The operation names a writable capability that contains the address. */
  predicate MayWrite(op: Op, addr: nat) {
    (op.PutCap? || op.Write? || op.Zero?) && FromCapref(op.cap).Writable() && FromCapref(op.cap).Contains(addr)
  }

  /** An effect stays within the capability that allowed it. */
  lemma EffectInside(cfg: Config, op: Op, addr: nat)
    requires OpFits(cfg, op) && EffectOf(cfg, op).Covers(addr)
    ensures MayWrite(op, addr)
  {
  }

  /** A slot it touches has an address in common with the capability. */
  lemma TouchInside(cfg: Config, op: Op, slot: nat)
    requires OpFits(cfg, op) && EffectOf(cfg, op).Touches(slot)
    ensures exists addr: nat :: InSlot(addr, slot) && MayWrite(op, addr)
  {
    var e, c := EffectOf(cfg, op), FromCapref(op.cap);
    assert c.size > 0;
    // The first address the slot and the effect share; an empty write may lie just past the capability.
    var addr := if 8 * slot < c.base then c.base
                else if e.addr <= 8 * slot then 8 * slot
                else if e.addr < c.End() then e.addr
                else c.End() - 1;
    assert InSlot(addr, slot) && MayWrite(op, addr);
  }

  /** Over any run, a byte changes only if some operation of the run was allowed to write it. */
  lemma {:induction false} DataConfined(cfg: Config, m: Mem, ops: seq<Op>, addr: nat)
    requires IsMem(cfg, m) && AllFit(cfg, ops) && addr < cfg.Size()
    requires Run(cfg, m, ops).data[addr] != m.data[addr]
    ensures exists op :: op in ops && MayWrite(op, addr)
    decreases |ops|
  {
    var k := |ops| - 1;
    if EffectOf(cfg, ops[k]).Covers(addr) {
      EffectInside(cfg, ops[k], addr);
      assert ops[k] in ops;
    } else {
      assert Run(cfg, m, ops) == Apply(cfg, Run(cfg, m, ops[..k]), EffectOf(cfg, ops[k]));
      DataConfined(cfg, m, ops[..k], addr);
    }
  }

  /** Over any run, a tag changes only if some operation was allowed to write into its slot. */
  lemma {:induction false} TagsConfined(cfg: Config, m: Mem, ops: seq<Op>, slot: nat)
    requires IsMem(cfg, m) && AllFit(cfg, ops) && slot < cfg.NumPointers()
    requires (slot in Run(cfg, m, ops).tags) != (slot in m.tags)
    ensures exists op, addr: nat :: op in ops && InSlot(addr, slot) && MayWrite(op, addr)
    decreases |ops|
  {
    var k := |ops| - 1;
    var e := EffectOf(cfg, ops[k]);
    if e.Touches(slot) {
      TouchInside(cfg, ops[k], slot);
      assert ops[k] in ops;
    } else {
      Traces.SlotKept(cfg, Run(cfg, m, ops[..k]), e, slot);
      TagsConfined(cfg, m, ops[..k], slot);
    }
  }

  /** A bitmap byte differs between two images only if the tag of a slot of its metadata word does. */
  lemma BitmapByteDiffers(cfg: Config, a: seq<byte>, b: seq<byte>, i: nat) returns (slot: nat)
    requires IsImage(cfg, a) && IsImage(cfg, b) && i < cfg.DataOffset() && a[i] != b[i]
    ensures slot < cfg.NumPointers() && slot / 32 == i / 4
    ensures (slot in Abs(cfg, a).tags) != (slot in Abs(cfg, b).tags)
  {
    SizeIsWholeWords(cfg);
    var w := i / 4;
    var x, y := WordsOf(cfg, a), WordsOf(cfg, b);
    if forall k: nat | k < 32 :: Bit(x[w], k) == Bit(y[w], k) {
      PowersOfTwo();
      BitsDetermineWord(x[w], y[w], 32);
      SameWordSameBytes(cfg, a, b, i);
      assert false;
    }
    var k: nat :| k < 32 && Bit(x[w], k) != Bit(y[w], k);
    slot := 32 * w + k;
    TagOfBit(x, w, k);
    TagOfBit(y, w, k);
  }

  /**
   File byte i stands for an address: it is its data byte, or a byte of the metadata word with
   the bit of its slot.
   */
  predicate StandsFor(cfg: Config, i: nat, addr: nat) {
    if i < cfg.DataOffset() then addr / 8 / 32 == i / 4 else i == cfg.DataOffset() + addr
  }

  /** The operation may write an address that file byte i stands for. */
  predicate AccountsFor(cfg: Config, op: Op, addr: nat, i: nat) {
    MayWrite(op, addr) && StandsFor(cfg, i, addr)
  }

  lemma BitmapConfined(cfg: Config, before: seq<byte>, ops: seq<Op>, after: seq<byte>, i: nat)
    requires Leads(cfg, before, ops, after) && i < cfg.DataOffset() && before[i] != after[i]
    ensures exists op, addr: nat :: op in ops && AccountsFor(cfg, op, addr, i)
  {
    var slot := BitmapByteDiffers(cfg, before, after, i);
    TagsConfined(cfg, Abs(cfg, before), ops, slot);
    var op, addr: nat :| op in ops && InSlot(addr, slot) && MayWrite(op, addr);
    assert addr / 8 == slot;
    assert AccountsFor(cfg, op, addr, i);
  }

  lemma DataRegionConfined(cfg: Config, before: seq<byte>, ops: seq<Op>, after: seq<byte>, addr: nat)
    requires Leads(cfg, before, ops, after) && addr < cfg.Size()
    requires before[cfg.DataOffset() + addr] != after[cfg.DataOffset() + addr]
    ensures exists op :: op in ops && AccountsFor(cfg, op, addr, cfg.DataOffset() + addr)
  {
    var n := cfg.DataOffset();
    assert Abs(cfg, before).data[addr] == before[n + addr] && Abs(cfg, after).data[addr] == after[n + addr];
    DataConfined(cfg, Abs(cfg, before), ops, addr);
    var op :| op in ops && MayWrite(op, addr);
    assert AccountsFor(cfg, op, addr, n + addr);
  }

  /** Over any run, every byte of the file that changes, bitmap or data, is accounted for by an operation of the run. */
  lemma FileConfined(cfg: Config, before: seq<byte>, ops: seq<Op>, after: seq<byte>, i: nat)
    requires Leads(cfg, before, ops, after) && i < cfg.TotalSize() && before[i] != after[i]
    ensures exists op, addr: nat :: op in ops && AccountsFor(cfg, op, addr, i)
  {
    if i < cfg.DataOffset() {
      BitmapConfined(cfg, before, ops, after, i);
    } else {
      DataRegionConfined(cfg, before, ops, after, i - cfg.DataOffset());
    }
  }

  /**
   A write of any alignment and length: every slot that shares a byte with it loses its tag;
   every other slot keeps its bytes, and its tag too, unless the write is empty and falls
   inside that slot.
   */
  lemma WriteClearsOverlaps(cfg: Config, m: Mem, c: Capability, offset: int, bytes: seq<byte>, slot: nat)
    requires IsMem(cfg, m) && slot < cfg.NumPointers()
    requires WriteFits(cfg, c, offset, |bytes|) && WriteResponse(cfg, c, offset, |bytes|).Written?
    ensures var from := c.base + offset;
            var to := from + |bytes|;
            var after := Apply(cfg, m, WriteEffect(cfg, c, offset, bytes));
            && WriteResponse(cfg, c, offset, |bytes|) == Written(|bytes|)
            && after.data[from..to] == bytes
            && (Overlaps(from, to, slot) ==> slot !in after.tags)
            && (!Overlaps(from, to, slot) ==>
                  && SlotBytes(after, slot) == SlotBytes(m, slot)
                  && (slot in after.tags <==> slot in m.tags && !(from == to && 8 * slot < from < 8 * slot + 8)))
  {
    var from := c.base + offset;
    var to := from + |bytes|;
    var after := Apply(cfg, m, WriteEffect(cfg, c, offset, bytes));
    TouchedAreOverlapping(from, to, slot);
    if !Overlaps(from, to, slot) {
      forall i | 0 <= i < 8
        ensures SlotBytes(after, slot)[i] == SlotBytes(m, slot)[i]
      {
        assert InSlot(8 * slot + i, slot);
      }
    }
  }

  /** Effects on disjoint sets of slots. */
  ghost predicate Disjoint(e: Effect, f: Effect) {
    forall slot: nat :: !(e.Touches(slot) && f.Touches(slot))
  }

  lemma DisjointBytes(cfg: Config, e: Effect, f: Effect, addr: nat)
    requires e.Fits(cfg) && f.Fits(cfg) && Disjoint(e, f)
    ensures !(e.Covers(addr) && f.Covers(addr))
  {
    assert InSlot(addr, addr / 8);
    if e.Covers(addr) && f.Covers(addr) {
      if !e.Touches(addr / 8) {
        Traces.UntouchedSlot(cfg, e, addr / 8, addr);
      } else {
        Traces.UntouchedSlot(cfg, f, addr / 8, addr);
      }
    }
  }

  lemma TagsCommute(cfg: Config, m: Mem, e: Effect, f: Effect)
    requires IsMem(cfg, m) && e.Fits(cfg) && f.Fits(cfg) && Disjoint(e, f)
    ensures Apply(cfg, Apply(cfg, m, e), f).tags == Apply(cfg, Apply(cfg, m, f), e).tags
  {
    var x, y := Apply(cfg, Apply(cfg, m, e), f).tags, Apply(cfg, Apply(cfg, m, f), e).tags;
    forall slot: nat
      ensures slot in x <==> slot in y
    {
      assert !(e.Touches(slot) && f.Touches(slot));
    }
  }

  lemma DataCommutes(cfg: Config, m: Mem, e: Effect, f: Effect)
    requires IsMem(cfg, m) && e.Fits(cfg) && f.Fits(cfg) && Disjoint(e, f)
    ensures Apply(cfg, Apply(cfg, m, e), f).data == Apply(cfg, Apply(cfg, m, f), e).data
  {
    var x, y := Apply(cfg, Apply(cfg, m, e), f).data, Apply(cfg, Apply(cfg, m, f), e).data;
    forall addr: nat | addr < cfg.Size()
      ensures x[addr] == y[addr]
    {
      DisjointBytes(cfg, e, f, addr);
    }
  }

  lemma EffectsCommute(cfg: Config, m: Mem, e: Effect, f: Effect)
    requires IsMem(cfg, m) && e.Fits(cfg) && f.Fits(cfg) && Disjoint(e, f)
    ensures Apply(cfg, Apply(cfg, m, e), f) == Apply(cfg, Apply(cfg, m, f), e)
  {
    TagsCommute(cfg, m, e, f);
    DataCommutes(cfg, m, e, f);
  }

  lemma RunOfTwo(cfg: Config, m: Mem, p: Op, q: Op)
    requires IsMem(cfg, m) && OpFits(cfg, p) && OpFits(cfg, q)
    ensures AllFit(cfg, [p, q])
    ensures Run(cfg, m, [p, q]) == Step(cfg, Step(cfg, m, p), q)
  {
    assert [p, q][..1] == [p] && [p][..0] == [];
    assert Run(cfg, m, [p]) == Step(cfg, m, p);
  }

  /**
   Operations on disjoint sets of slots commute on the file itself, bitmap and data, even when
   their bits share a metadata word.
   */
  lemma OperationsCommute(cfg: Config, img: seq<byte>, p: Op, q: Op, pq: seq<byte>, qp: seq<byte>)
    requires Leads(cfg, img, [p, q], pq) && Leads(cfg, img, [q, p], qp)
    requires OpFits(cfg, p) && OpFits(cfg, q) && Disjoint(EffectOf(cfg, p), EffectOf(cfg, q))
    ensures pq == qp
  {
    var m := Abs(cfg, img);
    RunOfTwo(cfg, m, p, q);
    RunOfTwo(cfg, m, q, p);
    EffectsCommute(cfg, m, EffectOf(cfg, p), EffectOf(cfg, q));
    AbsIsInjective(cfg, pq, qp);
  }

  /** Two memories agree on what a capability covers of the store: its bytes, and the tags of the slots inside it. */
  ghost predicate AgreeWithin(c: Capability, m: Mem, n: Mem)
    requires |n.data| == |m.data|
  {
    && (forall b: nat | c.Contains(b) && b < |m.data| :: m.data[b] == n.data[b])
    && (forall s: nat | c.base <= 8 * s && 8 * s + 8 <= c.End() :: s in m.tags <==> s in n.tags)
  }

  lemma SameWithin(c: Capability, m: Mem, n: Mem, from: nat, to: nat)
    requires c.base <= from <= to <= c.End() && to <= |m.data| && |n.data| == |m.data|
    requires AgreeWithin(c, m, n)
    ensures m.data[from..to] == n.data[from..to]
  {
  }

  lemma LoadsConfined(cfg: Config, m: Mem, n: Mem, c: Capability, offset: int)
    requires IsMem(cfg, m) && IsMem(cfg, n) && AgreeWithin(c, m, n)
    ensures GetResponse(cfg, m, c, offset) == GetResponse(cfg, n, c, offset)
  {
    if Denied(cfg, c, c.Readable(), offset, 8) == None && !cfg.Exceeds(c.base + offset + 8, cfg.Size()) {
      SameWithin(c, m, n, c.base + offset, c.base + offset + 8);
    }
  }

  lemma ReadsConfined(cfg: Config, m: Mem, n: Mem, c: Capability, offset: int, len: nat)
    requires IsMem(cfg, m) && IsMem(cfg, n) && AgreeWithin(c, m, n)
    ensures ReadResponse(cfg, m, c, offset, len) == ReadResponse(cfg, n, c, offset, len)
  {
    if Denied(cfg, c, c.Readable(), offset, len) == None && !cfg.Exceeds(c.base + offset + len, cfg.Size()) {
      SameWithin(c, m, n, c.base + offset, c.base + offset + len);
    }
  }

  /** What an operation reports depends only on what its capability covers, and loading takes its READ permission. */
  lemma ResponsesConfined(cfg: Config, m: Mem, n: Mem, op: Op)
    requires IsMem(cfg, m) && IsMem(cfg, n)
    requires AgreeWithin(FromCapref(op.cap), m, n)
    ensures Respond(cfg, m, op) == Respond(cfg, n, op)
    ensures (op.GetCap? || op.Read?) && !Respond(cfg, m, op).Failure? ==> FromCapref(op.cap).Readable()
  {
    var c := FromCapref(op.cap);
    match op
    case GetCap(_, offset) => LoadsConfined(cfg, m, n, c, offset);
    case Read(_, offset, len) => ReadsConfined(cfg, m, n, c, offset, len);
    case _ =>
  }

  // --- failures

  lemma FirstSlotTouched(cfg: Config, from: nat, len: nat)
    requires cfg.Valid() && BitmapCovers(cfg, from, from + len) && (len > 0 || from % 8 != 0)
    ensures from / 8 in Touched(from, from + len) && from / 8 < cfg.NumPointers()
  {
    SizeIsWholeWords(cfg);
    assert from < cfg.Size() by {
      if from == cfg.Size() {
        MultiplesOf256(from, cfg.BitmapWords());
      }
    }
    SlotOfAddress(cfg, from);
  }

  lemma LateRefusalLosesATag(cfg: Config, c: Capability, offset: int, bytes: seq<byte>)
    requires cfg.Valid() && WriteFits(cfg, c, offset, |bytes|) && ClearsThenFails(cfg, c, offset, |bytes|)
    ensures var slot := (c.base + offset) / 8;
            && slot < cfg.NumPointers()
            && WriteResponse(cfg, c, offset, |bytes|) == Failure(Failed)
            && Apply(cfg, OneTag(cfg, slot), WriteEffect(cfg, c, offset, bytes)).tags == {}
  {
    var from := c.base + offset;
    FirstSlotTouched(cfg, from, |bytes|);
  }

  /**
   A write that reports an error leaves every memory as it was, exactly unless the store refuses
   its range after the tags are cleared: the capability's check passes, the range exceeds the
   store, and it is not an empty range at a slot's start.
   */
  lemma FailingWriteChangesNothing(cfg: Config, c: Capability, offset: int, bytes: seq<byte>)
    requires cfg.Valid() && WriteFits(cfg, c, offset, |bytes|)
    ensures (forall m | IsMem(cfg, m) ::
               WriteResponse(cfg, c, offset, |bytes|).Failure? ==> Apply(cfg, m, WriteEffect(cfg, c, offset, bytes)) == m)
            <==> !ClearsThenFails(cfg, c, offset, |bytes|)
  {
    if ClearsThenFails(cfg, c, offset, |bytes|) {
      LateRefusalLosesATag(cfg, c, offset, bytes);
      assert IsMem(cfg, OneTag(cfg, (c.base + offset) / 8));
    } else {
      forall m | IsMem(cfg, m)
        ensures WriteResponse(cfg, c, offset, |bytes|).Failure? ==> Apply(cfg, m, WriteEffect(cfg, c, offset, bytes)) == m
      {
        if WriteResponse(cfg, c, offset, |bytes|).Failure? {
          EarlyFailureKeeps(cfg, m, c, offset, bytes);
        }
      }
    }
  }

  /** Of all operations, only such a write can report an error and still have changed something. */
  lemma FailureChangesNothing(cfg: Config, op: Op)
    requires cfg.Valid() && OpFits(cfg, op)
    ensures (forall m | IsMem(cfg, m) :: Respond(cfg, m, op).Failure? ==> Step(cfg, m, op) == m)
            <==> !(op.Write? && ClearsThenFails(cfg, FromCapref(op.cap), op.offset, |op.bytes|))
  {
    if op.Write? {
      FailingWriteChangesNothing(cfg, FromCapref(op.cap), op.offset, op.bytes);
    }
  }

  /** Such a write exists: eight bytes at the end of the store, through a capability that reaches past it. */
  lemma WriteAtEndOfStoreFailsLate()
    ensures var cfg := Config(24, RefuseAtLimit);
            var c := Capability(0x80_0000, 0x100_0000, 24, 14);
            && FromCapref(ToCapref(c)) == c
            && cfg.Valid() && WriteFits(cfg, c, 0x7f_fff8, 8)
            && WriteResponse(cfg, c, 0x7f_fff8, 8) == Failure(Failed)
            && cfg.NumPointers() == 0x20_0000
            && Apply(cfg, OneTag(cfg, 0x1f_ffff), WriteEffect(cfg, c, 0x7f_fff8, Zeros(8))).tags == {}
  {
    var cfg := Config(24, RefuseAtLimit);
    var c := Capability(0x80_0000, 0x100_0000, 24, 14);
    PowersOfTwo();
    Pow2Of8More(8);
    Pow2Of8More(16);
    assert cfg.Size() == 0x100_0000 && SizeOf(24) == 0x100_0000;
    CapabilityRoundTrip(c);
    assert c.Writable();
    LateRefusalLosesATag(cfg, c, 0x7f_fff8, Zeros(8));
  }

  /**
   Write clears tags before the store itself checks the range. That check never refuses what
   the capability's check has accepted, exactly when the capability lies in the store.
   */
  lemma CapabilityCheckImpliesStoreCheck(cfg: Config, c: Capability)
    requires cfg.Valid() && c.size > 0
    ensures (forall end: nat :: !cfg.Exceeds(end, c.size) ==> !cfg.Exceeds(c.base + end, cfg.Size()))
            <==> c.End() <= cfg.Size()
  {
    var last: nat := if cfg.bounds.AcceptAtLimit? then c.size else c.size - 1;
    assert !cfg.Exceeds(last, c.size);
  }
}
