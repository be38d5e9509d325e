/**
 The assertions of the metadata accesses: each operation's precondition in the tagged memory is
 exactly that the file offset of every metadata word it accesses lies below the data region.
 */
module Assertions {
  import opened Capabilities
  import opened Layout
  import opened TaggedMemory

  /** What a metadata access asserts of the slot it is given. */
  predicate InBitmap(cfg: Config, ptr: nat) {
    PtrToOffset(ptr) < cfg.DataOffset()
  }

  /**
   The slots that an update of the slots first..ptrTo passes to the metadata accesses: the first
   one, when it lies inside a word, even if the range is empty, and then the start of each word.
   */
  predicate UpdateAccesses(first: nat, ptrTo: nat, ptr: nat) {
    (ptr == first && first % 32 != 0) || (ptr % 32 == 0 && first <= ptr < ptrTo)
  }

  predicate RangeAccesses(from: nat, to: nat, ptr: nat) {
    UpdateAccesses(FirstSlot(from), EndSlot(to), ptr)
  }

  /** The slots that a write passes to the metadata accesses. */
  predicate WriteAccesses(cfg: Config, c: Capability, offset: int, len: nat, ptr: nat) {
    Denied(cfg, c, c.Writable(), offset, len) == None && RangeAccesses(c.base + offset, c.base + offset + len, ptr)
  }

  /** Those that the write of chunk k passes to them. */
  predicate ChunkAccesses(cfg: Config, c: Capability, k: nat, ptr: nat) {
    256 * k < c.size && WriteAccesses(cfg, c, 256 * k, ChunkLength(c.size, 256 * k), ptr)
  }

  /** Those that an operation passes to them. */
  ghost predicate Accesses(cfg: Config, op: Op, ptr: nat) {
    var c := FromCapref(op.cap);
    match op
    case PutCap(_, offset, _) => PutResponse(cfg, c, offset) == Done && RangeAccesses(c.base + offset, c.base + offset + 8, ptr)
    case GetCap(_, offset) =>
      Denied(cfg, c, c.Readable(), offset, 8) == None && (c.base + offset) % 8 == 0 && ptr == (c.base + offset) / 8
    case Read(_, _, _) => false
    case Write(_, offset, b) => WriteAccesses(cfg, c, offset, |b|, ptr)
    case Zero(_) => exists k: nat :: ChunkAccesses(cfg, c, k, ptr)
  }

  lemma InBitmapIsInStore(cfg: Config, ptr: nat)
    requires cfg.Valid()
    ensures InBitmap(cfg, ptr) <==> ptr < cfg.NumPointers()
  {
    SlotAddressing(cfg, ptr, ptr, 0, 0);
  }

  /** Of a range the bitmap does not cover, an access outside the bitmap. */
  lemma AccessOutside(cfg: Config, from: nat, to: nat) returns (ptr: nat)
    requires cfg.Valid() && from <= to && !BitmapCovers(cfg, from, to)
    ensures RangeAccesses(from, to, ptr) && ptr >= cfg.NumPointers()
  {
    SizeIsWholeWords(cfg);
    ptr := if FirstSlot(from) <= cfg.NumPointers() then cfg.NumPointers() else FirstSlot(from);
    if ptr % 32 == 0 {
      assert from < to || from % 8 != 0;
    }
  }

  lemma AccessInside(cfg: Config, from: nat, to: nat, ptr: nat)
    requires cfg.Valid() && from <= to && BitmapCovers(cfg, from, to) && RangeAccesses(from, to, ptr)
    ensures ptr < cfg.NumPointers()
  {
    SizeIsWholeWords(cfg);
    if to > cfg.Size() {
      WordAlignedEmptyRange(from);
    }
  }

  /** The bitmap covers a range exactly when updating its tags accesses words of the bitmap only. */
  lemma CoversExactly(cfg: Config, from: nat, to: nat)
    requires cfg.Valid() && from <= to
    ensures BitmapCovers(cfg, from, to) <==> forall ptr: nat | RangeAccesses(from, to, ptr) :: InBitmap(cfg, ptr)
  {
    if BitmapCovers(cfg, from, to) {
      forall ptr: nat | RangeAccesses(from, to, ptr)
        ensures InBitmap(cfg, ptr)
      {
        AccessInside(cfg, from, to, ptr);
        InBitmapIsInStore(cfg, ptr);
      }
    } else {
      var ptr := AccessOutside(cfg, from, to);
      InBitmapIsInStore(cfg, ptr);
    }
  }

  lemma WriteFitsExactly(cfg: Config, c: Capability, offset: int, len: nat)
    requires cfg.Valid()
    ensures WriteFits(cfg, c, offset, len)
            <==> forall ptr: nat | WriteAccesses(cfg, c, offset, len, ptr) :: InBitmap(cfg, ptr)
  {
    if Denied(cfg, c, c.Writable(), offset, len) == None {
      CoversExactly(cfg, c.base + offset, c.base + offset + len);
    }
  }

  /** The last chunk that the capability's check lets through. */
  lemma LastCheckedChunk(cfg: Config, size: nat) returns (k: nat)
    requires size > 0 && CheckedLength(cfg, size) > 0
    ensures 256 * k < size && !cfg.Exceeds(256 * k + ChunkLength(size, 256 * k), size)
    ensures 256 * k + ChunkLength(size, 256 * k) == CheckedLength(cfg, size)
  {
    var last := (size - 1) / 256;
    LastChunkAt(size, last);
    k := if cfg.bounds.AcceptAtLimit? then last else last - 1;
  }

  lemma ZeroFitsExactly(cfg: Config, c: Capability)
    requires cfg.Valid() && c.size > 0
    ensures ZeroFits(cfg, c) <==> forall k: nat, ptr: nat | ChunkAccesses(cfg, c, k, ptr) :: InBitmap(cfg, ptr)
  {
    if ZeroFits(cfg, c) {
      forall k: nat, ptr: nat | ChunkAccesses(cfg, c, k, ptr)
        ensures InBitmap(cfg, ptr)
      {
        WriteOfChunk(cfg, c, 256 * k, k);
        WriteFitsExactly(cfg, c, 256 * k, ChunkLength(c.size, 256 * k));
      }
    } else {
      var k := LastCheckedChunk(cfg, c.size);
      WriteFitsExactly(cfg, c, 256 * k, ChunkLength(c.size, 256 * k));
      var ptr: nat :| WriteAccesses(cfg, c, 256 * k, ChunkLength(c.size, 256 * k), ptr) && !InBitmap(cfg, ptr);
      assert ChunkAccesses(cfg, c, k, ptr);
    }
  }

  lemma GetFitsExactly(cfg: Config, c: Capability, offset: int)
    requires cfg.Valid() && Denied(cfg, c, c.Readable(), offset, 8) == None
    ensures GetFits(cfg, c, offset) <==> (c.base + offset) % 8 == 0 ==> InBitmap(cfg, (c.base + offset) / 8)
  {
    SlotOfAddress(cfg, c.base + offset);
    InBitmapIsInStore(cfg, (c.base + offset) / 8);
  }

  /** What is required of an operation is exactly that none of its metadata accesses fails its assertion. */
  lemma OpFitsExactly(cfg: Config, op: Op)
    requires cfg.Valid()
    ensures OpFits(cfg, op) <==> forall ptr: nat | Accesses(cfg, op, ptr) :: InBitmap(cfg, ptr)
  {
    var c := FromCapref(op.cap);
    match op
    case PutCap(_, offset, _) =>
      if PutResponse(cfg, c, offset) == Done {
        CoversExactly(cfg, c.base + offset, c.base + offset + 8);
      }
    case GetCap(_, offset) =>
      if Denied(cfg, c, c.Readable(), offset, 8) == None {
        GetFitsExactly(cfg, c, offset);
        assert (c.base + offset) % 8 == 0 ==> Accesses(cfg, op, (c.base + offset) / 8);
      }
    case Read(_, _, _) =>
    case Write(_, offset, b) => WriteFitsExactly(cfg, c, offset, |b|);
    case Zero(_) => ZeroFitsExactly(cfg, c);
  }
}
