/**
 What a client is told and what it finds afterwards, operation by operation: when each answer is
 given, and every byte and tag of the memory, in terms of the capref, the arguments and the
 memory alone.
 */
module Answers {
  import opened Words
  import opened Capabilities
  import opened Layout
  import opened TaggedMemory

  /** A range may end before a limit, and at it under the reading that accepts that. */
  predicate EndsWithin(cfg: Config, end: nat, limit: nat) {
    end < limit || (end == limit && cfg.bounds.AcceptAtLimit?)
  }

  /** The range lies in the capability; in the store, if the capability does. */
  predicate InCapability(cfg: Config, c: Capability, offset: int, len: nat) {
    offset >= 0 && EndsWithin(cfg, offset + len, c.size)
  }

  predicate InBoth(cfg: Config, c: Capability, offset: int, len: nat) {
    InCapability(cfg, c, offset, len) && EndsWithin(cfg, c.base + offset + len, cfg.Size())
  }

  // --- caprefs

  lemma WordOfFields(w: u64)
    ensures var c := Decompress(w);
            w == c.perms * TWO_TO_THE_56 + c.sizeBits * TWO_TO_THE_48 + c.base && c.base < TWO_TO_THE_48
  {
    var hi := w / TWO_TO_THE_48;
    assert w == hi * TWO_TO_THE_48 + w % TWO_TO_THE_48;
    assert hi == hi / 256 * 256 + hi % 256;
    assert hi / 256 == w / TWO_TO_THE_56;
  }

  /**
   What a capref names: its word, unsalted, holds 48 bits of base, 8 of the size and 8 of
   permissions, and the size has one bit, the one its field names.
   */
  lemma CaprefNames(cap: capref, k: nat)
    ensures var c := FromCapref(cap);
            && Xor(cap, 0xAAAA_AAAA_AAAA_AAAA) == c.perms * TWO_TO_THE_56 + c.sizeBits * TWO_TO_THE_48 + c.base
            && c.base < TWO_TO_THE_48
            && (Bit(c.size, k) <==> k == c.sizeBits % 64)
  {
    Salted(cap);
    var w: u64 := Xor(cap, SALT);
    WordOfFields(w);
    Pow2Bits(Decompress(w).sizeBits % 64, k);
  }

  /** What is stored for a capref is its word, unsalted. */
  lemma StoredWord(r: capref)
    ensures Word(StoredBytes(r)) == Xor(r, 0xAAAA_AAAA_AAAA_AAAA)
  {
    Salted(r);
    CompressDecompress(Xor(r, SALT));
    Word64RoundTrip(Xor(r, SALT));
  }

  lemma LoadedWord(b: seq<byte>)
    requires |b| == 8
    ensures Word(b) == Xor(LoadedCapref(b), 0xAAAA_AAAA_AAAA_AAAA)
  {
    LoadStoreRoundTrip(b);
    StoredWord(LoadedCapref(b));
  }

  // --- the operations: permission bits are 1 for READ and 2 for WRITE

  lemma ReadAnswers(cfg: Config, m: Mem, cap: capref, offset: int, len: nat)
    requires IsMem(cfg, m)
    ensures var c := FromCapref(cap);
            var response := Respond(cfg, m, Op.Read(cap, offset, len));
            && (response == Failure(NoAccess) <==> !Bit(c.perms, 1))
            && (response.Data? <==> Bit(c.perms, 1) && InBoth(cfg, c, offset, len))
            && (response.Data? || response == Failure(Failed) || response == Failure(NoAccess))
            && (response.Data? ==>
                  && |response.bytes| == len
                  && forall i: nat | i < len :: response.bytes[i] == m.data[c.base + offset + i])
  {
    var c := FromCapref(cap);
    assert Respond(cfg, m, Op.Read(cap, offset, len)) == ReadResponse(cfg, m, c, offset, len);
  }

  lemma GetAnswers(cfg: Config, m: Mem, cap: capref, offset: int)
    requires IsMem(cfg, m)
    ensures var c := FromCapref(cap);
            var addr := c.base + offset;
            var response := Respond(cfg, m, Op.GetCap(cap, offset));
            && (response == Failure(NoAccess) <==>
                  !Bit(c.perms, 1) || (InCapability(cfg, c, offset, 8) && !(addr % 8 == 0 && addr / 8 in m.tags)))
            && (response.Loaded? <==>
                  Bit(c.perms, 1) && InBoth(cfg, c, offset, 8) && addr % 8 == 0 && addr / 8 in m.tags)
            && (response.Loaded? || response == Failure(Failed) || response == Failure(NoAccess))
            && (response.Loaded? ==>
                  Word(m.data[addr..addr + 8]) == Xor(response.cap, 0xAAAA_AAAA_AAAA_AAAA))
  {
    var c := FromCapref(cap);
    var response := GetResponse(cfg, m, c, offset);
    assert Respond(cfg, m, Op.GetCap(cap, offset)) == response;
    if response.Loaded? {
      LoadedWord(m.data[c.base + offset..c.base + offset + 8]);
    }
  }

  lemma PutAnswers(cfg: Config, m: Mem, cap: capref, offset: int, stored: capref)
    requires IsMem(cfg, m)
    ensures var c := FromCapref(cap);
            var response := Respond(cfg, m, Op.PutCap(cap, offset, stored));
            && (response == Failure(NoAccess) <==> !Bit(c.perms, 2))
            && (response == Done <==> Bit(c.perms, 2) && InBoth(cfg, c, offset, 8) && (c.base + offset) % 8 == 0)
            && (response == Done || response == Failure(Failed) || response == Failure(NoAccess))
  {
    assert Respond(cfg, m, Op.PutCap(cap, offset, stored)) == PutResponse(cfg, FromCapref(cap), offset);
  }

  lemma WriteAnswers(cfg: Config, m: Mem, cap: capref, offset: int, bytes: seq<byte>)
    requires IsMem(cfg, m)
    ensures var c := FromCapref(cap);
            var response := Respond(cfg, m, Op.Write(cap, offset, bytes));
            && (response == Failure(NoAccess) <==> !Bit(c.perms, 2))
            && (response == Written(|bytes|) <==> Bit(c.perms, 2) && InBoth(cfg, c, offset, |bytes|))
            && (response == Written(|bytes|) || response == Failure(Failed) || response == Failure(NoAccess))
  {
    assert Respond(cfg, m, Op.Write(cap, offset, bytes)) == WriteResponse(cfg, FromCapref(cap), offset, |bytes|);
  }

  lemma ZeroAnswers(cfg: Config, m: Mem, cap: capref)
    requires IsMem(cfg, m)
    ensures Respond(cfg, m, Op.Zero(cap)) == if Bit(FromCapref(cap).perms, 2) then Done else Failure(NoAccess)
  {
    assert Respond(cfg, m, Op.Zero(cap)) == ZeroResponse(FromCapref(cap));
  }

  // --- what they leave

  lemma PutMemory(cfg: Config, m: Mem, c: Capability, offset: int, stored: capref, b: nat, s: nat)
    requires IsMem(cfg, m) && b < cfg.Size()
    ensures var addr := c.base + offset;
            var after := Apply(cfg, m, PutEffect(cfg, c, offset, stored));
            var done := PutResponse(cfg, c, offset) == Done;
            && after.data[b] == (if done && addr <= b < addr + 8 then StoredBytes(stored)[b - addr] else m.data[b])
            && (s in after.tags <==> s in m.tags || (done && addr == 8 * s))
  {
    if PutResponse(cfg, c, offset) == Done {
      var bytes := StoredBytes(stored);
      assert PutEffect(cfg, c, offset, stored) == Store(c.base + offset, bytes);
    } else {
      assert PutEffect(cfg, c, offset, stored) == Nothing;
    }
  }

  /** A put that is accepted stores the eight bytes and the tag; any other changes nothing. */
  lemma PutLeaves(cfg: Config, m: Mem, cap: capref, offset: int, stored: capref, b: nat, s: nat)
    requires IsMem(cfg, m) && b < cfg.Size()
    ensures var addr := FromCapref(cap).base + offset;
            var after := Step(cfg, m, Op.PutCap(cap, offset, stored));
            var done := Respond(cfg, m, Op.PutCap(cap, offset, stored)) == Done;
            && after.data[b] == (if done && addr <= b < addr + 8 then StoredBytes(stored)[b - addr] else m.data[b])
            && (s in after.tags <==> s in m.tags || (done && addr == 8 * s))
  {
    var c := FromCapref(cap);
    assert Step(cfg, m, Op.PutCap(cap, offset, stored)) == Apply(cfg, m, PutEffect(cfg, c, offset, stored));
    assert Respond(cfg, m, Op.PutCap(cap, offset, stored)) == PutResponse(cfg, c, offset);
    PutMemory(cfg, m, c, offset, stored, b, s);
  }

  /** The write stores its bytes. */
  predicate Stores(cfg: Config, c: Capability, offset: int, len: nat) {
    Bit(c.perms, 2) && InBoth(cfg, c, offset, len)
  }

  /** The write of a range untags the slot: one that shares a byte with it, or that an empty range falls inside. */
  ghost predicate Untags(cfg: Config, c: Capability, offset: int, len: nat, s: nat) {
    && Bit(c.perms, 2) && InCapability(cfg, c, offset, len)
    && var from := c.base + offset;
       Overlaps(from, from + len, s) || (len == 0 && 8 * s < from < 8 * s + 8)
  }

  lemma WriteMemory(cfg: Config, m: Mem, c: Capability, offset: int, bytes: seq<byte>, b: nat, s: nat)
    requires IsMem(cfg, m) && WriteFits(cfg, c, offset, |bytes|) && b < cfg.Size()
    ensures var from := c.base + offset;
            var after := Apply(cfg, m, WriteEffect(cfg, c, offset, bytes));
            && after.data[b] == (if Stores(cfg, c, offset, |bytes|) && from <= b < from + |bytes| then bytes[b - from]
                                 else m.data[b])
            && (s in after.tags <==> s in m.tags && !Untags(cfg, c, offset, |bytes|, s))
  {
    if InCapability(cfg, c, offset, |bytes|) {
      TouchedAreOverlapping(c.base + offset, c.base + offset + |bytes|, s);
    }
  }

  /**
   A write whose range lies in the capability untags the slots that share a byte with the range,
   or, if it is empty, the slot it falls inside. It stores its bytes if the store accepts it too.
   */
  lemma WriteLeaves(cfg: Config, m: Mem, cap: capref, offset: int, bytes: seq<byte>, b: nat, s: nat)
    requires IsMem(cfg, m) && OpFits(cfg, Op.Write(cap, offset, bytes)) && b < cfg.Size()
    ensures var c := FromCapref(cap);
            var from := c.base + offset;
            var after := Step(cfg, m, Op.Write(cap, offset, bytes));
            && after.data[b] == (if Stores(cfg, c, offset, |bytes|) && from <= b < from + |bytes| then bytes[b - from]
                                 else m.data[b])
            && (s in after.tags <==> s in m.tags && !Untags(cfg, c, offset, |bytes|, s))
  {
    var c := FromCapref(cap);
    assert Step(cfg, m, Op.Write(cap, offset, bytes)) == Apply(cfg, m, WriteEffect(cfg, c, offset, bytes));
    WriteMemory(cfg, m, c, offset, bytes, b, s);
  }

  /** Where the chunk of 256 bytes ends that holds byte b of the capability; the last may be shorter. */
  function ChunkEnd(c: Capability, b: nat): (end: nat)
    requires c.Contains(b)
    ensures b - c.base < end <= c.size
  {
    var next := ((b - c.base) / 256 + 1) * 256;
    if next < c.size then next else c.size
  }

  /** The chunk of byte b is untagged, and zeroed. */
  predicate ChunkCleared(cfg: Config, c: Capability, b: nat) {
    Bit(c.perms, 2) && c.Contains(b) && EndsWithin(cfg, ChunkEnd(c, b), c.size)
  }

  predicate ChunkZeroed(cfg: Config, c: Capability, b: nat) {
    ChunkCleared(cfg, c, b) && EndsWithin(cfg, c.base + ChunkEnd(c, b), cfg.Size())
  }

  lemma LastChunkStart(size: nat)
    requires size > 0
    ensures AllButLastChunk(size) == (size - 1) / 256 * 256
  {
    LastChunkAt(size, (size - 1) / 256);
  }

  lemma ChunksBefore(x: nat, size: nat)
    requires x < size
    ensures (x / 256 + 1) * 256 < size <==> x < (size - 1) / 256 * 256
    ensures (x / 256 + 1) * 256 == (size - 1) / 256 * 256 <==> x / 256 == (size - 1) / 256 - 1
    ensures (x / 256 + 1) * 256 <= (size - 1) / 256 * 256 <==> x < (size - 1) / 256 * 256
  {
  }

  /** The cleared chunks are those before the length that the capability's check lets through. */
  lemma ClearedIsChecked(cfg: Config, c: Capability, b: nat)
    requires c.Contains(b) && Bit(c.perms, 2)
    ensures ChunkCleared(cfg, c, b) <==> b < c.base + CheckedLength(cfg, c.size)
  {
    LastChunkStart(c.size);
    ChunksBefore(b - c.base, c.size);
  }

  /** How much of the cleared part the store lets be zeroed: all but a last chunk that ends where the store does. */
  function ZeroedLength(cfg: Config, c: Capability): nat
    requires c.size > 0
  {
    var len := CheckedLength(cfg, c.size);
    if cfg.bounds.RefuseAtLimit? && c.base + len == cfg.Size() && len >= 256 then len - 256 else len
  }

  lemma ZeroedIsAccepted(cfg: Config, c: Capability, b: nat)
    requires ZeroFits(cfg, c) && c.Contains(b) && Bit(c.perms, 2)
    ensures ChunkZeroed(cfg, c, b) <==> b < c.base + ZeroedLength(cfg, c)
  {
    ClearedIsChecked(cfg, c, b);
    LastChunkStart(c.size);
    ChunksBefore(b - c.base, c.size);
  }

  lemma ZeroedBytes(cfg: Config, m: Mem, c: Capability, b: nat)
    requires IsMem(cfg, m) && ZeroFits(cfg, c) && b < cfg.Size()
    ensures Apply(cfg, m, ZeroEffect(cfg, c)).data[b] == if ChunkZeroed(cfg, c, b) then 0 else m.data[b]
  {
    if c.Contains(b) && Bit(c.perms, 2) {
      ZeroedIsAccepted(cfg, c, b);
    }
  }

  lemma UntaggedSlots(cfg: Config, m: Mem, c: Capability, s: nat)
    requires IsMem(cfg, m) && ZeroFits(cfg, c)
    ensures s in Apply(cfg, m, ZeroEffect(cfg, c)).tags
            <==> s in m.tags && !exists b: nat :: ChunkCleared(cfg, c, b) && InSlot(b, s)
  {
    var len := CheckedLength(cfg, c.size);
    if c.Writable() && len > 0 {
      TouchedAreOverlapping(c.base, c.base + len, s);
      forall b: nat | c.Contains(b)
        ensures ChunkCleared(cfg, c, b) <==> b < c.base + len
      {
        ClearedIsChecked(cfg, c, b);
      }
    }
  }

  /**
   Zeroing goes chunk by chunk: a byte is zeroed exactly when its chunk of 256 bytes passes both
   range checks, a slot untagged exactly when it shares a byte with a chunk that passes the first.
   */
  lemma ZeroLeaves(cfg: Config, m: Mem, cap: capref, b: nat, s: nat)
    requires IsMem(cfg, m) && OpFits(cfg, Op.Zero(cap)) && b < cfg.Size()
    ensures var c := FromCapref(cap);
            var after := Step(cfg, m, Op.Zero(cap));
            && after.data[b] == (if ChunkZeroed(cfg, c, b) then 0 else m.data[b])
            && (s in after.tags <==> s in m.tags && !exists x: nat :: ChunkCleared(cfg, c, x) && InSlot(x, s))
  {
    var c := FromCapref(cap);
    assert Step(cfg, m, Op.Zero(cap)) == Apply(cfg, m, ZeroEffect(cfg, c));
    ZeroedBytes(cfg, m, c, b);
    UntaggedSlots(cfg, m, c, s);
  }

  // --- the root capability

  /** It names the whole store, and has the READ, WRITE and EXEC permissions and no other. */
  lemma RootNames(cfg: Config, k: nat)
    requires cfg.Valid()
    ensures var c := FromCapref(ToCapref(RootCapability(cfg)));
            && c.base == 0
            && c.size == cfg.Size()
            && (Bit(c.perms, k) <==> 1 <= k <= 3)
  {
    CapabilityRoundTrip(RootCapability(cfg));
    assert cfg.sizeBits % 64 == cfg.sizeBits;
    if k > 3 {
      assert Bit(14, k) == Bit(7, k - 1) == Bit(3, k - 2) == Bit(1, k - 3) == Bit(0, k - 4);
      ZeroHasNoBits(k - 4);
    }
  }

  /** Through it no operation is ever refused for want of a permission; a load still needs a tag. */
  lemma RootIsPermitted(cfg: Config, m: Mem, op: Op)
    requires IsMem(cfg, m) && op.cap == ToCapref(RootCapability(cfg))
    ensures Respond(cfg, m, op) == Failure(NoAccess) ==> op.GetCap? && !(op.offset % 8 == 0 && op.offset / 8 in m.tags)
  {
    RootNames(cfg, 1);
    RootNames(cfg, 2);
    match op
    case PutCap(cap, offset, stored) => PutAnswers(cfg, m, cap, offset, stored);
    case GetCap(cap, offset) => GetAnswers(cfg, m, cap, offset);
    case Read(cap, offset, len) => ReadAnswers(cfg, m, cap, offset, len);
    case Write(cap, offset, bytes) => WriteAnswers(cfg, m, cap, offset, bytes);
    case Zero(cap) => ZeroAnswers(cfg, m, cap);
  }
}
