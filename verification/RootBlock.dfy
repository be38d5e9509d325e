/**
 Formatting a capability as a file system, and accepting it at initialisation: the root block
 is laid out in the first bytes, over a zeroed capability.
 */
module RootBlock {
  import opened Words
  import opened Capabilities
  import opened Layout
  import opened TaggedMemory
  import FileStore
  import Isolation
  import Zeroing
  import Answers

  // struct capfs_file as laid out on a 64-bit little-endian machine
  const OFFSET_MAGIC := 0
  const OFFSET_NAME := 8
  const OFFSET_TYPE := 136
  const OFFSET_SIZE := 152
  const OFFSET_VERSION := 160
  const OFFSET_HEADER := 162
  const BLOCK_SIZE := 184

  const MAGIC: u64 := 0x00ca_feba_be00
  // "CAP-FS " with its terminating NUL, and "/" with its
  const HEADER: seq<byte> := [0x43, 0x41, 0x50, 0x2d, 0x46, 0x53, 0x20, 0]
  const ROOT_NAME: seq<byte> := [0x2f, 0]

  /** The block that format writes. Its other fields, the version among them, keep what the stack held. */
  function FormattedBlock(stack: seq<byte>, size: u64): (block: seq<byte>)
    requires |stack| == BLOCK_SIZE
    ensures |block| == BLOCK_SIZE
  {
    Splice(Splice(Splice(Splice(stack, OFFSET_SIZE, Bytes(size, 8)),
                         OFFSET_MAGIC, Bytes(MAGIC, 8)),
                  OFFSET_NAME, ROOT_NAME),
           OFFSET_HEADER, HEADER)
  }

  datatype Status = Ok | Invalid | Error | Refused | Panicked

  /** The checks of init on the block it has read: the magic number, then the header, then the name. */
  function CheckBlock(block: seq<byte>): Status
    requires |block| == BLOCK_SIZE
  {
    if Word64(block[OFFSET_MAGIC..OFFSET_MAGIC + 8]) != MAGIC then Invalid
    else if block[OFFSET_HEADER..OFFSET_HEADER + 8] != HEADER then Error
    else if block[OFFSET_NAME..OFFSET_NAME + 2] != ROOT_NAME then Error
    else Ok
  }

  lemma MagicBytes()
    ensures Bytes(MAGIC, 8) == [0, 0xbe, 0xba, 0xfe, 0xca, 0, 0, 0]
  {
  }

  /**
   What init checks, byte by byte: the magic number in the first eight, little-endian; the header
   with its NUL from byte 162 on; and a name that is a slash and a NUL at byte 8.
   */
  lemma CheckBlockExactly(block: seq<byte>)
    requires |block| == BLOCK_SIZE
    ensures CheckBlock(block) == Invalid <==> block[0..8] != [0, 0xbe, 0xba, 0xfe, 0xca, 0, 0, 0]
    ensures CheckBlock(block) == Ok <==>
              && block[0..8] == [0, 0xbe, 0xba, 0xfe, 0xca, 0, 0, 0]
              && block[162..170] == [0x43, 0x41, 0x50, 0x2d, 0x46, 0x53, 0x20, 0]
              && block[8] == 0x2f && block[9] == 0
    ensures CheckBlock(block) in {Ok, Invalid, Error}
  {
    MagicBytes();
    Word64RoundTrip(MAGIC);
    BytesOfWord(block[0..8]);
    assert block[8..10] == [block[8], block[9]];
  }

  /** What format writes, byte by byte: magic number, name, size and header, and the stack everywhere else. */
  lemma FormattedBlockExactly(stack: seq<byte>, size: u64, i: nat)
    requires |stack| == BLOCK_SIZE && i < BLOCK_SIZE
    ensures FormattedBlock(stack, size)[i]
            == if i < 8 then [0, 0xbe, 0xba, 0xfe, 0xca, 0, 0, 0][i]
               else if i < 10 then [0x2f, 0][i - 8]
               else if 152 <= i < 160 then Bytes(size, 8)[i - 152]
               else if 162 <= i < 170 then [0x43, 0x41, 0x50, 0x2d, 0x46, 0x53, 0x20, 0][i - 162]
               else stack[i]
  {
    MagicBytes();
  }

  /** What format wrote is what init checks for, whatever was on the stack. */
  lemma FormattedBlockIsAccepted(stack: seq<byte>, size: u64)
    requires |stack| == BLOCK_SIZE
    ensures CheckBlock(FormattedBlock(stack, size)) == Ok
    ensures Word64(FormattedBlock(stack, size)[OFFSET_SIZE..OFFSET_SIZE + 8]) == size
  {
    var block := FormattedBlock(stack, size);
    assert block[OFFSET_MAGIC..OFFSET_MAGIC + 8] == Bytes(MAGIC, 8);
    assert block[OFFSET_SIZE..OFFSET_SIZE + 8] == Bytes(size, 8);
    assert block[OFFSET_HEADER..OFFSET_HEADER + 8] == HEADER;
    assert block[OFFSET_NAME..OFFSET_NAME + 2] == ROOT_NAME;
    Word64RoundTrip(MAGIC);
    Word64RoundTrip(size);
  }

  /** Format sets neither the file type nor the version: init accepts the block whatever they happen to be. */
  lemma TypeAndVersionAreLeftOver(stack: seq<byte>, size: u64)
    requires |stack| == BLOCK_SIZE
    ensures var block := FormattedBlock(stack, size);
            && block[OFFSET_TYPE..OFFSET_TYPE + 4] == stack[OFFSET_TYPE..OFFSET_TYPE + 4]
            && block[OFFSET_VERSION..OFFSET_VERSION + 2] == stack[OFFSET_VERSION..OFFSET_VERSION + 2]
  {
    var block := FormattedBlock(stack, size);
    assert block[OFFSET_TYPE..OFFSET_TYPE + 4] == stack[OFFSET_TYPE..OFFSET_TYPE + 4];
    assert block[OFFSET_VERSION..OFFSET_VERSION + 2] == stack[OFFSET_VERSION..OFFSET_VERSION + 2];
  }

  /** The assertions of the metadata accesses that format makes. */
  predicate FormatFits(cfg: Config, c: Capability) {
    ZeroFits(cfg, c) && WriteFits(cfg, c, 0, BLOCK_SIZE)
  }

  /** The memory after format has zeroed the capability and written the block. */
  function Formatted(cfg: Config, m: Mem, c: Capability, block: seq<byte>): (m': Mem)
    requires IsMem(cfg, m) && FormatFits(cfg, c) && |block| == BLOCK_SIZE
    ensures IsMem(cfg, m')
  {
    Apply(cfg, Apply(cfg, m, ZeroEffect(cfg, c)), WriteEffect(cfg, c, 0, block))
  }

  function FormatStatus(cfg: Config, c: Capability): Status {
    if !c.Writable() then Refused
    else if cfg.Exceeds(BLOCK_SIZE, c.size) || cfg.Exceeds(c.base + BLOCK_SIZE, cfg.Size()) then Error
    else Ok
  }

  /** Init formats first, and gives up the process when that fails. */
  function InitStatus(cfg: Config, c: Capability): Status {
    if !FormatStatus(cfg, c).Ok? then Panicked else if !c.Readable() then Invalid else Ok
  }

  /** When format and init report what. Permission bits are 1 for READ and 2 for WRITE. */
  lemma StatusExactly(cfg: Config, cap: capref)
    ensures var c := FromCapref(cap);
            var format, init := FormatStatus(cfg, c), InitStatus(cfg, c);
            && (format == Refused <==> !Bit(c.perms, 2))
            && (format == Ok <==> Bit(c.perms, 2) && Answers.InBoth(cfg, c, 0, 184))
            && format in {Ok, Refused, Error}
            && (init == Panicked <==> format != Ok)
            && (init == Ok <==> format == Ok && Bit(c.perms, 1))
            && init in {Ok, Panicked, Invalid}
  {
  }

  /** The root capability of every store is accepted. */
  lemma RootIsAccepted(cfg: Config)
    requires cfg.Valid()
    ensures var c := FromCapref(ToCapref(RootCapability(cfg)));
            FormatFits(cfg, c) && InitStatus(cfg, c) == Ok
  {
    Answers.RootNames(cfg, 1);
    Answers.RootNames(cfg, 2);
    Pow2Grows(8, cfg.sizeBits);
    PowersOfTwo();
    var root := ToCapref(RootCapability(cfg));
    CapFitsOpFits(cfg, Op.Zero(root));
  }

  /** What formatting requires is what its two operations require. */
  lemma FormatFitsExactly(cfg: Config, cap: capref, block: seq<byte>)
    requires |block| == BLOCK_SIZE
    ensures FormatFits(cfg, FromCapref(cap)) <==> AllFit(cfg, [Op.Zero(cap), Op.Write(cap, 0, block)])
  {
    var ops := [Op.Zero(cap), Op.Write(cap, 0, block)];
    assert ops[0] in ops && ops[1] in ops;
  }

  /** Formatting is zeroing the capability and writing the block at its start. */
  lemma FormattedIsRun(cfg: Config, m: Mem, cap: capref, block: seq<byte>)
    requires IsMem(cfg, m) && FormatFits(cfg, FromCapref(cap)) && |block| == BLOCK_SIZE
    ensures AllFit(cfg, [Op.Zero(cap), Op.Write(cap, 0, block)])
    ensures Formatted(cfg, m, FromCapref(cap), block) == Run(cfg, m, [Op.Zero(cap), Op.Write(cap, 0, block)])
  {
    Isolation.RunOfTwo(cfg, m, Op.Zero(cap), Op.Write(cap, 0, block));
  }

  /** What formatting leaves, whatever the capability: the block where it was accepted, zeros where chunks were, and fewer tags. */
  lemma FormattedLeaves(cfg: Config, m: Mem, cap: capref, block: seq<byte>, b: nat, s: nat)
    requires IsMem(cfg, m) && FormatFits(cfg, FromCapref(cap)) && |block| == BLOCK_SIZE && b < cfg.Size()
    ensures var c := FromCapref(cap);
            var after := Formatted(cfg, m, c, block);
            && after.data[b] == (if Answers.Stores(cfg, c, 0, 184) && c.base <= b < c.base + 184 then
                                   block[b - c.base]
                                 else if Answers.ChunkZeroed(cfg, c, b) then 0
                                 else m.data[b])
            && (s in after.tags <==>
                  && s in m.tags
                  && !(exists x: nat :: Answers.ChunkCleared(cfg, c, x) && InSlot(x, s))
                  && !Answers.Untags(cfg, c, 0, 184, s))
  {
    var zeroed := Step(cfg, m, Op.Zero(cap));
    FormattedIsRun(cfg, m, cap, block);
    Isolation.RunOfTwo(cfg, m, Op.Zero(cap), Op.Write(cap, 0, block));
    Answers.ZeroLeaves(cfg, m, cap, b, s);
    Answers.WriteLeaves(cfg, zeroed, cap, 0, block, b, s);
  }

  lemma SizeIsWholeChunks(bits: byte)
    ensures SizeOf(bits) <= 128 || (SizeOf(bits) >= 256 && SizeOf(bits) % 256 == 0)
  {
    PowersOfTwo();
    if bits % 64 < 8 {
      Pow2Grows(bits % 64, 7);
      assert 2 * Pow2(7) == Pow2(8);
    } else {
      Pow2Of8More(bits % 64 - 8);
    }
  }

  /**
   Init succeeds exactly on the readable and writable capabilities of at least 256 bytes whose
   first 184 bytes the store accepts: sizes are powers of two, so the reading of the checks
   against the size makes no difference. A capability in the store needs no more than that size.
   */
  lemma InitAcceptsExactly(cfg: Config, cap: capref)
    ensures var c := FromCapref(cap);
            && (InitStatus(cfg, c) == Ok <==>
                  c.Readable() && c.Writable() && c.size >= 256 && !cfg.Exceeds(c.base + BLOCK_SIZE, cfg.Size()))
            && (CapFits(cfg, cap) ==>
                  (InitStatus(cfg, c) == Ok <==> c.Readable() && c.Writable() && c.size >= 256))
  {
    SizeIsWholeChunks(FromCapref(cap).sizeBits);
  }

  /** No slot that shares a byte with the capability is tagged. */
  ghost predicate Untagged(m: Mem, c: Capability) {
    forall s: nat | s in m.tags :: !Overlaps(c.base, c.End(), s)
  }

  /** Format leaves the block at the front of the capability and zeros behind it, and no tag anywhere in it. */
  lemma FormattedMemory(cfg: Config, m: Mem, c: Capability, block: seq<byte>, b: nat)
    requires IsMem(cfg, m) && c.End() <= cfg.Size() && |block| == BLOCK_SIZE
    requires cfg.bounds.AcceptAtLimit? && FormatStatus(cfg, c) == Ok
    ensures c.Contains(b) ==>
              Formatted(cfg, m, c, block).data[b] == if b - c.base < BLOCK_SIZE then block[b - c.base] else 0
    ensures Untagged(Formatted(cfg, m, c, block), c)
  {
    var zeroed := Zeroing.Zeroed(cfg, m, c);
    Zeroing.ZeroedClears(cfg, m, c);
    assert Formatted(cfg, m, c, block) == Apply(cfg, zeroed, Overwrite(c.base, block, |block|));
    assert Formatted(cfg, m, c, block).tags <= zeroed.tags;
  }

  lemma LastSlotIsBehind(c: Capability, len: nat)
    requires len + 8 <= c.size
    ensures (c.End() - 1) / 8 !in Touched(c.base, c.base + len)
  {
  }

  /** A tag on the last slot survives zeroing without the last chunk, and the write of the block. */
  lemma LastTagKept(cfg: Config, m: Mem, c: Capability, len: nat, block: seq<byte>)
    requires IsMem(cfg, m) && c.End() <= cfg.Size() && len + 8 <= c.size && |block| + 8 <= c.size
    requires (c.End() - 1) / 8 in m.tags
    ensures (c.End() - 1) / 8 in Apply(cfg, Apply(cfg, m, ZerosAt(cfg, c.base, len)), Overwrite(c.base, block, |block|)).tags
  {
    LastSlotIsBehind(c, len);
    LastSlotIsBehind(c, |block|);
  }

  /** That tag survives formatting when the last chunk is not zeroed. */
  lemma LastTagSurvives(cfg: Config, c: Capability, block: seq<byte>)
    requires cfg.Valid() && c.End() <= cfg.Size() && |block| == BLOCK_SIZE
    requires c.size == SizeOf(c.sizeBits) && c.size >= 256
    requires cfg.bounds.RefuseAtLimit? && c.Writable()
    ensures (c.End() - 1) / 8 < cfg.NumPointers()
    ensures !Untagged(Formatted(cfg, OneTag(cfg, (c.End() - 1) / 8), c, block), c)
  {
    SlotOfAddress(cfg, c.End() - 1);
    assert Overlaps(c.base, c.End(), (c.End() - 1) / 8) by {
      assert InSlot(c.End() - 1, (c.End() - 1) / 8);
    }
    assert CheckedLength(cfg, c.size) == c.size - 256 by {
      SizeIsWholeChunks(c.sizeBits);
      LastChunkAt(c.size, c.size / 256 - 1);
    }
    LastTagKept(cfg, OneTag(cfg, (c.End() - 1) / 8), c, CheckedLength(cfg, c.size), block);
  }

  lemma FormatUntags(cfg: Config, m: Mem, c: Capability, block: seq<byte>)
    requires IsMem(cfg, m) && c.End() <= cfg.Size() && |block| == BLOCK_SIZE
    requires cfg.bounds.AcceptAtLimit? && FormatStatus(cfg, c) == Ok
    ensures Untagged(Formatted(cfg, m, c, block), c)
  {
    FormattedMemory(cfg, m, c, block, c.base);
  }

  /** Formatting frees the capability of tags, whatever the memory held, exactly when zeroing keeps its promise. */
  lemma FormatUntagsExactly(cfg: Config, cap: capref, block: seq<byte>)
    requires cfg.Valid() && CapFits(cfg, cap) && |block| == BLOCK_SIZE
    requires FormatStatus(cfg, FromCapref(cap)) == Ok
    ensures (forall m | IsMem(cfg, m) :: Untagged(Formatted(cfg, m, FromCapref(cap), block), FromCapref(cap)))
            <==> cfg.bounds.AcceptAtLimit?
  {
    var c := FromCapref(cap);
    SizeIsWholeChunks(c.sizeBits);
    if cfg.bounds.AcceptAtLimit? {
      forall m | IsMem(cfg, m)
        ensures Untagged(Formatted(cfg, m, c, block), c)
      {
        FormatUntags(cfg, m, c, block);
      }
    } else {
      LastTagSurvives(cfg, c, block);
      assert IsMem(cfg, OneTag(cfg, (c.End() - 1) / 8));
    }
  }

  class FileSystem {
    const store: FileStore.Backend
    // g_fs_root
    var root: seq<byte>

    constructor (store: FileStore.Backend)
      ensures this.store == store
    {
      this.store := store;
      root := [];
    }

    method Format(cap: capref, stack: seq<byte>) returns (r: Status)
      requires store.Valid() && FormatFits(store.cfg, FromCapref(cap)) && |stack| == BLOCK_SIZE
      modifies store, store.image
      ensures store.Valid()
      ensures var c := FromCapref(cap);
              && store.memory == Formatted(store.cfg, old(store.memory), c, FormattedBlock(stack, c.size))
              && r == FormatStatus(store.cfg, c)
    {
      var c := FromCapref(cap);
      var zeroed := store.Zero(cap);
      if zeroed.Failure? {
        return Refused;
      }
      var written := store.Write(cap, 0, FormattedBlock(stack, c.size));
      if written != Written(BLOCK_SIZE) {
        return Error;
      }
      r := Ok;
    }

    method Init(cap: capref, stack: seq<byte>) returns (r: Status)
      requires store.Valid() && FormatFits(store.cfg, FromCapref(cap)) && |stack| == BLOCK_SIZE
      modifies this, store, store.image
      ensures store.Valid()
      ensures var c := FromCapref(cap);
              && store.memory == Formatted(store.cfg, old(store.memory), c, FormattedBlock(stack, c.size))
              && r == InitStatus(store.cfg, c)
              && root == if r.Ok? then FormattedBlock(stack, c.size) else old(root)
    {
      var c := FromCapref(cap);
      var formatted := Format(cap, stack);
      if !formatted.Ok? {
        return Panicked;
      }
      var data := store.Read(cap, 0, BLOCK_SIZE);
      if !data.Data? || |data.bytes| != BLOCK_SIZE {
        return Invalid;
      }
      root := data.bytes;
      FormattedBlockIsAccepted(stack, c.size);
      r := CheckBlock(root);
    }
  }
}
