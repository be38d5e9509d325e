/**
 The abstract tagged memory that the file refines: data bytes and a set of tagged slots,
 changed by one effect per operation.
 */
module TaggedMemory {
  import opened Words
  import opened Capabilities
  import opened Layout

  datatype Option<+T> = None | Some(value: T)

  /** -1 and -EACCES */
  datatype Error = Failed | NoAccess

  datatype Response =
    | Failure(error: Error)
    | Done
    | Loaded(cap: capref)
    | Data(bytes: seq<byte>)
    | Written(count: nat)

  datatype Op =
    | PutCap(cap: capref, offset: int, stored: capref)
    | GetCap(cap: capref, offset: int)
    | Read(cap: capref, offset: int, len: nat)
    | Write(cap: capref, offset: int, bytes: seq<byte>)
    | Zero(cap: capref)

  /**
   What an operation does to the memory: the eight bytes of a capability stored and tagged, or
   the tags of `len` bytes cleared and data written over the first of them. It depends on the
   operation alone, not on the memory.
   */
  datatype Effect =
    | Nothing
    | Store(addr: nat, bytes: seq<byte>)
    | Overwrite(addr: nat, bytes: seq<byte>, len: nat)
  {
    predicate Covers(b: nat) {
      !Nothing? && addr <= b < addr + |bytes|
    }

    predicate Touches(slot: nat) {
      match this
      case Nothing => false
      case Store(a, _) => slot == a / 8
      case Overwrite(a, _, len) => slot in Touched(a, a + len)
    }

    /** The byte left at a covered address. */
    function ByteAt(b: nat): byte
      requires Covers(b)
    {
      bytes[b - addr]
    }

    predicate Fits(cfg: Config) {
      match this
      case Nothing => true
      case Store(a, bytes) => a % 8 == 0 && |bytes| == 8 && a + 8 <= cfg.Size()
      case Overwrite(a, bytes, len) => |bytes| <= len && a + |bytes| <= cfg.Size()
    }
  }

  /** The permission and range checks made on the capability itself, in their order. */
  function Denied(cfg: Config, c: Capability, permitted: bool, offset: int, len: nat): Option<Error> {
    if !permitted then Some(NoAccess)
    else if offset < 0 then Some(Failed)
    else if cfg.Exceeds(offset + len, c.size) then Some(Failed)
    else None
  }

  // --- what each operation does

  function PutEffect(cfg: Config, c: Capability, offset: int, r: capref): (e: Effect)
    ensures e.Fits(cfg)
  {
    if Denied(cfg, c, c.Writable(), offset, 8).Some? then Nothing
    else if (c.base + offset) % 8 != 0 then Nothing
    else if cfg.Exceeds(c.base + offset + 8, cfg.Size()) then Nothing
    else Store(c.base + offset, StoredBytes(r))
  }

  /** The assertions of the metadata access that get_cap makes once its checks have passed. */
  predicate GetFits(cfg: Config, c: Capability, offset: int) {
    Denied(cfg, c, c.Readable(), offset, 8) == None && (c.base + offset) % 8 == 0 ==> c.base + offset < cfg.Size()
  }

  /** The assertions of the metadata accesses that write makes once its checks have passed. */
  predicate WriteFits(cfg: Config, c: Capability, offset: int, len: nat) {
    Denied(cfg, c, c.Writable(), offset, len) == None ==>
      BitmapCovers(cfg, c.base + offset, c.base + offset + len)
  }

  /**
   Overwriting a range clears its tags first. The store may refuse the range after that, when it
   ends at the end of the store; then the tags are gone and no byte is written. A range that
   lies further out and passes the assertions is empty and touches no slot.
   */
  function RangeEffect(cfg: Config, from: nat, bytes: seq<byte>): (e: Effect)
    requires BitmapCovers(cfg, from, from + |bytes|)
    ensures e.Fits(cfg)
  {
    if from + |bytes| > cfg.Size() then Nothing
    else Overwrite(from, if cfg.Exceeds(from + |bytes|, cfg.Size()) then [] else bytes, |bytes|)
  }

  function WriteEffect(cfg: Config, c: Capability, offset: int, bytes: seq<byte>): (e: Effect)
    requires WriteFits(cfg, c, offset, |bytes|)
    ensures e.Fits(cfg)
  {
    if Denied(cfg, c, c.Writable(), offset, |bytes|).Some? then Nothing
    else RangeEffect(cfg, c.base + offset, bytes)
  }

  /** The capability's check accepts the range, and the store, asked after the tags are cleared, refuses it. */
  predicate RefusedLate(cfg: Config, c: Capability, offset: int, len: nat) {
    Denied(cfg, c, c.Writable(), offset, len) == None && cfg.Exceeds(c.base + offset + len, cfg.Size())
  }

  /** The write is refused after it has cleared the tags of a range that touches some slot. */
  predicate ClearsThenFails(cfg: Config, c: Capability, offset: int, len: nat) {
    RefusedLate(cfg, c, offset, len) && (len > 0 || (c.base + offset) % 8 != 0)
  }

  /** The length of all chunks of 256 bytes but the last, which may be shorter. */
  function AllButLastChunk(size: nat): (len: nat)
    requires size > 0
    ensures len < size
  {
    if size <= 256 then 0 else 256 + AllButLastChunk(size - 256)
  }

  /** How much of a capability is in chunks that the capability's own check lets through. */
  function CheckedLength(cfg: Config, size: nat): (len: nat)
    requires size > 0
    ensures len <= size
  {
    match cfg.bounds
    case AcceptAtLimit => size
    case RefuseAtLimit => AllButLastChunk(size)
  }

  /** A range that lies in the store, unless it is empty. */
  predicate InStoreOrEmpty(cfg: Config, base: nat, len: nat) {
    len > 0 ==> base + len <= cfg.Size()
  }

  /** The assertions of the metadata accesses that zero makes, chunk by chunk. */
  predicate ZeroFits(cfg: Config, c: Capability) {
    c.size > 0 && (c.Writable() ==> InStoreOrEmpty(cfg, c.base, CheckedLength(cfg, c.size)))
  }

  /**
   The chunks that make up `len` bytes from `base` on, cleared of tags and zeroed. The last of
   them is only cleared of tags if the store refuses its range.
   */
  function ZerosAt(cfg: Config, base: nat, len: nat): (e: Effect)
    requires InStoreOrEmpty(cfg, base, len)
    ensures e.Fits(cfg)
  {
    if len == 0 then Nothing
    else if cfg.Exceeds(base + len, cfg.Size()) && len >= 256 then Overwrite(base, Zeros(len - 256), len)
    else Overwrite(base, Zeros(len), len)
  }

  function ZeroEffect(cfg: Config, c: Capability): (e: Effect)
    requires ZeroFits(cfg, c)
    ensures e.Fits(cfg)
  {
    if c.Writable() then ZerosAt(cfg, c.base, CheckedLength(cfg, c.size)) else Nothing
  }

  /**
   The assertions of the operation's metadata accesses hold. PutCap accesses the metadata only
   after the store has accepted the address, and Read not at all.
   */
  predicate OpFits(cfg: Config, op: Op) {
    match op
    case PutCap(_, _, _) => true
    case GetCap(cap, offset) => GetFits(cfg, FromCapref(cap), offset)
    case Read(_, _, _) => true
    case Write(cap, offset, b) => WriteFits(cfg, FromCapref(cap), offset, |b|)
    case Zero(cap) => ZeroFits(cfg, FromCapref(cap))
  }

  /** The capability lies in the store. */
  predicate CapFits(cfg: Config, cap: capref) {
    FromCapref(cap).End() <= cfg.Size()
  }

  /** Through such a capability, no assertion can fail. */
  lemma CapFitsOpFits(cfg: Config, op: Op)
    requires CapFits(cfg, op.cap)
    ensures OpFits(cfg, op)
  {
  }

  function EffectOf(cfg: Config, op: Op): (e: Effect)
    requires OpFits(cfg, op)
    ensures e.Fits(cfg)
  {
    match op
    case PutCap(cap, offset, r) => PutEffect(cfg, FromCapref(cap), offset, r)
    case Write(cap, offset, b) => WriteEffect(cfg, FromCapref(cap), offset, b)
    case Zero(cap) => ZeroEffect(cfg, FromCapref(cap))
    case GetCap(_, _) => Nothing
    case Read(_, _, _) => Nothing
  }

  function Apply(cfg: Config, m: Mem, e: Effect): (m': Mem)
    requires IsMem(cfg, m) && e.Fits(cfg)
    ensures IsMem(cfg, m')
  {
    match e
    case Nothing => m
    case Store(a, b) => Mem(Splice(m.data, a, b), m.tags + {a / 8})
    case Overwrite(a, b, len) => Mem(Splice(m.data, a, b), m.tags - Touched(a, a + len))
  }

  // --- what each operation reports

  /** The eight bytes of a slot. */
  function SlotBytes(m: Mem, slot: nat): (b: seq<byte>)
    requires 8 * slot + 8 <= |m.data|
    ensures |b| == 8
  {
    m.data[8 * slot..8 * slot + 8]
  }

  function GetResponse(cfg: Config, m: Mem, c: Capability, offset: int): Response
    requires IsMem(cfg, m)
  {
    match Denied(cfg, c, c.Readable(), offset, 8)
    case Some(e) => Failure(e)
    case None =>
      var addr := c.base + offset;
      if addr % 8 != 0 || addr / 8 !in m.tags then Failure(NoAccess)
      else if cfg.Exceeds(addr + 8, cfg.Size()) then Failure(Failed)
      else Loaded(LoadedCapref(m.data[addr..addr + 8]))
  }

  function ReadResponse(cfg: Config, m: Mem, c: Capability, offset: int, len: nat): Response
    requires IsMem(cfg, m)
  {
    match Denied(cfg, c, c.Readable(), offset, len)
    case Some(e) => Failure(e)
    case None =>
      var addr := c.base + offset;
      if cfg.Exceeds(addr + len, cfg.Size()) then Failure(Failed) else Data(m.data[addr..addr + len])
  }

  function PutResponse(cfg: Config, c: Capability, offset: int): Response {
    match Denied(cfg, c, c.Writable(), offset, 8)
    case Some(e) => Failure(e)
    case None =>
      if (c.base + offset) % 8 != 0 || cfg.Exceeds(c.base + offset + 8, cfg.Size()) then Failure(Failed) else Done
  }

  function WriteResponse(cfg: Config, c: Capability, offset: int, len: nat): Response {
    match Denied(cfg, c, c.Writable(), offset, len)
    case Some(e) => Failure(e)
    case None => if cfg.Exceeds(c.base + offset + len, cfg.Size()) then Failure(Failed) else Written(len)
  }

  function ZeroResponse(c: Capability): Response {
    if c.Writable() then Done else Failure(NoAccess)
  }

  function Respond(cfg: Config, m: Mem, op: Op): Response
    requires IsMem(cfg, m)
  {
    match op
    case GetCap(cap, offset) => GetResponse(cfg, m, FromCapref(cap), offset)
    case Read(cap, offset, len) => ReadResponse(cfg, m, FromCapref(cap), offset, len)
    case PutCap(cap, offset, _) => PutResponse(cfg, FromCapref(cap), offset)
    case Write(cap, offset, b) => WriteResponse(cfg, FromCapref(cap), offset, |b|)
    case Zero(cap) => ZeroResponse(FromCapref(cap))
  }

  /** Any other write that reports an error does nothing. */
  lemma EarlyFailureKeeps(cfg: Config, m: Mem, c: Capability, offset: int, bytes: seq<byte>)
    requires IsMem(cfg, m) && WriteFits(cfg, c, offset, |bytes|) && !ClearsThenFails(cfg, c, offset, |bytes|)
    requires WriteResponse(cfg, c, offset, |bytes|).Failure?
    ensures Apply(cfg, m, WriteEffect(cfg, c, offset, bytes)) == m
  {
  }

  // --- runs

  function Step(cfg: Config, m: Mem, op: Op): (m': Mem)
    requires IsMem(cfg, m) && OpFits(cfg, op)
    ensures IsMem(cfg, m')
  {
    Apply(cfg, m, EffectOf(cfg, op))
  }

  predicate AllFit(cfg: Config, ops: seq<Op>) {
    forall op | op in ops :: OpFits(cfg, op)
  }

  /** The memory after a sequence of operations. */
  function Run(cfg: Config, m: Mem, ops: seq<Op>): (m': Mem)
    requires IsMem(cfg, m) && AllFit(cfg, ops)
    ensures IsMem(cfg, m')
  {
    if ops == [] then m
    else
      var k := |ops| - 1;
      Step(cfg, Run(cfg, m, ops[..k]), ops[k])
  }

  lemma RunOneMore(cfg: Config, m: Mem, ops: seq<Op>, i: nat)
    requires IsMem(cfg, m) && AllFit(cfg, ops) && i < |ops|
    ensures Run(cfg, m, ops[..i + 1]) == Step(cfg, Run(cfg, m, ops[..i]), ops[i])
  {
    assert ops[..i + 1][..i] == ops[..i];
  }

  /** What operation i of a sequence reports. */
  function ResponseAt(cfg: Config, m: Mem, ops: seq<Op>, i: nat): Response
    requires IsMem(cfg, m) && AllFit(cfg, ops) && i < |ops|
  {
    Respond(cfg, Run(cfg, m, ops[..i]), ops[i])
  }

  /** A sequence of operations takes the file from one image to another. */
  ghost predicate Leads(cfg: Config, before: seq<byte>, ops: seq<Op>, after: seq<byte>) {
    && IsImage(cfg, before) && IsImage(cfg, after)
    && AllFit(cfg, ops)
    && Abs(cfg, after) == Run(cfg, Abs(cfg, before), ops)
  }

  function ZeroMem(cfg: Config): (m: Mem)
    requires cfg.Valid()
    ensures IsMem(cfg, m)
  {
    Mem(Zeros(cfg.Size()), {})
  }

  /** A memory that holds zeros, and a tag on one slot. */
  function OneTag(cfg: Config, slot: nat): (m: Mem)
    requires cfg.Valid() && slot < cfg.NumPointers()
    ensures IsMem(cfg, m)
  {
    Mem(Zeros(cfg.Size()), {slot})
  }

  /** The capability set up by the backend's initialisation: the whole store, with all permissions. */
  function RootCapability(cfg: Config): Capability
    requires cfg.Valid()
  {
    Capability(0, SizeOf(cfg.sizeBits), cfg.sizeBits, 14)
  }

  // --- the chunk loop of zero

  lemma {:induction false} LastChunkAt(size: nat, k: nat)
    requires 256 * k < size <= 256 * k + 256
    ensures AllButLastChunk(size) == 256 * k
  {
    if k == 0 {
    } else {
      LastChunkAt(size - 256, k - 1);
    }
  }

  lemma {:induction false} ReachedChunkIsChecked(cfg: Config, size: nat, k: nat)
    requires 256 * k < size
    ensures 256 * k <= CheckedLength(cfg, size)
  {
    if k == 0 {
    } else {
      ReachedChunkIsChecked(cfg, size - 256, k - 1);
    }
  }

  /** How much has been through the chunk loop when it has reached `offset`. */
  function LengthBefore(cfg: Config, size: nat, offset: nat): (len: nat)
    requires size > 0
    ensures len <= size
  {
    if offset < size then offset else CheckedLength(cfg, size)
  }

  /** The length of the chunk at `offset`. */
  function ChunkLength(size: nat, offset: nat): (n: nat)
    requires offset < size
    ensures n > 0 && offset + n <= size
  {
    if size > offset + 256 then 256 else size - offset
  }

  lemma SpliceMoreZeros(d: seq<byte>, base: nat, len: nat, n: nat)
    requires base + len + n <= |d|
    ensures Splice(Splice(d, base, Zeros(len)), base + len, Zeros(n)) == Splice(d, base, Zeros(len + n))
  {
  }

  lemma SpliceNothing(d: seq<byte>, at: nat)
    requires at <= |d|
    ensures Splice(d, at, []) == d
  {
  }

  /** Chunks before the end of the store, and one more. */
  lemma ZeroMore(cfg: Config, m: Mem, base: nat, len: nat, n: nat)
    requires IsMem(cfg, m) && n > 0 && base + len + n <= cfg.Size()
    requires cfg.bounds.RefuseAtLimit? ==> n == 256
    ensures Apply(cfg, Apply(cfg, m, ZerosAt(cfg, base, len)), RangeEffect(cfg, base + len, Zeros(n)))
            == Apply(cfg, m, ZerosAt(cfg, base, len + n))
  {
    SpliceMoreZeros(m.data, base, len, n);
    SpliceNothing(Splice(m.data, base, Zeros(len)), base + len);
    if len == 0 {
      SpliceNothing(m.data, base);
    } else {
      TouchedCompose(base, base + len, base + len + n);
      assert ZerosAt(cfg, base, len) == Overwrite(base, Zeros(len), len);
    }
  }

  /** Chunk k passes the capability's check, except the last one when ranges ending at the limit are refused. */
  lemma ChunkChecked(cfg: Config, size: nat, offset: nat, k: nat)
    requires offset == 256 * k < size
    ensures var n := ChunkLength(size, offset);
            LengthBefore(cfg, size, offset + 256) == if cfg.Exceeds(offset + n, size) then offset else offset + n
    ensures offset <= CheckedLength(cfg, size)
    ensures !cfg.Exceeds(offset + ChunkLength(size, offset), size) ==>
              offset + ChunkLength(size, offset) <= CheckedLength(cfg, size)
  {
    ReachedChunkIsChecked(cfg, size, k);
    if size <= offset + 256 {
      LastChunkAt(size, k);
    } else {
      ReachedChunkIsChecked(cfg, size, k + 1);
    }
  }

  /** Its write is accepted by the metadata assertions, and does what a chunk does, or nothing. */
  lemma WriteOfChunk(cfg: Config, c: Capability, offset: nat, k: nat)
    requires ZeroFits(cfg, c) && c.Writable() && offset == 256 * k < c.size
    ensures var n := ChunkLength(c.size, offset);
            && WriteFits(cfg, c, offset, n)
            && (!cfg.Exceeds(offset + n, c.size) ==> c.base + offset + n <= cfg.Size())
            && WriteEffect(cfg, c, offset, Zeros(n))
               == if cfg.Exceeds(offset + n, c.size) then Nothing else RangeEffect(cfg, c.base + offset, Zeros(n))
  {
    ChunkChecked(cfg, c.size, offset, k);
  }

  /** A chunk that passes the check extends the part the loop has been through. */
  lemma CheckedChunkComposes(cfg: Config, m: Mem, c: Capability, offset: nat, k: nat, n: nat)
    requires IsMem(cfg, m) && ZeroFits(cfg, c) && c.Writable() && offset == 256 * k < c.size
    requires n == ChunkLength(c.size, offset) && !cfg.Exceeds(offset + n, c.size)
    ensures c.base + offset + n <= cfg.Size() && LengthBefore(cfg, c.size, offset + 256) == offset + n
    ensures Apply(cfg, Apply(cfg, m, ZerosAt(cfg, c.base, offset)), RangeEffect(cfg, c.base + offset, Zeros(n)))
            == Apply(cfg, m, ZerosAt(cfg, c.base, offset + n))
  {
    ChunkChecked(cfg, c.size, offset, k);
    ZeroMore(cfg, m, c.base, offset, n);
  }

  /** One round of the chunk loop. */
  lemma NextChunk(cfg: Config, m: Mem, c: Capability, offset: nat, k: nat)
    requires IsMem(cfg, m) && ZeroFits(cfg, c) && c.Writable() && offset == 256 * k < c.size
    ensures InStoreOrEmpty(cfg, c.base, offset)
    ensures InStoreOrEmpty(cfg, c.base, LengthBefore(cfg, c.size, offset + 256))
    ensures WriteFits(cfg, c, offset, ChunkLength(c.size, offset))
    ensures Apply(cfg, Apply(cfg, m, ZerosAt(cfg, c.base, offset)),
                  WriteEffect(cfg, c, offset, Zeros(ChunkLength(c.size, offset))))
            == Apply(cfg, m, ZerosAt(cfg, c.base, LengthBefore(cfg, c.size, offset + 256)))
  {
    var n := ChunkLength(c.size, offset);
    WriteOfChunk(cfg, c, offset, k);
    ChunkChecked(cfg, c.size, offset, k);
    if cfg.Exceeds(offset + n, c.size) {
      assert WriteEffect(cfg, c, offset, Zeros(n)) == Nothing;
    } else {
      CheckedChunkComposes(cfg, m, c, offset, k, n);
    }
  }
}
