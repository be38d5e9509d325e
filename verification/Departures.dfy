/**
 Places where the text of the source and the tagged memory it means to be part company, each
 with the exact condition under which they agree.
 */
module Departures {
  import opened Words
  import opened Capabilities
  import opened Layout
  import opened TaggedMemory
  import Assertions
  import Answers

  // --- put_cap does not check alignment

  /**
   Storing eight bytes at any address and tagging every slot they touch. Any eight bytes are
   those of some capref (see Capabilities.LoadStoreRoundTrip).
   */
  function PutAnywhere(m: Mem, addr: nat, stored: seq<byte>): Mem
    requires |stored| == 8 && addr + 8 <= |m.data|
  {
    Mem(Splice(m.data, addr, stored), m.tags + Touched(addr, addr + 8))
  }

  /** Every slot that is newly tagged holds the capref that was stored. */
  ghost predicate TagsAreHonest(cfg: Config, m: Mem, addr: nat, stored: seq<byte>)
    requires IsMem(cfg, m) && |stored| == 8 && addr + 8 <= cfg.Size()
  {
    forall s: nat | s in PutAnywhere(m, addr, stored).tags && s !in m.tags && s < cfg.NumPointers() ::
      SlotBytes(PutAnywhere(m, addr, stored), s) == stored
  }

  lemma UnalignedPutForges(cfg: Config, addr: nat)
    requires cfg.Valid() && addr + 8 <= cfg.Size() && addr % 8 != 0
    ensures !TagsAreHonest(cfg, ZeroMem(cfg), addr, seq(8, _ => 1))
    ensures PutAnywhere(ZeroMem(cfg), addr, seq(8, _ => 1)).tags == {addr / 8, addr / 8 + 1}
  {
    var m, s := ZeroMem(cfg), addr / 8;
    var after := PutAnywhere(m, addr, seq(8, _ => 1));
    assert s in after.tags && s !in m.tags && s < cfg.NumPointers();
    assert SlotBytes(after, s)[0] == 0;
  }

  /** Storing without a check keeps the tags honest, on every memory, exactly at aligned addresses. */
  lemma PutNeedsAlignment(cfg: Config, addr: nat)
    requires cfg.Valid() && addr + 8 <= cfg.Size()
    ensures (forall m, stored: seq<byte> | IsMem(cfg, m) && |stored| == 8 :: TagsAreHonest(cfg, m, addr, stored))
            <==> addr % 8 == 0
  {
    if addr % 8 == 0 {
      TouchedByOneSlot(addr);
    } else {
      UnalignedPutForges(cfg, addr);
    }
  }

  // --- metadata_is_capability masks with 0x3, and get_cap passes it the offset, not the address

  /** The bytes loaded at an address in a tagged slot are the slot's. */
  ghost predicate LoadsTheSlot(cfg: Config, m: Mem, addr: nat)
    requires IsMem(cfg, m) && addr + 8 <= cfg.Size()
  {
    addr / 8 in m.tags ==> m.data[addr..addr + 8] == SlotBytes(m, addr / 8)
  }

  /**
   Of the offsets the mask lets through, it takes one that gives an 8-byte aligned address to
   load what the tag of the address vouches for.
   */
  lemma MaskAdmitsHalfSlots(cfg: Config, base: nat, offset: nat)
    requires cfg.Valid() && base + offset + 8 <= cfg.Size() && offset % 4 == 0
    ensures (forall m | IsMem(cfg, m) :: LoadsTheSlot(cfg, m, base + offset)) <==> (base + offset) % 8 == 0
  {
    var addr := base + offset;
    if addr % 8 != 0 {
      var s := addr / 8;
      var m := Mem(Splice(seq(cfg.Size(), _ => 1), 8 * s, Zeros(8)), {s});
      assert IsMem(cfg, m);
      assert m.data[addr..addr + 8][7] == 1 && SlotBytes(m, s)[7] == 0;
      assert !LoadsTheSlot(cfg, m, addr);
    }
  }

  /** The lookup as the text makes it, and as it is meant. */
  predicate TextLookup(tags: set<nat>, offset: nat) { offset % 4 == 0 && offset / 8 in tags }
  predicate Lookup(tags: set<nat>, addr: nat) { addr % 8 == 0 && addr / 8 in tags }

  /** When the two agree: both refuse every tag, or both look at the same slot. */
  predicate LookupsAgree(base: nat, offset: nat) {
    if offset % 4 != 0 then (base + offset) % 8 != 0 else base == 0 && offset % 8 == 0
  }

  lemma DifferentSlots(base: nat, offset: nat)
    requires offset % 4 == 0 && (base + offset) % 8 == 0 && !(base == 0 && offset % 8 == 0)
    ensures offset / 8 != (base + offset) / 8
  {
  }

  /** The two lookups agree, whatever is tagged, exactly under that condition on base and offset. */
  lemma TagLookupIgnoresBase(base: nat, offset: nat)
    ensures (forall tags: set<nat> :: TextLookup(tags, offset) <==> Lookup(tags, base + offset))
            <==> LookupsAgree(base, offset)
  {
    var addr := base + offset;
    if LookupsAgree(base, offset) {
    } else if offset % 4 != 0 {
      var tags: set<nat> := {addr / 8};
      assert !TextLookup(tags, offset) && Lookup(tags, addr);
    } else {
      var tags: set<nat> := {offset / 8};
      if addr % 8 == 0 {
        DifferentSlots(base, offset);
      }
      assert TextLookup(tags, offset) && !Lookup(tags, addr);
    }
  }

  // --- the range checks of get_cap and put_cap are computed in unsigned 64-bit arithmetic

  const TWO_TO_THE_63: int := 0x8000_0000_0000_0000

  /** The offsets of a call, and the sizes a capability can have. */
  predicate IsOffset(offset: int) { -TWO_TO_THE_63 <= offset < TWO_TO_THE_63 }
  predicate IsSize(size: nat) { 0 < size <= TWO_TO_THE_63 }

  /** The end of a range as a machine computes it: a negative offset is converted, and the sum wraps around. */
  function MachineEnd(offset: int, len: nat): u64 {
    (offset + len) % TWO_TO_THE_64
  }

  /** The offset lies within eight bytes below the capability, and the wrapped end passes the check. */
  predicate AcceptedBelow(cfg: Config, size: nat, offset: int) {
    -8 <= offset < 0 && !cfg.Exceeds(offset + 8, size)
  }

  lemma MachineEndIs(offset: int)
    requires IsOffset(offset)
    ensures MachineEnd(offset, 8) == if offset + 8 < 0 then offset + 8 + TWO_TO_THE_64 else offset + 8
  {
  }

  /**
   For every offset a caller can pass, the machine's check agrees with the check on integers
   that refuses negative offsets, except within eight bytes below the capability.
   */
  lemma NegativeOffsetsWrap(cfg: Config, size: nat, offset: int)
    requires IsSize(size) && IsOffset(offset)
    ensures (cfg.Exceeds(MachineEnd(offset, 8), size) <==> offset < 0 || cfg.Exceeds(offset + 8, size))
            <==> !AcceptedBelow(cfg, size, offset)
  {
    MachineEndIs(offset);
  }

  /** Every capref names a capability of such a size, whose base has 48 bits. */
  lemma CaprefBounds(cap: capref)
    ensures IsSize(FromCapref(cap).size) && FromCapref(cap).base < TWO_TO_THE_48
  {
    PowersOfTwo();
    Pow2Grows(FromCapref(cap).sizeBits % 64, 63);
    assert Pow2(64) == 2 * Pow2(63);
  }

  /** Past the capability's own check no sum of addresses reaches 64 bits, for any capref. */
  lemma AddressesDoNotWrap(cfg: Config, cap: capref, permitted: bool, offset: int, len: nat)
    requires Denied(cfg, FromCapref(cap), permitted, offset, len) == None
    ensures FromCapref(cap).base + offset + len < TWO_TO_THE_64
  {
    CaprefBounds(cap);
  }

  // --- put_cap as written

  lemma StoreBounds(cfg: Config)
    requires cfg.Valid()
    ensures 256 <= cfg.Size() <= TWO_TO_THE_63 && cfg.Size() == 64 * cfg.DataOffset()
    ensures cfg.DataOffset() >= 8 <==> cfg.sizeBits >= 9
  {
    SizeIsWholeWords(cfg);
    PowersOfTwo();
    assert Pow2(64) == 2 * Pow2(63);
    Pow2Grows(cfg.sizeBits, 63);
    if cfg.sizeBits >= 9 {
      assert Pow2(9) == 2 * Pow2(8);
      Pow2Grows(9, cfg.sizeBits);
    }
  }

  function MachineAddress(c: Capability, offset: int): u64 {
    (c.base + offset) % TWO_TO_THE_64
  }

  /** Where in the file an address lies, as computed: the sum wraps around once more. */
  function MachineFileOffset(cfg: Config, addr: u64): u64 {
    (addr + cfg.DataOffset()) % TWO_TO_THE_64
  }

  /** Where in the file put_cap as written puts its eight bytes. Seeking takes a signed offset, and fails on a negative one. */
  function TextPutAt(cfg: Config, c: Capability, offset: int): Option<nat> {
    var addr := MachineAddress(c, offset);
    var at := MachineFileOffset(cfg, addr);
    if !c.Writable() || cfg.Exceeds(MachineEnd(offset, 8), c.size) then None
    else if cfg.Exceeds(MachineEnd(addr, 8), cfg.Size()) || at >= TWO_TO_THE_63 then None
    else Some(at)
  }

  lemma MachineAddressIs(c: Capability, offset: int)
    requires IsOffset(offset) && c.base < TWO_TO_THE_48
    ensures MachineAddress(c, offset) == if c.base + offset < 0 then c.base + offset + TWO_TO_THE_64 else c.base + offset
  {
  }

  lemma MachineEndOf(addr: u64)
    ensures MachineEnd(addr, 8) == if addr >= TWO_TO_THE_64 - 8 then addr + 8 - TWO_TO_THE_64 else addr + 8
  {
  }

  /** An address that the store accepts lies in it, or wraps around to the eight bytes in front of it. */
  lemma TextPutInFile(cfg: Config, c: Capability, offset: int)
    requires cfg.Valid() && TextPutAt(cfg, c, offset).Some?
    ensures var addr := MachineAddress(c, offset);
            TextPutAt(cfg, c, offset).value
            == if addr + 8 <= cfg.Size() then addr + cfg.DataOffset() else addr + cfg.DataOffset() - TWO_TO_THE_64
    ensures TextPutAt(cfg, c, offset).value + 8 <= cfg.TotalSize()
  {
    StoreBounds(cfg);
    var addr := MachineAddress(c, offset);
    MachineEndOf(addr);
    if addr + 8 <= cfg.Size() {
      assert MachineFileOffset(cfg, addr) == addr + cfg.DataOffset();
    } else {
      assert addr >= TWO_TO_THE_64 - 8;
    }
  }

  /** The file once put_cap as written has stored its bytes; what it then does to the tags is in AsWritten. */
  function TextPut(cfg: Config, img: seq<byte>, c: Capability, offset: int, stored: seq<byte>): (after: seq<byte>)
    requires IsImage(cfg, img) && |stored| == 8
    ensures IsImage(cfg, after)
  {
    match TextPutAt(cfg, c, offset)
    case None => img
    case Some(at) =>
      TextPutInFile(cfg, c, offset);
      Splice(img, at, stored)
  }

  /** It passes a negative offset, and the store and the seek accept the address that this wraps to. */
  predicate PutsBelow(cfg: Config, c: Capability, offset: int) {
    var addr := MachineAddress(c, offset);
    && c.Writable()
    && AcceptedBelow(cfg, c.size, offset)
    && !cfg.Exceeds(MachineEnd(addr, 8), cfg.Size())
    && MachineFileOffset(cfg, addr) < TWO_TO_THE_63
  }

  /**
   When put_cap as written stores, and where: within the capability, or below it. The wrapped
   sums come out at the place that the integers name.
   */
  lemma TextPutAtExactly(cfg: Config, c: Capability, offset: int)
    requires cfg.Valid() && IsSize(c.size) && c.base < TWO_TO_THE_48 && IsOffset(offset)
    ensures var at := cfg.Size() / 64 + c.base + offset;
            && (TextPutAt(cfg, c, offset).Some? <==>
                  || (Bit(c.perms, 2) && Answers.InBoth(cfg, c, offset, 8) && at < TWO_TO_THE_63)
                  || PutsBelow(cfg, c, offset))
            && (TextPutAt(cfg, c, offset).Some? ==> TextPutAt(cfg, c, offset).value == at)
  {
    StoreBounds(cfg);
    NegativeOffsetsWrap(cfg, c.size, offset);
    MachineAddressIs(c, offset);
    MachineEndOf(MachineAddress(c, offset));
    if TextPutAt(cfg, c, offset).Some? {
      TextPutInFile(cfg, c, offset);
    }
  }

  /** File byte i is a data byte of the capability. */
  predicate IsByteOf(cfg: Config, c: Capability, i: nat) {
    i >= cfg.DataOffset() && c.Contains(i - cfg.DataOffset())
  }

  lemma TextPutInside(cfg: Config, c: Capability, offset: int, i: nat)
    requires cfg.Valid() && IsSize(c.size) && c.base < TWO_TO_THE_48 && IsOffset(offset)
    requires !PutsBelow(cfg, c, offset) && TextPutAt(cfg, c, offset).Some?
    requires TextPutAt(cfg, c, offset).value <= i < TextPutAt(cfg, c, offset).value + 8
    ensures IsByteOf(cfg, c, i)
  {
    NegativeOffsetsWrap(cfg, c.size, offset);
    MachineAddressIs(c, offset);
    StoreBounds(cfg);
    TextPutInFile(cfg, c, offset);
  }

  lemma TextPutOutside(cfg: Config, c: Capability, offset: int)
    requires cfg.Valid() && IsSize(c.size) && c.base < TWO_TO_THE_48 && IsOffset(offset)
    requires PutsBelow(cfg, c, offset)
    ensures TextPutAt(cfg, c, offset).Some? && !IsByteOf(cfg, c, TextPutAt(cfg, c, offset).value)
  {
    MachineEndIs(offset);
    MachineAddressIs(c, offset);
    StoreBounds(cfg);
    TextPutInFile(cfg, c, offset);
  }

  /**
   Whatever the file holds, put_cap as written stores over data bytes of its capability only,
   exactly unless it passes a negative offset.
   */
  lemma TextPutStaysInside(cfg: Config, c: Capability, offset: int, stored: seq<byte>)
    requires cfg.Valid() && |stored| == 8 && IsSize(c.size) && c.base < TWO_TO_THE_48 && IsOffset(offset)
    ensures (forall img: seq<byte>, i: nat | IsImage(cfg, img) && i < cfg.TotalSize() &&
                                             TextPut(cfg, img, c, offset, stored)[i] != img[i] :: IsByteOf(cfg, c, i))
            <==> !PutsBelow(cfg, c, offset)
  {
    if PutsBelow(cfg, c, offset) {
      TextPutOutside(cfg, c, offset);
      TextPutInFile(cfg, c, offset);
      var other: byte := if stored[0] == 0 then 1 else 0;
      var img: seq<byte> := seq(cfg.TotalSize(), _ => other);
      var at := TextPutAt(cfg, c, offset).value;
      assert IsImage(cfg, img) && TextPut(cfg, img, c, offset, stored)[at] != img[at];
    } else {
      forall img: seq<byte>, i: nat | IsImage(cfg, img) && i < cfg.TotalSize() &&
                                      TextPut(cfg, img, c, offset, stored)[i] != img[i]
        ensures IsByteOf(cfg, c, i)
      {
        TextPutInside(cfg, c, offset, i);
      }
    }
  }

  /**
   At offset -8, through any writable capability of the store: the eight bytes in front of the
   capability, wherever they lie in the file. They are data exactly from base 8 on, and all of
   them bitmap exactly at base 0, except that the smallest store has no eight bytes there.
   */
  lemma TextPutBelow(cfg: Config, c: Capability)
    requires cfg.Valid() && c.Writable() && c.size > 0 && c.base < TWO_TO_THE_48 && c.End() <= cfg.Size()
    ensures var at := TextPutAt(cfg, c, -8);
            && at == (if cfg.DataOffset() + c.base < 8 then None else Some(cfg.DataOffset() + c.base - 8))
            && (at.Some? && at.value >= cfg.DataOffset() <==> c.base >= 8)
            && (at.Some? && at.value + 8 <= cfg.DataOffset() <==> c.base == 0 && cfg.sizeBits >= 9)
  {
    MachineAddressIs(c, -8);
    StoreBounds(cfg);
    var addr := MachineAddress(c, -8);
    assert MachineEnd(-8, 8) == 0 && MachineEnd(addr, 8) == c.base;
    assert MachineFileOffset(cfg, addr)
        == if cfg.DataOffset() + c.base < 8 then cfg.DataOffset() + c.base - 8 + TWO_TO_THE_64
           else cfg.DataOffset() + c.base - 8;
  }

  /** The update of the tags that follows fails the assertion of its first access, when the address has wrapped around. */
  lemma TagsBelowTripAssertion(cfg: Config, c: Capability, offset: int)
    requires cfg.Valid() && IsOffset(offset) && c.base < TWO_TO_THE_48 && -8 <= c.base + offset < 0
    ensures var addr := MachineAddress(c, offset);
            Assertions.RangeAccesses(addr, addr, addr / 8) && !Assertions.InBitmap(cfg, addr / 8)
  {
    StoreBounds(cfg);
    MachineAddressIs(c, offset);
    var addr := MachineAddress(c, offset);
    assert addr / 8 == 0x1fff_ffff_ffff_ffff;
  }

  lemma WordOverwritten(cfg: Config, img: seq<byte>, i: nat, b: seq<byte>)
    requires IsImage(cfg, img) && i < cfg.BitmapWords() && |b| == 4
    ensures 4 * i + 4 <= |img|
    ensures var after := Splice(img, 4 * i, b);
            WordsOf(cfg, after) == WordsOf(cfg, img)[i := Word32(b)] && DataOf(cfg, after) == DataOf(cfg, img)
  {
    BytesOfWord(b);
    MetadataSplice(cfg, img, i, Word32(b));
  }

  lemma SpliceHalves(s: seq<byte>, at: nat, b: seq<byte>)
    requires at + 8 <= |s| && |b| == 8
    ensures Splice(s, at, b) == Splice(Splice(s, at, b[..4]), at + 4, b[4..])
  {
  }

  lemma LastTwoWords(cfg: Config, img: seq<byte>, stored: seq<byte>)
    requires IsImage(cfg, img) && cfg.sizeBits >= 9 && |stored| == 8
    ensures cfg.DataOffset() >= 8 && cfg.BitmapWords() >= 2
    ensures var n, after := cfg.BitmapWords(), Splice(img, cfg.DataOffset() - 8, stored);
            && WordsOf(cfg, after) == WordsOf(cfg, img)[n - 2 := Word32(stored[..4])][n - 1 := Word32(stored[4..])]
            && DataOf(cfg, after) == DataOf(cfg, img)
  {
    StoreBounds(cfg);
    SizeIsWholeWords(cfg);
    var i := cfg.BitmapWords() - 2;
    WordOverwritten(cfg, img, i, stored[..4]);
    WordOverwritten(cfg, Splice(img, 4 * i, stored[..4]), i + 1, stored[4..]);
    SpliceHalves(img, 4 * i, stored);
  }

  /** At base 0, and so through the root capability, these bytes are the last two words of the bitmap: 64 tags. */
  lemma TextPutOverTags(cfg: Config, img: seq<byte>, c: Capability, stored: seq<byte>)
    requires IsImage(cfg, img) && cfg.sizeBits >= 9 && |stored| == 8
    requires c.Writable() && c.size > 0 && c.base == 0 && c.End() <= cfg.Size()
    ensures var n, after := cfg.BitmapWords(), TextPut(cfg, img, c, -8, stored);
            && n >= 2
            && WordsOf(cfg, after) == WordsOf(cfg, img)[n - 2 := Word32(stored[..4])][n - 1 := Word32(stored[4..])]
            && DataOf(cfg, after) == DataOf(cfg, img)
  {
    LastTwoWords(cfg, img, stored);
    TextPutBelow(cfg, c);
  }

  // --- get_cap as written

  /** Get_cap as written, given what the lookup of the tag answers; a negative offset is never loaded from. */
  function TextGetWith(cfg: Config, m: Mem, c: Capability, offset: int, tagged: bool): Response
    requires IsMem(cfg, m)
  {
    if !c.Readable() then Failure(NoAccess)
    else if cfg.Exceeds(MachineEnd(offset, 8), c.size) then Failure(Failed)
    else if offset < 0 || !tagged then Failure(NoAccess)
    else if cfg.Exceeds(c.base + offset + 8, cfg.Size()) then Failure(Failed)
    else Loaded(LoadedCapref(m.data[c.base + offset..c.base + offset + 8]))
  }

  function TextGetResponse(cfg: Config, m: Mem, c: Capability, offset: int): Response
    requires IsMem(cfg, m)
  {
    TextGetWith(cfg, m, c, offset, offset >= 0 && TextLookup(m.tags, offset))
  }

  /** What it answers: the tag is looked up at the offset, and the eight bytes are those at the address. */
  lemma TextGetAnswers(cfg: Config, m: Mem, c: Capability, offset: int)
    requires IsMem(cfg, m) && IsSize(c.size) && IsOffset(offset)
    ensures var response := TextGetResponse(cfg, m, c, offset);
            var passed := Answers.InCapability(cfg, c, offset, 8) || AcceptedBelow(cfg, c.size, offset);
            var tagged := offset >= 0 && offset % 4 == 0 && offset / 8 in m.tags;
            && (response == Failure(NoAccess) <==> !Bit(c.perms, 1) || (passed && !tagged))
            && (response.Loaded? <==> Bit(c.perms, 1) && Answers.InBoth(cfg, c, offset, 8) && tagged)
            && (response.Loaded? || response == Failure(Failed) || response == Failure(NoAccess))
            && (response.Loaded? ==>
                  Word(m.data[c.base + offset..c.base + offset + 8]) == Xor(response.cap, 0xAAAA_AAAA_AAAA_AAAA))
  {
    NegativeOffsetsWrap(cfg, c.size, offset);
    if TextGetResponse(cfg, m, c, offset).Loaded? {
      MachineEndIs(offset);
      Answers.LoadedWord(m.data[c.base + offset..c.base + offset + 8]);
    }
  }

  /** The assertion of its metadata access: it refuses a negative multiple of 4 that the check let through. */
  predicate TextGetFits(cfg: Config, c: Capability, offset: int) {
    c.Readable() && !cfg.Exceeds(MachineEnd(offset, 8), c.size) && offset % 4 == 0 ==> 0 <= offset < cfg.Size()
  }

  /** The condition under which get_cap as written responds as it should. */
  predicate TextGetIsRight(cfg: Config, c: Capability, offset: int) {
    || !c.Readable()
    || if offset < 0 then !AcceptedBelow(cfg, c.size, offset)
       else cfg.Exceeds(offset + 8, c.size) || LookupsAgree(c.base, offset)
  }

  lemma TextGetDiffers(cfg: Config, c: Capability, offset: nat) returns (m: Mem)
    requires cfg.Valid() && IsOffset(offset) && c.Readable() && !cfg.Exceeds(offset + 8, c.size)
    requires TextGetFits(cfg, c, offset) && GetFits(cfg, c, offset) && !LookupsAgree(c.base, offset)
    ensures IsMem(cfg, m) && TextGetResponse(cfg, m, c, offset) != GetResponse(cfg, m, c, offset)
  {
    var addr := c.base + offset;
    MachineEndIs(offset);
    if offset % 4 != 0 {
      SlotOfAddress(cfg, addr);
      m := OneTag(cfg, addr / 8);
      assert !TextLookup(m.tags, offset) && addr / 8 in m.tags;
    } else {
      SlotOfAddress(cfg, offset);
      m := OneTag(cfg, offset / 8);
      if addr % 8 == 0 {
        DifferentSlots(c.base, offset);
      }
      assert TextLookup(m.tags, offset) && !Lookup(m.tags, addr);
    }
  }

  lemma TextGetAgrees(cfg: Config, m: Mem, c: Capability, offset: int)
    requires IsMem(cfg, m) && IsSize(c.size) && IsOffset(offset) && TextGetIsRight(cfg, c, offset)
    ensures TextGetResponse(cfg, m, c, offset) == GetResponse(cfg, m, c, offset)
  {
    NegativeOffsetsWrap(cfg, c.size, offset);
  }

  /**
   Get_cap as written responds as it should, on every memory, exactly under that condition: for
   all bases, offsets and permissions for which no assertion fails on either side.
   */
  lemma TextGetIsRightExactly(cfg: Config, c: Capability, offset: int)
    requires cfg.Valid() && IsSize(c.size) && IsOffset(offset)
    requires TextGetFits(cfg, c, offset) && GetFits(cfg, c, offset)
    ensures (forall m | IsMem(cfg, m) :: TextGetResponse(cfg, m, c, offset) == GetResponse(cfg, m, c, offset))
            <==> TextGetIsRight(cfg, c, offset)
  {
    if TextGetIsRight(cfg, c, offset) {
      forall m | IsMem(cfg, m)
        ensures TextGetResponse(cfg, m, c, offset) == GetResponse(cfg, m, c, offset)
      {
        TextGetAgrees(cfg, m, c, offset);
      }
    } else if offset < 0 {
      MachineEndIs(offset);
      assert TextGetResponse(cfg, ZeroMem(cfg), c, offset) == Failure(NoAccess);
      assert GetResponse(cfg, ZeroMem(cfg), c, offset) == Failure(Failed);
    } else {
      var m := TextGetDiffers(cfg, c, offset);
    }
  }

  // --- metadata_rawread reads into its own parameter, so the caller's word stays 0

  /** The answer of metadata_is_capability, given the word it ends up with. */
  predicate AnswerFrom(md: u32, offset: nat) { offset % 4 == 0 && Bit(md, offset / 8 % 32) }

  /** With the word of the bitmap it is the lookup of the tag. */
  lemma AnswerFromFilledWord(words: seq<u32>, offset: nat)
    requires offset / 8 < 32 * |words|
    ensures AnswerFrom(words[offset / 8 / 32], offset) <==> TextLookup(TagsOf(words), offset)
  {
    assert offset / 8 in TagsOf(words) <==> Tagged(words, offset / 8);
  }

  /** With the word that the text leaves it, get_cap loads nothing, from any memory through any capability. */
  lemma UnfilledWordNeverLoads(cfg: Config, m: Mem, c: Capability, offset: int)
    requires IsMem(cfg, m)
    ensures TextGetWith(cfg, m, c, offset, offset >= 0 && AnswerFrom(0, offset)).Failure?
  {
    if offset >= 0 {
      ZeroHasNoBits(offset / 8 % 32);
    }
  }
}
