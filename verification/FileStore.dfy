/**
 The backend over one flat file: seeks and writes into an image, with the metadata bitmap kept
 in step with the data. Every operation refines the corresponding step of the tagged memory.
 */
module FileStore {
  import opened Words
  import opened Capabilities
  import opened Layout
  import opened TaggedMemory
  import Bitmap

  class Backend {
    const cfg: Config
    // The contents of g_st.file.
    const image: array<byte>
    // capfs_root_capability
    const root: capref
    // What they mean: the metadata words and the data, and with them the tagged memory.
    ghost var words: seq<u32>
    ghost var data: seq<byte>
    ghost var memory: Mem

    ghost predicate Valid()
      reads this, image
    {
      && IsImage(cfg, image[..])
      && words == WordsOf(cfg, image[..])
      && data == DataOf(cfg, image[..])
      && memory == Mem(data, TagsOf(words))
      && IsMem(cfg, memory)
    }

    lemma MemoryIsMeaningOfImage()
      requires Valid()
      ensures memory == Abs(cfg, image[..])
    {
    }

    /** Opens the file, with what it holds, or creates it with zeros, and sets the root capability. */
    constructor (cfg: Config, file: Option<seq<byte>>)
      requires cfg.Valid()
      requires file.Some? ==> |file.value| == cfg.TotalSize()
      ensures Valid() && fresh(image)
      ensures this.cfg == cfg && root == ToCapref(RootCapability(cfg))
      ensures image[..] == if file.Some? then file.value else Zeros(cfg.TotalSize())
      ensures memory == if file.Some? then Abs(cfg, file.value) else ZeroMem(cfg)
    {
      var contents := if file.Some? then file.value else Zeros(cfg.TotalSize());
      this.cfg := cfg;
      this.root := ToCapref(RootCapability(cfg));
      this.image := new byte[|contents|](i requires 0 <= i < |contents| => contents[i]);
      words := WordsOf(cfg, contents);
      data := DataOf(cfg, contents);
      memory := Abs(cfg, contents);
      new;
      assert image[..] == contents;
      ZeroImageIsUntagged(cfg);
    }

    // --- the file

    method FileRead(at: nat, len: nat) returns (bytes: seq<byte>)
      requires at + len <= image.Length
      ensures bytes == image[at..at + len]
    {
      bytes := image[at..at + len];
    }

    method FileWrite(at: nat, bytes: seq<byte>)
      requires at + |bytes| <= image.Length
      modifies image
      ensures image[..] == Splice(old(image[..]), at, bytes)
    {
      for i := 0 to |bytes|
        invariant forall j | 0 <= j < image.Length ::
                    image[j] == if at <= j < at + i then bytes[j - at] else old(image[j])
      {
        image[at + i] := bytes[i];
      }
      assert image[..] == Splice(old(image[..]), at, bytes);
    }

    // --- the metadata

    method MetadataRead(ptr: nat) returns (md: u32)
      requires Valid() && ptr < 32 * cfg.BitmapWords()
      ensures md == words[ptr / 32]
    {
      SizeIsWholeWords(cfg);
      var bytes := FileRead(PtrToOffset(ptr), 4);
      assert bytes == image[..][4 * (ptr / 32)..4 * (ptr / 32) + 4];
      md := Word32(bytes);
    }

    method MetadataWrite(ptr: nat, md: u32)
      requires Valid() && ptr < 32 * cfg.BitmapWords()
      modifies this, image
      ensures Valid()
      ensures words == old(words)[ptr / 32 := md]
      ensures data == old(data)
    {
      MetadataSplice(cfg, image[..], ptr / 32, md);
      FileWrite(PtrToOffset(ptr), Bytes(md, 4));
      words := words[ptr / 32 := md];
      memory := Abs(cfg, image[..]);
    }

    method IsCapability(addr: nat) returns (tagged: bool)
      requires Valid() && (addr % 8 == 0 ==> addr < cfg.Size())
      ensures tagged <==> addr % 8 == 0 && addr / 8 in memory.tags
    {
      var ptr := addr / 8;
      if addr % 8 != 0 {
        return false;
      }
      SizeIsWholeWords(cfg);
      var md := MetadataRead(ptr);
      tagged := Bit(md, ptr % 32);
      assert ptr in TagsOf(words) <==> Tagged(words, ptr);
    }

    /** Edits the bits of a metadata word from ptrFrom's on, up to the end of the word or of the range. */
    static method EditBits(w: u32, ptrFrom: nat, ptrTo: nat, on: bool) returns (md: u32, next: nat)
      requires ptrFrom <= ptrTo
      ensures ptrFrom <= next <= ptrTo && (next % 32 == 0 || next == ptrTo)
      ensures next - ptrFrom + ptrFrom % 32 <= 32
      ensures ptrTo < ptrFrom / 32 * 32 + 32 ==> next == ptrTo
      ensures Bitmap.BitsSet(w, md, ptrFrom % 32, ptrFrom % 32 + (next - ptrFrom), on)
    {
      md, next := w, ptrFrom;
      var bit := ptrFrom % 32;
      while next < ptrTo && bit < 32
        invariant ptrFrom % 32 <= bit <= 32 && next <= ptrTo && next - ptrFrom == bit - ptrFrom % 32
        invariant Bitmap.BitsSet(w, md, ptrFrom % 32, bit, on)
      {
        Bitmap.OneMoreBitSet(w, md, ptrFrom % 32, bit, on);
        md := Edit(md, bit, on);
        bit := bit + 1;
        next := next + 1;
      }
    }

    /** The head or the tail of a range of slots: one metadata word read, edited and written back. */
    method UpdatePartialWord(ptrFrom: nat, ptrTo: nat, on: bool) returns (next: nat)
      requires Valid() && ptrFrom <= ptrTo && ptrFrom < 32 * cfg.BitmapWords()
      modifies this, image
      ensures Valid() && data == old(data)
      ensures ptrFrom <= next <= ptrTo && (next % 32 == 0 || next == ptrTo)
      ensures ptrTo < ptrFrom / 32 * 32 + 32 ==> next == ptrTo
      ensures Bitmap.Marked(old(words), words, ptrFrom, next, on)
    {
      var w := MetadataRead(ptrFrom);
      var md;
      md, next := EditBits(w, ptrFrom, ptrTo, on);
      Bitmap.MarkedInOneWord(words, ptrFrom / 32, md, ptrFrom % 32, ptrFrom % 32 + (next - ptrFrom), on);
      MetadataWrite(ptrFrom, md);
    }

    method UpdateWholeWord(ptr: nat, on: bool)
      requires Valid() && ptr % 32 == 0 && ptr < 32 * cfg.BitmapWords()
      modifies this, image
      ensures Valid() && data == old(data)
      ensures Bitmap.Marked(old(words), words, ptr, ptr + 32, on)
    {
      Bitmap.UniformSetsAll(words[ptr / 32], on);
      Bitmap.MarkedInOneWord(words, ptr / 32, UniformWord(on), 0, 32, on);
      MetadataWrite(ptr, UniformWord(on));
    }

    /** The head, the whole words and the tail of a range of slots. */
    method UpdateSlots(first: nat, ptrTo: nat, on: bool)
      requires Valid() && first <= ptrTo
      requires ptrTo <= 32 * cfg.BitmapWords() || (first == ptrTo && first % 32 == 0)
      modifies this, image
      ensures Valid() && data == old(data)
      ensures Bitmap.Marked(old(words), words, first, ptrTo, on)
    {
      ghost var before := words;
      var ptrFrom := first;
      if ptrFrom % 32 != 0 {
        ptrFrom := UpdatePartialWord(ptrFrom, ptrTo, on);
      }
      while ptrFrom + 32 <= ptrTo
        invariant first <= ptrFrom <= ptrTo && Valid() && data == old(data)
        invariant ptrFrom % 32 == 0 || ptrFrom == ptrTo
        invariant Bitmap.Marked(before, words, first, ptrFrom, on)
      {
        ghost var previous := words;
        WordStart(ptrFrom);
        UpdateWholeWord(ptrFrom, on);
        Bitmap.MarkedCompose(before, previous, words, first, ptrFrom, ptrFrom + 32, on);
        ptrFrom := ptrFrom + 32;
      }
      if ptrFrom < ptrTo {
        ghost var previous, tail := words, ptrFrom;
        WordStart(tail);
        ptrFrom := UpdatePartialWord(ptrFrom, ptrTo, on);
        Bitmap.MarkedCompose(before, previous, words, first, tail, ptrFrom, on);
      }
    }

    /** Sets or clears the tags of the slots that a range of addresses is rounded out to. */
    method UpdateValidBits(from: nat, to: nat, on: bool)
      requires Valid() && from <= to && BitmapCovers(cfg, from, to)
      modifies this, image
      ensures Valid() && data == old(data)
      ensures TagsOf(words) == if on then old(TagsOf(words)) + Touched(from, to)
                               else old(TagsOf(words)) - Touched(from, to)
    {
      SizeIsWholeWords(cfg);
      ghost var before := words;
      if to > cfg.Size() {
        WordAlignedEmptyRange(from);
      }
      UpdateSlots(from / 8, (to + 7) / 8, on);
      Bitmap.MarkedMeansTags(before, words, FirstSlot(from), EndSlot(to), on);
    }

    // --- the data

    method CapstoreRead(addr: nat, len: nat) returns (bytes: Option<seq<byte>>)
      requires Valid()
      ensures cfg.Exceeds(addr + len, cfg.Size()) <==> bytes == None
      ensures bytes.Some? ==> addr + len <= cfg.Size() && bytes.value == memory.data[addr..addr + len]
    {
      if cfg.Exceeds(addr + len, cfg.Size()) {
        return None;
      }
      var b := FileRead(cfg.DataOffset() + addr, len);
      bytes := Some(b);
      assert b == memory.data[addr..addr + len];
    }

    method CapstoreWrite(addr: nat, bytes: seq<byte>) returns (ok: bool)
      requires Valid()
      modifies this, image
      ensures Valid()
      ensures ok <==> !cfg.Exceeds(addr + |bytes|, cfg.Size())
      ensures !ok ==> image[..] == old(image[..]) && data == old(data)
      ensures words == old(words)
      ensures ok ==> addr + |bytes| <= cfg.Size()
      ensures ok ==> data == Splice(old(data), addr, bytes)
    {
      if cfg.Exceeds(addr + |bytes|, cfg.Size()) {
        return false;
      }
      DataSplice(cfg, image[..], addr, bytes);
      FileWrite(cfg.DataOffset() + addr, bytes);
      data := Splice(data, addr, bytes);
      memory := Abs(cfg, image[..]);
      ok := true;
    }

    // --- helpers of the operations: the same on a capability already converted from its capref

    method LoadFrom(c: Capability, offset: int) returns (r: Response)
      requires Valid() && GetFits(cfg, c, offset)
      ensures r == GetResponse(cfg, memory, c, offset)
    {
      if !c.Readable() {
        return Failure(NoAccess);
      }
      if offset < 0 || cfg.Exceeds(offset + 8, c.size) {
        return Failure(Failed);
      }
      var tagged := IsCapability(c.base + offset);
      if !tagged {
        return Failure(NoAccess);
      }
      var stored := CapstoreRead(c.base + offset, 8);
      if stored == None {
        return Failure(Failed);
      }
      r := Loaded(LoadedCapref(stored.value));
    }

    /** Asks the store to write eight bytes at an aligned address, then tags their slot. */
    method StoreAndTag(addr: nat, bytes: seq<byte>) returns (ok: bool)
      requires Valid() && addr % 8 == 0 && |bytes| == 8
      modifies this, image
      ensures Valid()
      ensures ok <==> !cfg.Exceeds(addr + 8, cfg.Size())
      ensures ok ==> addr + 8 <= cfg.Size()
      ensures ok ==> memory == Mem(Splice(old(memory.data), addr, bytes), old(memory.tags) + {addr / 8})
      ensures !ok ==> memory == old(memory) && image[..] == old(image[..])
    {
      ok := CapstoreWrite(addr, bytes);
      if ok {
        UpdateValidBits(addr, addr + 8, true);
        TouchedByOneSlot(addr);
      }
    }

    method StoreTo(c: Capability, offset: int, newcap: capref) returns (r: Response)
      requires Valid()
      modifies this, image
      ensures Valid()
      ensures memory == Apply(cfg, old(memory), PutEffect(cfg, c, offset, newcap))
      ensures r == PutResponse(cfg, c, offset)
      ensures r.Failure? ==> image[..] == old(image[..])
    {
      if !c.Writable() {
        return Failure(NoAccess);
      }
      if offset < 0 || cfg.Exceeds(offset + 8, c.size) || (c.base + offset) % 8 != 0 {
        return Failure(Failed);
      }
      var ok := StoreAndTag(c.base + offset, StoredBytes(newcap));
      r := if ok then Done else Failure(Failed);
    }

    method ReadFrom(c: Capability, offset: int, len: nat) returns (r: Response)
      requires Valid()
      ensures r == ReadResponse(cfg, memory, c, offset, len)
    {
      if !c.Readable() {
        return Failure(NoAccess);
      }
      if offset < 0 || cfg.Exceeds(offset + len, c.size) {
        return Failure(Failed);
      }
      var bytes := CapstoreRead(c.base + offset, len);
      if bytes == None {
        return Failure(Failed);
      }
      r := Data(bytes.value);
    }

    /** Clears the tags of a range, then asks the store to write it. */
    method ClearAndWrite(from: nat, bytes: seq<byte>) returns (ok: bool)
      requires Valid() && BitmapCovers(cfg, from, from + |bytes|)
      modifies this, image
      ensures Valid()
      ensures ok <==> !cfg.Exceeds(from + |bytes|, cfg.Size())
      ensures memory == Apply(cfg, old(memory), RangeEffect(cfg, from, bytes))
      ensures bytes == [] && from % 8 == 0 ==> image[..] == old(image[..])
    {
      ghost var before := image[..];
      MemoryIsMeaningOfImage();
      if from + |bytes| > cfg.Size() {
        WordAlignedEmptyRange(from);
      }
      UpdateValidBits(from, from + |bytes|, false);
      ok := CapstoreWrite(from, bytes);
      if bytes == [] && from % 8 == 0 {
        MemoryIsMeaningOfImage();
        AbsIsInjective(cfg, before, image[..]);
      }
    }

    method WriteTo(c: Capability, offset: int, bytes: seq<byte>) returns (r: Response)
      requires Valid() && WriteFits(cfg, c, offset, |bytes|)
      modifies this, image
      ensures Valid()
      ensures memory == Apply(cfg, old(memory), WriteEffect(cfg, c, offset, bytes))
      ensures r == WriteResponse(cfg, c, offset, |bytes|)
      ensures r.Failure? && !ClearsThenFails(cfg, c, offset, |bytes|) ==> image[..] == old(image[..])
    {
      if !c.Writable() {
        return Failure(NoAccess);
      }
      if offset < 0 || cfg.Exceeds(offset + |bytes|, c.size) {
        return Failure(Failed);
      }
      var ok := ClearAndWrite(c.base + offset, bytes);
      r := if ok then Written(|bytes|) else Failure(Failed);
    }

    /** The body of the chunk loop: `before` is the memory at its start. */
    method ZeroChunk(c: Capability, offset: nat, ghost before: Mem, ghost k: nat)
      requires Valid() && ZeroFits(cfg, c) && c.Writable()
      requires offset == 256 * k < c.size && IsMem(cfg, before) && InStoreOrEmpty(cfg, c.base, offset)
      requires memory == Apply(cfg, before, ZerosAt(cfg, c.base, offset))
      modifies this, image
      ensures Valid() && InStoreOrEmpty(cfg, c.base, LengthBefore(cfg, c.size, offset + 256))
      ensures memory == Apply(cfg, before, ZerosAt(cfg, c.base, LengthBefore(cfg, c.size, offset + 256)))
    {
      NextChunk(cfg, before, c, offset, k);
      var n := ChunkLength(c.size, offset);
      var _ := WriteTo(c, offset, Zeros(n));
    }

    /** Zeroes a capability in chunks of 256 bytes, ignoring what the individual writes return. */
    method ZeroAll(c: Capability) returns (r: Response)
      requires Valid() && ZeroFits(cfg, c)
      modifies this, image
      ensures Valid()
      ensures memory == Apply(cfg, old(memory), ZeroEffect(cfg, c))
      ensures r == ZeroResponse(c)
      ensures r.Failure? ==> image[..] == old(image[..])
    {
      if !c.Writable() {
        return Failure(NoAccess);
      }
      ghost var before := memory;
      var offset := 0;
      ghost var chunks := 0;
      while offset < c.size
        invariant Valid()
        invariant offset == 256 * chunks
        invariant InStoreOrEmpty(cfg, c.base, LengthBefore(cfg, c.size, offset))
        invariant memory == Apply(cfg, before, ZerosAt(cfg, c.base, LengthBefore(cfg, c.size, offset)))
      {
        ZeroChunk(c, offset, before, chunks);
        offset, chunks := offset + 256, chunks + 1;
      }
      r := Done;
    }

    // --- the operations of the backend

    method GetCap(cap: capref, offset: int) returns (r: Response)
      requires Valid() && OpFits(cfg, Op.GetCap(cap, offset))
      ensures r == Respond(cfg, memory, Op.GetCap(cap, offset))
    {
      r := LoadFrom(FromCapref(cap), offset);
    }

    method PutCap(cap: capref, offset: int, newcap: capref) returns (r: Response)
      requires Valid()
      modifies this, image
      ensures Valid()
      ensures memory == Step(cfg, old(memory), Op.PutCap(cap, offset, newcap))
      ensures r == Respond(cfg, old(memory), Op.PutCap(cap, offset, newcap))
      ensures r.Failure? ==> image[..] == old(image[..])
    {
      r := StoreTo(FromCapref(cap), offset, newcap);
    }

    method Read(cap: capref, offset: int, len: nat) returns (r: Response)
      requires Valid()
      ensures r == Respond(cfg, memory, Op.Read(cap, offset, len))
    {
      r := ReadFrom(FromCapref(cap), offset, len);
    }

    method Write(cap: capref, offset: int, bytes: seq<byte>) returns (r: Response)
      requires Valid() && OpFits(cfg, Op.Write(cap, offset, bytes))
      modifies this, image
      ensures Valid()
      ensures memory == Step(cfg, old(memory), Op.Write(cap, offset, bytes))
      ensures r == Respond(cfg, old(memory), Op.Write(cap, offset, bytes))
      ensures r.Failure? && !ClearsThenFails(cfg, FromCapref(cap), offset, |bytes|) ==> image[..] == old(image[..])
    {
      r := WriteTo(FromCapref(cap), offset, bytes);
    }

    method Zero(cap: capref) returns (r: Response)
      requires Valid() && OpFits(cfg, Op.Zero(cap))
      modifies this, image
      ensures Valid()
      ensures memory == Step(cfg, old(memory), Op.Zero(cap))
      ensures r == Respond(cfg, old(memory), Op.Zero(cap))
      ensures r.Failure? ==> image[..] == old(image[..])
    {
      r := ZeroAll(FromCapref(cap));
    }

    // --- sequences of operations

    method Perform(op: Op) returns (r: Response)
      requires Valid() && OpFits(cfg, op)
      modifies this, image
      ensures Valid()
      ensures memory == Step(cfg, old(memory), op)
      ensures r == Respond(cfg, old(memory), op)
    {
      match op
      case PutCap(cap, offset, newcap) => r := PutCap(cap, offset, newcap);
      case GetCap(cap, offset) => r := GetCap(cap, offset);
      case Read(cap, offset, len) => r := Read(cap, offset, len);
      case Write(cap, offset, bytes) => r := Write(cap, offset, bytes);
      case Zero(cap) => r := Zero(cap);
    }

    /** What a client does to the file with a sequence of operations, and what they report to it. */
    method Execute(ops: seq<Op>) returns (rs: seq<Response>)
      requires Valid() && AllFit(cfg, ops)
      modifies this, image
      ensures Valid()
      ensures Leads(cfg, old(image[..]), ops, image[..])
      ensures |rs| == |ops|
      ensures forall i: nat | i < |ops| :: rs[i] == ResponseAt(cfg, Abs(cfg, old(image[..])), ops, i)
    {
      MemoryIsMeaningOfImage();
      ghost var before := memory;
      rs := [];
      for i := 0 to |ops|
        invariant Valid() && |rs| == i
        invariant memory == Run(cfg, before, ops[..i])
        invariant forall j: nat | j < i :: rs[j] == ResponseAt(cfg, before, ops, j)
      {
        RunOneMore(cfg, before, ops, i);
        var r := Perform(ops[i]);
        rs := rs + [r];
      }
      assert ops[..|ops|] == ops;
      MemoryIsMeaningOfImage();
    }
  }
}
