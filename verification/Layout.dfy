/**
 The single flat file: a bitmap with one validity bit per 8-byte pointer slot, packed in 32-bit
 words at the front, and the data region behind it.
 */
module Layout {
  import opened Words

  /**
   How a range check treats a range that ends exactly at its limit. The text of the source
   compares with `>=` and so refuses it; its documentation needs the range accepted.
   */
  datatype Bounds = RefuseAtLimit | AcceptAtLimit

  /** The store's parameters: log2 of the number of data bytes, and the reading of the range checks. */
  datatype Config = Config(sizeBits: nat, bounds: Bounds) {

    /** The bitmap consists of whole 32-bit words (see BitmapIsWholeWords). */
    predicate Valid() { 8 <= sizeBits < 64 }

    function Size(): nat { Pow2(sizeBits) }
    function NumPointers(): nat { Size() / 8 }
    function DataOffset(): nat { NumPointers() / 8 }
    function BitmapWords(): nat { DataOffset() / 4 }
    function TotalSize(): nat { Size() + DataOffset() }

    predicate Exceeds(end: nat, limit: nat) {
      match bounds
      case RefuseAtLimit => end >= limit
      case AcceptAtLimit => end > limit
    }
  }

  /** PTR2OFFSET: the file offset of the metadata word that holds a slot's bit. */
  function PtrToOffset(ptr: nat): nat { ptr / 32 * 4 }

  /** The slots a range of addresses is rounded out to. */
  function FirstSlot(from: nat): nat { from / 8 }
  function EndSlot(to: nat): nat { (to + 7) / 8 }

  predicate IsBetween(lo: nat, s: nat, hi: nat) { lo <= s < hi }

  function SlotRange(lo: nat, hi: nat): set<nat> {
    set s: nat | s < hi && IsBetween(lo, s, hi)
  }

  function Touched(from: nat, to: nat): set<nat> {
    SlotRange(FirstSlot(from), EndSlot(to))
  }

  /**
   Updating the tags of an address range accesses metadata words inside the bitmap only: the
   assertions of the metadata accesses. An empty range at the start of a word accesses none.
   */
  predicate BitmapCovers(cfg: Config, from: nat, to: nat) {
    to <= cfg.Size() || (from == to && from % 256 == 0)
  }

  /** An address lies in a slot's eight bytes. */
  predicate InSlot(addr: nat, slot: nat) { 8 * slot <= addr < 8 * slot + 8 }

  /** The byte range [from, to) and a slot's eight bytes have an address in common. */
  ghost predicate Overlaps(from: nat, to: nat, slot: nat) {
    exists addr | from <= addr < to :: InSlot(addr, slot)
  }

  /**
   The rounded-out slots are those that overlap the range, except that an empty range at an
   unaligned address still takes in the slot it falls inside.
   */
  lemma TouchedAreOverlapping(from: nat, to: nat, slot: nat)
    requires from <= to
    ensures slot in Touched(from, to) <==> Overlaps(from, to, slot) || (from == to && 8 * slot < from < 8 * slot + 8)
  {
    if slot in Touched(from, to) && from < to {
      var addr := if from < 8 * slot then 8 * slot else from;
      assert InSlot(addr, slot);
    }
  }

  lemma WordStart(ptr: nat)
    requires ptr % 32 == 0
    ensures ptr / 32 * 32 == ptr && (ptr + 32) % 32 == 0
  {
  }

  lemma WordAlignedEmptyRange(addr: nat)
    requires addr % 256 == 0
    ensures (addr + 7) / 8 == addr / 8 && addr / 8 % 32 == 0
  {
    var w := addr / 256;
    assert addr == 8 * (32 * w);
    assert addr / 8 == 32 * w;
  }

  lemma TouchedByOneSlot(addr: nat)
    requires addr % 8 == 0
    ensures Touched(addr, addr + 8) == {addr / 8}
  {
  }

  lemma TouchedCompose(from: nat, mid: nat, to: nat)
    requires from < mid < to
    ensures Touched(from, to) == Touched(from, mid) + Touched(mid, to)
  {
  }

  lemma MultiplesOf256(n: nat, w: nat)
    requires n == 256 * w
    ensures n / 8 == 32 * w && n / 8 / 8 == 4 * w && n / 8 / 8 / 4 == w
  {
  }

  lemma SizeIsWholeWords(cfg: Config)
    requires cfg.Valid()
    ensures cfg.Size() == 256 * cfg.BitmapWords()
    ensures cfg.NumPointers() == 32 * cfg.BitmapWords()
    ensures cfg.DataOffset() == 4 * cfg.BitmapWords()
  {
    Pow2Of8More(cfg.sizeBits - 8);
    MultiplesOf256(cfg.Size(), Pow2(cfg.sizeBits - 8));
  }

  lemma SlotOfAddress(cfg: Config, addr: nat)
    requires cfg.Valid()
    ensures addr < cfg.Size() <==> addr / 8 < cfg.NumPointers()
  {
    SizeIsWholeWords(cfg);
  }

  /**
   Every slot's metadata word lies inside the bitmap exactly when the size parameter is at
   least 8: the bounds assertions of the metadata accesses.
   */
  lemma BitmapIsWholeWords(cfg: Config)
    requires 3 <= cfg.sizeBits < 64
    ensures (forall s | 0 <= s < cfg.NumPointers() :: PtrToOffset(s) + 4 <= cfg.DataOffset()) <==> cfg.sizeBits >= 8
    ensures cfg.Valid() <==> cfg.sizeBits >= 8
  {
    if cfg.sizeBits >= 8 {
      Pow2Of8More(cfg.sizeBits - 8);
      MultiplesOf256(cfg.Size(), Pow2(cfg.sizeBits - 8));
    } else {
      Pow2Grows(3, cfg.sizeBits);
      Pow2Grows(cfg.sizeBits, 7);
      assert PtrToOffset(0) + 4 > cfg.DataOffset();
    }
  }

  /**
   Slot addressing is exact: different slots have different bits, each inside the bitmap, and
   the bits of the slots fill the bitmap.
   */
  lemma SlotAddressing(cfg: Config, s: nat, t: nat, off: nat, bit: nat)
    requires cfg.Valid()
    ensures PtrToOffset(s) == PtrToOffset(t) && s % 32 == t % 32 ==> s == t
    ensures s < cfg.NumPointers() <==> PtrToOffset(s) < cfg.DataOffset()
    ensures s < cfg.NumPointers() ==> PtrToOffset(s) + 4 <= cfg.DataOffset()
    ensures off % 4 == 0 && off < cfg.DataOffset() && bit < 32 ==>
              var u := off / 4 * 32 + bit; u < cfg.NumPointers() && PtrToOffset(u) == off && u % 32 == bit
  {
    SizeIsWholeWords(cfg);
  }

  predicate IsImage(cfg: Config, img: seq<byte>) {
    cfg.Valid() && |img| == cfg.TotalSize()
  }

  /** The metadata words at the front of a file image. */
  function WordsOf(cfg: Config, img: seq<byte>): (words: seq<u32>)
    requires IsImage(cfg, img)
    ensures |words| == cfg.BitmapWords()
  {
    SizeIsWholeWords(cfg);
    seq(cfg.BitmapWords(), i requires 0 <= i < cfg.BitmapWords() => Word32(img[4 * i..4 * i + 4]))
  }

  /** The data behind them. */
  function DataOf(cfg: Config, img: seq<byte>): (data: seq<byte>)
    requires IsImage(cfg, img)
    ensures |data| == cfg.Size()
  {
    img[cfg.DataOffset()..]
  }

  /** A slot's validity bit. */
  predicate Tagged(words: seq<u32>, slot: nat)
    requires slot < 32 * |words|
  {
    Bit(words[slot / 32], slot % 32)
  }

  function TagsOf(words: seq<u32>): set<nat> {
    set s | 0 <= s < 32 * |words| && Tagged(words, s)
  }

  /** What a file image means: the data bytes, and the set of tagged slots. */
  datatype Mem = Mem(data: seq<byte>, tags: set<nat>)

  predicate IsMem(cfg: Config, m: Mem) {
    cfg.Valid() && |m.data| == cfg.Size() && forall s | s in m.tags :: s < cfg.NumPointers()
  }

  function Abs(cfg: Config, img: seq<byte>): (m: Mem)
    requires IsImage(cfg, img)
    ensures IsMem(cfg, m)
  {
    SizeIsWholeWords(cfg);
    Mem(DataOf(cfg, img), TagsOf(WordsOf(cfg, img)))
  }

  /** Writing a metadata word changes that word and nothing else. */
  lemma MetadataSplice(cfg: Config, img: seq<byte>, i: nat, md: u32)
    requires IsImage(cfg, img) && i < cfg.BitmapWords()
    ensures 4 * i + 4 <= cfg.DataOffset()
    ensures WordsOf(cfg, Splice(img, 4 * i, Bytes(md, 4))) == WordsOf(cfg, img)[i := md]
    ensures DataOf(cfg, Splice(img, 4 * i, Bytes(md, 4))) == DataOf(cfg, img)
  {
    SizeIsWholeWords(cfg);
    var after := Splice(img, 4 * i, Bytes(md, 4));
    forall j | 0 <= j < cfg.BitmapWords()
      ensures WordsOf(cfg, after)[j] == WordsOf(cfg, img)[i := md][j]
    {
      if j == i {
        assert after[4 * j..4 * j + 4] == Bytes(md, 4);
        Word32RoundTrip(md);
      } else {
        assert after[4 * j..4 * j + 4] == img[4 * j..4 * j + 4];
      }
    }
  }

  /** Writing data leaves the metadata alone. */
  lemma DataSplice(cfg: Config, img: seq<byte>, addr: nat, bytes: seq<byte>)
    requires IsImage(cfg, img) && addr + |bytes| <= cfg.Size()
    ensures WordsOf(cfg, Splice(img, cfg.DataOffset() + addr, bytes)) == WordsOf(cfg, img)
    ensures DataOf(cfg, Splice(img, cfg.DataOffset() + addr, bytes)) == Splice(DataOf(cfg, img), addr, bytes)
  {
    SizeIsWholeWords(cfg);
    var after := Splice(img, cfg.DataOffset() + addr, bytes);
    forall j | 0 <= j < cfg.BitmapWords()
      ensures WordsOf(cfg, after)[j] == WordsOf(cfg, img)[j]
    {
      assert after[4 * j..4 * j + 4] == img[4 * j..4 * j + 4];
    }
  }

  lemma TagOfBit(words: seq<u32>, i: nat, k: nat)
    requires i < |words| && k < 32
    ensures 32 * i + k in TagsOf(words) <==> Bit(words[i], k)
  {
    assert (32 * i + k) / 32 == i && (32 * i + k) % 32 == k;
    assert 32 * i + k in TagsOf(words) <==> Tagged(words, 32 * i + k);
  }

  lemma ByteOfBit(s: nat)
    ensures s / 8 == 4 * (s / 32) + s % 32 / 8 && s % 8 == s % 32 % 8 && s % 32 / 8 < 4
  {
  }

  lemma TagInWord(cfg: Config, img: seq<byte>, i: nat, k: nat)
    requires IsImage(cfg, img) && i < cfg.BitmapWords() && k < 32
    ensures 4 * i + k / 8 < |img|
    ensures 32 * i + k in TagsOf(WordsOf(cfg, img)) <==> Bit(img[4 * i + k / 8], k % 8)
  {
    SizeIsWholeWords(cfg);
    var b := img[4 * i..4 * i + 4];
    assert b[k / 8] == img[4 * i + k / 8];
    BitOfWord(b, k);
    TagOfBit(WordsOf(cfg, img), i, k);
  }

  /** Slot s is tagged by bit s % 8 of byte s / 8 of the file. */
  lemma TagInFile(cfg: Config, img: seq<byte>, s: nat)
    requires IsImage(cfg, img) && s < cfg.Size() / 8
    ensures s / 8 < |img|
    ensures s in Abs(cfg, img).tags <==> Bit(img[s / 8], s % 8)
  {
    ByteOfBit(s);
    assert s / 32 < cfg.BitmapWords() by {
      SizeIsWholeWords(cfg);
    }
    TagInWord(cfg, img, s / 32, s % 32);
  }

  /** The data byte at an address lies one 64th of the store's size behind it in the file. */
  lemma DataInFile(cfg: Config, img: seq<byte>, addr: nat)
    requires IsImage(cfg, img) && addr < cfg.Size()
    ensures cfg.Size() / 64 + addr < |img|
    ensures Abs(cfg, img).data[addr] == img[cfg.Size() / 64 + addr]
  {
    SizeIsWholeWords(cfg);
  }

  lemma TagsDetermineWords(a: seq<u32>, b: seq<u32>)
    requires |a| == |b| && TagsOf(a) == TagsOf(b)
    ensures a == b
  {
    forall i | 0 <= i < |a|
      ensures a[i] == b[i]
    {
      forall k: nat | k < 32
        ensures Bit(a[i], k) == Bit(b[i], k)
      {
        TagOfBit(a, i, k);
        TagOfBit(b, i, k);
      }
      PowersOfTwo();
      BitsDetermineWord(a[i], b[i], 32);
    }
  }

  lemma WordOfByte(i: nat)
    ensures 4 * (i / 4) <= i < 4 * (i / 4) + 4
  {
  }

  /** A metadata word determines its four bytes. */
  lemma SameWordSameBytes(cfg: Config, a: seq<byte>, b: seq<byte>, i: nat)
    requires IsImage(cfg, a) && IsImage(cfg, b) && i < cfg.DataOffset()
    requires i / 4 < cfg.BitmapWords() && WordsOf(cfg, a)[i / 4] == WordsOf(cfg, b)[i / 4]
    ensures a[i] == b[i]
  {
    SizeIsWholeWords(cfg);
    WordOfByte(i);
    var w := 4 * (i / 4);
    var x, y := a[w..w + 4], b[w..w + 4];
    BytesOfWord(x);
    BytesOfWord(y);
    assert Word(x) == WordsOf(cfg, a)[i / 4] && Word(y) == WordsOf(cfg, b)[i / 4];
    assert a[i] == x[i - w] && b[i] == y[i - w];
  }

  /** The meaning of an image loses nothing: images with the same meaning are the same bytes. */
  lemma AbsIsInjective(cfg: Config, a: seq<byte>, b: seq<byte>)
    requires IsImage(cfg, a) && IsImage(cfg, b)
    requires Abs(cfg, a) == Abs(cfg, b)
    ensures a == b
  {
    TagsDetermineWords(WordsOf(cfg, a), WordsOf(cfg, b));
    var n := cfg.DataOffset();
    forall i | 0 <= i < n
      ensures a[i] == b[i]
    {
      SizeIsWholeWords(cfg);
      SameWordSameBytes(cfg, a, b, i);
    }
    assert a == a[..n] + DataOf(cfg, a) && b == b[..n] + DataOf(cfg, b);
  }

  lemma {:induction false} WordOfZeros(b: seq<byte>)
    requires forall i | 0 <= i < |b| :: b[i] == 0
    ensures Word(b) == 0
  {
    if b == [] {
    } else {
      WordOfZeros(b[1..]);
    }
  }

  /** A freshly truncated file holds zeros and no tags. */
  lemma ZeroImageIsUntagged(cfg: Config)
    requires cfg.Valid()
    ensures Abs(cfg, Zeros(cfg.TotalSize())) == Mem(Zeros(cfg.Size()), {})
  {
    SizeIsWholeWords(cfg);
    var img := Zeros(cfg.TotalSize());
    var words := WordsOf(cfg, img);
    forall s: nat | s < 32 * |words|
      ensures !Tagged(words, s)
    {
      WordOfZeros(img[s / 32 * 4..s / 32 * 4 + 4]);
      ZeroHasNoBits(s % 32);
    }
    assert DataOf(cfg, img) == Zeros(cfg.Size());
  }
}
