/**
 The documented promise of zeroing a capability, and when the range checks let it be kept.
 */
module Zeroing {
  import opened Words
  import opened Capabilities
  import opened Layout
  import opened TaggedMemory

  /** Every byte of the capability is zero, and no slot that shares a byte with it is tagged. */
  ghost predicate Cleared(m: Mem, c: Capability)
    requires c.End() <= |m.data|
  {
    && (forall b: nat | c.Contains(b) :: m.data[b] == 0)
    && (forall s: nat | s in m.tags :: !Overlaps(c.base, c.End(), s))
  }

  function Zeroed(cfg: Config, m: Mem, c: Capability): (m': Mem)
    requires IsMem(cfg, m) && ZeroFits(cfg, c)
    ensures IsMem(cfg, m')
  {
    Apply(cfg, m, ZeroEffect(cfg, c))
  }

  /** One write of as many zeros as the capability is long. */
  function ZerosWritten(cfg: Config, m: Mem, c: Capability): (m': Mem)
    requires IsMem(cfg, m) && WriteFits(cfg, c, 0, c.size)
    ensures IsMem(cfg, m')
  {
    Apply(cfg, m, WriteEffect(cfg, c, 0, Zeros(c.size)))
  }

  lemma ZeroedClears(cfg: Config, m: Mem, c: Capability)
    requires IsMem(cfg, m) && c.End() <= cfg.Size() && c.size > 0 && c.Writable()
    requires cfg.bounds.AcceptAtLimit?
    ensures Cleared(Zeroed(cfg, m, c), c)
  {
    forall s: nat | s in Zeroed(cfg, m, c).tags
      ensures !Overlaps(c.base, c.End(), s)
    {
      TouchedAreOverlapping(c.base, c.End(), s);
    }
  }

  function Ones(n: nat): (b: seq<byte>)
    ensures |b| == n && forall i | 0 <= i < n :: b[i] == 1
  {
    seq(n, _ => 1)
  }

  /**
   Zeroing clears the whole of every writable capability, whatever the memory held, exactly
   when a range that ends at its limit is accepted.
   */
  lemma ZeroClearsAll(cfg: Config, c: Capability)
    requires cfg.Valid() && c.End() <= cfg.Size() && c.size > 0 && c.Writable()
    ensures (forall m | IsMem(cfg, m) :: Cleared(Zeroed(cfg, m, c), c)) <==> cfg.bounds.AcceptAtLimit?
  {
    if cfg.bounds.AcceptAtLimit? {
      forall m | IsMem(cfg, m)
        ensures Cleared(Zeroed(cfg, m, c), c)
      {
        ZeroedClears(cfg, m, c);
      }
    } else {
      var m := Mem(Ones(cfg.Size()), {});
      assert IsMem(cfg, m);
      assert c.Contains(c.End() - 1) && Zeroed(cfg, m, c).data[c.End() - 1] == 1;
    }
  }

  /**
   What zeroing does to the last chunk when a range that ends at its limit is refused: nothing.
   The bytes before it are zero, and every byte from the last multiple of 256 on is kept.
   */
  lemma LastChunkIsKept(cfg: Config, m: Mem, c: Capability, b: nat)
    requires IsMem(cfg, m) && c.End() <= cfg.Size() && c.size > 0 && c.Writable()
    requires cfg.bounds.RefuseAtLimit? && c.Contains(b)
    ensures Zeroed(cfg, m, c).data[b] == if (b - c.base) / 256 < (c.size - 1) / 256 then 0 else m.data[b]
  {
    var last := (c.size - 1) / 256;
    LastChunkAt(c.size, last);
    assert b - c.base < 256 * last <==> (b - c.base) / 256 < last;
  }

  lemma SameEffect(cfg: Config, c: Capability)
    requires c.End() <= cfg.Size() && c.size > 0 && c.Writable()
    requires cfg.bounds.AcceptAtLimit? || c.size <= 256
    ensures ZeroEffect(cfg, c) == WriteEffect(cfg, c, 0, Zeros(c.size))
  {
  }

  /** A memory that one write of zeros would leave alone, but zeroing in chunks changes. */
  lemma FirstChunkDiffers(cfg: Config, c: Capability)
    requires cfg.Valid() && c.End() <= cfg.Size() && c.size > 256 && c.Writable()
    requires cfg.bounds.RefuseAtLimit?
    ensures var m := Mem(Ones(cfg.Size()), {});
            IsMem(cfg, m) && Zeroed(cfg, m, c) != ZerosWritten(cfg, m, c)
  {
    var m := Mem(Ones(cfg.Size()), {});
    LastChunkIsKept(cfg, m, c, c.base);
    assert (c.size - 1) / 256 > 0;
    assert ZerosWritten(cfg, m, c) == m;
    assert Zeroed(cfg, m, c).data[c.base] == 0;
  }

  /**
   Chunked zeroing is the single write of zeros that the documentation says it is, on the
   whole memory, exactly when ranges ending at their limit are accepted, or when the
   capability is one chunk, where both are refused.
   */
  lemma ZeroIsOneWrite(cfg: Config, c: Capability)
    requires cfg.Valid() && c.End() <= cfg.Size() && c.size > 0 && c.Writable()
    ensures (forall m | IsMem(cfg, m) :: Zeroed(cfg, m, c) == ZerosWritten(cfg, m, c))
            <==> cfg.bounds.AcceptAtLimit? || c.size <= 256
  {
    if cfg.bounds.AcceptAtLimit? || c.size <= 256 {
      SameEffect(cfg, c);
    } else {
      FirstChunkDiffers(cfg, c);
    }
  }

  /** Nothing outside the capability changes: not a byte, and not the tag of a slot it shares no byte with. */
  lemma ZeroStaysInside(cfg: Config, m: Mem, c: Capability, b: nat, s: nat)
    requires IsMem(cfg, m) && ZeroFits(cfg, c)
    ensures b < cfg.Size() && !c.Contains(b) ==> Zeroed(cfg, m, c).data[b] == m.data[b]
    ensures !Overlaps(c.base, c.End(), s) ==> (s in Zeroed(cfg, m, c).tags <==> s in m.tags)
  {
    var len := CheckedLength(cfg, c.size);
    if len > 0 && s in Touched(c.base, c.base + len) {
      TouchedAreOverlapping(c.base, c.base + len, s);
      var addr :| c.base <= addr < c.base + len && InSlot(addr, s);
      assert Overlaps(c.base, c.End(), s);
    }
  }
}
