/**
 Machine words as the store keeps them. A word is a natural number below 2^8, 2^32 or 2^64;
 the C operators `|`, `^` and `& ~` are defined on binary digits, and a word is laid out in
 the file as little-endian bytes.
 */
module Words {

  const TWO_TO_THE_32 := 0x1_0000_0000
  const TWO_TO_THE_48 := 0x1_0000_0000_0000
  const TWO_TO_THE_56 := 0x100_0000_0000_0000
  const TWO_TO_THE_64 := 0x1_0000_0000_0000_0000

  type byte = n: nat | n < 256
  type u32 = n: nat | n < TWO_TO_THE_32
  type u64 = n: nat | n < TWO_TO_THE_64

  function Pow2(n: nat): (p: nat)
    ensures p > 0
  {
    if n == 0 then 1 else 2 * Pow2(n - 1)
  }

  /** The binary digit of weight 2^k, that is, `w & (1 << k)` as a truth value. */
  predicate Bit(w: nat, k: nat) {
    if k == 0 then w % 2 == 1 else Bit(w / 2, k - 1)
  }

  /** `a | b` */
  function Or(a: nat, b: nat): nat {
    if a == 0 && b == 0 then 0
    else 2 * Or(a / 2, b / 2) + if a % 2 == 1 || b % 2 == 1 then 1 else 0
  }

  /** `a & ~b` */
  function AndNot(a: nat, b: nat): nat {
    if a == 0 then 0
    else 2 * AndNot(a / 2, b / 2) + if a % 2 == 1 && b % 2 == 0 then 1 else 0
  }

  /** `a ^ b` */
  function Xor(a: nat, b: nat): nat {
    if a == 0 && b == 0 then 0
    else 2 * Xor(a / 2, b / 2) + if a % 2 != b % 2 then 1 else 0
  }

  lemma Pow2Of8More(n: nat)
    ensures Pow2(n + 8) == 256 * Pow2(n)
  {
    assert Pow2(n + 8) == 2 * Pow2(n + 7) == 4 * Pow2(n + 6) == 8 * Pow2(n + 5) == 16 * Pow2(n + 4);
    assert Pow2(n + 4) == 2 * Pow2(n + 3) == 4 * Pow2(n + 2) == 8 * Pow2(n + 1) == 16 * Pow2(n);
  }

  lemma PowersOfTwo()
    ensures Pow2(8) == 256 && Pow2(32) == TWO_TO_THE_32 && Pow2(48) == TWO_TO_THE_48
    ensures Pow2(56) == TWO_TO_THE_56 && Pow2(64) == TWO_TO_THE_64
  {
    var p := (n: nat) => Pow2(8 * n);
    forall n: nat ensures p(n + 1) == 256 * p(n) {
      Pow2Of8More(8 * n);
    }
    assert p(1) == 256 * p(0) && p(2) == 256 * p(1) && p(3) == 256 * p(2) && p(4) == 256 * p(3);
    assert p(5) == 256 * p(4) && p(6) == 256 * p(5) && p(7) == 256 * p(6) && p(8) == 256 * p(7);
  }

  lemma {:induction false} ZeroHasNoBits(k: nat)
    ensures !Bit(0, k)
  {
    if k == 0 {
    } else {
      ZeroHasNoBits(k - 1);
    }
  }

  lemma DoublePlusBit(x: nat, b: bool, r: nat)
    requires r == 2 * x + if b then 1 else 0
    ensures r / 2 == x && (r % 2 == 1 <==> b)
  {
  }

  lemma {:induction false} OrBits(a: nat, b: nat, k: nat)
    ensures Bit(Or(a, b), k) == (Bit(a, k) || Bit(b, k))
    decreases k
  {
    if a == 0 && b == 0 {
      ZeroHasNoBits(k);
    } else {
      DoublePlusBit(Or(a / 2, b / 2), a % 2 == 1 || b % 2 == 1, Or(a, b));
      if k == 0 {
      } else {
        OrBits(a / 2, b / 2, k - 1);
      }
    }
  }

  lemma {:induction false} AndNotBits(a: nat, b: nat, k: nat)
    ensures Bit(AndNot(a, b), k) == (Bit(a, k) && !Bit(b, k))
    decreases k
  {
    if a == 0 {
      ZeroHasNoBits(k);
    } else {
      DoublePlusBit(AndNot(a / 2, b / 2), a % 2 == 1 && b % 2 == 0, AndNot(a, b));
      if k == 0 {
      } else {
        AndNotBits(a / 2, b / 2, k - 1);
      }
    }
  }

  lemma {:induction false} XorBits(a: nat, b: nat, k: nat)
    ensures Bit(Xor(a, b), k) == (Bit(a, k) != Bit(b, k))
    decreases k
  {
    if a == 0 && b == 0 {
      ZeroHasNoBits(k);
    } else {
      DoublePlusBit(Xor(a / 2, b / 2), a % 2 != b % 2, Xor(a, b));
      if k == 0 {
      } else {
        XorBits(a / 2, b / 2, k - 1);
      }
    }
  }

  lemma {:induction false} Pow2Bits(n: nat, k: nat)
    ensures Bit(Pow2(n), k) == (k == n)
  {
    if k == 0 {
    } else if n == 0 {
      ZeroHasNoBits(k - 1);
    } else {
      Pow2Bits(n - 1, k - 1);
    }
  }

  lemma {:induction false} OrFits(a: nat, b: nat, n: nat)
    requires a < Pow2(n) && b < Pow2(n)
    ensures Or(a, b) < Pow2(n)
  {
    if n == 0 {
    } else {
      OrFits(a / 2, b / 2, n - 1);
    }
  }

  lemma {:induction false} AndNotFits(a: nat, b: nat)
    ensures AndNot(a, b) <= a
  {
    if a == 0 {
    } else {
      AndNotFits(a / 2, b / 2);
    }
  }

  lemma {:induction false} XorFits(a: nat, b: nat, n: nat)
    requires a < Pow2(n) && b < Pow2(n)
    ensures Xor(a, b) < Pow2(n)
  {
    if n == 0 {
    } else {
      XorFits(a / 2, b / 2, n - 1);
    }
  }

  /** Salting twice with the same salt is the identity. */
  lemma {:induction false} XorTwice(a: nat, s: nat)
    ensures Xor(Xor(a, s), s) == a
    decreases a + s
  {
    if a == 0 && s == 0 {
    } else {
      DoublePlusBit(Xor(a / 2, s / 2), a % 2 != s % 2, Xor(a, s));
      XorTwice(a / 2, s / 2);
    }
  }

  lemma {:induction false} OrZero(a: nat)
    ensures Or(a, 0) == a
  {
    if a == 0 {
    } else {
      OrZero(a / 2);
    }
  }

  /** Fields that do not overlap: `(hi << n) | lo` is the sum of its parts. */
  lemma {:induction false} OrOfDisjointFields(hi: nat, lo: nat, n: nat)
    requires lo < Pow2(n)
    ensures Or(hi * Pow2(n), lo) == hi * Pow2(n) + lo
    decreases n
  {
    if n == 0 {
      OrZero(hi);
    } else {
      assert hi * Pow2(n) == 2 * (hi * Pow2(n - 1));
      OrOfDisjointFields(hi, lo / 2, n - 1);
    }
  }

  lemma {:induction false} Pow2Grows(m: nat, n: nat)
    requires m <= n
    ensures Pow2(m) <= Pow2(n)
    decreases n
  {
    if m == n {
    } else {
      Pow2Grows(m, n - 1);
    }
  }

  /** `w | (1 << k)` when `on`, `w & ~(1 << k)` otherwise. */
  function Edit(w: u32, k: nat, on: bool): (r: u32)
    requires k < 32
  {
    assert on ==> Or(w, Pow2(k)) < TWO_TO_THE_32 by {
      PowersOfTwo();
      Pow2Grows(k + 1, 32);
      OrFits(w, Pow2(k), 32);
    }
    AndNotFits(w, Pow2(k));
    if on then Or(w, Pow2(k)) else AndNot(w, Pow2(k))
  }

  /** Editing one bit changes that bit to `on` and no other. */
  lemma EditChangesOneBit(w: u32, k: nat, j: nat, on: bool)
    requires k < 32
    ensures Bit(Edit(w, k, on), j) == if j == k then on else Bit(w, j)
  {
    OrBits(w, Pow2(k), j);
    AndNotBits(w, Pow2(k), j);
    Pow2Bits(k, j);
  }

  /** The word written for 32 slots at a time: all ones or all zeros. */
  function UniformWord(on: bool): u32 {
    if on then 0xffff_ffff else 0
  }

  lemma {:induction false} AllOnesBits(n: nat, k: nat)
    requires k < n
    ensures Bit(Pow2(n) - 1, k)
  {
    if k == 0 {
    } else {
      AllOnesBits(n - 1, k - 1);
      assert (Pow2(n) - 1) / 2 == Pow2(n - 1) - 1;
    }
  }

  lemma UniformWordBits(k: nat, on: bool)
    requires k < 32
    ensures Bit(UniformWord(on), k) == on
  {
    if on {
      PowersOfTwo();
      AllOnesBits(32, k);
    } else {
      ZeroHasNoBits(k);
    }
  }

  /** A word is determined by its bits. */
  lemma {:induction false} BitsDetermineWord(w: nat, v: nat, n: nat)
    requires w < Pow2(n) && v < Pow2(n)
    requires forall k: nat | k < n :: Bit(w, k) == Bit(v, k)
    ensures w == v
  {
    if n == 0 {
    } else {
      assert Bit(w, 0) == Bit(v, 0);
      forall k: nat | k < n - 1
        ensures Bit(w / 2, k) == Bit(v / 2, k)
      {
        assert Bit(w, k + 1) == Bit(v, k + 1);
      }
      BitsDetermineWord(w / 2, v / 2, n - 1);
    }
  }

  /** The little-endian image of the low `n` bytes of a word. */
  function Bytes(w: nat, n: nat): (b: seq<byte>)
    ensures |b| == n
  {
    if n == 0 then [] else [w % 256] + Bytes(w / 256, n - 1)
  }

  /** The word with a given little-endian image. */
  function Word(b: seq<byte>): nat {
    if b == [] then 0 else b[0] + 256 * Word(b[1..])
  }

  lemma {:induction false} WordFits(b: seq<byte>)
    ensures Word(b) < Pow2(8 * |b|)
  {
    if b == [] {
    } else {
      WordFits(b[1..]);
      Pow2Of8More(8 * |b[1..]|);
    }
  }

  lemma {:induction false} WordOfBytes(w: nat, n: nat)
    requires w < Pow2(8 * n)
    ensures Word(Bytes(w, n)) == w
    decreases n
  {
    if n == 0 {
    } else {
      Pow2Of8More(8 * (n - 1));
      WordOfBytes(w / 256, n - 1);
      assert Bytes(w, n)[1..] == Bytes(w / 256, n - 1);
    }
  }

  lemma {:induction false} BytesOfWord(b: seq<byte>)
    ensures Bytes(Word(b), |b|) == b
  {
    if b == [] {
    } else {
      BytesOfWord(b[1..]);
      assert Word(b) % 256 == b[0] && Word(b) / 256 == Word(b[1..]);
    }
  }

  /** The bits of two fields side by side: `(y << n) + x`. */
  lemma {:induction false} BitOfFields(x: nat, y: nat, n: nat, k: nat)
    requires x < Pow2(n)
    ensures Bit(x + Pow2(n) * y, k) == if k < n then Bit(x, k) else Bit(y, k - n)
    decreases n
  {
    if n == 0 {
    } else {
      assert Pow2(n) * y == 2 * (Pow2(n - 1) * y);
      if k == 0 {
      } else {
        BitOfFields(x / 2, y, n - 1, k - 1);
      }
    }
  }

  /** Words are little-endian: bit k of a word is bit k % 8 of its byte k / 8. */
  lemma {:induction false} BitOfWord(b: seq<byte>, k: nat)
    requires k < 8 * |b|
    ensures Bit(Word(b), k) == Bit(b[k / 8], k % 8)
  {
    Pow2Of8More(0);
    BitOfFields(b[0], Word(b[1..]), 8, k);
    if k < 8 {
    } else {
      BitOfWord(b[1..], k - 8);
    }
  }

  function Word32(b: seq<byte>): (w: u32)
    requires |b| == 4
  {
    PowersOfTwo();
    WordFits(b);
    Word(b)
  }

  function Word64(b: seq<byte>): (w: u64)
    requires |b| == 8
  {
    PowersOfTwo();
    WordFits(b);
    Word(b)
  }

  lemma Word64RoundTrip(w: u64)
    ensures Word64(Bytes(w, 8)) == w
  {
    PowersOfTwo();
    WordOfBytes(w, 8);
  }

  lemma Word32RoundTrip(w: u32)
    ensures Word32(Bytes(w, 4)) == w
  {
    PowersOfTwo();
    WordOfBytes(w, 4);
  }

  /** The sequence `s` with `b` laid over it from index `at` on: what seek and write do to a file. */
  function Splice<T>(s: seq<T>, at: nat, b: seq<T>): (r: seq<T>)
    requires at + |b| <= |s|
    ensures |r| == |s|
    ensures forall i | 0 <= i < |s| :: r[i] == if at <= i < at + |b| then b[i - at] else s[i]
  {
    s[..at] + b + s[at + |b|..]
  }

  function Zeros(n: nat): (z: seq<byte>)
    ensures |z| == n
    ensures forall i | 0 <= i < n :: z[i] == 0
  {
    seq(n, _ => 0)
  }
}
