/**
 What editing metadata words does to the set of tagged slots.
 */
module Bitmap {
  import opened Words
  import opened Layout

  /** The bits from..to of a word are `on`; the others are those of `before`. */
  ghost predicate BitsSet(before: u32, after: u32, from: nat, to: nat, on: bool) {
    forall k: nat | k < 32 :: Bit(after, k) == if from <= k < to then on else Bit(before, k)
  }

  lemma OneMoreBitSet(before: u32, w: u32, from: nat, to: nat, on: bool)
    requires from <= to < 32
    requires BitsSet(before, w, from, to, on)
    ensures BitsSet(before, Edit(w, to, on), from, to + 1, on)
  {
    forall k: nat | k < 32
      ensures Bit(Edit(w, to, on), k) == if from <= k < to + 1 then on else Bit(before, k)
    {
      EditChangesOneBit(w, to, k, on);
    }
  }

  lemma UniformSetsAll(before: u32, on: bool)
    ensures BitsSet(before, UniformWord(on), 0, 32, on)
  {
    forall k: nat | k < 32
      ensures Bit(UniformWord(on), k) == on
    {
      UniformWordBits(k, on);
    }
  }

  /** From words `a` to words `b`, the slots lo..hi become `on` and no other slot changes. */
  ghost predicate Marked(a: seq<u32>, b: seq<u32>, lo: nat, hi: nat, on: bool) {
    && |b| == |a|
    && forall i: nat, k: nat | i < |a| && k < 32 ::
         Bit(b[i], k) == if lo <= 32 * i + k < hi then on else Bit(a[i], k)
  }

  lemma MarkedInOneWord(a: seq<u32>, i: nat, md: u32, from: nat, to: nat, on: bool)
    requires i < |a| && from <= to <= 32
    requires BitsSet(a[i], md, from, to, on)
    ensures Marked(a, a[i := md], 32 * i + from, 32 * i + to, on)
  {
  }

  lemma MarkedCompose(a: seq<u32>, b: seq<u32>, c: seq<u32>, lo: nat, mid: nat, hi: nat, on: bool)
    requires lo <= mid <= hi
    requires Marked(a, b, lo, mid, on) && Marked(b, c, mid, hi, on)
    ensures Marked(a, c, lo, hi, on)
  {
  }

  /** Marking slots adds them to, or removes them from, the set of tags. */
  lemma MarkedMeansTags(a: seq<u32>, b: seq<u32>, lo: nat, hi: nat, on: bool)
    requires hi <= lo || hi <= 32 * |a|
    requires Marked(a, b, lo, hi, on)
    ensures TagsOf(b) == if on then TagsOf(a) + SlotRange(lo, hi) else TagsOf(a) - SlotRange(lo, hi)
  {
    forall s: nat | s < 32 * |a|
      ensures Tagged(b, s) == if lo <= s < hi then on else Tagged(a, s)
    {
      assert s == 32 * (s / 32) + s % 32;
    }
  }
}
