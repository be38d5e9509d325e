/**
 The range update of the validity bits as the text of the source has it: it compares with `<=`
 against an exclusive end, writes the edited word back at the advanced pointer, and asserts
 that the head ends on a word boundary. This module finds where that text is right, whether or
 not the words that the head and the tail start from are those of the bitmap.
 */
module AsWritten {
  import opened Words
  import opened Layout
  import opened TaggedMemory
  import opened Bitmap

  /**
   What reading a metadata word leaves in the variable it is read into: the word, as it is meant
   to, or, as in the text, what was there before. That is any word in the head, where the
   variable has not been set, and the word of 32 equal bits in the tail.
   */
  datatype Fill = Filled | Unfilled(stack: u32)

  function HeadStart(fill: Fill, word: u32): u32 {
    if fill.Filled? then word else fill.stack
  }

  function TailStart(fill: Fill, word: u32, on: bool): u32 {
    if fill.Filled? then word else UniformWord(on)
  }

  /** Writing a metadata word; None when the bounds assertion fails. */
  function RawWrite(words: seq<u32>, ptr: nat, md: u32): Option<seq<u32>> {
    if ptr / 32 < |words| then Some(words[ptr / 32 := md]) else None
  }

  /** The bit loop of the head and of the tail: the word edited, and the pointer behind the last bit edited. */
  function EditLoop(md: u32, bit: nat, ptrFrom: nat, ptrTo: nat, on: bool): (u32, nat)
    requires bit <= 32
    decreases 32 - bit
  {
    if ptrFrom <= ptrTo && bit < 32 then EditLoop(Edit(md, bit, on), bit + 1, ptrFrom + 1, ptrTo, on)
    else (md, ptrFrom)
  }

  /** The loop over whole words. */
  function WordLoop(words: seq<u32>, ptrFrom: nat, ptrTo: nat, on: bool): Option<(seq<u32>, nat)>
    decreases ptrTo - ptrFrom
  {
    if ptrFrom + 32 <= ptrTo then
      match RawWrite(words, ptrFrom, UniformWord(on))
      case None => None
      case Some(w) => WordLoop(w, ptrFrom + 32, ptrTo, on)
    else Some((words, ptrFrom))
  }

  /** The head; None when an assertion fails. */
  function Head(words: seq<u32>, ptrFrom: nat, ptrTo: nat, on: bool, fill: Fill): Option<(seq<u32>, nat)>
    requires ptrFrom <= 32 * |words|
  {
    if ptrFrom % 32 == 0 then Some((words, ptrFrom))
    else
      var (md, next) := EditLoop(HeadStart(fill, words[ptrFrom / 32]), ptrFrom % 32, ptrFrom, ptrTo, on);
      match RawWrite(words, next, md)
      case None => None
      case Some(w) => if next % 32 == 0 then Some((w, next)) else None
  }

  function Tail(words: seq<u32>, ptrFrom: nat, ptrTo: nat, on: bool, fill: Fill): Option<seq<u32>> {
    if ptrFrom >= ptrTo then Some(words)
    else if ptrFrom / 32 >= |words| then None
    else
      var (md, next) := EditLoop(TailStart(fill, words[ptrFrom / 32], on), 0, ptrFrom, ptrTo, on);
      if next <= ptrTo then None else RawWrite(words, next, md)
  }

  function Update(words: seq<u32>, ptrFrom: nat, ptrTo: nat, on: bool, fill: Fill): Option<seq<u32>>
    requires ptrFrom <= 32 * |words|
  {
    match Head(words, ptrFrom, ptrTo, on, fill)
    case None => None
    case Some((w, p)) =>
      match WordLoop(w, p, ptrTo, on)
      case None => None
      case Some((w', p')) => Tail(w', p', ptrTo, on, fill)
  }

  lemma {:induction false} EditLoopSets(before: u32, md: u32, first: nat, bit: nat, ptrFrom: nat, ptrTo: nat, on: bool)
    requires first <= bit <= 32 && ptrFrom <= ptrTo + 1
    requires BitsSet(before, md, first, bit, on)
    ensures var (edited, next) := EditLoop(md, bit, ptrFrom, ptrTo, on);
            && next == (if ptrTo + 1 - ptrFrom <= 32 - bit then ptrTo + 1 else ptrFrom + 32 - bit)
            && BitsSet(before, edited, first, bit + (next - ptrFrom), on)
    decreases 32 - bit
  {
    if ptrFrom > ptrTo || bit == 32 {
    } else {
      OneMoreBitSet(before, md, first, bit, on);
      EditLoopSets(before, Edit(md, bit, on), first, bit + 1, ptrFrom + 1, ptrTo, on);
    }
  }

  /** The word loop marks whole words, and keeps those before its start. */
  lemma {:induction false} WordLoopMarks(words: seq<u32>, lo: nat, hi: nat, on: bool)
    requires lo % 32 == 0 && lo <= hi
    ensures var r := WordLoop(words, lo, hi, on);
            && (hi <= 32 * |words| ==> r.Some?)
            && (r.Some? ==> r.value.1 == hi / 32 * 32 && Marked(words, r.value.0, lo, r.value.1, on))
    decreases hi - lo
  {
    if lo + 32 > hi || lo / 32 >= |words| {
    } else {
      var next := words[lo / 32 := UniformWord(on)];
      UniformSetsAll(words[lo / 32], on);
      MarkedInOneWord(words, lo / 32, UniformWord(on), 0, 32, on);
      WordLoopMarks(next, lo + 32, hi, on);
      var r := WordLoop(next, lo + 32, hi, on);
      if r.Some? {
        MarkedCompose(words, next, r.value.0, lo, lo + 32, r.value.1, on);
      }
    }
  }

  /** The update returns, and has marked exactly the slots lo..hi. */
  ghost predicate IsRight(words: seq<u32>, lo: nat, hi: nat, on: bool, fill: Fill)
    requires lo <= 32 * |words|
  {
    var r := Update(words, lo, hi, on, fill);
    r.Some? && Marked(words, r.value, lo, hi, on)
  }

  /** On whole words, the text does what it should: it reads no word there. */
  lemma WholeWordsAreRight(words: seq<u32>, lo: nat, hi: nat, on: bool, fill: Fill)
    requires lo <= hi <= 32 * |words|
    requires lo % 32 == 0 && hi % 32 == 0
    ensures IsRight(words, lo, hi, on, fill)
  {
    WordLoopMarks(words, lo, hi, on);
  }

  /** Words whose every bit is the opposite of the value to be set. */
  function Opposite(n: nat, on: bool): (words: seq<u32>)
    ensures |words| == n && forall i | 0 <= i < n :: words[i] == UniformWord(!on)
  {
    seq(n, _ => UniformWord(!on))
  }

  lemma OppositeBits(n: nat, on: bool, i: nat, k: nat)
    requires i < n && k < 32
    ensures Bit(Opposite(n, on)[i], k) == !on
  {
    UniformWordBits(k, !on);
  }

  /** The word the tail leaves: the one it started from, with the bits up to the end set, and one more. */
  lemma TailLoop(words: seq<u32>, p: nat, hi: nat, on: bool, fill: Fill)
    requires p % 32 == 0 && p < hi && p / 32 < |words|
    ensures var start := TailStart(fill, words[p / 32], on);
            var (md, next) := EditLoop(start, 0, p, hi, on);
            && next == (if hi + 1 - p <= 32 then hi + 1 else p + 32)
            && BitsSet(start, md, 0, next - p, on)
  {
    var start := TailStart(fill, words[p / 32], on);
    EditLoopSets(start, start, 0, 0, p, hi, on);
  }

  lemma TailKeeps(words: seq<u32>, p: nat, hi: nat, on: bool, fill: Fill, i: nat)
    requires p % 32 == 0 && 32 * i < p && i < |words|
    ensures var r := Tail(words, p, hi, on, fill);
            r.Some? ==> |r.value| == |words| && r.value[i] == words[i]
  {
    if p < hi && p / 32 < |words| {
      TailLoop(words, p, hi, on, fill);
    }
  }

  lemma {:induction false} WordLoopKeeps(words: seq<u32>, p: nat, hi: nat, on: bool, i: nat)
    requires p % 32 == 0 && 32 * i < p && i < |words|
    ensures var r := WordLoop(words, p, hi, on);
            r.Some? ==> |r.value.0| == |words| && r.value.0[i] == words[i] && r.value.1 >= p && r.value.1 % 32 == 0
    decreases hi - p
  {
    if p + 32 > hi || p / 32 >= |words| {
    } else {
      WordLoopKeeps(words[p / 32 := UniformWord(on)], p + 32, hi, on, i);
    }
  }

  /** The later loops start behind the word of the head, and keep it. */
  lemma LaterWordsOnly(words: seq<u32>, p: nat, hi: nat, on: bool, fill: Fill, i: nat)
    requires p % 32 == 0 && 32 * i < p && i < |words|
    ensures var r := WordLoop(words, p, hi, on);
            r.Some? && Tail(r.value.0, r.value.1, hi, on, fill).Some? ==>
              |Tail(r.value.0, r.value.1, hi, on, fill).value| == |words|
              && Tail(r.value.0, r.value.1, hi, on, fill).value[i] == words[i]
  {
    WordLoopKeeps(words, p, hi, on, i);
    var r := WordLoop(words, p, hi, on);
    if r.Some? {
      TailKeeps(r.value.0, r.value.1, hi, on, fill, i);
    }
  }

  /** The head of a range that starts inside a word, when no assertion fails: the edited word lands in the next one. */
  lemma HeadMisplaced(words: seq<u32>, lo: nat, w: nat, b: nat, hi: nat, on: bool, fill: Fill)
    requires w < |words| && 0 < b < 32 && lo == 32 * w + b && lo <= hi
    requires Head(words, lo, hi, on, fill).Some?
    ensures w + 1 < |words| && hi + 1 >= 32 * w + 32
    ensures exists md: u32 :: Head(words, lo, hi, on, fill) == Some((words[w + 1 := md], 32 * (w + 1)))
                              && BitsSet(HeadStart(fill, words[w]), md, b, 32, on)
  {
    var start := HeadStart(fill, words[w]);
    assert lo / 32 == w && lo % 32 == b;
    EditLoopSets(start, start, b, b, lo, hi, on);
    var (md, next) := EditLoop(start, b, lo, hi, on);
    assert next % 32 == 0 && lo < next <= 32 * w + 32;
    assert next == 32 * (w + 1);
    assert BitsSet(start, md, b, 32, on);
  }

  /** A range that starts inside a word: its first word is kept, and if it is empty, the last bit of the next is set. */
  lemma HeadMissesItsWord(words: seq<u32>, lo: nat, w: nat, b: nat, hi: nat, on: bool, fill: Fill)
    requires w < |words| && 0 < b < 32 && lo == 32 * w + b && lo <= hi
    ensures var r := Update(words, lo, hi, on, fill);
            r.Some? ==>
              && |r.value| == |words|
              && r.value[w] == words[w]
              && (hi == lo ==> w + 1 < |words| && Bit(r.value[w + 1], 31) == on)
  {
    var r := Update(words, lo, hi, on, fill);
    if r.Some? {
      HeadMisplaced(words, lo, w, b, hi, on, fill);
      var md: u32 :| Head(words, lo, hi, on, fill) == Some((words[w + 1 := md], 32 * (w + 1)))
                     && BitsSet(HeadStart(fill, words[w]), md, b, 32, on);
      LaterWordsOnly(words[w + 1 := md], 32 * (w + 1), hi, on, fill, w);
      if hi == lo {
        assert r.value == words[w + 1 := md];
      }
    }
  }

  /** A range that starts inside a word is never marked correctly on the words of opposite bits. */
  lemma HeadIsWrong(n: nat, lo: nat, w: nat, b: nat, hi: nat, on: bool, fill: Fill)
    requires w < n && 0 < b < 32 && lo == 32 * w + b && lo <= hi <= 32 * n
    ensures !IsRight(Opposite(n, on), lo, hi, on, fill)
  {
    var words := Opposite(n, on);
    HeadMissesItsWord(words, lo, w, b, hi, on, fill);
    OppositeBits(n, on, w, b);
    if w + 1 < n {
      OppositeBits(n, on, w + 1, 31);
    }
  }

  /** The tail of a range that ends inside a word sets one bit too many. */
  lemma TailSetsOneTooMany(words: seq<u32>, w: nat, b: nat, on: bool, fill: Fill)
    requires w < |words| && 0 < b < 31
    ensures var r := Tail(words, 32 * w, 32 * w + b, on, fill);
            r.Some? ==> |r.value| == |words| && Bit(r.value[w], b) == on && Bit(r.value[w], 0) == on
  {
    assert 32 * w / 32 == w && (32 * w + b + 1) / 32 == w;
    TailLoop(words, 32 * w, 32 * w + b, on, fill);
  }

  /** Or, when only the last bit of the word is not in the range, it lands in the next word. */
  lemma TailMissesItsWord(words: seq<u32>, w: nat, on: bool, fill: Fill)
    requires w < |words|
    ensures var r := Tail(words, 32 * w, 32 * w + 31, on, fill);
            r.Some? ==> |r.value| == |words| && r.value[w] == words[w]
  {
    assert 32 * w / 32 == w && (32 * w + 32) / 32 == w + 1;
    TailLoop(words, 32 * w, 32 * w + 31, on, fill);
  }

  /** In both cases a bit that belongs to the range, or the one behind it, ends up wrong. */
  lemma TailLeavesWrongBit(words: seq<u32>, hi: nat, w: nat, b: nat, on: bool, fill: Fill)
    requires w < |words| && 0 < b < 32 && hi == 32 * w + b && Bit(words[w], 0) == Bit(words[w], b) == !on
    ensures var r := Tail(words, 32 * w, hi, on, fill);
            r.Some? ==> |r.value| == |words| && (Bit(r.value[w], b) == on || Bit(r.value[w], 0) == !on)
  {
    if b < 31 {
      TailSetsOneTooMany(words, w, b, on, fill);
    } else {
      TailMissesItsWord(words, w, on, fill);
    }
  }

  /** The loop over whole words stops at the word the range ends in, and keeps it. */
  lemma WordLoopStops(words: seq<u32>, lo: nat, hi: nat, w: nat, b: nat, on: bool)
    requires w < |words| && 0 < b < 32 && hi == 32 * w + b && lo <= 32 * w && lo % 32 == 0
    ensures var r := WordLoop(words, lo, hi, on);
            && r.Some? && r.value.1 == 32 * w && |r.value.0| == |words|
            && forall k: nat | k < 32 :: Bit(r.value.0[w], k) == Bit(words[w], k)
  {
    assert hi / 32 == w;
    WordLoopMarks(words, lo, hi, on);
  }

  /** A range that starts on a word boundary and ends inside a word is not marked correctly on these words either. */
  lemma TailIsWrong(n: nat, lo: nat, hi: nat, w: nat, b: nat, on: bool, fill: Fill)
    requires w < n && 0 < b < 32 && hi == 32 * w + b && lo <= 32 * w && lo % 32 == 0
    ensures !IsRight(Opposite(n, on), lo, hi, on, fill)
  {
    var words := Opposite(n, on);
    WordLoopStops(words, lo, hi, w, b, on);
    OppositeBits(n, on, w, b);
    OppositeBits(n, on, w, 0);
    TailLeavesWrongBit(WordLoop(words, lo, hi, on).value.0, hi, w, b, on, fill);
  }

  lemma SplitSlot(s: nat) returns (w: nat, b: nat)
    ensures s == 32 * w + b && b < 32 && w == s / 32 && b == s % 32
  {
    w, b := s / 32, s % 32;
  }

  lemma PartialWordsAreWrong(n: nat, lo: nat, hi: nat, on: bool, fill: Fill)
    requires lo <= hi <= 32 * n && (lo % 32 != 0 || hi % 32 != 0)
    ensures !IsRight(Opposite(n, on), lo, hi, on, fill)
  {
    if lo % 32 != 0 {
      var w, b := SplitSlot(lo);
      HeadIsWrong(n, lo, w, b, hi, on, fill);
    } else {
      var w, b := SplitSlot(hi);
      TailIsWrong(n, lo, hi, w, b, on, fill);
    }
  }

  /**
   The update as written marks exactly the slots lo..hi, on every bitmap, exactly when both
   ends of the range lie on word boundaries, whatever the head and the tail start from.
   */
  lemma RightOnWholeWordsOnly(n: nat, lo: nat, hi: nat, on: bool, fill: Fill)
    requires lo <= hi <= 32 * n
    ensures (forall words: seq<u32> | |words| == n :: IsRight(words, lo, hi, on, fill))
            <==> lo % 32 == 0 && hi % 32 == 0
  {
    if lo % 32 == 0 && hi % 32 == 0 {
      forall words: seq<u32> | |words| == n
        ensures IsRight(words, lo, hi, on, fill)
      {
        WholeWordsAreRight(words, lo, hi, on, fill);
      }
    } else {
      PartialWordsAreWrong(n, lo, hi, on, fill);
    }
  }

  // --- what it does instead

  /**
   From a slot inside a word to the end of that word: the update falls on the next word, which
   gets the bits of the word that was read, or of the variable, with those from the slot's on set.
   */
  lemma HeadFallsOnNextWord(words: seq<u32>, w: nat, b: nat, on: bool, fill: Fill, k: nat)
    requires w + 1 < |words| && 0 < b < 32 && k < 32
    ensures var r := Update(words, 32 * w + b, 32 * w + 32, on, fill);
            && r.Some?
            && |r.value| == |words|
            && (forall i | 0 <= i < |words| && i != w + 1 :: r.value[i] == words[i])
            && Bit(r.value[w + 1], k)
               == if k >= b then on else Bit(match fill { case Filled => words[w] case Unfilled(stack) => stack }, k)
  {
    var lo, hi, start := 32 * w + b, 32 * w + 32, HeadStart(fill, words[w]);
    assert lo / 32 == w && lo % 32 == b;
    EditLoopSets(start, start, b, b, lo, hi, on);
    var (md, next) := EditLoop(start, b, lo, hi, on);
    assert next == 32 * (w + 1) && next / 32 == w + 1;
    assert Update(words, lo, hi, on, fill) == Some(words[w + 1 := md]);
  }

  /** From a word's start to a slot inside it: one slot too many is marked, or the whole word. */
  lemma TailMarksTooMuch(words: seq<u32>, w: nat, b: nat, on: bool, fill: Fill)
    requires w < |words| && 0 < b < 31
    ensures var r := Update(words, 32 * w, 32 * w + b, on, fill);
            && r.Some?
            && Marked(words, r.value, 32 * w, 32 * w + (match fill { case Filled => b + 1 case Unfilled(_) => 32 }), on)
  {
    var lo, hi := 32 * w, 32 * w + b;
    assert lo / 32 == w && (hi + 1) / 32 == w;
    TailLoop(words, lo, hi, on, fill);
    var (md, next) := EditLoop(TailStart(fill, words[w], on), 0, lo, hi, on);
    UniformSetsAll(words[w], on);
    var to := match fill { case Filled => b + 1 case Unfilled(_) => 32 };
    assert BitsSet(words[w], md, 0, to, on);
    MarkedInOneWord(words, w, md, 0, to, on);
  }

  /** The call that put_cap makes in the text, with the empty range at the address. */
  function PutCall(words: seq<u32>, addr: nat, fill: Fill): Option<seq<u32>>
    requires addr < 256 * |words|
  {
    Update(words, FirstSlot(addr), EndSlot(addr), true, fill)
  }

  lemma SlotsOfPutCall(addr: nat)
    ensures EndSlot(addr) == addr / 8 + if addr % 8 == 0 then 0 else 1
  {
  }

  /** At an unaligned address in the first slot of a word, the call tags that slot. */
  lemma FirstSlotIsTagged(words: seq<u32>, w: nat, fill: Fill)
    requires w < |words|
    ensures var r := Update(words, 32 * w, 32 * w + 1, true, fill);
            r.Some? && |r.value| == |words| && Bit(r.value[w], 0)
  {
    assert 32 * w / 32 == w && (32 * w + 2) / 32 == w;
    TailLoop(words, 32 * w, 32 * w + 1, true, fill);
  }

  /**
   Called as put_cap calls it, the update as written returns with a slot newly tagged exactly
   when the address is not 8-byte aligned and its slot is the first of a metadata word: never
   for the aligned addresses that put_cap is meant for.
   */
  lemma PutCallTagsExactly(words: seq<u32>, addr: nat, fill: Fill)
    requires addr < 256 * |words| && !Bit(words[addr / 8 / 32], addr / 8 % 32)
    ensures var r := PutCall(words, addr, fill);
            && (r.Some? ==> |r.value| == |words|)
            && (r.Some? && Bit(r.value[addr / 8 / 32], addr / 8 % 32) <==> addr % 8 != 0 && addr / 8 % 32 == 0)
  {
    var w, b := SplitSlot(addr / 8);
    SlotsOfPutCall(addr);
    if b != 0 {
      HeadMissesItsWord(words, addr / 8, w, b, EndSlot(addr), true, fill);
    } else if addr % 8 != 0 {
      FirstSlotIsTagged(words, w, fill);
    }
  }
}
