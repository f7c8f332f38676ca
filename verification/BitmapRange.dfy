/**
 Setting, clearing and testing ranges of bits (lib/bitmap.c: bitmap_set, bitmap_clear).
 */
module BitmapRange {
  import opened WordBits
  import opened Bitmap

  /** Exactly the bits from low up to high are set in the mask. */
  ghost predicate IsMask(mask: nat, low: nat, high: nat) {
    forall i | 0 <= i < 64 :: Bit(mask, i) == (low <= i < high)
  }

  /** BITMAP_FIRST_WORD_MASK */
  method FirstWordMask(start: nat) returns (mask: Word)
    ensures IsMask(mask, start % 64, 64)
  {
    mask := ShiftLeft(ONES, start % 64);
    forall i | 0 <= i < 64 ensures Bit(mask, i) == (start % 64 <= i) {
      BitShiftLeft(ONES, start % 64, i);
      if start % 64 <= i { BitOnes(i - start % 64); }
    }
  }

  lemma SmallMod(x: nat, m: nat)
    requires x < m
    ensures x % m == x
  {
  }

  lemma {:induction false} ShiftPower(x: Word, j: nat, k: nat)
    requires j + k < 64 && x == Pow2(j)
    ensures ShiftLeft(x, k) == Pow2(j + k)
    decreases k
  {
    if k > 0 {
      Pow2Monotone(j + 1, 64);
      SmallMod(2 * x, Pow2(64));
      ShiftPower(2 * x, j + 1, k - 1);
    }
  }

  /** BITMAP_LAST_WORD_MASK */
  method LastWordMask(nbits: nat) returns (mask: Word)
    ensures IsMask(mask, 0, if nbits % 64 == 0 then 64 else nbits % 64)
  {
    if nbits % 64 == 0 {
      mask := ONES;
      forall i | 0 <= i < 64 ensures Bit(mask, i) { BitOnes(i); }
    } else {
      ShiftPower(1, 0, nbits % 64);
      mask := ShiftLeft(1, nbits % 64) - 1;
      forall i | 0 <= i < 64 ensures Bit(mask, i) == (i < nbits % 64) { BitLowMask(nbits % 64, i); }
    }
  }

  /** mask & other, for masks */
  method Intersect(mask: Word, other: Word, ghost low: nat, ghost high: nat) returns (r: Word)
    requires IsMask(mask, low, 64) && IsMask(other, 0, high)
    ensures IsMask(r, low, high)
  {
    r := And(mask, other);
    forall i | 0 <= i < 64 ensures Bit(r, i) == (low <= i < high) { BitAnd(mask, other, i); }
  }

  // ----- one word of the map -----

  /** Every bit is as before, except that those from lo up to hi have the value v. */
  ghost predicate Painted(a: seq<Word>, b: seq<Word>, v: bool, lo: nat, hi: nat) {
    && |a| == |b|
    && forall j | 0 <= j < 64 * |a| :: BitAt(b, j) == if lo <= j < hi then v else BitAt(a, j)
  }

  lemma PaintWord(a: seq<Word>, p: nat, w: Word, v: bool, low: nat, high: nat)
    requires p < |a| && high <= 64
    requires forall i | 0 <= i < 64 :: Bit(w, i) == if low <= i < high then v else Bit(a[p], i)
    ensures Painted(a, a[p := w], v, 64 * p + low, 64 * p + high)
  {
  }

  /** bits[p] |= mask */
  method OrInto(bits: array<Word>, p: nat, mask: Word, ghost low: nat, ghost high: nat)
    requires p < bits.Length && IsMask(mask, low, high) && high <= 64
    modifies bits
    ensures Painted(old(bits[..]), bits[..], true, 64 * p + low, 64 * p + high)
  {
    ghost var a := bits[..];
    var w := bits[p];
    OrBound(w, mask, 64);
    bits[p] := Or(w, mask);
    forall i | 0 <= i < 64 ensures Bit(bits[p], i) == if low <= i < high then true else Bit(w, i) { BitOr(w, mask, i); }
    PaintWord(a, p, bits[p], true, low, high);
    assert bits[..] == a[p := bits[p]];
  }

  /** bits[p] &= ~mask */
  method ClearIn(bits: array<Word>, p: nat, mask: Word, ghost low: nat, ghost high: nat)
    requires p < bits.Length && IsMask(mask, low, high) && high <= 64
    modifies bits
    ensures Painted(old(bits[..]), bits[..], false, 64 * p + low, 64 * p + high)
  {
    ghost var a := bits[..];
    var w := bits[p];
    bits[p] := And(w, Complement(mask));
    forall i | 0 <= i < 64 ensures Bit(bits[p], i) == if low <= i < high then false else Bit(w, i) {
      BitAnd(w, Complement(mask), i);
      BitComplement(mask, 64, i);
    }
    PaintWord(a, p, bits[p], false, low, high);
    assert bits[..] == a[p := bits[p]];
  }

  /** No bit from lo up to hi is set. */
  ghost predicate Free(a: seq<Word>, lo: nat, hi: nat) {
    forall j | lo <= j < hi :: !BitAt(a, j)
  }

  /** !(bits[p] & mask) */
  method TestIn(bits: array<Word>, p: nat, mask: Word, ghost low: nat, ghost high: nat) returns (free: bool)
    requires p < bits.Length && IsMask(mask, low, high) && high <= 64
    ensures free == Free(bits[..], 64 * p + low, 64 * p + high)
  {
    var both: Word := And(bits[p], mask);
    ghost var a := bits[..];
    forall i | 0 <= i < 64 ensures Bit(both, i) == (low <= i < high && Bit(a[p], i)) { BitAnd(a[p], mask, i); }
    free := both == 0;
    if free {
      forall j | 64 * p + low <= j < 64 * p + high ensures !BitAt(a, j) {
        BitAtWord(a, p, j - 64 * p);
        BitZero(j - 64 * p);
      }
    } else {
      ghost var i := SomeBit(both);
      BitAtWord(a, p, i);
    }
  }

  // ----- ranges across words -----

  lemma PaintTwice(a: seq<Word>, b: seq<Word>, c: seq<Word>, v: bool, lo: nat, mid: nat, hi: nat)
    requires Painted(a, b, v, lo, mid) && Painted(b, c, v, mid, hi) && lo <= mid <= hi
    ensures Painted(a, c, v, lo, hi)
  {
  }

  method AllMask() returns (mask: Word)
    ensures IsMask(mask, 0, 64)
  {
    mask := ONES;
    forall i | 0 <= i < 64 ensures Bit(mask, i) { BitOnes(i); }
  }

  /** bitmap_set */
  method BitmapSet(bits: array<Word>, start: nat, nr0: nat)
    requires start + nr0 <= 64 * bits.Length
    modifies bits
    ensures Painted(old(bits[..]), bits[..], true, start, start + nr0)
  {
    ghost var a := bits[..];
    var p, size, nr := start / 64, start + nr0, nr0;
    var inWord := 64 - start % 64;
    var mask := FirstWordMask(start);
    ghost var low := start % 64;
    while nr - inWord >= 0
      invariant 0 <= nr && 0 <= low < 64 && start <= 64 * p + low && 64 * p + low + nr == size && inWord == 64 - low
      invariant IsMask(mask, low, 64) && Painted(a, bits[..], true, start, 64 * p + low)
      decreases nr
    {
      ghost var b := bits[..];
      OrInto(bits, p, mask, low, 64);
      PaintTwice(a, b, bits[..], true, start, 64 * p + low, 64 * p + 64);
      nr := nr - inWord;
      inWord := 64;
      mask := AllMask();
      p := p + 1;
      low := 0;
    }
    if nr != 0 {
      ghost var high := low + nr;
      assert size % 64 == high;
      var last := LastWordMask(size);
      mask := Intersect(mask, last, low, high);
      ghost var b := bits[..];
      OrInto(bits, p, mask, low, high);
      PaintTwice(a, b, bits[..], true, start, 64 * p + low, size);
    }
  }

  /** bitmap_clear */
  method BitmapClear(bits: array<Word>, start: nat, nr0: nat)
    requires start + nr0 <= 64 * bits.Length
    modifies bits
    ensures Painted(old(bits[..]), bits[..], false, start, start + nr0)
  {
    ghost var a := bits[..];
    var p, size, nr := start / 64, start + nr0, nr0;
    var inWord := 64 - start % 64;
    var mask := FirstWordMask(start);
    ghost var low := start % 64;
    while nr - inWord >= 0
      invariant 0 <= nr && 0 <= low < 64 && start <= 64 * p + low && 64 * p + low + nr == size && inWord == 64 - low
      invariant IsMask(mask, low, 64) && Painted(a, bits[..], false, start, 64 * p + low)
      decreases nr
    {
      ghost var b := bits[..];
      ClearIn(bits, p, mask, low, 64);
      PaintTwice(a, b, bits[..], false, start, 64 * p + low, 64 * p + 64);
      nr := nr - inWord;
      inWord := 64;
      mask := AllMask();
      p := p + 1;
      low := 0;
    }
    if nr != 0 {
      ghost var high := low + nr;
      assert size % 64 == high;
      var last := LastWordMask(size);
      mask := Intersect(mask, last, low, high);
      ghost var b := bits[..];
      ClearIn(bits, p, mask, low, high);
      PaintTwice(a, b, bits[..], false, start, 64 * p + low, size);
    }
  }
}
