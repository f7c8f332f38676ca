/**
 Bit maps in arrays of 64-bit words: searching word by word, and setting and clearing ranges
 (lib/bitmap.c; the masks are in include/lib/bitmap.h).
 */
module Bitmap {
  import opened WordBits

  /** Bit j of the map. */
  predicate BitAt(a: seq<Word>, j: nat) {
    j / 64 < |a| && Bit(a[j / 64], j % 64)
  }

  /** The bit-by-bit scan: the first position from offset on whose bit is v, or size. */
  function Scan(a: seq<Word>, v: bool, size: nat, offset: nat): nat
    decreases size - offset
  {
    if offset >= size then size
    else if BitAt(a, offset) == v then offset
    else Scan(a, v, size, offset + 1)
  }

  lemma {:induction false} ScanFinds(a: seq<Word>, v: bool, size: nat, offset: nat)
    requires offset <= size
    ensures var r := Scan(a, v, size, offset);
            && offset <= r <= size
            && (r < size ==> BitAt(a, r) == v)
            && forall j | offset <= j < r :: BitAt(a, j) != v
    decreases size - offset
  {
    if offset < size && BitAt(a, offset) != v { ScanFinds(a, v, size, offset + 1); }
  }

  /** A position with the bit v and nothing but the other bit before it is what the scan returns. */
  lemma {:induction false} ScanIs(a: seq<Word>, v: bool, size: nat, offset: nat, r: nat)
    requires offset <= r <= size && (r < size ==> BitAt(a, r) == v)
    requires forall j | offset <= j < r :: BitAt(a, j) != v
    ensures Scan(a, v, size, offset) == r
    decreases r - offset
  {
    if offset < r { ScanIs(a, v, size, offset + 1, r); }
  }

  /** r has the bits of w in positions low up to high whose value is v, and no others. */
  ghost predicate Selects(r: nat, w: nat, v: bool, low: nat, high: nat) {
    forall i | 0 <= i < 64 :: Bit(r, i) == (low <= i < high && Bit(w, i) == v)
  }

  lemma BitAtWord(a: seq<Word>, p: nat, i: nat)
    requires p < |a| && i < 64
    ensures BitAt(a, 64 * p + i) == Bit(a[p], i)
  {
    assert (64 * p + i) / 64 == p && (64 * p + i) % 64 == i;
  }

  /** found_middle: the lowest set bit of w is the answer. */
  lemma FoundInWord(a: seq<Word>, v: bool, size: nat, offset: nat, p: nat, low: nat, high: nat, w: Word)
    requires p < |a| && Selects(w, a[p], v, low, high) && w != 0
    requires offset <= 64 * p + low && low <= high <= 64 && 64 * p + high <= size
    requires forall j | offset <= j < 64 * p + low :: BitAt(a, j) != v
    ensures Scan(a, v, size, offset) == 64 * p + Ffs(w)
  {
    FfsBelow(w);
    var r := Ffs(w);
    BitAtWord(a, p, r);
    forall j | offset <= j < 64 * p + r ensures BitAt(a, j) != v {
      if j >= 64 * p + low { BitAtWord(a, p, j - 64 * p); }
    }
    ScanIs(a, v, size, offset, 64 * p + r);
  }

  /** A word without a match: the scan can go on behind it. */
  lemma NothingInWord(a: seq<Word>, v: bool, offset: nat, p: nat, low: nat, high: nat, w: Word)
    requires p < |a| && Selects(w, a[p], v, low, high) && w == 0 && low <= high <= 64
    requires forall j | offset <= j < 64 * p + low :: BitAt(a, j) != v
    ensures forall j | offset <= j < 64 * p + high :: BitAt(a, j) != v
  {
    forall j | offset <= j < 64 * p + high ensures BitAt(a, j) != v {
      if j >= 64 * p + low {
        BitAtWord(a, p, j - 64 * p);
        BitZero(j - 64 * p);
      }
    }
  }

  // ----- masks -----

  /** w & (~0UL << low) */
  method KeepFrom(w: Word, low: nat) returns (r: Word)
    requires low < 64
    ensures Selects(r, w, true, low, 64)
  {
    var mask := ShiftLeft(ONES, low);
    r := And(w, mask);
    forall i | 0 <= i < 64 ensures Bit(r, i) == (low <= i && Bit(w, i)) {
      BitAnd(w, mask, i);
      BitShiftLeft(ONES, low, i);
      if low <= i { BitOnes(i - low); }
    }
  }

  /** w & (~0UL >> (BITS_PER_LONG - high)) */
  method KeepBelow(w: Word, high: nat) returns (r: Word)
    requires 0 < high <= 64
    ensures Selects(r, w, true, 0, high)
  {
    var k := 64 - high;
    var mask := ShiftRight(ONES, k);
    r := And(w, mask);
    forall i | 0 <= i < 64 ensures Bit(r, i) == (i < high && Bit(w, i)) {
      BitAnd(w, mask, i);
      BitShiftRight(ONES, k, i);
      BitOnes(i + k);
    }
  }

  /** w | (~0UL >> (BITS_PER_LONG - low)), of which the zero bits are wanted */
  method FillBelow(w: Word, low: nat) returns (r: Word)
    requires 0 < low < 64
    ensures Selects(Complement(r), w, false, low, 64)
  {
    var k := 64 - low;
    var mask := ShiftRight(ONES, k);
    OrBound(w, mask, 64);
    r := Or(w, mask);
    ghost var c := Complement(r);
    forall i | 0 <= i < 64 ensures Bit(c, i) == (low <= i && !Bit(w, i)) {
      BitComplement(r, 64, i);
      BitOr(w, mask, i);
      BitShiftRight(ONES, k, i);
      BitOnes(i + k);
    }
  }

  /** w | (~0UL << high) */
  method FillFrom(w: Word, high: nat) returns (r: Word)
    requires high < 64
    ensures Selects(Complement(r), w, false, 0, high)
  {
    var mask := ShiftLeft(ONES, high);
    OrBound(w, mask, 64);
    r := Or(w, mask);
    ghost var c := Complement(r);
    forall i | 0 <= i < 64 ensures Bit(c, i) == (i < high && !Bit(w, i)) {
      BitComplement(r, 64, i);
      BitOr(w, mask, i);
      BitShiftLeft(ONES, high, i);
      if high <= i { BitOnes(i - high); }
    }
  }

  lemma SelectsAll(w: Word, v: bool)
    ensures Selects(if v then w else Complement(w), w, v, 0, 64)
  {
    if !v {
      var c := Complement(w);
      forall i | 0 <= i < 64 ensures Bit(c, i) == !Bit(w, i) {
        BitComplement(w, 64, i);
      }
    }
  }

  lemma SelectsWithin(r: nat, q: nat, w: nat, v: bool, low: nat, high: nat)
    requires Selects(q, w, v, low, 64) && Selects(r, q, true, 0, high) && high <= 64
    ensures Selects(r, w, v, low, high)
  {
  }

  /** x & ~(BITS_PER_LONG-1) */
  method WordStart(x: Word) returns (r: nat)
    ensures r == x - x % 64
  {
    assert Pow2(6) == 64;
    RoundDown(x, 6);
    r := And(x, Complement(63));
  }

  // ----- the searches -----

  /** Everything from offset up to pos has the other bit. */
  ghost predicate Searched(a: seq<Word>, v: bool, offset: nat, pos: nat) {
    offset <= pos && forall j | offset <= j < pos :: BitAt(a, j) != v
  }

  /** The exit found_first of find_next_bit: only the lowest size bits of the last word count. */
  method FirstInLast(tmp0: Word, result: nat, size: nat,
                     ghost a: seq<Word>, ghost p: nat, ghost low: nat, ghost offset: nat)
    returns (r: nat)
    requires p < |a| && Selects(tmp0, a[p], true, low, 64) && low < size < 64 && result == 64 * p
    requires Searched(a, true, offset, result + low)
    ensures r == Scan(a, true, result + size, offset)
  {
    var tmp := KeepBelow(tmp0, size);
    SelectsWithin(tmp, tmp0, a[p], true, low, size);
    if tmp == 0 {
      NothingInWord(a, true, offset, p, low, size, tmp);
      ScanIs(a, true, result + size, offset, result + size);
      r := result + size;
    } else {
      FoundInWord(a, true, result + size, offset, p, low, size, tmp);
      r := result + Ffs(tmp);
    }
  }

  /** The loop over whole words and the rest of the last word. */
  method FindFromWord(addr: array<Word>, p0: nat, size0: Word, ghost offset0: nat) returns (r: nat)
    requires 64 * p0 <= size0 <= 64 * addr.Length && Searched(addr[..], true, offset0, 64 * p0)
    ensures r == Scan(addr[..], true, size0, offset0)
  {
    ghost var a := addr[..];
    var p, result, size: Word := p0, 64 * p0, size0 - 64 * p0;
    var whole := WordStart(size);
    while whole != 0
      invariant result == 64 * p && result + size == size0 && Searched(a, true, offset0, result)
      invariant whole == size - size % 64
      decreases size
    {
      var tmp := addr[p];
      SelectsAll(tmp, true);
      if tmp != 0 {
        FoundInWord(a, true, size0, offset0, p, 0, 64, tmp);
        return result + Ffs(tmp);
      }
      NothingInWord(a, true, offset0, p, 0, 64, tmp);
      p := p + 1;
      result := result + 64;
      size := size - 64;
      whole := WordStart(size);
    }
    if size == 0 {
      ScanIs(a, true, size0, offset0, result);
      return result;
    }
    SelectsAll(addr[p], true);
    r := FirstInLast(addr[p], result, size, a, p, 0, offset0);
  }

  /** find_next_bit agrees with the bit-by-bit scan; bits from size on play no role. */
  method FindNextBit(addr: array<Word>, size0: Word, offset0: Word) returns (r: nat)
    requires size0 <= 64 * addr.Length
    ensures r == Scan(addr[..], true, size0, offset0)
  {
    ghost var a := addr[..];
    var p := offset0 / 64;
    var result := WordStart(offset0);
    if offset0 >= size0 {
      return size0;
    }
    var size, offset := size0 - result, offset0 % 64;
    if offset == 0 {
      r := FindFromWord(addr, p, size0, offset0);
      return;
    }
    var tmp := KeepFrom(addr[p], offset);
    if size < 64 {
      r := FirstInLast(tmp, result, size, a, p, offset, offset0);
    } else if tmp != 0 {
      FoundInWord(a, true, size0, offset0, p, offset, 64, tmp);
      r := result + Ffs(tmp);
    } else {
      NothingInWord(a, true, offset0, p, offset, 64, tmp);
      r := FindFromWord(addr, p + 1, size0, offset0);
    }
  }

  /** The exit found_first of find_next_zero_bit. */
  method FirstZeroInLast(tmp0: Word, result: nat, size: nat,
                         ghost a: seq<Word>, ghost p: nat, ghost low: nat, ghost offset: nat)
    returns (r: nat)
    requires p < |a| && Selects(Complement(tmp0), a[p], false, low, 64) && low < size < 64 && result == 64 * p
    requires Searched(a, false, offset, result + low)
    ensures r == Scan(a, false, result + size, offset)
  {
    var tmp := FillFrom(tmp0, size);
    ghost var c, c0 := Complement(tmp), Complement(tmp0);
    SelectsAll(tmp0, false);
    assert Selects(c, c0, true, 0, size);
    SelectsWithin(c, c0, a[p], false, low, size);
    if tmp == ONES {
      NothingInWord(a, false, offset, p, low, size, c);
      ScanIs(a, false, result + size, offset, result + size);
      r := result + size;
    } else {
      FoundInWord(a, false, result + size, offset, p, low, size, c);
      r := result + Ffs(Complement(tmp));
    }
  }

  method FindZeroFromWord(addr: array<Word>, p0: nat, size0: Word, ghost offset0: nat) returns (r: nat)
    requires 64 * p0 <= size0 <= 64 * addr.Length && Searched(addr[..], false, offset0, 64 * p0)
    ensures r == Scan(addr[..], false, size0, offset0)
  {
    ghost var a := addr[..];
    var p, result, size: Word := p0, 64 * p0, size0 - 64 * p0;
    var whole := WordStart(size);
    while whole != 0
      invariant result == 64 * p && result + size == size0 && Searched(a, false, offset0, result)
      invariant whole == size - size % 64
      decreases size
    {
      var tmp := addr[p];
      SelectsAll(tmp, false);
      if Complement(tmp) != 0 {
        FoundInWord(a, false, size0, offset0, p, 0, 64, Complement(tmp));
        return result + Ffs(Complement(tmp));
      }
      NothingInWord(a, false, offset0, p, 0, 64, Complement(tmp));
      p := p + 1;
      result := result + 64;
      size := size - 64;
      whole := WordStart(size);
    }
    if size == 0 {
      ScanIs(a, false, size0, offset0, result);
      return result;
    }
    SelectsAll(addr[p], false);
    r := FirstZeroInLast(addr[p], result, size, a, p, 0, offset0);
  }

  /** find_next_zero_bit agrees with the bit-by-bit scan for a zero bit. */
  method FindNextZeroBit(addr: array<Word>, size0: Word, offset0: Word) returns (r: nat)
    requires size0 <= 64 * addr.Length
    ensures r == Scan(addr[..], false, size0, offset0)
  {
    ghost var a := addr[..];
    var p := offset0 / 64;
    var result := WordStart(offset0);
    if offset0 >= size0 {
      return size0;
    }
    var size, offset := size0 - result, offset0 % 64;
    if offset == 0 {
      r := FindZeroFromWord(addr, p, size0, offset0);
      return;
    }
    var tmp := FillBelow(addr[p], offset);
    if size < 64 {
      r := FirstZeroInLast(tmp, result, size, a, p, offset, offset0);
    } else if Complement(tmp) != 0 {
      FoundInWord(a, false, size0, offset0, p, offset, 64, Complement(tmp));
      r := result + Ffs(Complement(tmp));
    } else {
      NothingInWord(a, false, offset0, p, offset, 64, Complement(tmp));
      r := FindZeroFromWord(addr, p + 1, size0, offset0);
    }
  }
}
