/**
 The region allocator of lib/bitmap.c: regions of 2^order bits, aligned to their size (__reg_op,
 bitmap_find_free_region, bitmap_allocate_region, bitmap_release_region).
 */
module BitmapRegion {
  import opened WordBits
  import opened Bitmap
  import opened BitmapRange

  datatype RegOp = IsFree | Alloc | Release

  predicate Aligned(pos: nat, order: nat) {
    pos % Pow2(order) == 0
  }

  /** How a region lies in the words from index on: in one word, or in n whole ones. */
  predicate InWords(index: nat, n: nat, offset: nat, inLong: nat) {
    0 < inLong && offset + inLong <= 64 && (n == 1 || (n > 1 && offset == 0 && inLong == 64))
  }

  function WordsEnd(index: nat, n: nat, offset: nat, inLong: nat): nat
    requires n > 0
  {
    64 * (index + n - 1) + offset + inLong
  }

  lemma SmallRegion(pos: nat, p: nat, k: nat)
    requires p > 0 && p * k == 64 && pos % p == 0
    ensures pos % 64 + p <= 64
  {
    var q, r := pos / 64, pos % 64;
    var s := r / p;
    assert r == p * s + r % p;
    assert 64 * q == (p * k) * q == p * (k * q);
    assert p * (k * q + s) == p * (k * q) + p * s;
    ModUnique(pos, p, k * q + s, r % p);
    ModUnique(64, p, k, 0);
    MultiplesApart(r, 64, p);
  }

  lemma LargeRegion(pos: nat, m: nat)
    requires m > 0 && pos % (64 * m) == 0
    ensures pos % 64 == 0
  {
    var q := pos / (64 * m);
    assert pos == (64 * m) * q == 64 * (m * q);
    ModUnique(pos, 64, m * q, 0);
  }

  lemma RegionInWords(pos: nat, order: nat)
    requires Aligned(pos, order)
    ensures var p := Pow2(order);
            var n, inLong := (p + 63) / 64, if p < 64 then p else 64;
            InWords(pos / 64, n, pos % 64, inLong) && WordsEnd(pos / 64, n, pos % 64, inLong) == pos + p
  {
    var p := Pow2(order);
    assert Pow2(6) == 64;
    if order <= 6 {
      Pow2Add(order, 6 - order);
      SmallRegion(pos, p, Pow2(6 - order));
    } else {
      var m := Pow2(order - 6);
      Pow2Add(6, order - 6);
      LargeRegion(pos, m);
      assert p == 64 * m && (p + 63) / 64 == m;
    }
  }

  /** The mask of __reg_op: n bits, moved up by offset. */
  method RegionMask(n: nat, offset: nat) returns (mask: Word)
    requires 0 < n && offset + n <= 64
    ensures IsMask(mask, offset, offset + n)
  {
    ShiftPower(1, 0, n - 1);
    mask := ShiftLeft(1, n - 1);
    assert mask + mask == Pow2(n);
    PowerFits(n);
    mask := mask + (mask - 1);
    ghost var low := mask;
    mask := ShiftLeft(mask, offset);
    forall i | 0 <= i < 64 ensures Bit(mask, i) == (offset <= i < offset + n) {
      BitShiftLeft(low, offset, i);
      if offset <= i { BitLowMask(n, i - offset); }
    }
  }

  lemma PowerFits(n: nat)
    requires n <= 64
    ensures Pow2(n) <= Pow2(64)
  {
    if n < 64 { Pow2Monotone(n, 64); }
  }

  method TestWords(bits: array<Word>, index: nat, n: nat, mask: Word, offset: nat, inLong: nat) returns (free: bool)
    requires InWords(index, n, offset, inLong) && index + n <= bits.Length && IsMask(mask, offset, offset + inLong)
    ensures free == Free(bits[..], 64 * index + offset, WordsEnd(index, n, offset, inLong))
  {
    var i := 0;
    while i < n
      invariant 0 <= i <= n
      invariant Free(bits[..], 64 * index + offset, if i == 0 then 0 else WordsEnd(index, i, offset, inLong))
    {
      free := TestIn(bits, index + i, mask, offset, offset + inLong);
      if !free { return; }
      i := i + 1;
    }
    free := true;
  }

  method PaintWords(bits: array<Word>, index: nat, n: nat, mask: Word, offset: nat, inLong: nat, v: bool)
    requires InWords(index, n, offset, inLong) && index + n <= bits.Length && IsMask(mask, offset, offset + inLong)
    modifies bits
    ensures Painted(old(bits[..]), bits[..], v, 64 * index + offset, WordsEnd(index, n, offset, inLong))
  {
    ghost var a, lo := bits[..], 64 * index + offset;
    var i := 0;
    while i < n
      invariant 0 <= i <= n
      invariant Painted(a, bits[..], v, lo, if i == 0 then lo else WordsEnd(index, i, offset, inLong))
    {
      ghost var b := bits[..];
      if v {
        OrInto(bits, index + i, mask, offset, offset + inLong);
      } else {
        ClearIn(bits, index + i, mask, offset, offset + inLong);
      }
      PaintTwice(a, b, bits[..], v, lo, 64 * (index + i) + offset, WordsEnd(index, i + 1, offset, inLong));
      i := i + 1;
    }
  }

  /** __reg_op: test, set or clear one region; the result is 1 exactly for a test that finds it free. */
  method RegionOp(bits: array<Word>, pos: nat, order: nat, op: RegOp) returns (ret: int)
    requires Aligned(pos, order) && pos + Pow2(order) <= 64 * bits.Length
    modifies bits
    ensures op == IsFree ==> bits[..] == old(bits[..])
    ensures op == IsFree ==> ret == if Free(bits[..], pos, pos + Pow2(order)) then 1 else 0
    ensures op != IsFree ==> ret == 0 && Painted(old(bits[..]), bits[..], op == Alloc, pos, pos + Pow2(order))
  {
    var nbits, index := Pow2(order), pos / 64;
    var offset := pos - index * 64;
    var nlongs := (nbits + 63) / 64;
    var inLong := if nbits < 64 then nbits else 64;
    RegionInWords(pos, order);
    var mask := RegionMask(inLong, offset);
    ret := 0;
    match op
    case IsFree =>
      var free := TestWords(bits, index, nlongs, mask, offset, inLong);
      if free { ret := 1; }
    case Alloc =>
      PaintWords(bits, index, nlongs, mask, offset, inLong, true);
    case Release =>
      PaintWords(bits, index, nlongs, mask, offset, inLong, false);
  }

  /** bitmap_release_region */
  method ReleaseRegion(bits: array<Word>, pos: nat, order: nat)
    requires Aligned(pos, order) && pos + Pow2(order) <= 64 * bits.Length
    modifies bits
    ensures Painted(old(bits[..]), bits[..], false, pos, pos + Pow2(order))
  {
    var _ := RegionOp(bits, pos, order, Release);
  }

  /** bitmap_allocate_region */
  method AllocateRegion(bits: array<Word>, pos: nat, order: nat) returns (r: int)
    requires Aligned(pos, order) && pos + Pow2(order) <= 64 * bits.Length
    modifies bits
    ensures r == if Free(old(bits[..]), pos, pos + Pow2(order)) then 0 else -1
    ensures if r == 0 then Painted(old(bits[..]), bits[..], true, pos, pos + Pow2(order)) else bits[..] == old(bits[..])
  {
    var free := RegionOp(bits, pos, order, IsFree);
    if free == 0 { return -1; }
    var _ := RegionOp(bits, pos, order, Alloc);
    r := 0;
  }

  /** A free region of the given order within the first size bits. */
  ghost predicate FreeRegion(a: seq<Word>, size: nat, order: nat, pos: nat) {
    Aligned(pos, order) && pos + Pow2(order) <= size && Free(a, pos, pos + Pow2(order))
  }

  /** bitmap_find_free_region: the lowest free region is taken; -1 and no change if there is none. */
  method FindFreeRegion(bits: array<Word>, size: nat, order: nat) returns (r: int)
    requires size <= 64 * bits.Length
    modifies bits
    ensures r == -1 || r >= 0
    ensures r == -1 ==> bits[..] == old(bits[..]) && forall pos: nat :: !FreeRegion(old(bits[..]), size, order, pos)
    ensures r >= 0 ==> FreeRegion(old(bits[..]), size, order, r)
    ensures r >= 0 ==> Painted(old(bits[..]), bits[..], true, r, r + Pow2(order))
    ensures r >= 0 ==> forall pos: nat | FreeRegion(old(bits[..]), size, order, pos) :: r <= pos
  {
    ghost var a := bits[..];
    var pos, step := 0, Pow2(order);
    while pos + step <= size
      invariant Aligned(pos, order) && bits[..] == a
      invariant forall q: nat | FreeRegion(a, size, order, q) :: pos <= q
      decreases size - pos
    {
      var free := RegionOp(bits, pos, order, IsFree);
      if free != 0 {
        var _ := RegionOp(bits, pos, order, Alloc);
        return pos;
      }
      NextRegion(a, size, order, pos);
      pos := pos + step;
    }
    r := -1;
  }

  lemma NextMultiple(x: nat, p: nat)
    requires p > 0 && x % p == 0
    ensures (x + p) % p == 0
  {
    var d := x / p;
    assert x + p == p * (d + 1) + 0;
    ModUnique(x + p, p, d + 1, 0);
  }

  lemma NextRegion(a: seq<Word>, size: nat, order: nat, pos: nat)
    requires Aligned(pos, order) && !Free(a, pos, pos + Pow2(order))
    requires forall q: nat | FreeRegion(a, size, order, q) :: pos <= q
    ensures Aligned(pos + Pow2(order), order)
    ensures forall q: nat | FreeRegion(a, size, order, q) :: pos + Pow2(order) <= q
  {
    var p := Pow2(order);
    NextMultiple(pos, p);
    forall q: nat | FreeRegion(a, size, order, q) ensures pos + p <= q {
      if pos < q { MultiplesApart(pos, q, p); }
    }
  }

  // ----- release undoes allocate -----

  lemma SameBitsSameMap(a: seq<Word>, b: seq<Word>)
    requires |a| == |b| && forall j | 0 <= j < 64 * |a| :: BitAt(a, j) == BitAt(b, j)
    ensures a == b
  {
    forall p | 0 <= p < |a| ensures a[p] == b[p] {
      forall i | 0 <= i < 64 ensures Bit(a[p], i) == Bit(b[p], i) {
        BitAtWord(a, p, i);
        BitAtWord(b, p, i);
      }
      BitExtensional(a[p], b[p], 64);
    }
  }

  /** Allocating a free range and releasing it again restores every word of the map. */
  lemma ReleaseUndoesAllocate(a: seq<Word>, b: seq<Word>, c: seq<Word>, lo: nat, hi: nat)
    requires Free(a, lo, hi) && Painted(a, b, true, lo, hi) && Painted(b, c, false, lo, hi)
    ensures c == a
  {
    SameBitsSameMap(a, c);
  }

  // ----- whole runs -----

  datatype Region = Region(pos: nat, order: nat) {
    predicate Covers(j: nat) {
      pos <= j < pos + Pow2(order)
    }
  }

  ghost predicate Covered(live: set<Region>, j: nat) {
    exists r :: r in live && r.Covers(j)
  }

  ghost predicate Apart(r: Region, q: Region) {
    r.pos + Pow2(r.order) <= q.pos || q.pos + Pow2(q.order) <= r.pos
  }

  /** The regions are aligned, within the map, pairwise disjoint, and together the set bits. */
  ghost predicate Accounts(a: seq<Word>, size: nat, live: set<Region>) {
    && size <= 64 * |a|
    && (forall r <- live :: Aligned(r.pos, r.order) && r.pos + Pow2(r.order) <= size)
    && (forall r <- live, q <- live :: r == q || Apart(r, q))
    && (forall j | 0 <= j < 64 * |a| :: BitAt(a, j) == Covered(live, j))
  }

  /** A range is free exactly when it meets no live region. */
  lemma FreeMeetsNoRegion(a: seq<Word>, size: nat, live: set<Region>, r: Region)
    requires Accounts(a, size, live) && r.pos + Pow2(r.order) <= size
    ensures Free(a, r.pos, r.pos + Pow2(r.order)) <==> forall q <- live :: Apart(r, q)
  {
    if Free(a, r.pos, r.pos + Pow2(r.order)) {
      forall q <- live ensures Apart(r, q) {
        var j := if r.pos < q.pos then q.pos else r.pos;
        assert BitAt(a, j) == Covered(live, j);
        assert q.Covers(j) ==> Covered(live, j);
      }
    }
  }

  lemma AccountsAfterAlloc(a: seq<Word>, b: seq<Word>, size: nat, live: set<Region>, r: Region)
    requires Accounts(a, size, live) && Aligned(r.pos, r.order) && r.pos + Pow2(r.order) <= size
    requires Free(a, r.pos, r.pos + Pow2(r.order)) && Painted(a, b, true, r.pos, r.pos + Pow2(r.order))
    ensures Accounts(b, size, live + {r}) && r !in live
  {
    FreeMeetsNoRegion(a, size, live, r);
    forall j | 0 <= j < 64 * |b| ensures BitAt(b, j) == Covered(live + {r}, j) {
      if Covered(live + {r}, j) && !r.Covers(j) {
        var q :| q in live + {r} && q.Covers(j);
        assert q in live;
      }
      if Covered(live, j) {
        var q :| q in live && q.Covers(j);
        assert q in live + {r};
      }
      if r.Covers(j) { assert r in live + {r}; }
      assert BitAt(a, j) == Covered(live, j);
    }
  }

  lemma AccountsAfterRelease(a: seq<Word>, b: seq<Word>, size: nat, live: set<Region>, r: Region)
    requires Accounts(a, size, live) && r in live && Painted(a, b, false, r.pos, r.pos + Pow2(r.order))
    ensures Accounts(b, size, live - {r})
  {
    forall j | 0 <= j < 64 * |b| ensures BitAt(b, j) == Covered(live - {r}, j) {
      assert BitAt(a, j) == Covered(live, j);
      if r.Covers(j) {
        forall q <- live - {r} ensures !q.Covers(j) { assert Apart(r, q); }
      } else if Covered(live, j) {
        var q :| q in live && q.Covers(j);
        assert q in live - {r};
      }
    }
  }

  /** A map with its users: the bits change only through the three region calls. */
  class RegionMap {
    const bits: array<Word>
    const size: nat
    ghost var live: set<Region>   // the regions handed out and not yet released

    ghost predicate Valid()
      reads this, bits
    {
      Accounts(bits[..], size, live)
    }

    constructor (n: nat)
      ensures Valid() && live == {} && size == n && fresh(bits)
    {
      bits := new Word[(n + 63) / 64](_ => 0);
      size := n;
      live := {};
      new;
      forall j | 0 <= j < 64 * |bits[..]| ensures !BitAt(bits[..], j) { BitZero(j % 64); }
    }

    method FindFree(order: nat) returns (r: int)
      requires Valid()
      modifies this, bits
      ensures Valid()
      ensures r == -1 || r >= 0
      ensures r == -1 ==> live == old(live) && bits[..] == old(bits[..])
      ensures r == -1 ==> forall pos: nat | Aligned(pos, order) && pos + Pow2(order) <= size ::
                exists q <- live :: !Apart(Region(pos, order), q)
      ensures r >= 0 ==> Region(r, order) !in old(live) && live == old(live) + {Region(r, order)}
      ensures r >= 0 ==> forall pos: nat | Aligned(pos, order) && pos < r ::
                exists q <- old(live) :: !Apart(Region(pos, order), q)
    {
      ghost var a := bits[..];
      r := FindFreeRegion(bits, size, order);
      forall pos: nat | Aligned(pos, order) && pos + Pow2(order) <= size && !FreeRegion(a, size, order, pos)
        ensures exists q <- old(live) :: !Apart(Region(pos, order), q)
      {
        FreeMeetsNoRegion(a, size, old(live), Region(pos, order));
      }
      if r >= 0 {
        AccountsAfterAlloc(a, bits[..], size, live, Region(r, order));
        live := live + {Region(r, order)};
      }
    }

    method Allocate(pos: nat, order: nat) returns (r: int)
      requires Valid() && Aligned(pos, order) && pos + Pow2(order) <= size
      modifies this, bits
      ensures Valid()
      ensures r == if forall q <- old(live) :: Apart(Region(pos, order), q) then 0 else -1
      ensures live == if r == 0 then old(live) + {Region(pos, order)} else old(live)
      ensures r != 0 ==> bits[..] == old(bits[..])
    {
      ghost var a := bits[..];
      FreeMeetsNoRegion(a, size, live, Region(pos, order));
      r := AllocateRegion(bits, pos, order);
      if r == 0 {
        AccountsAfterAlloc(a, bits[..], size, live, Region(pos, order));
        live := live + {Region(pos, order)};
      }
    }

    method Release(pos: nat, order: nat)
      requires Valid() && Region(pos, order) in live
      modifies this, bits
      ensures Valid() && live == old(live) - {Region(pos, order)}
    {
      ghost var a := bits[..];
      ReleaseRegion(bits, pos, order);
      AccountsAfterRelease(a, bits[..], size, live, Region(pos, order));
      live := live - {Region(pos, order)};
    }
  }
}
