/**
 Searching for an aligned area of zero bits (lib/bitmap.c: bitmap_find_next_zero_area), in unsigned long
 arithmetic and for every alignment mask 2^k - 1, the mask of all ones included.
 */
module BitmapArea {
  import opened WordBits
  import opened Bitmap
  import opened BitmapRange

  /** What is searched for: nr zero bits at a multiple of 2^k within the first size bits of the map. */
  datatype Search = Search(a: seq<Word>, size: nat, nr: nat, k: nat) {
    ghost predicate Valid() {
      size < Pow2(64) && nr < Pow2(64) && k <= 64
    }
    ghost function Step(): nat {
      Pow2(k)
    }
  }

  /** i starts such an area, and is not below start. */
  ghost predicate IsArea(q: Search, start: nat, i: nat) {
    start <= i && i % q.Step() == 0 && i + q.nr <= q.size && Free(q.a, i, i + q.nr)
  }

  ghost predicate NoArea(q: Search, start: nat) {
    forall i :: !IsArea(q, start, i)
  }

  /** No area begins before index. */
  ghost predicate NoAreaBefore(q: Search, start: nat, index: nat) {
    forall i | IsArea(q, start, i) :: index <= i
  }

  /** r is the least multiple of p that is not below x. */
  ghost predicate IsAlignedUp(x: nat, p: nat, r: nat)
    requires p > 0
  {
    x <= r < x + p && r % p == 0
  }

  lemma AlignedUpIsLeast(x: nat, p: nat, r: nat, y: nat)
    requires p > 0 && IsAlignedUp(x, p, r) && x <= y && y % p == 0
    ensures r <= y
  {
    if y < r { MultiplesApart(y, r, p); }
  }

  /** What the search should return: the first area; or a number above size, or one so large that adding
      nr wraps around, if there is none. For nr == 0 merely the next zero bit, aligned. */
  ghost predicate IsAnswer(q: Search, start: nat, r: nat) {
    if q.nr == 0 then IsAlignedUp(Scan(q.a, false, q.size, start), q.Step(), r)
    else if r <= q.size && r + q.nr < Pow2(64) then IsArea(q, start, r) && NoAreaBefore(q, start, r)
    else NoArea(q, start)
  }

  // ----- unsigned long arithmetic -----

  /** x + y, wrapped around at 2^64 */
  ghost function Sum(x: nat, y: nat): nat {
    if x + y < Pow2(64) then x + y else x + y - Pow2(64)
  }

  /** x + y in unsigned long arithmetic */
  method AddWords(x: Word, y: Word) returns (r: Word)
    ensures r == Sum(x, y)
  {
    ghost var m := Pow2(64);
    r := (x + y) % Pow2(64);
    if x + y < m { SmallMod(x + y, m); } else { ModUnique(x + y, m, 1, x + y - m); }
  }

  /** Aligning x up wraps around. */
  ghost predicate AlignWraps(x: nat, k: nat) {
    x + Pow2(k) - 1 >= Pow2(64)
  }

  ghost function RoundedDown(x: nat, p: nat): nat
    requires p > 0
  {
    x - x % p
  }

  /** What __ALIGN_MASK makes of x: the sum rounded down. */
  ghost function AlignedTo(x: nat, p: nat): nat
    requires p > 0
  {
    if x + p - 1 >= Pow2(64) then 0 else RoundedDown(x + p - 1, p)
  }

  ghost function Aligned(x: nat, k: nat): nat {
    AlignedTo(x, Pow2(k))
  }

  lemma RoundedUp(x: nat, p: nat)
    requires p > 0
    ensures IsAlignedUp(x, p, RoundedDown(x + p - 1, p))
  {
    FloorIsMultiple(x + p - 1, p);
  }

  lemma AlignedIsUp(x: nat, p: nat)
    requires p > 0
    ensures if x + p - 1 >= Pow2(64) then AlignedTo(x, p) == 0 else IsAlignedUp(x, p, AlignedTo(x, p))
  {
    RoundedUp(x, p);
  }

  lemma SumIsAligned(x: nat, p: nat)
    requires p > 0 && x < Pow2(64) && p <= Pow2(64)
    ensures RoundedDown(Sum(x, p - 1), p) == AlignedTo(x, p)
  {
    if x + p - 1 >= Pow2(64) { SmallMod(Sum(x, p - 1), p); }
  }

  /** __ALIGN_MASK(x, mask) for a mask 2^k - 1: the least multiple of 2^k that is not below x, or 0 if
      the sum wraps around */
  method AlignMask(x: Word, mask: Word, ghost k: nat) returns (r: Word)
    requires k <= 64 && mask == Pow2(k) - 1
    ensures r == Aligned(x, k)
    ensures if AlignWraps(x, k) then r == 0 else IsAlignedUp(x, Pow2(k), r)
  {
    var sum := AddWords(x, mask);
    r := MaskOff(sum, mask, k);
    if k < 64 { Pow2Monotone(k, 64); }
    SumIsAligned(x, Pow2(k));
    AlignedIsUp(x, Pow2(k));
  }

  /** x & ~mask */
  method MaskOff(x: Word, mask: Word, ghost k: nat) returns (r: Word)
    requires k <= 64 && mask == Pow2(k) - 1
    ensures r == RoundedDown(x, Pow2(k))
  {
    RoundDown(x, k);
    r := And(x, Complement(mask));
  }

  // ----- the rounds of the search -----

  datatype Outcome = Return(r: nat) | Again(start: nat)

  /** The next zero bit from start on. */
  ghost function NextZero(q: Search, start: nat): nat {
    Scan(q.a, false, q.size, start)
  }

  lemma ScanBounds(a: seq<Word>, v: bool, size: nat, start: nat)
    ensures Scan(a, v, size, start) <= size
    ensures start <= size ==> start <= Scan(a, v, size, start)
  {
    if start <= size { ScanFinds(a, v, size, start); }
  }

  /** One round, from the label to the jump back. */
  ghost function Round(q: Search, start: nat): Outcome {
    var index := Aligned(NextZero(q, start), q.k);
    var end := Sum(index, q.nr);
    if end > q.size then Return(end)
    else
      var i := Scan(q.a, true, end, index);
      if i >= end then Return(index) else Again(i + 1)
  }

  /** At most n rounds. */
  ghost function Rounds(q: Search, start: nat, n: nat): Outcome
    decreases n
  {
    if n == 0 then Again(start)
    else
      match Round(q, start)
      case Return(r) => Return(r)
      case Again(next) => Rounds(q, next, n - 1)
  }

  ghost predicate Returns(q: Search, start: nat) {
    exists n: nat :: Rounds(q, start, n).Return?
  }

  method DoRound(bits: array<Word>, size: Word, start: Word, nr: Word, mask: Word, ghost k: nat)
    returns (done: bool, r: Word)
    requires size <= 64 * bits.Length && k <= 64 && mask == Pow2(k) - 1
    ensures Round(Search(bits[..], size, nr, k), start) == if done then Return(r) else Again(r)
  {
    var zero := FindNextZeroBit(bits, size, start);
    ScanBounds(bits[..], false, size, start);
    var index := AlignMask(zero, mask, k);
    var end := AddWords(index, nr);
    if end > size {
      return true, end;
    }
    var i := FindNextBit(bits, end, index);
    if i >= end {
      return true, index;
    }
    return false, i + 1;
  }

  ghost predicate IsResult(q: Search, start: nat, r: nat) {
    exists n: nat :: Rounds(q, start, n) == Return(r)
  }

  // ----- rounds in which the alignment does not wrap around -----

  ghost predicate WrapsAt(q: Search, start: nat) {
    AlignWraps(NextZero(q, start), q.k)
  }

  /** index is the first candidate: the next zero bit, aligned, and no area begins before it. */
  ghost predicate IsCandidate(q: Search, start: nat, index: nat) {
    && index % q.Step() == 0 && (start <= index || q.size <= index)
    && if q.nr == 0 then IsAlignedUp(NextZero(q, start), q.Step(), index) else NoAreaBefore(q, start, index)
  }

  /** The area at the candidate would reach beyond size. */
  lemma EndIsAnswer(q: Search, start: nat, index: nat)
    requires q.Valid() && IsCandidate(q, start, index) && q.size < Sum(index, q.nr) && index < Pow2(64)
    ensures IsAnswer(q, start, Sum(index, q.nr))
  {
    if q.nr > 0 {
      forall i ensures !IsArea(q, start, i) {}
    }
  }

  /** There is no set bit from the candidate up to the end. */
  lemma IndexIsAnswer(q: Search, start: nat, index: nat)
    requires q.Valid() && IsCandidate(q, start, index) && Sum(index, q.nr) <= q.size
    requires Scan(q.a, true, Sum(index, q.nr), index) >= Sum(index, q.nr)
    ensures IsAnswer(q, start, index)
  {
    if q.nr > 0 {
      if index + q.nr < Pow2(64) {
        NoHit(q.a, index, index + q.nr);
      } else {
        forall i ensures !IsArea(q, start, i) {}
      }
    }
  }

  lemma NoHit(a: seq<Word>, lo: nat, hi: nat)
    requires lo <= hi && Scan(a, true, hi, lo) >= hi
    ensures Free(a, lo, hi)
  {
    ScanFinds(a, true, hi, lo);
  }

  /** There is one. */
  lemma HitMovesOn(q: Search, start: nat, index: nat, hit: nat)
    requires q.Valid() && IsCandidate(q, start, index) && Sum(index, q.nr) <= q.size
    requires hit == Scan(q.a, true, Sum(index, q.nr), index) && hit < Sum(index, q.nr)
    ensures q.nr > 0 && index <= hit && NoAreaBefore(q, start, hit + 1)
  {
    ScanFinds(q.a, true, Sum(index, q.nr), index);
    if q.nr > 0 { AreasBehind(q, start, index, hit); }
  }

  /** A set bit within nr positions of the first candidate rules out every area up to that bit. */
  lemma AreasBehind(q: Search, start: nat, index: nat, hit: nat)
    requires index <= hit < index + q.nr && BitAt(q.a, hit) && NoAreaBefore(q, start, index)
    ensures NoAreaBefore(q, start, hit + 1)
  {
  }

  /** Areas from start on begin at the next zero bit or later. */
  lemma AreasFromZero(q: Search, start0: nat, start: nat)
    requires q.nr > 0 && NoAreaBefore(q, start0, start)
    ensures NoAreaBefore(q, start0, NextZero(q, start))
  {
    forall i | IsArea(q, start0, i) ensures NextZero(q, start) <= i {
      ScanFinds(q.a, false, q.size, start);
      assert !BitAt(q.a, i);
    }
  }

  /** And at a multiple of the step. */
  lemma NextCandidate(q: Search, start0: nat, start: nat)
    requires q.Valid() && start0 <= start && !WrapsAt(q, start)
    requires if q.nr == 0 then start == start0 else NoAreaBefore(q, start0, start)
    ensures var index := Aligned(NextZero(q, start), q.k);
            IsCandidate(q, start0, index) && (start <= index || q.size <= index) && index < Pow2(64)
  {
    var zero := NextZero(q, start);
    var index := Aligned(zero, q.k);
    ScanBounds(q.a, false, q.size, start);
    RoundedUp(zero, q.Step());
    if q.nr > 0 {
      AreasFromZero(q, start0, start);
      forall i | IsArea(q, start0, i) ensures index <= i {
        AlignedUpIsLeast(zero, q.Step(), index, i);
      }
    }
  }

  /** Such a round ends with an answer, or moves on past areas that are none. */
  lemma RoundIsRight(q: Search, start0: nat, start: nat)
    requires q.Valid() && start0 <= start && !WrapsAt(q, start)
    requires if q.nr == 0 then start == start0 else NoAreaBefore(q, start0, start)
    ensures match Round(q, start)
            case Return(r) => IsAnswer(q, start0, r)
            case Again(next) => q.nr > 0 && start < next <= q.size && NoAreaBefore(q, start0, next)
  {
    var index := Aligned(NextZero(q, start), q.k);
    var end := Sum(index, q.nr);
    NextCandidate(q, start0, start);
    if end > q.size {
      EndIsAnswer(q, start0, index);
    } else if Scan(q.a, true, end, index) >= end {
      IndexIsAnswer(q, start0, index);
    } else {
      HitMovesOn(q, start0, index, Scan(q.a, true, end, index));
    }
  }

  lemma RoundMovesOn(q: Search, start: nat)
    requires q.Valid() && !WrapsAt(q, start) && Round(q, start).Again?
    ensures start < Round(q, start).start <= q.size
  {
    RoundIsRight(q, start, start);
  }

  datatype PhaseEnd = Answer(r: nat) | Wrapped

  /** The rounds from start on, up to an answer or to the first alignment that wraps around; there are at
      most as many as there are bits. */
  ghost function Phase(q: Search, start: nat): PhaseEnd
    requires q.Valid()
    decreases if start <= q.size then q.size - start + 1 else 0
  {
    if WrapsAt(q, start) then Wrapped
    else
      match Round(q, start)
      case Return(r) => Answer(r)
      case Again(next) => RoundMovesOn(q, start); Phase(q, next)
  }

  lemma {:induction false} PhaseIsRight(q: Search, start0: nat, start: nat)
    requires q.Valid() && start0 <= start
    requires if q.nr == 0 then start == start0 else NoAreaBefore(q, start0, start)
    ensures match Phase(q, start)
            case Answer(r) => IsAnswer(q, start0, r)
            case Wrapped => q.nr > 0 ==> NoArea(q, start0)
    decreases if start <= q.size then q.size - start + 1 else 0
  {
    if WrapsAt(q, start) {
      if q.nr > 0 { WrapLeavesNoArea(q, start0, start); }
    } else {
      RoundIsRight(q, start0, start);
      match Round(q, start)
      case Return(_) =>
      case Again(next) => PhaseIsRight(q, start0, next);
    }
  }

  /** Behind a zero bit that cannot be aligned there is no multiple of the step below 2^64. */
  lemma WrapLeavesNoArea(q: Search, start0: nat, start: nat)
    requires q.Valid() && q.nr > 0 && NoAreaBefore(q, start0, start) && WrapsAt(q, start)
    ensures NoArea(q, start0)
  {
    AreasFromZero(q, start0, start);
    forall i ensures !IsArea(q, start0, i) {
      if IsArea(q, start0, i) { NoMultipleLeft(NextZero(q, start), q.k, i); }
    }
  }

  lemma NoMultipleLeft(x: nat, k: nat, i: nat)
    requires k <= 64 && AlignWraps(x, k) && x <= i && i % Pow2(k) == 0
    ensures i >= Pow2(64)
  {
    PowerIsMultiple(k);
    if i < Pow2(64) { MultiplesApart(i, Pow2(64), Pow2(k)); }
  }

  lemma PowerIsMultiple(k: nat)
    requires k <= 64
    ensures Pow2(64) % Pow2(k) == 0
  {
    Pow2Add(k, 64 - k);
    ModUnique(Pow2(64), Pow2(k), Pow2(64 - k), 0);
  }

  // ----- rounds in which it does -----

  /** What a round comes to when the alignment wraps around: the candidate is 0. */
  ghost function AfterWrap(q: Search): Outcome {
    if q.nr > q.size then Return(q.nr)
    else
      var i := Scan(q.a, true, q.nr, 0);
      if i >= q.nr then Return(0) else Again(i + 1)
  }

  lemma WrappedRound(q: Search, start: nat)
    requires q.Valid() && WrapsAt(q, start)
    ensures Round(q, start) == AfterWrap(q)
  {
    assert Aligned(NextZero(q, start), q.k) == 0 && Sum(0, q.nr) == q.nr;
  }

  lemma {:induction false} AnswerReturns(q: Search, start: nat) returns (n: nat)
    requires q.Valid() && Phase(q, start).Answer?
    ensures Rounds(q, start, n) == Return(Phase(q, start).r)
    decreases if start <= q.size then q.size - start + 1 else 0
  {
    n := 1;
    if Round(q, start).Again? {
      RoundMovesOn(q, start);
      n := AnswerReturns(q, Round(q, start).start);
      n := n + 1;
    }
  }

  /** A phase that wraps around gets as far as the round that does, and m rounds further. */
  lemma {:induction false} WrapIsReached(q: Search, start: nat, m: nat) returns (n: nat)
    requires q.Valid() && Phase(q, start) == Wrapped
    ensures Rounds(q, start, n) ==
              match AfterWrap(q) case Return(r) => Return(r) case Again(next) => Rounds(q, next, m)
    decreases if start <= q.size then q.size - start + 1 else 0
  {
    if WrapsAt(q, start) {
      WrappedRound(q, start);
      n := m + 1;
    } else {
      RoundMovesOn(q, start);
      n := WrapIsReached(q, Round(q, start).start, m);
      n := n + 1;
    }
  }

  /** Wrapping around twice, it does so forever. */
  lemma {:induction false} WrapsForever(q: Search, start: nat, n: nat)
    requires q.Valid() && Phase(q, start) == Wrapped
    requires AfterWrap(q).Again? && Phase(q, AfterWrap(q).start) == Wrapped
    ensures Rounds(q, start, n).Again?
    decreases n
  {
    if n > 0 {
      if WrapsAt(q, start) {
        WrappedRound(q, start);
        WrapsForever(q, AfterWrap(q).start, n - 1);
      } else {
        WrapsForever(q, Round(q, start).start, n - 1);
      }
    }
  }

  lemma {:induction false} ReturnsOnce(q: Search, start: nat, n: nat, m: nat)
    requires Rounds(q, start, n).Return? && Rounds(q, start, m).Return?
    ensures Rounds(q, start, n) == Rounds(q, start, m)
    decreases n
  {
    if Round(q, start).Again? { ReturnsOnce(q, Round(q, start).start, n - 1, m - 1); }
  }

  // ----- the results -----

  /** The search returns if and only if it finds an answer before the alignment wraps around, or the round
      that wraps around returns, or an answer is found from where that round leads back to. */
  lemma SearchReturnsExactly(q: Search, start: nat)
    requires q.Valid()
    ensures Returns(q, start) <==>
              || Phase(q, start).Answer?
              || AfterWrap(q).Return?
              || Phase(q, AfterWrap(q).start).Answer?
  {
    if Phase(q, start).Answer? {
      var n := AnswerReturns(q, start);
    } else if AfterWrap(q).Return? {
      var n := WrapIsReached(q, start, 0);
    } else if Phase(q, AfterWrap(q).start).Answer? {
      var m := AnswerReturns(q, AfterWrap(q).start);
      var n := WrapIsReached(q, start, m);
    } else {
      forall n: nat ensures Rounds(q, start, n).Again? { WrapsForever(q, start, n); }
    }
  }

  /** What it returns is right if it found it before wrapping around; otherwise there is no area, and what
      it returns is right if and only if it does not look like one. */
  lemma SearchIsRightExactly(q: Search, start: nat, r: nat)
    requires q.Valid() && q.nr > 0 && IsResult(q, start, r)
    ensures IsAnswer(q, start, r) <==> Phase(q, start).Answer? || r > q.size || r + q.nr >= Pow2(64)
  {
    PhaseIsRight(q, start, start);
    if Phase(q, start).Answer? {
      var n := AnswerReturns(q, start);
      var m: nat :| Rounds(q, start, m) == Return(r);
      ReturnsOnce(q, start, n, m);
    }
  }

  /** Where the mask can be added to the size, the search always returns, and always the answer. */
  lemma SmallSearchIsRight(q: Search, start: nat)
    requires q.Valid() && q.size + q.Step() - 1 < Pow2(64)
    ensures Phase(q, start).Answer? && IsAnswer(q, start, Phase(q, start).r) && IsResult(q, start, Phase(q, start).r)
  {
    NeverWraps(q, start);
    PhaseIsRight(q, start, start);
    var n := AnswerReturns(q, start);
  }

  lemma {:induction false} NeverWraps(q: Search, start: nat)
    requires q.Valid() && q.size + q.Step() - 1 < Pow2(64)
    ensures Phase(q, start).Answer?
    decreases if start <= q.size then q.size - start + 1 else 0
  {
    ScanBounds(q.a, false, q.size, start);
    if Round(q, start).Again? {
      RoundMovesOn(q, start);
      NeverWraps(q, Round(q, start).start);
    }
  }

  /** With the mask of all ones every candidate is 0: the search returns if and only if nr is above size
      or no bit below nr is set. */
  lemma AllOnesExactly(q: Search, start: nat)
    requires q.Valid() && q.k == 64
    ensures Returns(q, start) <==> q.nr > q.size || Scan(q.a, true, q.nr, 0) >= q.nr
    ensures Returns(q, start) ==> IsResult(q, start, if q.nr > q.size then q.nr else 0)
  {
    AllOnesRound(q, start);
    if AfterWrap(q).Return? {
      assert Rounds(q, start, 1) == AfterWrap(q);
    } else {
      forall n: nat ensures Rounds(q, start, n).Again? { AllOnesLoop(q, start, n); }
    }
  }

  lemma AllOnesRound(q: Search, start: nat)
    requires q.Valid() && q.k == 64
    ensures Round(q, start) == AfterWrap(q)
  {
    ScanBounds(q.a, false, q.size, start);
    if WrapsAt(q, start) {
      WrappedRound(q, start);
    } else {
      SmallMod(Pow2(64) - 1, Pow2(64));
      assert NextZero(q, start) == 0 && Aligned(0, 64) == 0;
    }
  }

  lemma {:induction false} AllOnesLoop(q: Search, start: nat, n: nat)
    requires q.Valid() && q.k == 64 && AfterWrap(q).Again?
    ensures Rounds(q, start, n).Again?
    decreases n
  {
    AllOnesRound(q, start);
    if n > 0 { AllOnesLoop(q, AfterWrap(q).start, n - 1); }
  }

  /** An input: the map with bit 0 set, one bit wanted, the mask of all ones. */
  lemma AllOnesNeverReturns(start: nat)
    ensures !Returns(Search([1], 64, 1, 64), start)
  {
    Pow2Monotone(7, 64);
    assert Pow2(7) == 128;
    assert BitAt([1], 0);
    AllOnesExactly(Search([1], 64, 1, 64), start);
  }

  /** bitmap_find_next_zero_area, when it returns */
  method FindNextZeroArea(bits: array<Word>, size: Word, start0: Word, nr: Word, mask: Word, ghost k: nat)
    returns (r: Word)
    requires size <= 64 * bits.Length && k <= 64 && mask == Pow2(k) - 1
    requires Returns(Search(bits[..], size, nr, k), start0)
    ensures IsResult(Search(bits[..], size, nr, k), start0, r)
    ensures size + mask < Pow2(64) ==> IsAnswer(Search(bits[..], size, nr, k), start0, r)
  {
    ghost var q := Search(bits[..], size, nr, k);
    ghost var n: nat :| Rounds(q, start0, n).Return?;
    r := DoRounds(bits, size, start0, nr, mask, k, n);
    if size + mask < Pow2(64) {
      SmallSearchIsRight(q, start0);
      ghost var m: nat :| Rounds(q, start0, m) == Return(Phase(q, start0).r);
      ReturnsOnce(q, start0, n, m);
    }
  }

  lemma FirstRound(q: Search, start: nat, n: nat, o: Outcome)
    requires Rounds(q, start, n).Return? && Round(q, start) == o
    ensures n > 0
    ensures Rounds(q, start, n) ==
              match o case Return(r) => Return(r) case Again(next) => Rounds(q, next, n - 1)
  {
  }

  method DoRounds(bits: array<Word>, size: Word, start0: Word, nr: Word, mask: Word, ghost k: nat, ghost n: nat)
    returns (r: Word)
    requires size <= 64 * bits.Length && k <= 64 && mask == Pow2(k) - 1
    requires Rounds(Search(bits[..], size, nr, k), start0, n).Return?
    ensures Rounds(Search(bits[..], size, nr, k), start0, n) == Return(r)
  {
    ghost var q := Search(bits[..], size, nr, k);
    var start := start0;
    ghost var m := n;
    while true
      invariant Rounds(q, start, m) == Rounds(q, start0, n)
      decreases m
    {
      var done, next := DoRound(bits, size, start, nr, mask, k);
      FirstRound(q, start, m, if done then Return(next) else Again(next));
      if done {
        return next;
      }
      start := next;
      m := m - 1;
    }
  }
}
