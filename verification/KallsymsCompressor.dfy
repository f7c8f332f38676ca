/**
 The compressor of scripts/kallsyms.c as it runs: symbol buffers edited in place, pair counts kept up
 to date incrementally, and a token table filled from slot 255 downwards.
 */
module KallsymsCompressor {
  import opened KallsymsPairs
  import opened KallsymsTokens
  import opened KallsymsRounds
  import opened KallsymsRuns

  /** The pair (a, b) starts at s[k]. */
  predicate PairAt(s: Name, k: nat, a: Byte, b: Byte) {
    k + 1 < |s| && s[k] == a && s[k + 1] == b
  }

  // ----- library functions on buffers -----

  /** memmem for a needle of two bytes: the first match in the window of n bytes from start. */
  method Memmem(s: array<Byte>, start: nat, n: nat, a: Byte, b: Byte) returns (found: bool, pos: nat)
    requires start + n <= s.Length
    ensures found ==> start <= pos && pos + 1 < start + n && PairAt(s[..], pos, a, b)
    ensures forall k | start <= k && k + 1 < (if found then pos + 1 else start + n) :: !PairAt(s[..], k, a, b)
  {
    pos := start;
    while pos + 1 < start + n
      invariant start <= pos
      invariant forall k | start <= k < pos && k + 1 < start + n :: !PairAt(s[..], k, a, b)
    {
      if s[pos] == a && s[pos + 1] == b { return true, pos; }
      pos := pos + 1;
    }
    found := false;
  }

  /** memmove(s + at, s + at + 1, n) */
  method ShiftDown(s: array<Byte>, at: nat, n: nat)
    requires at + n < s.Length
    modifies s
    ensures forall k | 0 <= k < at || at + n <= k < s.Length :: s[k] == old(s[k])
    ensures forall k | at <= k < at + n :: s[k] == old(s[k + 1])
  {
    forall k | at <= k < at + n {
      s[k] := s[k + 1];
    }
  }

  // ----- one symbol -----

  lemma {:induction false} ReplaceNone(s: Name, a: Byte, b: Byte, c: Byte)
    requires forall k: nat :: !PairAt(s, k, a, b)
    ensures Replace(s, a, b, c) == s && PairCount(s, a, b) == 0
  {
    if |s| >= 2 {
      assert !PairAt(s, 0, a, b);
      forall k: nat ensures !PairAt(s[1..], k, a, b) {
        assert !PairAt(s, k + 1, a, b);
      }
      ReplaceNone(s[1..], a, b, c);
    }
  }

  lemma {:induction false} ReplaceAtFirst(s: Name, a: Byte, b: Byte, c: Byte, k: nat)
    requires PairAt(s, k, a, b) && forall i | 0 <= i < k :: !PairAt(s, i, a, b)
    ensures Replace(s, a, b, c) == s[..k] + [c] + Replace(s[k + 2..], a, b, c)
  {
    if k > 0 {
      assert !PairAt(s, 0, a, b);
      forall i | 0 <= i < k - 1 ensures !PairAt(s[1..], i, a, b) {
        assert !PairAt(s, i + 1, a, b);
      }
      ReplaceAtFirst(s[1..], a, b, c, k - 1);
      var rest := Replace(s[k + 2..], a, b, c);
      assert s[1..][k + 1..] == s[k + 2..];
      assert Replace(s[1..], a, b, c) == s[1..k] + [c] + rest;
      assert [s[0]] + (s[1..k] + [c] + rest) == s[..k] + [c] + rest;
    }
  }

  /** The buffer s holds a name of the given length, of which the first p1 bytes are final; the rest
      is still to be searched. */
  ghost predicate Progress(s: Name, p1: nat, len: nat, a: Byte, b: Byte, c: Byte, goal: Name) {
    && p1 <= len < |s|
    && (forall k | len <= k < |s| :: s[k] == 0)
    && (forall k | p1 <= k < len :: s[k] != 0)
    && s[..p1] + Replace(s[p1..len], a, b, c) == goal
  }

  /** s' is s with c written over s[p2] and the bytes from p2 + 2 up to end moved down by one. */
  ghost predicate Closed(s: Name, s': Name, p2: nat, end: nat, c: Byte) {
    && |s'| == |s| && p2 < end < |s|
    && s'[p2] == c
    && (forall k | 0 <= k < p2 || end <= k < |s| :: s'[k] == s[k])
    && (forall k | p2 < k < end :: s'[k] == s[k + 1])
  }

  lemma ClosedParts(s: Name, s': Name, p1: nat, p2: nat, len: nat, end: nat, c: Byte)
    requires Closed(s, s', p2, end, c) && p1 <= p2 && p2 + 1 < len <= end
    ensures s'[..p2 + 1] == s[..p1] + s[p1..p2] + [c]
    ensures s'[p2 + 1..len - 1] == s[p2 + 2..len]
  {
    assert s'[..p2] == s[..p2] == s[..p1] + s[p1..p2];
  }

  lemma ClosedNuls(s: Name, s': Name, p2: nat, len: nat, end: nat, c: Byte)
    requires Closed(s, s', p2, end, c) && p2 + 1 < len <= end
    requires forall k | len <= k < |s| :: s[k] == 0
    requires forall k | p2 + 1 < k < len :: s[k] != 0
    ensures forall k | len - 1 <= k < |s| :: s'[k] == 0
    ensures forall k | p2 + 1 <= k < len - 1 :: s'[k] != 0
  {
  }

  lemma FirstMatchReplaced(s: Name, p1: nat, p2: nat, len: nat, a: Byte, b: Byte, c: Byte)
    requires p1 <= p2 && p2 + 1 < len <= |s| && PairAt(s, p2, a, b)
    requires forall k | p1 <= k < p2 :: !PairAt(s, k, a, b)
    ensures Replace(s[p1..len], a, b, c) == s[p1..p2] + [c] + Replace(s[p2 + 2..len], a, b, c)
  {
    var todo := s[p1..len];
    forall k | 0 <= k < p2 - p1 ensures !PairAt(todo, k, a, b) {
      assert !PairAt(s, p1 + k, a, b);
    }
    ReplaceAtFirst(todo, a, b, c, p2 - p1);
    assert todo[..p2 - p1] == s[p1..p2] && todo[p2 - p1 + 2..] == s[p2 + 2..len];
  }

  lemma ReplacementProgress(s: Name, s': Name, p1: nat, p2: nat, len: nat, end: nat,
                            a: Byte, b: Byte, c: Byte, goal: Name)
    requires Progress(s, p1, len, a, b, c, goal) && Closed(s, s', p2, end, c)
    requires p1 <= p2 && p2 + 1 < len <= end && PairAt(s, p2, a, b)
    requires forall k | p1 <= k < p2 :: !PairAt(s, k, a, b)
    ensures Progress(s', p2 + 1, len - 1, a, b, c, goal)
  {
    FirstMatchReplaced(s, p1, p2, len, a, b, c);
    ClosedNuls(s, s', p2, len, end, c);
    assert s'[..p2 + 1] + Replace(s'[p2 + 1..len - 1], a, b, c) == goal by {
      ClosedParts(s, s', p1, p2, len, end, c);
      Regroup(s[..p1], s[p1..p2], [c], Replace(s[p2 + 2..len], a, b, c));
    }
  }

  lemma Regroup(x: Name, y: Name, z: Name, w: Name)
    ensures x + (y + z + w) == x + y + z + w
  {
  }

  /** Overwrite the first byte of a pair and close the gap left by the second. */
  method ReplacePair(s: array<Byte>, p2: nat, end: nat, c: Byte)
    requires p2 < end < s.Length
    modifies s
    ensures Closed(old(s[..]), s[..], p2, end, c)
  {
    s[p2] := c;
    ShiftDown(s, p2 + 1, end - p2 - 1);
  }

  /** When the window has no match, nothing is left to replace. */
  lemma NothingLeft(s: Name, p1: nat, len: nat, end: nat, a: Byte, b: Byte, c: Byte, goal: Name)
    requires Progress(s, p1, len, a, b, c, goal) && len <= end <= |s|
    requires forall k: nat | p1 <= k && k + 1 < end :: !PairAt(s, k, a, b)
    ensures s[..len] == goal
  {
    forall k: nat ensures !PairAt(s[p1..len], k, a, b) {
      if k + 1 < len - p1 { assert !PairAt(s, p1 + k, a, b); }
    }
    ReplaceNone(s[p1..len], a, b, c);
    assert s[..p1] + s[p1..len] == s[..len];
  }

  /** The loop of compress_symbols on one symbol whose first match is at pos. The search window is
      never shrunk to the new length; the bytes beyond the name that it covers are NUL. */
  method CompressName(s: array<Byte>, len0: nat, pos: nat, a: Byte, b: Byte, c: Byte) returns (len: nat)
    requires len0 < s.Length && forall k | len0 <= k < s.Length :: s[k] == 0
    requires forall k | 0 <= k < len0 :: s[k] != 0
    requires pos + 1 < len0 && PairAt(s[..], pos, a, b) && forall k | 0 <= k < pos :: !PairAt(s[..], k, a, b)
    modifies s
    ensures len < s.Length && s[..len] == Replace(old(s[..len0]), a, b, c)
    ensures forall k | len <= k < s.Length :: s[k] == 0
  {
    var p1: nat, p2: nat, size: nat := 0, pos, len0;
    len := len0;
    ghost var goal := Replace(s[..len0], a, b, c);
    assert s[..][..0] + Replace(s[..][0..len], a, b, c) == goal by { assert s[..][0..len] == s[..len0]; }
    while true
      invariant p1 <= p2 && p2 + 1 < len <= len0 && p1 + size == len0
      invariant Progress(s[..], p1, len, a, b, c, goal)
      invariant PairAt(s[..], p2, a, b) && forall k | p1 <= k < p2 :: !PairAt(s[..], k, a, b)
      decreases len
    {
      ghost var before := s[..];
      size := size - (p2 + 1 - p1);
      ReplacePair(s, p2, p2 + 1 + size, c);
      p2 := p2 + 1;
      ReplacementProgress(before, s[..], p1, p2 - 1, len, len0, a, b, c, goal);
      p1 := p2;
      len := len - 1;
      if size < 2 {
        NothingLeft(s[..], p1, len, len0, a, b, c, goal);
        break;
      }
      var found;
      found, p2 := Memmem(s, p1, size, a, b);
      if !found {
        NothingLeft(s[..], p1, len, len0, a, b, c, goal);
        break;
      }
    }
  }

  // ----- pair counts -----

  /** The index of the pair (a, b) in token_profit. */
  function Ix(a: Byte, b: Byte): (k: nat)
    ensures k < 0x10000 && k % 256 == a && k / 256 == b
  {
    a + 256 * b
  }

  lemma {:induction false} PairCountSnoc(s: Name, x: Byte, a: Byte, b: Byte)
    requires s != []
    ensures PairCount(s + [x], a, b) == PairCount(s, a, b) + if s[|s| - 1] == a && x == b then 1 else 0
  {
    if |s| > 1 {
      assert (s + [x])[1..] == s[1..] + [x];
      PairCountSnoc(s[1..], x, a, b);
    }
  }

  lemma {:induction false} TotalCountUpdate(t: seq<Name>, i: nat, s: Name, a: Byte, b: Byte)
    requires i < |t|
    ensures TotalCount(t[i := s], a, b) == TotalCount(t, a, b) - PairCount(t[i], a, b) + PairCount(s, a, b)
  {
    if i == 0 {
      assert t[i := s][1..] == t[1..];
    } else {
      assert t[i := s][1..] == t[1..][i - 1 := s];
      TotalCountUpdate(t[1..], i - 1, s, a, b);
    }
  }

  /** learn_symbol */
  method Learn(profit: array<int>, s: array<Byte>, len: nat)
    requires profit.Length == 0x10000 && len <= s.Length
    modifies profit
    ensures forall x: Byte, y: Byte :: profit[Ix(x, y)] == old(profit[Ix(x, y)]) + PairCount(s[..len], x, y)
  {
    ghost var seen := if len > 0 then s[..1] else [];
    assert forall x: Byte, y: Byte :: PairCount(seen, x, y) == 0;
    var i := 0;
    while i < len - 1
      invariant 0 <= i && (len > 0 ==> i <= len - 1) && seen == if len > 0 then s[..i + 1] else []
      invariant forall x: Byte, y: Byte :: profit[Ix(x, y)] == old(profit[Ix(x, y)]) + PairCount(seen, x, y)
    {
      ghost var more := seen + [s[i + 1]];
      forall x: Byte, y: Byte
        ensures PairCount(more, x, y) == PairCount(seen, x, y) + if s[i] == x && s[i + 1] == y then 1 else 0
      {
        PairCountSnoc(seen, s[i + 1], x, y);
      }
      seen := more;
      profit[Ix(s[i], s[i + 1])] := profit[Ix(s[i], s[i + 1])] + 1;
      i := i + 1;
    }
    assert seen == s[..len];
  }

  /** forget_symbol */
  method Forget(profit: array<int>, s: array<Byte>, len: nat)
    requires profit.Length == 0x10000 && len <= s.Length
    modifies profit
    ensures forall x: Byte, y: Byte :: profit[Ix(x, y)] == old(profit[Ix(x, y)]) - PairCount(s[..len], x, y)
  {
    ghost var seen := if len > 0 then s[..1] else [];
    assert forall x: Byte, y: Byte :: PairCount(seen, x, y) == 0;
    var i := 0;
    while i < len - 1
      invariant 0 <= i && (len > 0 ==> i <= len - 1) && seen == if len > 0 then s[..i + 1] else []
      invariant forall x: Byte, y: Byte :: profit[Ix(x, y)] == old(profit[Ix(x, y)]) - PairCount(seen, x, y)
    {
      ghost var more := seen + [s[i + 1]];
      forall x: Byte, y: Byte
        ensures PairCount(more, x, y) == PairCount(seen, x, y) + if s[i] == x && s[i + 1] == y then 1 else 0
      {
        PairCountSnoc(seen, s[i + 1], x, y);
      }
      seen := more;
      profit[Ix(s[i], s[i + 1])] := profit[Ix(s[i], s[i + 1])] - 1;
      i := i + 1;
    }
    assert seen == s[..len];
  }

  /** The counts are exact. */
  ghost predicate Exact(profit: seq<int>, names: seq<Name>) {
    |profit| == 0x10000 && forall x: Byte, y: Byte :: profit[Ix(x, y)] == TotalCount(names, x, y)
  }

  /** find_best_token: the first of the most frequent pairs. */
  method FindBestToken(profit: array<int>, ghost names: seq<Name>) returns (best: nat)
    requires Exact(profit[..], names)
    ensures best < 0x10000 && IsBest(names, best % 256, best / 256)
  {
    var bestprofit := -10000;
    best := 0;
    var i := 0;
    while i < 0x10000
      invariant 0 <= i <= 0x10000 && best < 0x10000
      invariant i == 0 ==> bestprofit == -10000 && best == 0
      invariant i > 0 ==> best < i && bestprofit == profit[best]
      invariant forall k | 0 <= k < i :: profit[k] <= bestprofit
      invariant forall k | 0 <= k < best :: profit[k] < bestprofit
    {
      assert profit[i] == profit[Ix(i % 256, i / 256)] >= 0;
      if profit[i] > bestprofit {
        best := i;
        bestprofit := profit[i];
      }
      i := i + 1;
    }
    var a, b := best % 256, best / 256;
    assert best == Ix(a, b);
    forall x: Byte, y: Byte ensures TotalCount(names, x, y) <= TotalCount(names, a, b) {
      assert profit[Ix(x, y)] <= profit[best];
    }
    forall x: Byte, y: Byte | Before(x, y, a, b) ensures TotalCount(names, x, y) < TotalCount(names, a, b) {
      assert Ix(x, y) < best;
    }
  }

  // ----- the whole table -----

  /** A buffer that holds name and a NUL after it. */
  method NewBuffer(name: Name) returns (b: array<Byte>)
    ensures fresh(b) && b.Length == |name| + 1 && b[..|name|] == name && b[|name|] == 0
  {
    b := new Byte[|name| + 1];
    forall k | 0 <= k < |name| {
      b[k] := name[k];
    }
    b[|name|] := 0;
  }

  lemma {:induction false} TotalCountSnoc(t: seq<Name>, s: Name, a: Byte, b: Byte)
    ensures TotalCount(t + [s], a, b) == TotalCount(t, a, b) + PairCount(s, a, b)
  {
    if t != [] {
      assert (t + [s])[1..] == t[1..] + [s];
      TotalCountSnoc(t[1..], s, a, b);
    }
  }

  class Compressor {
    const syms: seq<array<Byte>>   // the symbol buffers, each with room for a NUL after its name
    var lens: seq<nat>             // the current lengths
    const profit: array<int>       // token_profit
    const best: array<Token>       // best_table and best_table_len
    ghost var names: seq<Name>     // what the buffers hold

    ghost predicate BufferOk(j: nat)
      requires j < |syms| && |lens| == |syms| && |names| == |syms|
      reads this, syms
    {
      && lens[j] < syms[j].Length && syms[j][..lens[j]] == names[j]
      && forall k | lens[j] <= k < syms[j].Length :: syms[j][k] == 0
    }

    ghost predicate Valid()
      reads this, syms, profit, best
    {
      && |lens| == |syms| && |names| == |syms| && best.Length == 256
      && (forall i, j | 0 <= i < j < |syms| :: syms[i] != syms[j])
      && (forall j | 0 <= j < |syms| :: BufferOk(j))
      && Exact(profit[..], names)
    }

    /** compress_symbols */
    method CompressSymbols(a: Byte, b: Byte, c: Byte)
      requires Valid() && Unused(0, names)
      modifies this, syms, profit
      ensures Valid() && names == ReplaceAll(old(names), a, b, c)
      ensures unchanged(best)
    {
      ghost var before := names;
      var i := 0;
      while i < |syms|
        invariant 0 <= i <= |syms| && Valid() && unchanged(best)
        invariant forall j | 0 <= j < i :: names[j] == Replace(before[j], a, b, c)
        invariant forall j | i <= j < |syms| :: names[j] == before[j]
      {
        CompressSymbol(i, a, b, c);
        i := i + 1;
      }
      assert names == ReplaceAll(before, a, b, c);
    }

    method CompressSymbol(i: nat, a: Byte, b: Byte, c: Byte)
      requires Valid() && i < |syms| && 0 !in names[i]
      modifies this, syms, profit
      ensures Valid() && names == old(names)[i := Replace(old(names)[i], a, b, c)]
      ensures unchanged(best)
    {
      var s, len := syms[i], lens[i];
      ghost var name := names[i];
      assert BufferOk(i);
      var found, pos := Memmem(s, 0, len, a, b);
      if found {
        Forget(profit, s, len);
        var len' := CompressName(s, len, pos, a, b, c);
        lens := lens[i := len'];
        names := names[i := Replace(name, a, b, c)];
        Learn(profit, s, len');
        forall x: Byte, y: Byte ensures profit[..][Ix(x, y)] == TotalCount(names, x, y) {
          TotalCountUpdate(old(names), i, Replace(name, a, b, c), x, y);
        }
        forall j | 0 <= j < |syms| ensures BufferOk(j) {
          assert old(BufferOk(j)) && (j != i ==> syms[j] != s);
        }
      } else {
        forall k: nat ensures !PairAt(name, k, a, b) {
          if k + 1 < len { assert !PairAt(s[..], k, a, b); }
        }
        ReplaceNone(name, a, b, c);
      }
    }

    /** insert_real_symbols_in_table */
    method InsertRealSymbols()
      requires Valid()
      modifies best
      ensures Valid() && IsInitial(names, best[..])
    {
      forall c | 0 <= c < 256 {
        best[c] := EMPTY;
      }
      var i := 0;
      while i < |syms|
        invariant 0 <= i <= |syms| && Valid()
        invariant forall c: Byte :: best[c] == if Uses(names[..i], c) then Token(1, c, 0) else EMPTY
      {
        InsertSymbol(i);
        i := i + 1;
      }
      assert names[..i] == names;
    }

    method InsertSymbol(i: nat)
      requires Valid() && i < |syms|
      requires forall c: Byte :: best[c] == if Uses(names[..i], c) then Token(1, c, 0) else EMPTY
      modifies best
      ensures Valid()
      ensures forall c: Byte :: best[c] == if Uses(names[..i + 1], c) then Token(1, c, 0) else EMPTY
    {
      assert BufferOk(i);
      var j := 0;
      while j < lens[i]
        invariant 0 <= j <= lens[i] && Valid()
        invariant forall c: Byte ::
                    best[c] == if Uses(names[..i], c) || c in names[i][..j] then Token(1, c, 0) else EMPTY
      {
        var c := syms[i][j];
        assert names[i][..j + 1] == names[i][..j] + [c];
        best[c] := Token(1, c, best[c].b1);
        j := j + 1;
      }
      forall c: Byte ensures Uses(names[..i + 1], c) <==> Uses(names[..i], c) || c in names[i] {
        UsesOneMore(names, i, c);
      }
      assert names[i][..j] == names[i];
    }

    /** optimize_result: fill the empty slots from 255 down to 0. */
    method OptimizeResult(ghost orig: seq<Name>)
      requires Valid() && Inv(orig, State(best[..], names), 255)
      modifies this, syms, profit, best
      ensures Valid() && Inv(orig, State(best[..], names), -1)
      ensures After(old(State(best[..], names)), 255, State(best[..], names), -1)
    {
      ghost var st0 := State(best[..], names);
      var i := 255;
      while i >= 0
        invariant -1 <= i <= 255 && Valid() && Inv(orig, State(best[..], names), i)
        invariant After(st0, 255, State(best[..], names), i)
      {
        ghost var st := State(best[..], names);
        FillSlot(i, orig);
        AfterTurn(st0, 255, st, i, State(best[..], names));
        i := i - 1;
      }
    }

    /** One turn of the loop of optimize_result. */
    method FillSlot(i: Byte, ghost orig: seq<Name>)
      requires Valid() && Inv(orig, State(best[..], names), i)
      modifies this, syms, profit, best
      ensures Valid() && Inv(orig, State(best[..], names), i - 1)
      ensures IsTurn(old(State(best[..], names)), i, State(best[..], names))
    {
      ghost var st := State(best[..], names);
      if best[i].len == 0 {
        var k := FindBestToken(profit, names);
        var a: Byte, b: Byte := k % 256, k / 256;
        TurnInv(orig, st, i, a, b);
        NulUnused(orig, st, i);
        best[i] := Token(2, a, b);
        CompressSymbols(a, b, i);
        assert State(best[..], names) == Turn(st, i, a, b);
      } else {
        SkipInv(orig, st, i);
      }
    }

    method Names() returns (r: seq<Name>)
      requires Valid()
      ensures r == names
    {
      r := [];
      while |r| < |syms|
        invariant |r| <= |syms| && r == names[..|r|]
      {
        assert BufferOk(|r|);
        r := r + [syms[|r|][..lens[|r|]]];
      }
    }

    /** Reading the symbols: a buffer per name, and the initial pair counts. */
    constructor (input: seq<Name>)
      ensures Valid() && names == input
      ensures fresh(profit) && fresh(best) && forall j | 0 <= j < |syms| :: fresh(syms[j])
    {
      var bufs: seq<array<Byte>> := [];
      var counts := new int[0x10000](_ => 0);
      assert Exact(counts[..], []);
      var i := 0;
      while i < |input|
        invariant 0 <= i <= |input| && |bufs| == i && fresh(counts) && Exact(counts[..], input[..i])
        invariant forall j | 0 <= j < i :: fresh(bufs[j]) && bufs[j].Length == |input[j]| + 1
        invariant forall j | 0 <= j < i :: bufs[j][..|input[j]|] == input[j] && bufs[j][|input[j]|] == 0
        invariant forall j, k | 0 <= j < k < i :: bufs[j] != bufs[k]
      {
        var b := NewBuffer(input[i]);
        Learn(counts, b, |input[i]|);
        ghost var more := input[..i + 1];
        assert more == input[..i] + [input[i]];
        forall x: Byte, y: Byte ensures counts[..][Ix(x, y)] == TotalCount(more, x, y) {
          TotalCountSnoc(input[..i], input[i], x, y);
        }
        bufs := bufs + [b];
        i := i + 1;
      }
      assert input[..i] == input;
      syms := bufs;
      lens := seq(|input|, j requires 0 <= j < |input| => |input[j]|);
      names := input;
      profit := counts;
      best := new Token[256](_ => EMPTY);
    }
  }

  lemma UsesOneMore(names: seq<Name>, i: nat, c: Byte)
    requires i < |names|
    ensures Uses(names[..i + 1], c) <==> Uses(names[..i], c) || c in names[i]
  {
    var less, more := names[..i], names[..i + 1];
    assert more == less + [names[i]];
    if Uses(more, c) {
      var j :| 0 <= j < |more| && c in more[j];
      assert j < i ==> c in less[j];
    }
    if Uses(less, c) {
      var j :| 0 <= j < |less| && c in less[j];
      assert c in more[j];
    }
    if c in names[i] { assert c in more[i]; }
  }

  /** Until slot 0 is filled, no name contains a NUL. */
  lemma NulUnused(orig: seq<Name>, st: State, i: Byte)
    requires Inv(orig, st, i)
    ensures Unused(0, st.names)
  {
    assert SlotOk(orig, st.tokens, i, 0);
    EmptySlotUnused(orig, st, 0);
  }

  /** read_map and optimize_token_table on the valid symbols: None when there is no valid symbol. */
  method CompressTable(input: seq<Name>) returns (ok: bool, tokens: Tokens, names: seq<Name>)
    requires !Uses(input, 0)
    ensures ok == (input != [])
    ensures ok ==> Inv(input, State(tokens, names), -1) && IsResult(input, State(tokens, names))
  {
    var c := new Compressor(input);
    c.InsertRealSymbols();
    if input == [] {
      return false, c.best[..], [];
    }
    InitialInv(input, c.best[..]);
    ghost var t0 := c.best[..];
    c.OptimizeResult(input);
    assert IsInitial(input, t0) && After(State(t0, input), 255, State(c.best[..], c.names), -1);
    ok, tokens := true, c.best[..];
    names := c.Names();
  }

  /** out is the expansion of the first k bytes, and the rest expands to what is missing from goal. */
  ghost predicate Expanded(t: Tokens, data: Name, k: nat, depth: nat, out: Name, goal: Name) {
    && k <= |data| && Expand(t, data[k..], depth).Done?
    && out + Expand(t, data[k..], depth).out == goal
  }

  ghost function Piece(t: Tokens, c: Byte, depth: nat): Expansion {
    if IsChar(t, c) then Done([c]) else if depth == 0 then TooDeep else Expand(t, TokenBytes(t[c]), depth - 1)
  }

  lemma ExpandStep(t: Tokens, data: Name, k: nat, depth: nat, out: Name, goal: Name)
    requires Expanded(t, data, k, depth, out, goal) && k < |data|
    ensures depth > 0 && Piece(t, data[k], depth).Done?
    ensures Expanded(t, data, k + 1, depth, out + Piece(t, data[k], depth).out, goal)
  {
    assert data[k..][1..] == data[k + 1..];
    var piece, rest := Piece(t, data[k], depth).out, Expand(t, data[k + 1..], depth).out;
    assert out + (piece + rest) == (out + piece) + rest;
  }

  lemma ExpandEnd(t: Tokens, data: Name, depth: nat, out: Name, goal: Name)
    requires Expanded(t, data, |data|, depth, out, goal)
    ensures out == goal
  {
    assert data[|data|..] == [];
  }

  lemma ExpandStart(t: Tokens, data: Name, depth: nat, goal: Name)
    requires Expand(t, data, depth) == Done(goal)
    ensures Expanded(t, data, 0, depth, [], goal)
  {
    assert data[0..] == data && [] + goal == goal;
  }

  /** expand_symbol; it returns when some nesting depth is enough. */
  method ExpandSymbol(t: Tokens, data: Name, ghost depth: nat, ghost goal: Name) returns (out: Name)
    requires Expand(t, data, depth) == Done(goal)
    ensures out == goal
    decreases depth
  {
    out := [];
    var k := 0;
    ExpandStart(t, data, depth, goal);
    while k < |data|
      invariant 0 <= k <= |data| && Expanded(t, data, k, depth, out, goal)
    {
      var c := data[k];
      ExpandStep(t, data, k, depth, out, goal);
      if t[c].b0 == c && t[c].len == 1 {
        out := out + [c];
      } else {
        var piece := ExpandSymbol(t, TokenBytes(t[c]), depth - 1, Piece(t, c, depth).out);
        out := out + piece;
      }
      k := k + 1;
    }
    ExpandEnd(t, data, depth, out, goal);
  }
}
