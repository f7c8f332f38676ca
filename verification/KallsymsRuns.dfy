/**
 Whole runs of optimize_result (scripts/kallsyms.c): what decides whether the finished token table can
 be expanded.
 */
module KallsymsRuns {
  import opened KallsymsPairs
  import opened KallsymsTokens
  import opened KallsymsRounds

  /** What the loop does at slot i: a used slot is passed over, an empty one gets the best pair. */
  ghost predicate IsTurn(st: State, i: Byte, st': State) {
    if st.tokens[i].len != 0 then st' == st
    else exists a: Byte, b: Byte :: IsBest(st.names, a, b) && st' == Turn(st, i, a, b)
  }

  /** st is what st0 has become when the slots from i0 down to above i have been visited. */
  ghost predicate After(st0: State, i0: int, st: State, i: int)
    decreases i0 - i
  {
    if i >= i0 then st == st0
    else
      var n := i + 1;
      0 <= n < 256 && exists prev: State :: After(st0, i0, prev, n) && IsTurn(prev, n, st)
  }

  lemma AfterTurn(st0: State, i0: int, prev: State, n: Byte, st: State)
    requires n <= i0 && After(st0, i0, prev, n) && IsTurn(prev, n, st)
    ensures After(st0, i0, st, n - 1)
  {
  }

  /** st is the outcome of compressing the names orig. */
  ghost predicate IsResult(orig: seq<Name>, st: State) {
    exists t0: Tokens :: IsInitial(orig, t0) && After(State(t0, orig), 255, st, -1)
  }

  lemma TurnIsUnique(st: State, i: Byte, st1: State, st2: State)
    requires IsTurn(st, i, st1) && IsTurn(st, i, st2)
    ensures st1 == st2
  {
    if st.tokens[i].len == 0 {
      var a: Byte, b: Byte :| IsBest(st.names, a, b) && st1 == Turn(st, i, a, b);
      var a': Byte, b': Byte :| IsBest(st.names, a', b') && st2 == Turn(st, i, a', b');
      BestIsUnique(st.names, a, b, a', b');
    }
  }

  lemma {:induction false} RunIsUnique(st0: State, i0: int, st1: State, st2: State, i: int)
    requires After(st0, i0, st1, i) && After(st0, i0, st2, i)
    ensures st1 == st2
    decreases i0 - i
  {
    if i < i0 {
      var n := i + 1;
      var prev1: State :| After(st0, i0, prev1, n) && IsTurn(prev1, n, st1);
      var prev2: State :| After(st0, i0, prev2, n) && IsTurn(prev2, n, st2);
      RunIsUnique(st0, i0, prev1, prev2, n);
      TurnIsUnique(prev1, n, st1, st2);
    }
  }

  /** The names determine the outcome. */
  lemma ResultIsUnique(orig: seq<Name>, st1: State, st2: State)
    requires IsResult(orig, st1) && IsResult(orig, st2)
    ensures st1 == st2
  {
    var t1: Tokens :| IsInitial(orig, t1) && After(State(t1, orig), 255, st1, -1);
    var t2: Tokens :| IsInitial(orig, t2) && After(State(t2, orig), 255, st2, -1);
    assert t1 == t2;
    RunIsUnique(State(t1, orig), 255, st1, st2, -1);
  }

  lemma TurnKeepsInv(orig: seq<Name>, st: State, i: Byte, st': State)
    requires Inv(orig, st, i) && IsTurn(st, i, st')
    ensures Inv(orig, st', i - 1)
  {
    if st.tokens[i].len != 0 {
      SkipInv(orig, st, i);
    } else {
      var a: Byte, b: Byte :| IsBest(st.names, a, b) && st' == Turn(st, i, a, b);
      TurnInv(orig, st, i, a, b);
    }
  }

  /** Every run keeps the invariant. */
  lemma {:induction false} RunInv(orig: seq<Name>, st0: State, i0: int, st: State, i: int)
    requires Inv(orig, st0, i0) && -1 <= i <= i0 < 256 && After(st0, i0, st, i)
    ensures Inv(orig, st, i)
    decreases i0 - i
  {
    if i < i0 {
      var n := i + 1;
      var prev: State :| After(st0, i0, prev, n) && IsTurn(prev, n, st);
      RunInv(orig, st0, i0, prev, n);
      TurnKeepsInv(orig, prev, n, st);
    }
  }

  // ----- when the pairs run out -----

  /** Without pairs a turn places (0, 0) and changes no name. */
  lemma TurnWithoutPair(orig: seq<Name>, st: State, i: Byte, st': State)
    requires Inv(orig, st, i) && IsTurn(st, i, st') && NoPairs(st.names)
    ensures st'.names == st.names
    ensures st.tokens[i].len == 0 ==> st'.tokens == st.tokens[i := Token(2, 0, 0)]
  {
    if st.tokens[i].len == 0 {
      var a: Byte, b: Byte :| IsBest(st.names, a, b) && st' == Turn(st, i, a, b);
      BestOfNone(st.names, a, b);
      EmptySlotUnused(orig, st, i);
      TotalCountEffect(st.names, 0, 0, i);
    }
  }

  lemma {:induction false} NoPairsStay(orig: seq<Name>, st0: State, i0: int, st: State, i: int)
    requires Inv(orig, st0, i0) && -1 <= i <= i0 < 256 && After(st0, i0, st, i) && NoPairs(st0.names)
    ensures st.names == st0.names
    decreases i0 - i
  {
    if i < i0 {
      var n := i + 1;
      var prev: State :| After(st0, i0, prev, n) && IsTurn(prev, n, st);
      NoPairsStay(orig, st0, i0, prev, n);
      RunInv(orig, st0, i0, prev, n);
      TurnWithoutPair(orig, prev, n, st);
    }
  }

  /** Slot 0 ends up with the pair (0, 0) if and only if no pair is left when it is its turn. */
  lemma SlotZeroExactly(orig: seq<Name>, prev: State, st: State)
    requires Inv(orig, prev, 0) && IsTurn(prev, 0, st)
    ensures st.tokens[0] == Token(2, 0, 0) <==> NoPairs(prev.names)
  {
    assert SlotOk(orig, prev.tokens, 0, 0);
    EmptySlotUnused(orig, prev, 0);
    var a: Byte, b: Byte :| IsBest(prev.names, a, b) && st == Turn(prev, 0, a, b);
    if NoPairs(prev.names) {
      TurnWithoutPair(orig, prev, 0, st);
    } else if a == 0 && b == 0 {
      var x: Byte, y: Byte :| TotalCount(prev.names, x, y) != 0;
      var j, k := PairOccursInTable(prev.names, 0, 0);
      assert false;
    }
  }

  /** Once the pairs have run out with slot 0 still to come, it ends up with the pair (0, 0). */
  lemma PairsRunOut(orig: seq<Name>, st0: State, i0: Byte, st: State)
    requires Inv(orig, st0, i0) && NoPairs(st0.names) && After(st0, i0, st, -1)
    ensures st.tokens[0] == Token(2, 0, 0) && st.names == st0.names
  {
    var prev: State :| After(st0, i0, prev, 0) && IsTurn(prev, 0, st);
    NoPairsStay(orig, st0, i0, prev, 0);
    NoPairsStay(orig, st0, i0, st, -1);
    RunInv(orig, st0, i0, prev, 0);
    SlotZeroExactly(orig, prev, st);
  }

  // ----- tables that are too short -----

  /** How many byte values from lo on occur in no name; each has a slot to be filled. */
  ghost function FreeFrom(names: seq<Name>, lo: nat): nat
    decreases 256 - lo
  {
    if lo >= 256 then 0 else FreeFrom(names, lo + 1) + if Uses(names, lo) then 0 else 1
  }

  /** A turn that finds a pair takes at least one byte out of the names. */
  lemma TurnShortens(orig: seq<Name>, st: State, i: Byte, st': State)
    requires Inv(orig, st, i) && IsTurn(st, i, st')
    ensures || NoPairs(st'.names)
            || TotalLength(st'.names) + (if st.tokens[i].len == 0 then 1 else 0) <= TotalLength(st.names)
  {
    if st.tokens[i].len == 0 {
      var a: Byte, b: Byte :| IsBest(st.names, a, b) && st' == Turn(st, i, a, b);
      EmptySlotUnused(orig, st, i);
      TotalCountEffect(st.names, a, b, i);
      if TotalCount(st.names, a, b) == 0 { BestOfNone(st.names, a, b); }
    }
  }

  /** As long as there are pairs, every slot filled has cost a byte. */
  lemma {:induction false} SlotsCostBytes(orig: seq<Name>, st0: State, st: State, i: int)
    requires Inv(orig, st0, 255) && st0.names == orig && -1 <= i <= 255 && After(st0, 255, st, i)
    ensures NoPairs(st.names) || TotalLength(st.names) + FreeFrom(orig, i + 1) <= TotalLength(orig)
    decreases 255 - i
  {
    if i < 255 {
      var n := i + 1;
      var prev: State :| After(st0, 255, prev, n) && IsTurn(prev, n, st);
      SlotsCostBytes(orig, st0, prev, n);
      RunInv(orig, st0, 255, prev, n);
      assert SlotOk(orig, prev.tokens, n, n);
      if NoPairs(prev.names) {
        TurnWithoutPair(orig, prev, n, st);
      } else {
        TurnShortens(orig, prev, n, st);
      }
    }
  }

  lemma {:induction false} LongestOfAll(names: seq<Name>, j: nat)
    requires j < |names|
    ensures |names[j]| <= TotalLength(names)
  {
    if j > 0 { LongestOfAll(names[1..], j - 1); }
  }

  lemma PairsTakeTwoBytes(names: seq<Name>)
    requires !NoPairs(names)
    ensures TotalLength(names) >= 2
  {
    var x: Byte, y: Byte :| TotalCount(names, x, y) != 0;
    var j, k := PairOccursInTable(names, x, y);
    LongestOfAll(names, j);
  }

  lemma BytesRunOut(orig: seq<Name>, st0: State, prev: State)
    requires Inv(orig, st0, 255) && st0.names == orig && After(st0, 255, prev, 0)
    requires TotalLength(orig) <= FreeFrom(orig, 0)
    ensures NoPairs(prev.names)
  {
    SlotsCostBytes(orig, st0, prev, 0);
    assert FreeFrom(orig, 0) <= FreeFrom(orig, 1) + 1;
    if !NoPairs(prev.names) { PairsTakeTwoBytes(prev.names); }
  }

  lemma LastTurn(st0: State, st: State) returns (prev: State)
    requires After(st0, 255, st, -1)
    ensures After(st0, 255, prev, 0) && IsTurn(prev, 0, st)
  {
    prev :| After(st0, 255, prev, 0) && IsTurn(prev, 0, st);
  }

  lemma LastTurnNeverReturns(orig: seq<Name>, prev: State, st: State)
    requires Inv(orig, prev, 0) && IsTurn(prev, 0, st) && NoPairs(prev.names)
    ensures st.tokens[0] == Token(2, 0, 0) && !Terminates(st.tokens, TokenBytes(st.tokens[0]))
  {
    SlotZeroExactly(orig, prev, st);
    SelfPairNeverReturns(st.tokens);
  }

  /** If the names have no more bytes than there are slots to fill, the pairs run out: slot 0 gets the
      pair (0, 0), and expanding it never returns. */
  lemma ShortTableNeverReturns(orig: seq<Name>, st: State)
    requires !Uses(orig, 0) && IsResult(orig, st) && TotalLength(orig) <= FreeFrom(orig, 0)
    ensures st.tokens[0] == Token(2, 0, 0) && !Terminates(st.tokens, TokenBytes(st.tokens[0]))
  {
    var t0: Tokens :| IsInitial(orig, t0) && After(State(t0, orig), 255, st, -1);
    InitialInv(orig, t0);
    ShortRunNeverReturns(orig, State(t0, orig), st);
  }

  lemma DryLastTurn(orig: seq<Name>, st0: State, st: State) returns (prev: State)
    requires Inv(orig, st0, 255) && st0.names == orig && After(st0, 255, st, -1)
    requires TotalLength(orig) <= FreeFrom(orig, 0)
    ensures Inv(orig, prev, 0) && IsTurn(prev, 0, st) && NoPairs(prev.names)
  {
    prev := LastTurn(st0, st);
    BytesRunOut(orig, st0, prev);
    RunInv(orig, st0, 255, prev, 0);
  }

  lemma ShortRunNeverReturns(orig: seq<Name>, st0: State, st: State)
    requires Inv(orig, st0, 255) && st0.names == orig && After(st0, 255, st, -1)
    requires TotalLength(orig) <= FreeFrom(orig, 0)
    ensures st.tokens[0] == Token(2, 0, 0) && !Terminates(st.tokens, TokenBytes(st.tokens[0]))
  {
    var prev := DryLastTurn(orig, st0, st);
    LastTurnNeverReturns(orig, prev, st);
  }

  lemma ResultInv(orig: seq<Name>, st: State)
    requires !Uses(orig, 0) && IsResult(orig, st)
    ensures Inv(orig, st, -1)
  {
    var t0: Tokens :| IsInitial(orig, t0) && After(State(t0, orig), 255, st, -1);
    InitialInv(orig, t0);
    RunInv(orig, State(t0, orig), 255, st, -1);
  }

  lemma ResultReturns(orig: seq<Name>, st: State)
    requires !Uses(orig, 0) && IsResult(orig, st)
    ensures (forall c: Byte :: Terminates(st.tokens, TokenBytes(st.tokens[c]))) <==> st.tokens[0] != Token(2, 0, 0)
  {
    ResultInv(orig, st);
    AllTokensTerminate(orig, st);
  }

  lemma ResultLastTurn(orig: seq<Name>, st: State) returns (prev: State)
    requires !Uses(orig, 0) && IsResult(orig, st)
    ensures Inv(orig, prev, 0) && IsTurn(prev, 0, st)
  {
    var t0: Tokens :| IsInitial(orig, t0) && After(State(t0, orig), 255, st, -1);
    InitialInv(orig, t0);
    prev := LastTurn(State(t0, orig), st);
    RunInv(orig, State(t0, orig), 255, prev, 0);
  }

  /** Expanding the whole table returns if and only if a pair is left when it is the turn of slot 0. */
  lemma TableReturnsExactly(orig: seq<Name>, st: State) returns (prev: State)
    requires !Uses(orig, 0) && IsResult(orig, st)
    ensures Inv(orig, prev, 0) && IsTurn(prev, 0, st)
    ensures (forall c: Byte :: Terminates(st.tokens, TokenBytes(st.tokens[c]))) <==> !NoPairs(prev.names)
  {
    prev := ResultLastTurn(orig, st);
    ResultReturns(orig, st);
    SlotZeroExactly(orig, prev, st);
  }

  // ----- how many bytes are needed -----

  ghost function Bytes(names: seq<Name>): Name {
    if names == [] then [] else names[0] + Bytes(names[1..])
  }

  lemma {:induction false} BytesOfNames(names: seq<Name>, c: Byte)
    ensures |Bytes(names)| == TotalLength(names) && (Uses(names, c) <==> c in Bytes(names))
  {
    if names != [] {
      BytesOfNames(names[1..], c);
      if Uses(names, c) {
        var j :| 0 <= j < |names| && c in names[j];
        assert j > 0 ==> c in names[1..][j - 1];
      }
      if Uses(names[1..], c) {
        var j :| 0 <= j < |names[1..]| && c in names[1..][j];
        assert c in names[j + 1];
      }
      if c in names[0] { assert Uses(names, c); }
    }
  }

  ghost function Missing(s: Name, lo: nat): nat
    decreases 256 - lo
  {
    if lo >= 256 then 0 else Missing(s, lo + 1) + if lo in s then 0 else 1
  }

  lemma {:induction false} MissingOneMore(s: Name, c: Byte, lo: nat)
    ensures Missing([c] + s, lo) + (if lo <= c then 1 else 0) >= Missing(s, lo)
    decreases 256 - lo
  {
    if lo < 256 { MissingOneMore(s, c, lo + 1); }
  }

  lemma {:induction false} MissingIsMost(s: Name)
    ensures Missing(s, 0) + |s| >= 256
  {
    if s == [] {
      MissingAll(0);
    } else {
      assert s == [s[0]] + s[1..];
      MissingIsMost(s[1..]);
      MissingOneMore(s[1..], s[0], 0);
    }
  }

  lemma {:induction false} MissingAll(lo: nat)
    requires lo <= 256
    ensures Missing([], lo) == 256 - lo
    decreases 256 - lo
  {
    if lo < 256 { MissingAll(lo + 1); }
  }

  lemma {:induction false} FreeAreMissing(names: seq<Name>, lo: nat)
    ensures FreeFrom(names, lo) == Missing(Bytes(names), lo)
    decreases 256 - lo
  {
    if lo < 256 {
      BytesOfNames(names, lo);
      FreeAreMissing(names, lo + 1);
    }
  }

  /** So every table of at most 128 bytes of names makes the expansion run forever. */
  lemma TinyTableNeverReturns(orig: seq<Name>, st: State)
    requires !Uses(orig, 0) && IsResult(orig, st) && TotalLength(orig) <= 128
    ensures st.tokens[0] == Token(2, 0, 0) && !Terminates(st.tokens, TokenBytes(st.tokens[0]))
  {
    BytesOfNames(orig, 0);
    FreeAreMissing(orig, 0);
    MissingIsMost(Bytes(orig));
    ShortTableNeverReturns(orig, st);
  }

  lemma OneName(name: Name)
    requires 0 !in name
    ensures TotalLength([name]) == |name| && !Uses([name], 0)
  {
    assert [name][1..] == [];
  }

  /** For example the table with the single symbol "a" of type T. */
  lemma SingleSymbolNeverReturns(st: State)
    requires IsResult([[84, 97]], st)
    ensures !Terminates(st.tokens, TokenBytes(st.tokens[0]))
  {
    OneName([84, 97]);
    TinyTableNeverReturns([[84, 97]], st);
  }
}
