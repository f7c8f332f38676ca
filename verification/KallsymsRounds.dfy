/**
 The rounds of optimize_result (scripts/kallsyms.c) on values: one slot after the other, from 255
 down to 0, is filled with the most frequent pair.
 */
module KallsymsRounds {
  import opened KallsymsPairs
  import opened KallsymsTokens

  /** The token table and the names as compressed so far. */
  datatype State = State(tokens: Tokens, names: seq<Name>)

  ghost predicate Uses(t: seq<Name>, c: Byte) {
    exists j :: 0 <= j < |t| && c in t[j]
  }

  /** insert_real_symbols_in_table: every byte in use gets its own single-character token. */
  ghost predicate IsInitial(orig: seq<Name>, t: Tokens) {
    forall c: Byte :: t[c] == if Uses(orig, c) then Token(1, c, 0) else EMPTY
  }

  /** (x, y) comes before (a, b) in token_profit. */
  predicate Before(x: Byte, y: Byte, a: Byte, b: Byte) {
    y < b || (y == b && x < a)
  }

  /** find_best_token: the first of the most frequent pairs, and so (0, 0) if none occurs. */
  ghost predicate IsBest(names: seq<Name>, a: Byte, b: Byte) {
    && (forall x: Byte, y: Byte :: TotalCount(names, x, y) <= TotalCount(names, a, b))
    && (forall x: Byte, y: Byte | Before(x, y, a, b) :: TotalCount(names, x, y) < TotalCount(names, a, b))
  }

  lemma BestOfNone(names: seq<Name>, a: Byte, b: Byte)
    requires IsBest(names, a, b) && TotalCount(names, a, b) == 0
    ensures a == 0 && b == 0 && NoPairs(names)
  {
    if a != 0 || b != 0 { assert Before(0, 0, a, b); }
  }

  lemma BestIsUnique(names: seq<Name>, a: Byte, b: Byte, a': Byte, b': Byte)
    requires IsBest(names, a, b) && IsBest(names, a', b')
    ensures a == a' && b == b'
  {
    assert !Before(a, b, a', b') && !Before(a', b', a, b);
  }

  /** One turn of the loop of optimize_result. */
  function Turn(st: State, i: Byte, a: Byte, b: Byte): State {
    if st.tokens[i].len != 0 then st
    else State(st.tokens[i := Token(2, a, b)], ReplaceAll(st.names, a, b, i))
  }

  ghost predicate NoPairs(names: seq<Name>) {
    forall x: Byte, y: Byte :: TotalCount(names, x, y) == 0
  }

  ghost predicate IsPart(s: Name, whole: Name) {
    exists before: Name, after: Name :: whole == before + s + after
  }

  // ----- what holds when the slots above i have been visited -----

  /** Every name still spells the original. */
  ghost predicate Lossless(orig: seq<Name>, st: State) {
    && |st.names| == |orig|
    && forall j | 0 <= j < |orig| :: AllGood(st.tokens, st.names[j]) && Spell(st.tokens, st.names[j]) == orig[j]
  }

  /** Bytes in use have their own token, the other slots up to i are empty, those above hold pairs. */
  ghost predicate SlotOk(orig: seq<Name>, t: Tokens, i: int, c: Byte) {
    if Uses(orig, c) then IsChar(t, c) else if c <= i then t[c].len == 0 else t[c].len == 2
  }

  ghost predicate SlotsOk(orig: seq<Name>, t: Tokens, i: int) {
    forall c: Byte :: SlotOk(orig, t, i, c)
  }

  /** A well-founded pair has been replaced everywhere, and stands for a part of an original name. */
  ghost predicate TokenOk(orig: seq<Name>, st: State, c: Byte) {
    Good(st.tokens, c) ==>
      && (st.tokens[c].len == 2 ==> TotalCount(st.names, st.tokens[c].b0, st.tokens[c].b1) == 0)
      && exists j :: 0 <= j < |orig| && IsPart(Meaning(st.tokens, c), orig[j])
  }

  ghost predicate TokensOk(orig: seq<Name>, st: State) {
    forall c: Byte :: TokenOk(orig, st, c)
  }

  /** Every slot filled so far is well founded. */
  ghost predicate Alive(t: Tokens) {
    forall c: Byte :: t[c].len != 0 ==> Good(t, c)
  }

  /** Either every slot visited so far is well founded, or the pairs had run out. */
  ghost predicate AliveOrDone(st: State, i: int) {
    Alive(st.tokens) || (NoPairs(st.names) && (i < 0 ==> st.tokens[0] == Token(2, 0, 0)))
  }

  /** No pair is placed twice. */
  ghost predicate PairsDiffer(t: Tokens) {
    forall c: Byte, d: Byte | c != d && Good(t, c) && Good(t, d) && t[c].len == 2 :: t[c] != t[d]
  }

  ghost predicate Inv(orig: seq<Name>, st: State, i: int) {
    && !Uses(orig, 0)
    && Lossless(orig, st)
    && SlotsOk(orig, st.tokens, i)
    && TokensOk(orig, st)
    && PairsDiffer(st.tokens)
    && AliveOrDone(st, i)
  }

  lemma {:induction false} SpellChars(t: Tokens, s: Name)
    requires forall k | 0 <= k < |s| :: IsChar(t, s[k])
    ensures AllGood(t, s) && Spell(t, s) == s
  {
    if s != [] { SpellChars(t, s[1..]); }
  }

  lemma ByteIsPart(s: Name, c: Byte)
    requires c in s
    ensures IsPart([c], s)
  {
    var k :| 0 <= k < |s| && s[k] == c;
    assert s == s[..k] + [c] + s[k + 1..];
  }

  lemma InitialInv(orig: seq<Name>, t: Tokens)
    requires IsInitial(orig, t) && !Uses(orig, 0)
    ensures Inv(orig, State(t, orig), 255)
  {
    forall j | 0 <= j < |orig| ensures AllGood(t, orig[j]) && Spell(t, orig[j]) == orig[j] {
      forall k | 0 <= k < |orig[j]| ensures IsChar(t, orig[j][k]) {
        assert Uses(orig, orig[j][k]);
      }
      SpellChars(t, orig[j]);
    }
    forall c: Byte ensures TokenOk(orig, State(t, orig), c) {
      if Uses(orig, c) {
        var j :| 0 <= j < |orig| && c in orig[j];
        ByteIsPart(orig[j], c);
      }
    }
  }

  /** A code whose slot is empty occurs in no name. */
  lemma EmptySlotUnused(orig: seq<Name>, st: State, i: Byte)
    requires Lossless(orig, st) && st.tokens[i].len == 0
    ensures Unused(i, st.names)
  {
    forall j | 0 <= j < |st.names| ensures i !in st.names[j] {
      assert AllGood(st.tokens, st.names[j]) && !Good(st.tokens, i);
    }
  }

  /** The new token spells a part of the name in which its pair was found. */
  lemma PairIsPart(t: Tokens, s: Name, k: nat)
    requires AllGood(t, s) && k + 1 < |s|
    ensures IsPart(Meaning(t, s[k]) + Meaning(t, s[k + 1]), Spell(t, s))
  {
    var pair := [s[k], s[k + 1]];
    assert s == s[..k] + (pair + s[k + 2..]);
    SpellConcat(t, s[..k], pair + s[k + 2..]);
    SpellConcat(t, pair, s[k + 2..]);
    SpellPair(t, s[k], s[k + 1]);
    assert Spell(t, s) == Spell(t, s[..k]) + (Meaning(t, s[k]) + Meaning(t, s[k + 1])) + Spell(t, s[k + 2..]);
  }

  /** A turn that finds a pair: it makes a well-founded token and replaces it losslessly. */
  lemma TurnPlaces(orig: seq<Name>, st: State, i: Byte, a: Byte, b: Byte)
    requires Inv(orig, st, i) && st.tokens[i].len == 0 && TotalCount(st.names, a, b) > 0
    ensures Good(Turn(st, i, a, b).tokens, i)
    ensures exists j :: 0 <= j < |orig| && IsPart(Meaning(Turn(st, i, a, b).tokens, i), orig[j])
    ensures Lossless(orig, Turn(st, i, a, b))
  {
    var t := st.tokens;
    var token := Token(2, a, b);
    var t' := t[i := token];
    var j, k := PairOccursInTable(st.names, a, b);
    assert AllGood(t, st.names[j]) && Good(t, a) && Good(t, b);
    assert SlotOk(orig, t, i, a) && SlotOk(orig, t, i, b);
    GoodIsStable(t, i, token, a);
    GoodIsStable(t, i, token, b);
    assert Good(t', i);
    PairIsPart(t, st.names[j], k);
    assert Meaning(t', i) == Meaning(t, a) + Meaning(t, b);
    forall m | 0 <= m < |orig|
      ensures var r := Replace(st.names[m], a, b, i); AllGood(t', r) && Spell(t', r) == orig[m]
    {
      SpellIsStable(t, i, token, st.names[m]);
      ReplaceKeepsSpelling(t', st.names[m], i);
    }
  }

  lemma SlotsAfter(orig: seq<Name>, t: Tokens, t': Tokens, i: Byte, token: Token)
    requires t' == t[i := token] && token.len == 2 && t[i].len == 0 && SlotsOk(orig, t, i)
    ensures SlotsOk(orig, t', i - 1)
  {
    var next := i - 1;
    forall c: Byte ensures SlotOk(orig, t', next, c) {
      assert SlotOk(orig, t, i, c);
    }
  }

  /** While every token is well founded, placing another one disturbs none of them. */
  lemma OldToken(orig: seq<Name>, st: State, i: Byte, a: Byte, b: Byte, c: Byte)
    requires TokenOk(orig, st, c) && st.tokens[i].len == 0 && Good(st.tokens, c)
    ensures TokenOk(orig, Turn(st, i, a, b), c) && Good(Turn(st, i, a, b).tokens, c)
    ensures TotalCount(st.names, a, b) > 0 && st.tokens[c].len == 2 ==> st.tokens[c] != Token(2, a, b)
  {
    var t := st.tokens;
    GoodIsStable(t, i, Token(2, a, b), c);
    if t[c].len == 2 {
      TotalCountRaised(st.names, a, b, i, t[c].b0, t[c].b1);
    }
  }

  /** The token just placed. */
  lemma NewToken(orig: seq<Name>, st: State, i: Byte, a: Byte, b: Byte)
    requires Inv(orig, st, i) && st.tokens[i].len == 0 && TotalCount(st.names, a, b) > 0
    ensures TokenOk(orig, Turn(st, i, a, b), i) && Good(Turn(st, i, a, b).tokens, i)
    ensures Lossless(orig, Turn(st, i, a, b))
  {
    TurnPlaces(orig, st, i, a, b);
    EmptySlotUnused(orig, st, i);
    TotalCountEffect(st.names, a, b, i);
  }

  lemma TokensAfter(orig: seq<Name>, st: State, i: Byte, a: Byte, b: Byte)
    requires TokensOk(orig, st) && Alive(st.tokens) && PairsDiffer(st.tokens)
    requires st.tokens[i].len == 0 && TotalCount(st.names, a, b) > 0
    requires TokenOk(orig, Turn(st, i, a, b), i) && Good(Turn(st, i, a, b).tokens, i)
    ensures TokensOk(orig, Turn(st, i, a, b)) && Alive(Turn(st, i, a, b).tokens)
    ensures PairsDiffer(Turn(st, i, a, b).tokens)
  {
    var t, st' := st.tokens, Turn(st, i, a, b);
    forall c: Byte ensures TokenOk(orig, st', c) && (st'.tokens[c].len != 0 ==> Good(st'.tokens, c)) {
      if c != i && t[c].len != 0 {
        assert TokenOk(orig, st, c);
        OldToken(orig, st, i, a, b, c);
      }
    }
    forall c: Byte | c != i && t[c].len == 2 ensures t[c] != Token(2, a, b) {
      assert TokenOk(orig, st, c) && Good(t, c);
      OldToken(orig, st, i, a, b, c);
    }
    PairsAfter(t, st'.tokens, i, Token(2, a, b));
  }

  lemma PairsAfter(t: Tokens, t': Tokens, i: Byte, token: Token)
    requires t' == t[i := token] && PairsDiffer(t) && t[i].len == 0 && Alive(t)
    requires forall c: Byte | c != i && t[c].len == 2 :: t[c] != token
    ensures PairsDiffer(t')
  {
    forall c: Byte, d: Byte | c != d && Good(t', c) && Good(t', d) && t'[c].len == 2 ensures t'[c] != t'[d] {
      if c != i && d != i {
        assert Good(t, c) && Good(t, d);
      }
    }
  }

  lemma TurnThatPlaces(orig: seq<Name>, st: State, i: Byte, a: Byte, b: Byte)
    requires Inv(orig, st, i) && st.tokens[i].len == 0 && TotalCount(st.names, a, b) > 0
    ensures Inv(orig, Turn(st, i, a, b), i - 1)
  {
    var st' := Turn(st, i, a, b);
    assert Alive(st.tokens) by { assert !NoPairs(st.names); }
    NewToken(orig, st, i, a, b);
    SlotsAfter(orig, st.tokens, st'.tokens, i, Token(2, a, b));
    TokensAfter(orig, st, i, a, b);
  }

  lemma {:induction false} GoodBefore(t: Tokens, i: Byte, token: Token, c: Byte)
    requires t[i].len == 0 && Good(t[i := token], c) && !Good(t[i := token], i)
    ensures Good(t, c) && Meaning(t, c) == Meaning(t[i := token], c)
    decreases Rank(t[i := token], c)
  {
    if !IsChar(t[i := token], c) {
      GoodBefore(t, i, token, t[c].b0);
      GoodBefore(t, i, token, t[c].b1);
    }
  }

  lemma TurnWithoutPairs(orig: seq<Name>, st: State, i: Byte)
    requires Inv(orig, st, i) && st.tokens[i].len == 0 && NoPairs(st.names)
    ensures Inv(orig, Turn(st, i, 0, 0), i - 1)
  {
    var t, token, st' := st.tokens, Token(2, 0, 0), Turn(st, i, 0, 0);
    EmptySlotUnused(orig, st, i);
    TotalCountEffect(st.names, 0, 0, i);
    assert TotalCount(st.names, 0, 0) == 0 && SlotOk(orig, t, i, 0);
    assert st'.names == st.names && !Good(st'.tokens, i);
    forall j | 0 <= j < |orig| ensures AllGood(st'.tokens, st.names[j]) && Spell(st'.tokens, st.names[j]) == orig[j] {
      SpellIsStable(t, i, token, st.names[j]);
    }
    SlotsAfter(orig, t, st'.tokens, i, token);
    forall c: Byte | Good(st'.tokens, c) ensures Good(t, c) && Meaning(t, c) == Meaning(st'.tokens, c) {
      GoodBefore(t, i, token, c);
    }
    forall c: Byte ensures TokenOk(orig, st', c) {
      assert TokenOk(orig, st, c);
    }
  }

  lemma SkipInv(orig: seq<Name>, st: State, i: Byte)
    requires Inv(orig, st, i) && st.tokens[i].len != 0
    ensures Inv(orig, st, i - 1)
  {
    var next := i - 1;
    assert SlotOk(orig, st.tokens, i, i);
    forall c: Byte ensures SlotOk(orig, st.tokens, next, c) {
      assert SlotOk(orig, st.tokens, i, c);
    }
  }

  /** Every turn keeps the invariant. */
  lemma TurnInv(orig: seq<Name>, st: State, i: Byte, a: Byte, b: Byte)
    requires Inv(orig, st, i) && IsBest(st.names, a, b)
    ensures Inv(orig, Turn(st, i, a, b), i - 1)
  {
    assert SlotOk(orig, st.tokens, i, i);
    if st.tokens[i].len != 0 {
      SkipInv(orig, st, i);
    } else if TotalCount(st.names, a, b) > 0 {
      TurnThatPlaces(orig, st, i, a, b);
    } else {
      BestOfNone(st.names, a, b);
      TurnWithoutPairs(orig, st, i);
    }
  }

  // ----- the finished table -----

  /** Lossless: the expander turns every compressed name back into the original, and nothing else. */
  lemma NamesExpand(orig: seq<Name>, st: State, i: int, j: nat, out: Name)
    requires Inv(orig, st, i) && j < |orig|
    ensures Expands(st.tokens, st.names[j], out) <==> out == orig[j]
  {
    ExpandsToSpelling(st.tokens, st.names[j]);
    if Expands(st.tokens, st.names[j], out) { ExpandsOnce(st.tokens, st.names[j], out, orig[j]); }
  }

  lemma {:induction false} SelfPairNeverEnds(t: Tokens, depth: nat)
    requires t[0] == Token(2, 0, 0)
    ensures Expand(t, [0, 0], depth) == TooDeep
  {
    if depth > 0 { SelfPairNeverEnds(t, depth - 1); }
  }

  lemma SelfPairNeverReturns(t: Tokens)
    requires t[0] == Token(2, 0, 0)
    ensures !Terminates(t, TokenBytes(t[0]))
  {
    forall depth: nat ensures !Expand(t, TokenBytes(t[0]), depth).Done? {
      SelfPairNeverEnds(t, depth);
    }
  }

  lemma GoodTokenExpands(t: Tokens, c: Byte)
    requires Good(t, c)
    ensures Expands(t, TokenBytes(t[c]), Meaning(t, c))
  {
    if IsChar(t, c) {
      assert AllGood(t, [c]) && [c][1..] == [] && Spell(t, [c]) == [c];
      ExpandsToSpelling(t, [c]);
    } else {
      SpellPair(t, t[c].b0, t[c].b1);
      ExpandsToSpelling(t, [t[c].b0, t[c].b1]);
    }
  }

  /** write_src expands all 256 tokens; that terminates exactly when a pair was still found for slot 0,
      so that the slot does not hold the pair (0, 0). */
  lemma AllTokensTerminate(orig: seq<Name>, st: State)
    requires Inv(orig, st, -1)
    ensures (forall c: Byte :: Terminates(st.tokens, TokenBytes(st.tokens[c]))) <==> st.tokens[0] != Token(2, 0, 0)
    ensures st.tokens[0] != Token(2, 0, 0) <==> (forall c: Byte :: Good(st.tokens, c))
  {
    var t := st.tokens;
    assert SlotOk(orig, t, -1, 0);
    if t[0] == Token(2, 0, 0) {
      assert !Good(t, 0);
      SelfPairNeverReturns(t);
    } else {
      forall c: Byte ensures Good(t, c) && Terminates(t, TokenBytes(t[c])) {
        assert SlotOk(orig, t, -1, c);
        GoodTokenExpands(t, c);
      }
    }
  }

  /** Every token stands for a contiguous part of an original name, so it is no longer than one. */
  lemma TokensAreParts(orig: seq<Name>, st: State, c: Byte, bound: nat)
    requires Inv(orig, st, -1) && Good(st.tokens, c)
    requires forall j | 0 <= j < |orig| :: |orig[j]| <= bound
    ensures exists j :: 0 <= j < |orig| && IsPart(Meaning(st.tokens, c), orig[j])
    ensures |Meaning(st.tokens, c)| <= bound && 0 !in Meaning(st.tokens, c)
  {
    assert TokenOk(orig, st, c);
    var j :| 0 <= j < |orig| && IsPart(Meaning(st.tokens, c), orig[j]);
    var before: Name, after: Name :| orig[j] == before + Meaning(st.tokens, c) + after;
    assert 0 !in orig[j];
  }
}
