/**
 The token table of scripts/kallsyms.c, its recursive expander, and what every round of the
 compressor keeps.
 */
module KallsymsTokens {
  import opened KallsymsPairs

  /** best_table_len[c] and best_table[c]: an unused slot, a single character, or a pair. */
  datatype Token = Token(len: nat, b0: Byte, b1: Byte)

  const EMPTY := Token(0, 0, 0)

  type Tokens = t: seq<Token> | |t| == 256 witness seq(256, _ => EMPTY)

  function TokenBytes(t: Token): Name {
    if t.len == 0 then [] else if t.len == 1 then [t.b0] else [t.b0, t.b1]
  }

  predicate IsChar(t: Tokens, c: Byte) {
    t[c].len == 1 && t[c].b0 == c
  }

  // ----- the expander -----

  datatype Expansion = TooDeep | Done(out: Name)

  /** expand_symbol, cut off when more than depth calls are nested. */
  function Expand(t: Tokens, data: Name, depth: nat): Expansion
    decreases depth, |data|
  {
    if depth == 0 then TooDeep
    else if data == [] then Done([])
    else
      var c := data[0];
      var first := if IsChar(t, c) then Done([c]) else Expand(t, TokenBytes(t[c]), depth - 1);
      var rest := Expand(t, data[1..], depth);
      if first.Done? && rest.Done? then Done(first.out + rest.out) else TooDeep
  }

  /** expand_symbol returns, with this result. */
  ghost predicate Expands(t: Tokens, data: Name, out: Name) {
    exists depth: nat :: Expand(t, data, depth) == Done(out)
  }

  ghost predicate Terminates(t: Tokens, data: Name) {
    exists depth: nat :: Expand(t, data, depth).Done?
  }

  lemma {:induction false} ExpandDeeper(t: Tokens, data: Name, d: nat, d': nat)
    requires Expand(t, data, d).Done? && d <= d'
    ensures Expand(t, data, d') == Expand(t, data, d)
    decreases d, |data|
  {
    if data != [] {
      var c := data[0];
      if !IsChar(t, c) { ExpandDeeper(t, TokenBytes(t[c]), d - 1, d' - 1); }
      ExpandDeeper(t, data[1..], d, d');
    }
  }

  /** The result does not depend on how deep the expander may go. */
  lemma ExpandsOnce(t: Tokens, data: Name, out: Name, out': Name)
    requires Expands(t, data, out) && Expands(t, data, out')
    ensures out == out'
  {
    var d: nat :| Expand(t, data, d) == Done(out);
    var d': nat :| Expand(t, data, d') == Done(out');
    if d <= d' { ExpandDeeper(t, data, d, d'); } else { ExpandDeeper(t, data, d', d); }
  }

  // ----- well-founded tokens -----

  /** Characters come first, then the pairs from slot 255 downwards: the order of their placement. */
  function Rank(t: Tokens, c: Byte): nat {
    if IsChar(t, c) then 0 else 256 - c
  }

  /** c is a character, or a pair of well-founded tokens that are characters or placed earlier. */
  predicate Good(t: Tokens, c: Byte)
    decreases Rank(t, c)
  {
    IsChar(t, c) ||
    (t[c].len == 2 &&
     Rank(t, t[c].b0) < Rank(t, c) && Good(t, t[c].b0) &&
     Rank(t, t[c].b1) < Rank(t, c) && Good(t, t[c].b1))
  }

  /** The text a well-founded token stands for. */
  function Meaning(t: Tokens, c: Byte): Name
    requires Good(t, c)
    decreases Rank(t, c)
  {
    if IsChar(t, c) then [c] else Meaning(t, t[c].b0) + Meaning(t, t[c].b1)
  }

  predicate AllGood(t: Tokens, s: Name) {
    forall k | 0 <= k < |s| :: Good(t, s[k])
  }

  function Spell(t: Tokens, s: Name): Name
    requires AllGood(t, s)
  {
    if s == [] then [] else Meaning(t, s[0]) + Spell(t, s[1..])
  }

  lemma {:induction false} SpellConcat(t: Tokens, s: Name, s': Name)
    requires AllGood(t, s) && AllGood(t, s')
    ensures AllGood(t, s + s') && Spell(t, s + s') == Spell(t, s) + Spell(t, s')
  {
    if s == [] {
      assert s + s' == s';
    } else {
      assert (s + s')[1..] == s[1..] + s';
      SpellConcat(t, s[1..], s');
    }
  }

  lemma SpellPair(t: Tokens, a: Byte, b: Byte)
    requires Good(t, a) && Good(t, b)
    ensures AllGood(t, [a, b]) && Spell(t, [a, b]) == Meaning(t, a) + Meaning(t, b)
  {
    assert [a, b][1..] == [b] && [b][1..] == [];
    assert Spell(t, [b]) == Meaning(t, b);
  }

  /** The expander computes the meaning of well-founded tokens; the nesting is bounded by their rank. */
  lemma {:induction false} ExpandSpells(t: Tokens, s: Name, rank: nat)
    requires AllGood(t, s) && forall k | 0 <= k < |s| :: Rank(t, s[k]) <= rank
    ensures Expand(t, s, rank + 1) == Done(Spell(t, s))
    decreases rank, |s|
  {
    if s != [] {
      var c := s[0];
      if !IsChar(t, c) {
        var a, b := t[c].b0, t[c].b1;
        SpellPair(t, a, b);
        ExpandSpells(t, [a, b], rank - 1);
        assert TokenBytes(t[c]) == [a, b];
      }
      ExpandSpells(t, s[1..], rank);
    }
  }

  lemma ExpandsToSpelling(t: Tokens, s: Name)
    requires AllGood(t, s)
    ensures Expands(t, s, Spell(t, s))
  {
    ExpandSpells(t, s, 256);
  }

  /** Filling an empty slot does not change what the well-founded tokens stand for. */
  lemma {:induction false} GoodIsStable(t: Tokens, i: Byte, token: Token, c: Byte)
    requires t[i].len == 0 && Good(t, c)
    ensures Good(t[i := token], c) && Meaning(t[i := token], c) == Meaning(t, c)
    decreases Rank(t, c)
  {
    if !IsChar(t, c) {
      GoodIsStable(t, i, token, t[c].b0);
      GoodIsStable(t, i, token, t[c].b1);
    }
  }

  lemma {:induction false} SpellIsStable(t: Tokens, i: Byte, token: Token, s: Name)
    requires t[i].len == 0 && AllGood(t, s)
    ensures AllGood(t[i := token], s) && Spell(t[i := token], s) == Spell(t, s)
  {
    if s != [] {
      GoodIsStable(t, i, token, s[0]);
      SpellIsStable(t, i, token, s[1..]);
    }
  }

  /** Replacing the pair a token stands for does not change the spelling. */
  lemma {:induction false} ReplaceKeepsSpelling(t: Tokens, s: Name, c: Byte)
    requires Good(t, c) && !IsChar(t, c) && AllGood(t, s)
    ensures var r := Replace(s, t[c].b0, t[c].b1, c); AllGood(t, r) && Spell(t, r) == Spell(t, s)
  {
    var a, b := t[c].b0, t[c].b1;
    var r := Replace(s, a, b, c);
    if |s| >= 2 {
      if s[0] == a && s[1] == b {
        ReplaceKeepsSpelling(t, s[2..], c);
        SpellConcat(t, [a, b], s[2..]);
        SpellPair(t, a, b);
        assert s == [a, b] + s[2..] && r == [c] + r[1..] && r[1..] == Replace(s[2..], a, b, c);
      } else {
        ReplaceKeepsSpelling(t, s[1..], c);
        assert r[1..] == Replace(s[1..], a, b, c);
      }
    }
  }
}
