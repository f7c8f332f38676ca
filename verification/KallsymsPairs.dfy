/**
 Byte-pair replacement and pair counts: the arithmetic behind the symbol-table compressor of
 scripts/kallsyms.c.
 */
module KallsymsPairs {

  type Byte = x: int | 0 <= x < 256

  type Name = seq<Byte>

  /** Replace the pair (a, b) by c, from left to right and without overlap. */
  function Replace(s: Name, a: Byte, b: Byte, c: Byte): Name {
    if |s| < 2 then s
    else if s[0] == a && s[1] == b then [c] + Replace(s[2..], a, b, c)
    else [s[0]] + Replace(s[1..], a, b, c)
  }

  /** How many adjacent positions of s hold the pair (a, b). */
  function PairCount(s: Name, a: Byte, b: Byte): nat {
    if |s| < 2 then 0
    else (if s[0] == a && s[1] == b then 1 else 0) + PairCount(s[1..], a, b)
  }

  function TotalCount(t: seq<Name>, a: Byte, b: Byte): nat {
    if t == [] then 0 else PairCount(t[0], a, b) + TotalCount(t[1..], a, b)
  }

  function TotalLength(t: seq<Name>): nat {
    if t == [] then 0 else |t[0]| + TotalLength(t[1..])
  }

  function ReplaceAll(t: seq<Name>, a: Byte, b: Byte, c: Byte): (r: seq<Name>)
    ensures |r| == |t| && forall i | 0 <= i < |t| :: r[i] == Replace(t[i], a, b, c)
  {
    seq(|t|, i requires 0 <= i < |t| => Replace(t[i], a, b, c))
  }

  ghost predicate Unused(c: Byte, t: seq<Name>) {
    forall i | 0 <= i < |t| :: c !in t[i]
  }

  lemma {:induction false} ReplaceFirst(s: Name, a: Byte, b: Byte, c: Byte)
    ensures s == [] <==> Replace(s, a, b, c) == []
    ensures s != [] ==> Replace(s, a, b, c)[0] == s[0] ||
                        (Replace(s, a, b, c)[0] == c && |s| > 1 && s[0] == a && s[1] == b)
  {
  }

  /** The replaced pair is gone. */
  lemma {:induction false} ReplaceRemovesPair(s: Name, a: Byte, b: Byte, c: Byte)
    requires c !in s
    ensures PairCount(Replace(s, a, b, c), a, b) == 0
  {
    if |s| >= 2 {
      if s[0] == a && s[1] == b {
        assert a in s && b in s;
        ReplaceRemovesPair(s[2..], a, b, c);
        assert Replace(s, a, b, c)[1..] == Replace(s[2..], a, b, c);
      } else {
        ReplaceRemovesPair(s[1..], a, b, c);
        assert Replace(s, a, b, c)[1..] == Replace(s[1..], a, b, c);
        ReplaceFirst(s[1..], a, b, c);
      }
    }
  }

  /** No pair without the new code becomes more frequent. */
  lemma {:induction false} ReplaceRaisesNoCount(s: Name, a: Byte, b: Byte, c: Byte, x: Byte, y: Byte)
    requires x != c && y != c
    ensures PairCount(Replace(s, a, b, c), x, y) <= PairCount(s, x, y)
  {
    if |s| >= 2 {
      if s[0] == a && s[1] == b {
        ReplaceRaisesNoCount(s[2..], a, b, c, x, y);
        assert Replace(s, a, b, c)[1..] == Replace(s[2..], a, b, c);
        assert PairCount(s[1..], x, y) >= PairCount(s[1..][1..], x, y) && s[1..][1..] == s[2..];
      } else {
        ReplaceRaisesNoCount(s[1..], a, b, c, x, y);
        assert Replace(s, a, b, c)[1..] == Replace(s[1..], a, b, c);
        ReplaceFirst(s[1..], a, b, c);
      }
    }
  }

  /** Replacing shortens exactly the names in which the pair occurs, and leaves the others alone. */
  lemma {:induction false} ReplaceShortens(s: Name, a: Byte, b: Byte, c: Byte)
    ensures if PairCount(s, a, b) == 0 then Replace(s, a, b, c) == s else |Replace(s, a, b, c)| < |s|
  {
    if |s| >= 2 {
      if s[0] == a && s[1] == b {
        ReplaceShortens(s[2..], a, b, c);
      } else {
        ReplaceShortens(s[1..], a, b, c);
      }
    }
  }

  lemma {:induction false} TotalCountEffect(t: seq<Name>, a: Byte, b: Byte, c: Byte)
    requires Unused(c, t)
    ensures TotalCount(ReplaceAll(t, a, b, c), a, b) == 0
    ensures TotalLength(ReplaceAll(t, a, b, c)) <= TotalLength(t)
    ensures TotalCount(t, a, b) > 0 ==> TotalLength(ReplaceAll(t, a, b, c)) < TotalLength(t)
    ensures TotalCount(t, a, b) == 0 ==> ReplaceAll(t, a, b, c) == t
  {
    if t != [] {
      var r := ReplaceAll(t, a, b, c);
      assert r[1..] == ReplaceAll(t[1..], a, b, c);
      assert Unused(c, t[1..]) && c !in t[0];
      TotalCountEffect(t[1..], a, b, c);
      ReplaceRemovesPair(t[0], a, b, c);
      ReplaceShortens(t[0], a, b, c);
      if TotalCount(t, a, b) == 0 { assert r == [r[0]] + r[1..] && t == [t[0]] + t[1..]; }
    }
  }

  lemma {:induction false} TotalCountRaised(t: seq<Name>, a: Byte, b: Byte, c: Byte, x: Byte, y: Byte)
    requires x != c && y != c
    ensures TotalCount(ReplaceAll(t, a, b, c), x, y) <= TotalCount(t, x, y)
  {
    if t != [] {
      assert ReplaceAll(t, a, b, c)[1..] == ReplaceAll(t[1..], a, b, c);
      TotalCountRaised(t[1..], a, b, c, x, y);
      ReplaceRaisesNoCount(t[0], a, b, c, x, y);
    }
  }

  /** A pair with a positive count occurs somewhere. */
  lemma {:induction false} PairOccurs(s: Name, a: Byte, b: Byte) returns (k: nat)
    requires PairCount(s, a, b) > 0
    ensures k + 1 < |s| && s[k] == a && s[k + 1] == b
  {
    if s[0] == a && s[1] == b {
      k := 0;
    } else {
      k := PairOccurs(s[1..], a, b);
      k := k + 1;
    }
  }

  lemma {:induction false} PairOccursInTable(t: seq<Name>, a: Byte, b: Byte) returns (j: nat, k: nat)
    requires TotalCount(t, a, b) > 0
    ensures j < |t| && k + 1 < |t[j]| && t[j][k] == a && t[j][k + 1] == b
  {
    if PairCount(t[0], a, b) > 0 {
      j := 0;
      k := PairOccurs(t[0], a, b);
    } else {
      j, k := PairOccursInTable(t[1..], a, b);
      j := j + 1;
    }
  }
}
