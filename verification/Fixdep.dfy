/**
 The dependency scanner of scripts/basic/fixdep.c: it looks for CONFIG_ words four bytes at a time, and
 keeps the names it has seen in one newline-separated buffer.
 */
module Fixdep {

  const CONFIG := "CONFIG_"

  predicate IsAlnum(c: char) {
    '0' <= c <= '9' || 'A' <= c <= 'Z' || 'a' <= c <= 'z'
  }

  predicate IsIdent(c: char) {
    IsAlnum(c) || c == '_'
  }

  /** The mapped file; the bytes between its end and the end of the page read as NUL. */
  function ByteAt(file: string, i: nat): char {
    if i < |file| then file[i] else '\0'
  }

  /** The four bytes at m are those of w. */
  predicate WordIs(file: string, m: nat, w: string)
    requires |w| == 4
  {
    ByteAt(file, m) == w[0] && ByteAt(file, m + 1) == w[1] && ByteAt(file, m + 2) == w[2] && ByteAt(file, m + 3) == w[3]
  }

  // ----- the byte-by-byte meaning -----

  predicate ConfigAt(file: string, p: nat) {
    p + 7 <= |file| && file[p..p + 7] == CONFIG
  }

  /** Where the identifier that starts at q ends: at a byte that is not part of it, or at the end. */
  function IdentEnd(file: string, q: nat): (e: nat)
    requires q <= |file|
    ensures q <= e <= |file|
    decreases |file| - q
  {
    if q < |file| && IsIdent(file[q]) then IdentEnd(file, q + 1) else q
  }

  /** A use is a CONFIG_ word whose identifier ends before the file does. */
  predicate IsUse(file: string, p: nat) {
    ConfigAt(file, p) && IdentEnd(file, p + 7) < |file|
  }

  function UseName(file: string, p: nat): string
    requires IsUse(file, p)
  {
    file[p + 7..IdentEnd(file, p + 7)]
  }

  /** The names used at positions lo up to hi, in order. */
  function Uses(file: string, lo: nat, hi: nat): seq<string> {
    if lo >= hi then []
    else Uses(file, lo, hi - 1) + if IsUse(file, hi - 1) then [UseName(file, hi - 1)] else []
  }

  /** Everything the scanner is to find: it starts at offset 1. */
  function AllUses(file: string): seq<string> {
    Uses(file, 1, |file|)
  }

  lemma {:induction false} NoUses(file: string, lo: nat, mid: nat, hi: nat)
    requires lo <= mid <= hi && forall p | mid <= p < hi :: !IsUse(file, p)
    ensures Uses(file, lo, hi) == Uses(file, lo, mid)
    decreases hi
  {
    if mid < hi { NoUses(file, lo, mid, hi - 1); }
  }

  /** At most one of four consecutive positions is a use; the word at the last one tells which. */
  function Candidate(file: string, m: nat): int {
    if WordIs(file, m, "CONF") then m
    else if WordIs(file, m, "ONFI") then m - 1
    else if WordIs(file, m, "NFIG") then m - 2
    else if WordIs(file, m, "FIG_") then m - 3
    else -1
  }

  lemma ConfigBytes(file: string, p: nat)
    requires ConfigAt(file, p)
    ensures file[p] == 'C' && file[p + 1] == 'O' && file[p + 2] == 'N' && file[p + 3] == 'F'
    ensures file[p + 4] == 'I' && file[p + 5] == 'G' && file[p + 6] == '_'
  {
    var w := file[p..p + 7];
    assert w[0] == 'C' && w[1] == 'O' && w[2] == 'N' && w[3] == 'F' && w[4] == 'I' && w[5] == 'G' && w[6] == '_';
  }

  lemma CandidateIsOnlyUse(file: string, m: nat, p: nat)
    requires m >= 4 && m - 3 <= p <= m && ConfigAt(file, p)
    ensures Candidate(file, m) == p
  {
    ConfigBytes(file, p);
  }

  lemma UsesStep(file: string, m: nat)
    requires m >= 4
    ensures var p := Candidate(file, m);
            Uses(file, 1, m + 1) ==
            Uses(file, 1, m - 3) + if m - 3 <= p && IsUse(file, p) then [UseName(file, p)] else []
  {
    var p := Candidate(file, m);
    forall q | m - 3 <= q <= m && q != p ensures !IsUse(file, q) {
      if ConfigAt(file, q) { CandidateIsOnlyUse(file, m, q); }
    }
    if m - 3 <= p && IsUse(file, p) {
      NoUses(file, 1, m - 3, p);
      NoUses(file, 1, p + 1, m + 1);
    } else {
      NoUses(file, 1, m - 3, m + 1);
    }
  }

  // ----- what is reported, in terms of the text alone -----

  /** The file is CONFIG_ and the name behind a, then a character c that no name has, then b. */
  ghost predicate Splits(file: string, a: string, name: string, c: char, b: string) {
    && file == a + "CONFIG_" + name + [c] + b
    && (forall x <- name :: 'a' <= x <= 'z' || 'A' <= x <= 'Z' || '0' <= x <= '9' || x == '_')
    && !('a' <= c <= 'z' || 'A' <= c <= 'Z' || '0' <= c <= '9' || c == '_')
  }

  ghost predicate Mentions(file: string, p: nat, name: string) {
    exists a, c, b :: |a| == p && Splits(file, a, name, c, b)
  }

  /** The calls are those for the names mentioned from offset 1 on: one for each position, in order. */
  ghost predicate Reports(file: string, at: seq<nat>, calls: seq<string>) {
    ReportsBelow(file, at, calls, |file|)
  }

  ghost predicate ReportsBelow(file: string, at: seq<nat>, calls: seq<string>, hi: nat) {
    && |at| == |calls|
    && (forall k | 0 <= k < |at| :: 1 <= at[k] < hi && Mentions(file, at[k], calls[k]))
    && (forall j, k | 0 <= j < k < |at| :: at[j] < at[k])
    && (forall p: nat, name | 1 <= p < hi && Mentions(file, p, name) ::
          exists k :: 0 <= k < |at| && at[k] == p && calls[k] == name)
  }

  lemma {:induction false} IdentEndIs(file: string, q: nat, e: nat)
    requires q <= e < |file| && !IsIdent(file[e]) && forall k | q <= k < e :: IsIdent(file[k])
    ensures IdentEnd(file, q) == e
    decreases e - q
  {
    if q < e { IdentEndIs(file, q + 1, e); }
  }

  lemma {:induction false} IdentEndStops(file: string, q: nat)
    requires q <= |file|
    ensures forall k | q <= k < IdentEnd(file, q) :: IsIdent(file[k])
    ensures IdentEnd(file, q) < |file| ==> !IsIdent(file[IdentEnd(file, q)])
    decreases |file| - q
  {
    if q < |file| && IsIdent(file[q]) { IdentEndStops(file, q + 1); }
  }

  lemma SplitIsUse(file: string, a: string, name: string, c: char, b: string)
    requires Splits(file, a, name, c, b)
    ensures IsUse(file, |a|) && UseName(file, |a|) == name
  {
    var p := |a|;
    var e := p + 7 + |name|;
    assert file[p..p + 7] == CONFIG && file[p + 7..e] == name && file[e] == c;
    forall k | p + 7 <= k < e ensures IsIdent(file[k]) {
      assert file[k] == name[k - (p + 7)] && file[k] in name;
    }
    IdentEndIs(file, p + 7, e);
  }

  lemma UseSplits(file: string, p: nat)
    requires IsUse(file, p)
    ensures Mentions(file, p, UseName(file, p))
  {
    var e, name := IdentEnd(file, p + 7), UseName(file, p);
    IdentEndStops(file, p + 7);
    var a, c, b := file[..p], file[e], file[e + 1..];
    assert file == a + file[p..p + 7] + name + [c] + b;
    assert Splits(file, a, name, c, b);
  }

  lemma MentionIsUse(file: string, p: nat, name: string)
    ensures Mentions(file, p, name) <==> IsUse(file, p) && UseName(file, p) == name
  {
    if Mentions(file, p, name) {
      var a, c, b :| |a| == p && Splits(file, a, name, c, b);
      SplitIsUse(file, a, name, c, b);
    }
    if IsUse(file, p) { UseSplits(file, p); }
  }

  /** The uses up to hi are the mentions up to hi. */
  lemma {:induction false} UsesAreReported(file: string, hi: nat) returns (at: seq<nat>)
    ensures ReportsBelow(file, at, Uses(file, 1, hi), hi)
  {
    at := [];
    if 1 < hi {
      var p := hi - 1;
      var at' := UsesAreReported(file, p);
      at := if IsUse(file, p) then at' + [p] else at';
      forall name ensures Mentions(file, p, name) <==> IsUse(file, p) && UseName(file, p) == name {
        MentionIsUse(file, p, name);
      }
      ReportsStep(file, at', Uses(file, 1, p), p, at, Uses(file, 1, hi));
    }
  }

  lemma ReportsStep(file: string, at: seq<nat>, calls: seq<string>, p: nat, at': seq<nat>, calls': seq<string>)
    requires p >= 1 && ReportsBelow(file, at, calls, p)
    requires if at' == at then calls' == calls && forall n :: !Mentions(file, p, n)
             else exists name ::
               at' == at + [p] && calls' == calls + [name] && forall n :: Mentions(file, p, n) <==> n == name
    ensures ReportsBelow(file, at', calls', p + 1)
  {
    forall q: nat, name | 1 <= q < p + 1 && Mentions(file, q, name)
      ensures exists k :: 0 <= k < |at'| && at'[k] == q && calls'[k] == name
    {
      if q < p {
        var k :| 0 <= k < |at| && at[k] == q && calls[k] == name;
        assert at'[k] == q && calls'[k] == name;
      } else {
        assert at'[|at|] == q && calls'[|at|] == name;
      }
    }
  }

  /** The part behind the label conf: is there a use at p, and of which name? */
  method UseAt(file: string, p: nat) returns (found: bool, name: string)
    ensures found == IsUse(file, p) && (found ==> name == UseName(file, p))
    ensures if found then Mentions(file, p, name) else forall n :: !Mentions(file, p, n)
  {
    forall n ensures Mentions(file, p, n) <==> IsUse(file, p) && UseName(file, p) == n {
      MentionIsUse(file, p, n);
    }
    found, name := false, "";
    if p > |file| - 7 { return; }
    if file[p..p + 7] != CONFIG { return; }
    var q := p + 7;
    while q < |file|
      invariant p + 7 <= q <= |file| && IdentEnd(file, q) == IdentEnd(file, p + 7)
    {
      if !(IsAlnum(file[q]) || file[q] == '_') {
        return true, file[p + 7..q];
      }
      q := q + 1;
    }
  }

  /** parse_config_file: scanning every fourth position finds each use exactly once and in order. */
  method ParseConfigFile(file: string) returns (calls: seq<string>)
    ensures calls == AllUses(file)
    ensures exists at :: Reports(file, at, calls)
  {
    calls := [];
    var m := 4;
    while m < |file|
      invariant 4 <= m
      invariant calls == Uses(file, 1, m - 3)
      decreases |file| - m
    {
      UsesStep(file, m);
      var p := Candidate(file, m);
      if p >= 0 {
        var found, name := UseAt(file, p);
        if found { calls := calls + [name]; }
      }
      m := m + 4;
    }
    TailHasNoUses(file, m - 3);
    ghost var at := UsesAreReported(file, |file|);
    assert Reports(file, at, calls);
  }

  lemma TailHasNoUses(file: string, n: nat)
    requires n >= 1 && n + 3 >= |file|
    ensures Uses(file, 1, n) == AllUses(file)
  {
    if |file| >= n {
      NoUses(file, 1, n, |file|);
    } else if |file| >= 1 {
      NoUses(file, 1, |file|, n);
    } else {
      NoUses(file, 1, 1, n);
    }
  }

  // ----- the set of names seen -----

  /** The buffer: a newline, then every name with a newline behind it. */
  function Render(names: seq<string>): (b: string)
    ensures |b| > 0 && b[|b| - 1] == '\n'
  {
    if names == [] then "\n" else Render(names[..|names| - 1]) + names[|names| - 1] + "\n"
  }

  predicate OneLine(s: string) {
    '\n' !in s
  }

  /** name stands between two newlines at position p of the buffer. */
  predicate LineAt(b: string, p: nat, name: string) {
    0 < p && p + |name| < |b| && b[p - 1] == '\n' && b[p + |name|] == '\n' && b[p..p + |name|] == name
  }

  lemma LastLine(r: string, last: string, p: nat, name: string)
    requires r != "" && r[|r| - 1] == '\n' && OneLine(last) && OneLine(name)
    ensures LineAt(r + last + "\n", p, name) <==> LineAt(r, p, name) || (p == |r| && name == last)
  {
    var b := r + last + "\n";
    assert forall k | |r| <= k < |r| + |last| :: b[k] == last[k - |r|];
    assert b[..|r|] == r && b[|r| - 1] == '\n';
    if LineAt(b, p, name) {
      assert forall k | p <= k < p + |name| :: b[k] == name[k - p];
      if p + |name| < |r| {
        assert b[p..p + |name|] == r[p..p + |name|];
      } else {
        assert p == |r| && |name| == |last|;
        assert b[|r|..|r| + |last|] == last;
      }
    }
    if LineAt(r, p, name) { assert b[p..p + |name|] == r[p..p + |name|]; }
    if p == |r| && name == last { assert b[p..p + |name|] == name; }
  }

  ghost predicate HasLine(b: string, name: string) {
    exists p: nat :: LineAt(b, p, name)
  }

  /** The buffer behaves as a set: exactly the recorded names stand between newlines. */
  lemma {:induction false} BufferIsSet(names: seq<string>, name: string)
    requires OneLine(name) && forall s <- names :: OneLine(s)
    ensures HasLine(Render(names), name) <==> name in names
  {
    if names != [] {
      var init, last := names[..|names| - 1], names[|names| - 1];
      assert names == init + [last];
      BufferIsSet(init, name);
      var r, b := Render(init), Render(names);
      forall p: nat ensures LineAt(b, p, name) <==> LineAt(r, p, name) || (p == |r| && name == last) {
        LastLine(r, last, p, name);
      }
      if name == last { assert LineAt(b, |r|, name); }
      if HasLine(r, name) {
        var p: nat :| LineAt(r, p, name);
        assert LineAt(b, p, name);
      }
    }
  }

  /** Each name once, in the order of first use. */
  function Distinct(names: seq<string>): seq<string> {
    if names == [] then []
    else
      var d := Distinct(names[..|names| - 1]);
      var last := names[|names| - 1];
      if last in d then d else d + [last]
  }

  lemma {:induction false} DistinctIsSet(names: seq<string>)
    ensures forall s :: s in Distinct(names) <==> s in names
    ensures forall i, j | 0 <= i < j < |Distinct(names)| :: Distinct(names)[i] != Distinct(names)[j]
  {
    if names != [] {
      DistinctIsSet(names[..|names| - 1]);
      assert names == names[..|names| - 1] + [names[|names| - 1]];
    }
  }

  class Recorder {
    var buf: string             // str_config up to len_config
    var emitted: seq<string>    // the names for which a wildcard dependency was printed
    ghost var used: seq<string> // every name passed to use_config since clear_config

    ghost predicate Valid()
      reads this
    {
      && buf == Render(Distinct(used)) && emitted == Distinct(used)
      && forall s <- used :: OneLine(s)
    }

    /** clear_config */
    constructor ()
      ensures Valid() && used == []
    {
      buf := "" + "\n";
      emitted := [];
      used := [];
    }

    /** is_defined_config */
    method IsDefined(name: string) returns (r: bool)
      requires Valid() && OneLine(name)
      ensures r <==> name in used
    {
      ghost var d := Distinct(used);
      DistinctIsSet(used);
      BufferIsSet(d, name);
      var p := 1;
      while p < |buf| - |name|
        invariant 1 <= p
        invariant forall q: nat | q < p :: !LineAt(buf, q, name)
      {
        if buf[p - 1] == '\n' && buf[p + |name|] == '\n' && buf[p..p + |name|] == name {
          assert LineAt(buf, p, name) && HasLine(buf, name);
          return true;
        }
        p := p + 1;
      }
      r := false;
    }

    /** use_config: a name is recorded and emitted when it is used for the first time. */
    method UseConfig(name: string)
      requires Valid() && OneLine(name)
      modifies this
      ensures Valid() && used == old(used) + [name]
      ensures emitted == if name in old(used) then old(emitted) else old(emitted) + [name]
    {
      DistinctIsSet(used);
      var seen := IsDefined(name);
      ghost var d := Distinct(used);
      used := used + [name];
      assert used[..|used| - 1] == old(used);
      if !seen {
        assert (d + [name])[..|d|] == d;
        buf := buf + name + "\n";
        emitted := emitted + [name];
      }
    }

    method UseAll(calls: seq<string>)
      requires Valid() && forall s <- calls :: OneLine(s)
      modifies this
      ensures Valid() && used == old(used) + calls
    {
      var k := 0;
      while k < |calls|
        invariant 0 <= k <= |calls| && Valid() && used == old(used) + calls[..k]
      {
        assert old(used) + calls[..k + 1] == old(used) + calls[..k] + [calls[k]];
        assert OneLine(calls[k]);
        UseConfig(calls[k]);
        k := k + 1;
      }
      assert calls[..k] == calls;
    }
  }

  lemma {:induction false} IdentIsOneLine(file: string, q: nat)
    requires q <= |file|
    ensures OneLine(file[q..IdentEnd(file, q)])
    decreases |file| - q
  {
    if q < |file| && IsIdent(file[q]) {
      IdentIsOneLine(file, q + 1);
      assert file[q..IdentEnd(file, q)] == [file[q]] + file[q + 1..IdentEnd(file, q)];
    }
  }

  lemma {:induction false} UsesAreOneLine(file: string, lo: nat, hi: nat)
    ensures forall s <- Uses(file, lo, hi) :: OneLine(s)
    decreases hi
  {
    if lo < hi {
      UsesAreOneLine(file, lo, hi - 1);
      if IsUse(file, hi - 1) { IdentIsOneLine(file, hi - 1 + 7); }
    }
  }

  function UsesOfFiles(files: seq<string>): seq<string> {
    if files == [] then [] else UsesOfFiles(files[..|files| - 1]) + AllUses(files[|files| - 1])
  }

  ghost predicate MentionedIn(file: string, name: string) {
    exists p: nat :: p >= 1 && Mentions(file, p, name)
  }

  lemma UsesAreMentions(file: string, name: string)
    ensures name in AllUses(file) <==> MentionedIn(file, name)
  {
    var at := UsesAreReported(file, |file|);
    if name in AllUses(file) {
      var k :| 0 <= k < |at| && AllUses(file)[k] == name;
      assert Mentions(file, at[k], name);
    }
    if MentionedIn(file, name) {
      var p: nat :| p >= 1 && Mentions(file, p, name);
      MentionIsUse(file, p, name);
    }
  }

  lemma {:induction false} FilesAreMentions(files: seq<string>, name: string)
    ensures name in UsesOfFiles(files) <==> exists file <- files :: MentionedIn(file, name)
  {
    if files != [] {
      var init, last := files[..|files| - 1], files[|files| - 1];
      assert files == init + [last];
      FilesAreMentions(init, name);
      UsesAreMentions(last, name);
    }
  }

  /** Over all prerequisites: each name used anywhere is emitted exactly once, at its first use. */
  method ParseFiles(files: seq<string>) returns (emitted: seq<string>)
    ensures emitted == Distinct(UsesOfFiles(files))
    ensures forall name :: name in emitted <==> exists file <- files :: MentionedIn(file, name)
    ensures forall i, j | 0 <= i < j < |emitted| :: emitted[i] != emitted[j]
  {
    var rec := new Recorder();
    var i := 0;
    while i < |files|
      invariant 0 <= i <= |files| && fresh(rec) && rec.Valid() && rec.used == UsesOfFiles(files[..i])
    {
      var calls := ParseConfigFile(files[i]);
      UsesAreOneLine(files[i], 1, |files[i]|);
      rec.UseAll(calls);
      assert files[..i + 1][..i] == files[..i];
      i := i + 1;
    }
    assert files[..i] == files;
    emitted := rec.emitted;
    DistinctIsSet(rec.used);
    forall name ensures name in emitted <==> exists file <- files :: MentionedIn(file, name) {
      FilesAreMentions(files, name);
    }
  }
}
