/**
 The tables that write_src (scripts/kallsyms.c) emits, and how a reader of those tables gets a name
 back: find the marker, skip records, replace each byte by its NUL-terminated token.
 */
module KallsymsOutput {
  import opened KallsymsPairs
  import opened KallsymsTokens
  import opened KallsymsRounds
  import opened KallsymsCompressor

  /** kallsyms_names: every name with its length in front. */
  function Stream(names: seq<Name>): Name
    requires forall j | 0 <= j < |names| :: |names[j]| < 256
  {
    if names == [] then [] else [|names[0]|] + names[0] + Stream(names[1..])
  }

  /** Where record j starts. */
  function Offset(names: seq<Name>, j: nat): nat
    requires j <= |names|
  {
    if j == 0 then 0 else Offset(names, j - 1) + |names[j - 1]| + 1
  }

  /** kallsyms_markers holds the offset of every 256th record. */
  ghost predicate AreMarkers(names: seq<Name>, markers: seq<nat>, upTo: nat) {
    && upTo <= |names| && upTo <= 256 * |markers| < upTo + 256
    && forall m | 0 <= m < |markers| :: markers[m] == Offset(names, 256 * m)
  }

  lemma MarkersStep(names: seq<Name>, markers: seq<nat>, i: nat)
    requires AreMarkers(names, markers, i) && i < |names|
    ensures AreMarkers(names, if i % 256 == 0 then markers + [Offset(names, i)] else markers, i + 1)
  {
    assert i % 256 == 0 ==> 256 * |markers| == i;
  }

  lemma StreamStep(names: seq<Name>, i: nat, done: Name)
    requires (forall j | 0 <= j < |names| :: |names[j]| < 256) && i < |names|
    requires done + Stream(names[i..]) == Stream(names)
    ensures done + ([|names[i]|] + names[i]) + Stream(names[i + 1..]) == Stream(names)
  {
    assert names[i..][1..] == names[i + 1..];
    var record, rest := [|names[i]|] + names[i], Stream(names[i + 1..]);
    assert done + (record + rest) == done + record + rest;
  }

  method WriteNames(names: seq<Name>) returns (stream: Name, markers: seq<nat>)
    requires forall j | 0 <= j < |names| :: |names[j]| < 256
    ensures stream == Stream(names) && AreMarkers(names, markers, |names|)
  {
    stream, markers := [], [];
    var off, i := 0, 0;
    while i < |names|
      invariant 0 <= i <= |names| && off == Offset(names, i) && AreMarkers(names, markers, i)
      invariant stream + Stream(names[i..]) == Stream(names)
    {
      MarkersStep(names, markers, i);
      if i % 256 == 0 { markers := markers + [off]; }
      StreamStep(names, i, stream);
      stream := stream + ([|names[i]|] + names[i]);
      off := off + |names[i]| + 1;
      i := i + 1;
    }
  }

  predicate AllSlotsGood(t: Tokens) {
    forall c: Byte :: Good(t, c)
  }

  /** What the 256 tokens stand for. */
  function Words(t: Tokens): (w: seq<Name>)
    requires AllSlotsGood(t)
    ensures |w| == 256 && forall c: Byte :: w[c] == Meaning(t, c)
  {
    seq(256, c requires 0 <= c < 256 => Meaning(t, c))
  }

  /** kallsyms_token_table: every word with a NUL behind it. */
  function Text(words: seq<Name>): Name {
    if words == [] then [] else words[0] + [0] + Text(words[1..])
  }

  /** Where word c starts. */
  function TextOffset(words: seq<Name>, c: nat): nat
    requires c <= |words|
  {
    if c == 0 then 0 else TextOffset(words, c - 1) + |words[c - 1]| + 1
  }

  /** kallsyms_token_index is a table of 16-bit numbers. */
  ghost predicate IsIndex(words: seq<Name>, index: seq<nat>) {
    |index| <= |words| && forall c | 0 <= c < |index| :: index[c] == TextOffset(words, c) % 0x10000
  }

  lemma TextStep(words: seq<Name>, i: nat, done: Name)
    requires i < |words| && done + Text(words[i..]) == Text(words)
    ensures done + (words[i] + [0]) + Text(words[i + 1..]) == Text(words)
  {
    assert words[i..][1..] == words[i + 1..];
    var word, rest := words[i] + [0], Text(words[i + 1..]);
    assert done + (word + rest) == done + word + rest;
  }

  method WriteTokens(t: Tokens) returns (text: Name, index: seq<nat>)
    requires AllSlotsGood(t)
    ensures text == Text(Words(t)) && |index| == 256 && IsIndex(Words(t), index)
  {
    ghost var words := Words(t);
    text, index := [], [];
    var off, i := 0, 0;
    while i < 256
      invariant 0 <= i <= 256 && |index| == i && off == TextOffset(words, i) && IsIndex(words, index)
      invariant text + Text(words[i..]) == Text(words)
    {
      index := index + [off % 0x10000];
      var buf := ExpandToken(t, i);
      assert buf == words[i];
      TextStep(words, i, text);
      text := text + (buf + [0]);
      off := off + |buf| + 1;
      i := i + 1;
    }
  }

  method ExpandToken(t: Tokens, c: Byte) returns (word: Name)
    requires Good(t, c)
    ensures word == Meaning(t, c)
  {
    GoodTokenExpands(t, c);
    ghost var depth: nat :| Expand(t, TokenBytes(t[c]), depth) == Done(Meaning(t, c));
    word := ExpandSymbol(t, TokenBytes(t[c]), depth, Meaning(t, c));
  }

  // ----- the reader -----

  function SkipRecords(stream: Name, pos: nat, n: nat): nat
    decreases n
  {
    if n == 0 || pos >= |stream| then pos else SkipRecords(stream, pos + stream[pos] + 1, n - 1)
  }

  function ReadString(text: Name, pos: nat): Name
    decreases |text| - pos
  {
    if pos >= |text| || text[pos] == 0 then [] else [text[pos]] + ReadString(text, pos + 1)
  }

  function ReadTokens(data: Name, text: Name, index: seq<nat>): Name
    requires |index| == 256
  {
    if data == [] then [] else ReadString(text, index[data[0]]) + ReadTokens(data[1..], text, index)
  }

  /** The compressed name in the record at pos. */
  function Record(stream: Name, pos: nat): Name {
    if pos >= |stream| || pos + 1 + stream[pos] > |stream| then [] else stream[pos + 1..pos + 1 + stream[pos]]
  }

  /** The name of symbol i, from the emitted tables alone. */
  function Lookup(stream: Name, markers: seq<nat>, text: Name, index: seq<nat>, i: nat): Name
    requires i / 256 < |markers| && |index| == 256
  {
    ReadTokens(Record(stream, SkipRecords(stream, markers[i / 256], i % 256)), text, index)
  }

  lemma {:induction false} OffsetTail(names: seq<Name>, j: nat)
    requires 0 < j <= |names|
    ensures Offset(names, j) == |names[0]| + 1 + Offset(names[1..], j - 1)
  {
    if j > 1 { OffsetTail(names, j - 1); }
  }

  lemma RecordShift(first: Name, rest: Name, p: nat)
    requires p < |rest| && p + 1 + rest[p] <= |rest|
    ensures (first + rest)[|first| + p] == rest[p] && Record(first + rest, |first| + p) == Record(rest, p)
  {
    var s, n := first + rest, rest[p];
    assert s[|first| + p + 1..|first| + p + 1 + n] == rest[p + 1..p + 1 + n];
  }

  lemma RecordFirst(name: Name, rest: Name)
    requires |name| < 256
    ensures Record([|name|] + name + rest, 0) == name
  {
    assert ([|name|] + name + rest)[1..1 + |name|] == name;
  }

  /** A record of the given length lies at pos. */
  ghost predicate HasRecord(stream: Name, pos: nat, name: Name) {
    && pos < |stream| && stream[pos] == |name| && pos + 1 + |name| <= |stream|
    && Record(stream, pos) == name
  }

  /** Record j lies at its offset. */
  lemma {:induction false} RecordAt(names: seq<Name>, j: nat)
    requires j < |names| && forall k | 0 <= k < |names| :: |names[k]| < 256
    ensures HasRecord(Stream(names), Offset(names, j), names[j])
  {
    var first, rest := [|names[0]|] + names[0], Stream(names[1..]);
    assert Stream(names) == first + rest;
    if j > 0 {
      OffsetTail(names, j);
      RecordAt(names[1..], j - 1);
      RecordShift(first, rest, Offset(names[1..], j - 1));
    } else {
      RecordFirst(names[0], rest);
    }
  }

  lemma {:induction false} SkipFinds(names: seq<Name>, j: nat, n: nat)
    requires j + n < |names| && forall k | 0 <= k < |names| :: |names[k]| < 256
    ensures SkipRecords(Stream(names), Offset(names, j), n) == Offset(names, j + n)
    decreases n
  {
    if n > 0 {
      RecordAt(names, j);
      SkipFinds(names, j + 1, n - 1);
    }
  }

  lemma {:induction false} ReadWord(before: Name, word: Name, after: Name)
    requires 0 !in word
    ensures ReadString(before + word + [0] + after, |before|) == word
    decreases |word|
  {
    if word != [] {
      var text := before + word + [0] + after;
      assert text == (before + [word[0]]) + word[1..] + [0] + after;
      ReadWord(before + [word[0]], word[1..], after);
      assert [word[0]] + word[1..] == word;
    } else {
      assert before + word + [0] + after == before + [0] + after;
    }
  }

  /** Word c lies at its offset. */
  lemma {:induction false} TextSplits(words: seq<Name>, c: nat) returns (before: Name)
    requires c <= |words|
    ensures |before| == TextOffset(words, c) && Text(words) == before + Text(words[c..])
  {
    if c == 0 {
      before := [];
      assert words[0..] == words;
    } else {
      var b := TextSplits(words, c - 1);
      assert words[c - 1..][1..] == words[c..];
      before := b + (words[c - 1] + [0]);
      assert b + (words[c - 1] + [0] + Text(words[c..])) == before + Text(words[c..]);
    }
  }

  lemma WordIsRead(words: seq<Name>, c: nat)
    requires c < |words| && 0 !in words[c]
    ensures ReadString(Text(words), TextOffset(words, c)) == words[c]
  {
    var before := TextSplits(words, c);
    assert words[c..][1..] == words[c + 1..];
    var after := Text(words[c + 1..]);
    assert before + (words[c] + [0] + after) == before + words[c] + [0] + after;
    ReadWord(before, words[c], after);
  }

  // ----- everything fits -----

  lemma {:induction false} MeaningNotEmpty(t: Tokens, c: Byte)
    requires Good(t, c)
    ensures Meaning(t, c) != []
    decreases Rank(t, c)
  {
    if !IsChar(t, c) { MeaningNotEmpty(t, t[c].b0); }
  }

  /** Compression never lengthens a name. */
  lemma {:induction false} SpellingNotShorter(t: Tokens, s: Name)
    requires AllGood(t, s)
    ensures |s| <= |Spell(t, s)|
  {
    if s != [] {
      MeaningNotEmpty(t, s[0]);
      SpellingNotShorter(t, s[1..]);
    }
  }

  lemma {:induction false} TextOffsetBound(words: seq<Name>, c: nat)
    requires c <= |words| && forall k | 0 <= k < |words| :: |words[k]| <= 255
    ensures TextOffset(words, c) <= 256 * c
  {
    if c > 0 { TextOffsetBound(words, c - 1); }
  }

  ghost predicate Short(names: seq<Name>) {
    forall j | 0 <= j < |names| :: |names[j]| <= 255
  }

  /** Names of at most 255 bytes compress to lengths that fit a byte. */
  lemma CompressedNamesFit(orig: seq<Name>, st: State)
    requires Inv(orig, st, -1) && Short(orig)
    ensures forall j | 0 <= j < |st.names| :: |st.names[j]| < 256
  {
    forall j | 0 <= j < |st.names| ensures |st.names[j]| < 256 {
      assert AllGood(st.tokens, st.names[j]);
      SpellingNotShorter(st.tokens, st.names[j]);
    }
  }

  /** No word contains a NUL, and every word starts where a 16-bit number can say. */
  ghost predicate WordsFit(words: seq<Name>) {
    forall c | 0 <= c < |words| :: 0 !in words[c] && TextOffset(words, c) < 0x10000
  }

  /** Every token text starts where a 16-bit number can say. */
  ghost predicate OffsetsFit(t: Tokens) {
    AllSlotsGood(t) ==> forall c: Byte :: TextOffset(Words(t), c) < 0x10000
  }

  /** Names of at most 255 bytes have tokens whose texts start where 16 bits can say. */
  lemma TokensFit(orig: seq<Name>, st: State)
    requires Inv(orig, st, -1) && Short(orig)
    ensures OffsetsFit(st.tokens)
  {
    if AllSlotsGood(st.tokens) {
      var words := Words(st.tokens);
      forall c | 0 <= c < 256 ensures |words[c]| <= 255 {
        TokensAreParts(orig, st, c, 255);
      }
      forall c: Byte ensures TextOffset(words, c) < 0x10000 {
        TextOffsetBound(words, c);
      }
    }
  }

  lemma {:induction false} LongestName(names: seq<Name>) returns (bound: nat)
    ensures forall j | 0 <= j < |names| :: |names[j]| <= bound
  {
    bound := 0;
    if names != [] {
      bound := LongestName(names[1..]);
      if bound < |names[0]| { bound := |names[0]|; }
    }
  }

  lemma FinishedWordsFit(orig: seq<Name>, st: State)
    requires Inv(orig, st, -1) && AllSlotsGood(st.tokens) && OffsetsFit(st.tokens)
    ensures WordsFit(Words(st.tokens))
  {
    var words := Words(st.tokens);
    var bound := LongestName(orig);
    forall c | 0 <= c < 256 ensures 0 !in words[c] {
      TokensAreParts(orig, st, c, bound);
    }
  }

  lemma SixteenBits(x: nat)
    requires x < 0x10000
    ensures x % 0x10000 == x
  {
  }

  lemma IndexIsOffset(words: seq<Name>, index: seq<nat>, c: nat)
    requires WordsFit(words) && IsIndex(words, index) && c < |index|
    ensures index[c] == TextOffset(words, c)
  {
    SixteenBits(TextOffset(words, c));
  }

  /** KSYM_NAME_LEN + 1, the size of the buffer into which write_src expands a token */
  const BUFFER := 128

  /** Names of at most 127 bytes keep every token text, with the NUL behind it, within the buffer. */
  lemma BufferSuffices(orig: seq<Name>, st: State, c: Byte)
    requires Inv(orig, st, -1) && Good(st.tokens, c)
    requires forall j | 0 <= j < |orig| :: |orig[j]| < BUFFER
    ensures |Meaning(st.tokens, c) + [0]| <= BUFFER
  {
    TokensAreParts(orig, st, c, BUFFER - 1);
  }

  /** Each token is found where the index says. */
  lemma IndexFindsWord(words: seq<Name>, index: seq<nat>, c: nat)
    requires WordsFit(words) && |words| == |index| == 256 && IsIndex(words, index) && c < 256
    ensures ReadString(Text(words), index[c]) == words[c]
  {
    IndexIsOffset(words, index, c);
    WordIsRead(words, c);
  }

  /** Each record is found from its marker. */
  lemma MarkerFindsRecord(names: seq<Name>, markers: seq<nat>, i: nat)
    requires (forall j | 0 <= j < |names| :: |names[j]| < 256) && AreMarkers(names, markers, |names|) && i < |names|
    ensures i / 256 < |markers|
    ensures Record(Stream(names), SkipRecords(Stream(names), markers[i / 256], i % 256)) == names[i]
  {
    var m, n := i / 256, i % 256;
    assert i == 256 * m + n && m < (|names| + 255) / 256;
    SkipFinds(names, 256 * m, n);
    RecordAt(names, i);
  }

  lemma {:induction false} WordsAreRead(t: Tokens, data: Name, index: seq<nat>)
    requires AllSlotsGood(t) && AllGood(t, data) && WordsFit(Words(t)) && |index| == 256 && IsIndex(Words(t), index)
    ensures ReadTokens(data, Text(Words(t)), index) == Spell(t, data)
  {
    if data != [] {
      IndexFindsWord(Words(t), index, data[0]);
      WordsAreRead(t, data[1..], index);
    }
  }

  /** Round trip through the emitted tables: looking up symbol i yields the original name i. */
  lemma LookupRoundTrip(orig: seq<Name>, st: State, markers: seq<nat>, index: seq<nat>, i: nat)
    requires Lossless(orig, st) && AllSlotsGood(st.tokens) && WordsFit(Words(st.tokens)) && i < |orig|
    requires forall j | 0 <= j < |st.names| :: |st.names[j]| < 256
    requires AreMarkers(st.names, markers, |st.names|)
    requires |index| == 256 && IsIndex(Words(st.tokens), index)
    ensures i / 256 < |markers| && Lookup(Stream(st.names), markers, Text(Words(st.tokens)), index, i) == orig[i]
  {
    assert AllGood(st.tokens, st.names[i]) && Spell(st.tokens, st.names[i]) == orig[i];
    WordsAreRead(st.tokens, st.names[i], index);
    MarkerFindsRecord(st.names, markers, i);
  }

  /** Every token text in the table, with the NUL behind it, fits the buffer. */
  ghost predicate TextsFit(text: Name, index: seq<nat>) {
    |index| == 256 && forall c: Byte :: |ReadString(text, index[c]) + [0]| <= BUFFER
  }

  lemma FinishedTextsFit(orig: seq<Name>, st: State, index: seq<nat>)
    requires Inv(orig, st, -1) && AllSlotsGood(st.tokens) && WordsFit(Words(st.tokens))
    requires |index| == 256 && IsIndex(Words(st.tokens), index)
    requires forall j | 0 <= j < |orig| :: |orig[j]| < BUFFER
    ensures TextsFit(Text(Words(st.tokens)), index)
  {
    forall c: Byte ensures |ReadString(Text(Words(st.tokens)), index[c]) + [0]| <= BUFFER {
      IndexFindsWord(Words(st.tokens), index, c);
      BufferSuffices(orig, st, c);
    }
  }

  /** write_src: every name can be looked up in the tables it emits, as long as the lengths fit a byte
      and the offsets 16 bits; the buffer for token texts suffices when it suffices for the names. It is
      called on a finished compression; it returns only if slot 0 was not left with the pair (0, 0)
      (AllTokensTerminate). */
  method WriteSource(ghost orig: seq<Name>, tokens: Tokens, names: seq<Name>)
    returns (stream: Name, markers: seq<nat>, text: Name, index: seq<nat>)
    requires Inv(orig, State(tokens, names), -1) && tokens[0] != Token(2, 0, 0)
    requires (forall j | 0 <= j < |names| :: |names[j]| < 256) && OffsetsFit(tokens)
    ensures |index| == 256 && |markers| == (|orig| + 255) / 256
    ensures forall i | 0 <= i < |orig| :: Lookup(stream, markers, text, index, i) == orig[i]
    ensures (forall j | 0 <= j < |orig| :: |orig[j]| < BUFFER) ==> TextsFit(text, index)
  {
    ghost var st := State(tokens, names);
    AllTokensTerminate(orig, st);
    FinishedWordsFit(orig, st);
    stream, markers := WriteNames(names);
    text, index := WriteTokens(tokens);
    if forall j | 0 <= j < |orig| :: |orig[j]| < BUFFER {
      FinishedTextsFit(orig, st, index);
    }
    forall i | 0 <= i < |orig| ensures Lookup(stream, markers, text, index, i) == orig[i] {
      LookupRoundTrip(orig, st, markers, index, i);
    }
  }
}
