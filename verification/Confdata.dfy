/**
 String values in the configuration file: how conf_write escapes them and how conf_read_simple takes
 the escapes out again, in place (scripts/kconfig/confdata.c).
 */
module Confdata {
  import opened Options

  predicate IsSpecial(c: char) {
    c == '"' || c == '\\'
  }

  /** A backslash in front of every quote and backslash. */
  function Escape(s: string): string {
    if s == "" then "" else (if IsSpecial(s[0]) then ['\\', s[0]] else [s[0]]) + Escape(s[1..])
  }

  /** The text up to the first quote that is not escaped, without the escapes; None without such a quote. */
  function Unescape(t: string): Option<string> {
    if t == "" then None
    else if t[0] == '"' then Some("")
    else if t[0] == '\\' && |t| == 1 then None
    else
      var (c, rest) := if t[0] == '\\' then (t[1], t[2..]) else (t[0], t[1..]);
      match Unescape(rest)
      case None => None
      case Some(s) => Some([c] + s)
  }

  // ----- the quoted texts that stand for a value -----

  function Flat(pieces: seq<string>): string {
    if pieces == [] then "" else pieces[0] + Flat(pieces[1..])
  }

  /** One piece for each character of the value: the character itself, unless it is a quote or a
      backslash, or a backslash and the character. */
  ghost predicate SpellsOut(pieces: seq<string>, value: string) {
    && |pieces| == |value|
    && forall i | 0 <= i < |value| ::
         || pieces[i] == ['\\', value[i]]
         || (pieces[i] == [value[i]] && value[i] != '"' && value[i] != '\\')
  }

  ghost predicate Quoted(text: string, value: string) {
    exists pieces :: SpellsOut(pieces, value) && text == Flat(pieces)
  }

  lemma QuotedFirst(text: string, value: string) returns (piece: string)
    requires Quoted(text, value) && value != ""
    ensures |piece| <= |text| && text[..|piece|] == piece && Quoted(text[|piece|..], value[1..])
    ensures || piece == ['\\', value[0]]
            || (piece == [value[0]] && value[0] != '"' && value[0] != '\\')
  {
    var pieces :| SpellsOut(pieces, value) && text == Flat(pieces);
    piece := pieces[0];
    assert SpellsOut(pieces[1..], value[1..]) && text[|piece|..] == Flat(pieces[1..]);
  }

  lemma QuotedMore(piece: string, c: char, text: string, value: string)
    requires Quoted(text, value) && (piece == ['\\', c] || (piece == [c] && c != '"' && c != '\\'))
    ensures Quoted(piece + text, [c] + value)
  {
    var pieces :| SpellsOut(pieces, value) && text == Flat(pieces);
    assert SpellsOut([piece] + pieces, [c] + value) && Flat([piece] + pieces) == piece + text;
  }

  /** Whatever stands for the value in front of a quote is read as the value. */
  lemma {:induction false} UnescapeQuoted(text: string, value: string, after: string)
    requires Quoted(text, value)
    ensures Unescape(text + "\"" + after) == Some(value)
  {
    var t := text + "\"" + after;
    if value != "" {
      var piece := QuotedFirst(text, value);
      var rest := text[|piece|..];
      UnescapeQuoted(rest, value[1..], after);
      assert t == piece + (rest + "\"" + after);
      assert t[|piece|..] == rest + "\"" + after;
      assert [value[0]] + value[1..] == value;
    }
  }

  /** Nothing else is read: the text read is a quoted one with a quote behind it. */
  lemma {:induction false} UnescapeReadsQuoted(t: string) returns (text: string, after: string)
    requires Unescape(t).Some?
    ensures t == text + "\"" + after && Quoted(text, Unescape(t).value)
  {
    if t[0] == '"' {
      text, after := "", t[1..];
      assert SpellsOut([], "");
    } else {
      var n := if t[0] == '\\' then 2 else 1;
      text, after := UnescapeReadsQuoted(t[n..]);
      QuotedMore(t[..n], t[n - 1], text, Unescape(t[n..]).value);
      text := t[..n] + text;
    }
  }

  /** The written text stands for the value, and no other text that does is as short. */
  lemma {:induction false} EscapeIsShortest(value: string, text: string)
    ensures Quoted(Escape(value), value)
    ensures Quoted(text, value) && text != Escape(value) ==> |Escape(value)| < |text|
  {
    if value == "" {
      assert SpellsOut([], "");
    } else {
      var c, rest := value[0], value[1..];
      assert value == [c] + rest;
      if Quoted(text, value) {
        var piece := QuotedFirst(text, value);
        EscapeIsShortest(rest, text[|piece|..]);
        assert text == piece + text[|piece|..];
      } else {
        EscapeIsShortest(rest, text);
      }
      QuotedMore(if IsSpecial(c) then ['\\', c] else [c], c, Escape(rest), rest);
    }
  }

  /** Reading back what was written stops at the writer's own closing quote. */
  lemma UnescapeEscape(s: string, after: string)
    ensures Unescape(Escape(s) + "\"" + after) == Some(s)
  {
    EscapeIsShortest(s, "");
    UnescapeQuoted(Escape(s), s, after);
  }

  lemma {:induction false} EscapeConcat(s: string, s': string)
    ensures Escape(s + s') == Escape(s) + Escape(s')
  {
    if s == "" {
      assert s + s' == s';
    } else {
      assert (s + s')[1..] == s[1..] + s';
      EscapeConcat(s[1..], s');
    }
  }

  lemma {:induction false} EscapePlain(s: string)
    requires forall c <- s :: !IsSpecial(c)
    ensures Escape(s) == s
  {
    if s != "" { EscapePlain(s[1..]); }
  }

  /** strcspn(s + k, "\"\\") */
  method PlainRun(s: string, k: nat) returns (l: nat)
    requires k <= |s|
    ensures k + l <= |s| && (forall c <- s[k..k + l] :: !IsSpecial(c)) && (k + l < |s| ==> IsSpecial(s[k + l]))
  {
    l := 0;
    while k + l < |s| && !IsSpecial(s[k + l])
      invariant k + l <= |s| && forall c <- s[k..k + l] :: !IsSpecial(c)
    {
      assert s[k..k + l + 1] == s[k..k + l] + [s[k + l]];
      l := l + 1;
    }
  }

  /** The inner loop of conf_write: escape a run of special characters. */
  method WriteSpecialRun(s: string, k0: nat, out0: string) returns (k: nat, out: string)
    requires k0 <= |s| && out0 == Escape(s[..k0])
    ensures k0 <= k <= |s| && out == Escape(s[..k])
    ensures k0 < |s| && IsSpecial(s[k0]) ==> k0 < k
  {
    k, out := k0, out0;
    while k < |s| && (s[k] == '\\' || s[k] == '"')
      invariant k0 <= k <= |s| && out == Escape(s[..k])
    {
      EscapeConcat(s[..k], [s[k]]);
      assert s[..k + 1] == s[..k] + [s[k]] && Escape([s[k]]) == ['\\', s[k]];
      out := out + ['\\', s[k]];
      k := k + 1;
    }
  }

  lemma EscapePlainRun(s: string, k: nat, l: nat)
    requires k + l <= |s| && forall c <- s[k..k + l] :: !IsSpecial(c)
    ensures Escape(s[..k + l]) == Escape(s[..k]) + s[k..k + l]
  {
    var a, b := s[..k], s[k..k + l];
    assert s[..k + l] == a + b;
    EscapePlain(b);
    EscapeConcat(a, b);
  }

  /** The loop of conf_write: a run of plain characters, then a run of special ones. */
  method WriteEscaped(s: string) returns (out: string)
    ensures out == Escape(s)
  {
    out := "";
    var k := 0;
    while true
      invariant 0 <= k <= |s| && out == Escape(s[..k])
      decreases |s| - k
    {
      var l := PlainRun(s, k);
      EscapePlainRun(s, k, l);
      out := out + s[k..k + l];
      var k';
      k', out := WriteSpecialRun(s, k + l, out);
      if k' == |s| { break; }
      k := k';
    }
    assert s[..|s|] == s;
  }

  // ----- the reader, on a NUL-terminated buffer -----

  /** The buffer holds text from p on, with a NUL behind it. */
  ghost predicate Holds(b: seq<char>, p: nat, end: nat, text: string) {
    p <= end < |b| && b[end] == '\0' && b[p..end] == text && '\0' !in text
  }

  /** What has been unescaped so far, in front of what the rest unescapes to. */
  ghost function Prepend(done: string, rest: Option<string>): Option<string> {
    match rest
    case None => None
    case Some(s) => Some(done + s)
  }

  lemma PrependEmpty(r: Option<string>)
    ensures Prepend("", r) == r
  {
    if r.Some? { assert "" + r.value == r.value; }
  }

  lemma PrependTwice(a: string, b: string, r: Option<string>)
    ensures Prepend(a, Prepend(b, r)) == Prepend(a + b, r)
  {
    if r.Some? { assert a + (b + r.value) == a + b + r.value; }
  }

  lemma UnescapePlain(t: string, k: nat)
    requires k < |t| && !IsSpecial(t[k])
    ensures Prepend(t[..k], Unescape(t[k..])) == Prepend(t[..k + 1], Unescape(t[k + 1..]))
  {
    assert t[k..][1..] == t[k + 1..] && t[..k + 1] == t[..k] + [t[k]];
    assert Unescape(t[k..]) == Prepend([t[k]], Unescape(t[k + 1..]));
    PrependTwice(t[..k], [t[k]], Unescape(t[k + 1..]));
  }

  lemma UnescapeBackslash(done: string, t: string)
    requires |t| > 1 && t[0] == '\\'
    ensures Prepend(done, Unescape(t)) == Prepend(done + [t[1]], Unescape(t[2..]))
  {
    assert Unescape(t) == Prepend([t[1]], Unescape(t[2..]));
    PrependTwice(done, [t[1]], Unescape(t[2..]));
  }

  /** strpbrk(buf + p, "\"\\"): the first special character of the text, if there is one. */
  method FindSpecial(buf: array<char>, p: nat, ghost end: nat, ghost text: string) returns (found: bool, pos: nat)
    requires Holds(buf[..], p, end, text)
    ensures found ==> p <= pos < end && IsSpecial(buf[pos])
    ensures found ==> Unescape(text) == Prepend(text[..pos - p], Unescape(text[pos - p..]))
    ensures !found ==> Unescape(text) == None
  {
    pos := p;
    assert text[..0] == "" && text[0..] == text;
    PrependEmpty(Unescape(text));
    while buf[pos] != '\0'
      invariant p <= pos <= end && Unescape(text) == Prepend(text[..pos - p], Unescape(text[pos - p..]))
      decreases end - pos
    {
      ghost var k := pos - p;
      assert pos < end && buf[pos] == text[k];
      if IsSpecial(buf[pos]) { return true, pos; }
      UnescapePlain(text, k);
      pos := pos + 1;
    }
    assert forall k | 0 <= k < |text| :: text[k] == buf[p + k];
    assert text[pos - p..] == "";
    found := false;
  }

  /** memmove(buf + at, buf + at + 1, strlen(buf + at)) */
  method DropChar(buf: array<char>, at: nat, ghost end: nat, ghost text: string)
    requires Holds(buf[..], at, end, text) && text != ""
    modifies buf
    ensures Holds(buf[..], at, end - 1, text[1..]) && buf[end] == '\0' && buf[..at] == old(buf[..at])
  {
    var n := 0;
    while buf[at + n] != '\0'
      invariant at + n <= end
      decreases end - at - n
    {
      assert buf[at + n] == text[n];
      n := n + 1;
    }
    assert forall k | 0 <= k < |text| :: text[k] == buf[at + k];
    assert at + n == end;
    forall k | at <= k < at + n {
      buf[k] := buf[k + 1];
    }
    assert buf[at..end - 1] == text[1..];
  }

  /** The buffer holds the unescaped part from p to p2, and from p2 on the text still to do. */
  ghost predicate Partial(b: seq<char>, before: string, p: nat, p2: nat, end: nat,
                          done: string, todo: string, text: string)
  {
    && p <= p2 && Holds(b, p2, end, todo) && b[..p] == before && b[p..p2] == done
    && (todo != "" ==> '\0' !in done)
    && Unescape(text) == Prepend(done, Unescape(todo))
  }

  lemma PartialSkip(b: seq<char>, before: string, p: nat, p2: nat, end: nat,
                    done: string, todo: string, text: string, k: nat)
    requires Partial(b, before, p, p2, end, done, todo, text) && k < |todo|
    requires Unescape(todo) == Prepend(todo[..k], Unescape(todo[k..]))
    ensures Partial(b, before, p, p2 + k, end, done + todo[..k], todo[k..], text)
  {
    PrependTwice(done, todo[..k], Unescape(todo[k..]));
    assert b[p..p2 + k] == b[p..p2] + b[p2..p2 + k];
    assert b[p2..p2 + k] == b[p2..end][..k] && b[p2 + k..end] == b[p2..end][k..];
  }

  lemma PartialQuote(b: seq<char>, before: string, p: nat, p2: nat, end: nat, done: string, todo: string, text: string)
    requires Partial(b, before, p, p2, end, done, todo, text) && b[p2] == '"'
    ensures Unescape(text) == Some(done) && Holds(b[p2 := '\0'], p, p2, done) && b[p2 := '\0'][..p] == before
  {
    assert todo[0] == b[p2];
    assert done + "" == done;
    assert b[p2 := '\0'][p..p2] == b[p..p2];
  }

  /** Dropping a backslash; a trailing one leaves nothing to do. */
  lemma PartialDrop(b: seq<char>, b': seq<char>, before: string, p: nat, p2: nat, end: nat,
                    done: string, todo: string, text: string)
    requires Partial(b, before, p, p2, end, done, todo, text) && b[p2] == '\\' && |todo| > 0 && |b'| == |b|
    requires Holds(b', p2, end - 1, todo[1..]) && b'[end] == '\0' && b'[..p2] == b[..p2]
    ensures if |todo| == 1 then Partial(b', before, p, p2 + 1, end, done + ['\0'], "", text)
            else Partial(b', before, p, p2 + 1, end - 1, done + [todo[1]], todo[2..], text)
  {
    assert todo[0] == b[p2];
    assert b'[..p] == b'[..p2][..p] == b[..p2][..p] == b[..p];
    assert b'[p..p2] == b'[..p2][p..] == b[..p2][p..] == b[p..p2];
    assert b'[p..p2 + 1] == b'[p..p2] + [b'[p2]];
    if |todo| > 1 {
      UnescapeBackslash(done, todo);
      assert b'[p2] == todo[1..][0] && b'[p2 + 1..end - 1] == b'[p2..end - 1][1..] && todo[1..][1..] == todo[2..];
    }
  }

  /** Go to the next special character. */
  method NextSpecial(buf: array<char>, p2: nat, ghost before: string, ghost p: nat, ghost end: nat,
                     ghost done: string, ghost todo: string, ghost text: string)
    returns (found: bool, pos: nat, ghost done': string, ghost todo': string)
    requires Partial(buf[..], before, p, p2, end, done, todo, text)
    ensures !found ==> Unescape(text) == None
    ensures found ==> Partial(buf[..], before, p, pos, end, done', todo', text) && 0 < |todo'| <= |todo|
    ensures found ==> pos < buf.Length && IsSpecial(buf[pos])
  {
    done', todo' := done, todo;
    found, pos := FindSpecial(buf, p2, end, todo);
    if found {
      PartialSkip(buf[..], before, p, p2, end, done, todo, text, pos - p2);
      done', todo' := done + todo[..pos - p2], todo[pos - p2..];
    }
  }

  /** Take out the backslash at pos and step over the character behind it. */
  method DropBackslash(buf: array<char>, pos: nat, ghost before: string, ghost p: nat, ghost end: nat,
                       ghost done: string, ghost todo: string, ghost text: string)
    returns (ghost end': nat, ghost done': string, ghost todo': string)
    requires Partial(buf[..], before, p, pos, end, done, todo, text) && buf[pos] == '\\' && |todo| > 0
    modifies buf
    ensures Partial(buf[..], before, p, pos + 1, end', done', todo', text) && |todo'| < |todo|
  {
    ghost var b := buf[..];
    DropChar(buf, pos, end, todo);
    PartialDrop(b, buf[..], before, p, pos, end, done, todo, text);
    if |todo| == 1 {
      end', done', todo' := end, done + ['\0'], "";
    } else {
      end', done', todo' := end - 1, done + [todo[1]], todo[2..];
    }
  }

  /** The loop that takes out the backslashes: memmove closes each gap, so the value ends up in place. */
  method UnescapeInPlace(buf: array<char>, p: nat, ghost end0: nat, ghost text: string) returns (ok: bool)
    requires Holds(buf[..], p, end0, text)
    modifies buf
    ensures ok == Unescape(text).Some?
    ensures ok ==> exists end: nat :: Holds(buf[..], p, end, Unescape(text).value)
    ensures buf[..p] == old(buf[..p])
  {
    var p2: nat := p;
    ghost var before, end: nat, done, todo := buf[..p], end0, "", text;
    PrependEmpty(Unescape(text));
    while true
      invariant Partial(buf[..], before, p, p2, end, done, todo, text)
      decreases |todo|
    {
      var found;
      found, p2, done, todo := NextSpecial(buf, p2, before, p, end, done, todo, text);
      if !found {
        return false;
      }
      if buf[p2] == '"' {
        PartialQuote(buf[..], before, p, p2, end, done, todo, text);
        ghost var b := buf[..];
        buf[p2] := '\0';
        assert buf[..] == b[p2 := '\0'];
        return true;
      }
      end, done, todo := DropBackslash(buf, p2, before, p, end, done, todo, text);
      p2 := p2 + 1;
    }
  }

  // ----- whole lines -----

  const PREFIX := "NAUT_CONFIG_"

  /** The line that conf_write prints for a string symbol. */
  function ConfigLine(name: string, value: string): string {
    PREFIX + name + "=\"" + Escape(value) + "\"\n"
  }

  /** The first position of c in s from the given one on, or the end. */
  function FirstIndex(s: string, from: nat, c: char): (k: nat)
    requires from <= |s|
    ensures from <= k <= |s|
    decreases |s| - from
  {
    if from == |s| || s[from] == c then from else FirstIndex(s, from + 1, c)
  }

  lemma {:induction false} FirstIndexIs(s: string, from: nat, c: char, k: nat)
    requires from <= k < |s| && s[k] == c && forall i | from <= i < k :: s[i] != c
    ensures FirstIndex(s, from, c) == k
    decreases k - from
  {
    if from < k { FirstIndexIs(s, from + 1, c, k); }
  }

  lemma {:induction false} FirstIndexSkips(s: string, from: nat, c: char, k: nat)
    requires from <= k <= |s| && forall i | from <= i < k :: s[i] != c
    ensures FirstIndex(s, from, c) >= k
    decreases k - from
  {
    if from < k { FirstIndexSkips(s, from + 1, c, k); }
  }

  lemma {:induction false} FirstIndexStops(s: string, from: nat, c: char)
    requires from <= |s|
    ensures c !in s[from..FirstIndex(s, from, c)]
    ensures FirstIndex(s, from, c) < |s| ==> s[FirstIndex(s, from, c)] == c
    decreases |s| - from
  {
    if from < |s| && s[from] != c {
      FirstIndexStops(s, from + 1, c);
      var k := FirstIndex(s, from, c);
      assert s[from..k] == [s[from]] + s[from + 1..k];
    }
  }

  /** What a line for a string symbol says: the symbol's name and its value. */
  function ParseLine(line: string): Option<(string, string)> {
    if |line| < |PREFIX| || line[..|PREFIX|] != PREFIX then None
    else
      var eq := FirstIndex(line, |PREFIX|, '=');
      if eq == |line| then None
      else
        var nl := FirstIndex(line, eq + 1, '\n');
        if eq + 1 >= nl || line[eq + 1] != '"' then None
        else match Unescape(line[eq + 2..nl])
          case None => None
          case Some(value) => Some((line[|PREFIX|..eq], value))
  }

  /** The line is the prefix, the name, an equals sign and, in quotes, a text that stands for the value. */
  ghost predicate Says(line: string, name: string, value: string) {
    exists text, after ::
      && line == "NAUT_CONFIG_" + name + "=\"" + text + "\"" + after
      && '=' !in name && '\n' !in text && Quoted(text, value)
  }

  lemma {:induction false} FirstIndexShift(a: string, s: string, from: nat, c: char)
    requires from <= |s|
    ensures FirstIndex(a + s, |a| + from, c) == |a| + FirstIndex(s, from, c)
    decreases |s| - from
  {
    if from < |s| && s[from] != c { FirstIndexShift(a, s, from + 1, c); }
  }

  /** What is read of the part behind the opening quote, up to the end of the line. */
  function ParseQuoted(name: string, body: string): Option<(string, string)> {
    match Unescape(body[..FirstIndex(body, 0, '\n')])
    case None => None
    case Some(value) => Some((name, value))
  }

  /** The first equals sign ends the name. */
  lemma NameEnds(name: string, rest: string)
    requires '=' !in name
    ensures FirstIndex(PREFIX + name + "=" + rest, |PREFIX|, '=') == |PREFIX| + |name|
  {
    var line, eq := PREFIX + name + "=" + rest, |PREFIX| + |name|;
    assert line[eq] == '=';
    forall i | |PREFIX| <= i < eq ensures line[i] != '=' {
      assert line[i] == name[i - |PREFIX|] && line[i] in name;
    }
    FirstIndexIs(line, |PREFIX|, '=', eq);
  }

  lemma ParseBehindQuote(name: string, body: string)
    requires '=' !in name
    ensures ParseLine(PREFIX + name + "=\"" + body) == ParseQuoted(name, body)
  {
    var head := PREFIX + name + "=\"";
    var line, eq := head + body, |PREFIX| + |name|;
    NameEnds(name, "\"" + body);
    assert line == PREFIX + name + "=" + ("\"" + body);
    assert line[..|PREFIX|] == PREFIX && line[|PREFIX|..eq] == name && line[eq + 1] == '"';
    var nl := FirstIndex(line, eq + 1, '\n');
    assert nl == FirstIndex(line, |head| + 0, '\n');
    FirstIndexShift(head, body, 0, '\n');
    assert line[eq + 2..nl] == body[..FirstIndex(body, 0, '\n')];
  }

  lemma ParsedHasQuote(line: string) returns (name: string, body: string)
    requires ParseLine(line).Some?
    ensures line == PREFIX + name + "=\"" + body && '=' !in name
  {
    var eq := FirstIndex(line, |PREFIX|, '=');
    FirstIndexStops(line, |PREFIX|, '=');
    name, body := line[|PREFIX|..eq], line[eq + 2..];
    assert line == line[..|PREFIX|] + name + line[eq..eq + 2] + body;
    assert line[eq..eq + 2] == "=\"";
  }

  lemma SaidIsParsed(line: string, name: string, value: string)
    requires Says(line, name, value)
    ensures ParseLine(line) == Some((name, value))
  {
    var text, after :| line == "NAUT_CONFIG_" + name + "=\"" + text + "\"" + after
                       && '=' !in name && '\n' !in text && Quoted(text, value);
    var body := text + "\"" + after;
    assert line == PREFIX + name + "=\"" + body;
    ParseBehindQuote(name, body);
    QuoteOnLine(text, after);
    var nl := FirstIndex(body, 0, '\n');
    UnescapeQuoted(text, value, body[|text| + 1..nl]);
  }

  lemma QuoteOnLine(text: string, after: string)
    requires '\n' !in text
    ensures var body := text + "\"" + after; var nl := FirstIndex(body, 0, '\n');
            |text| < nl && body[..nl] == text + "\"" + body[|text| + 1..nl]
  {
    var body := text + "\"" + after;
    forall i | 0 <= i < |text| + 1 ensures body[i] != '\n' {
      if i < |text| { assert body[i] == text[i] && body[i] in text; }
    }
    FirstIndexSkips(body, 0, '\n', |text| + 1);
    assert body[..|text| + 1] == text + "\"";
  }

  lemma ParsedIsSaid(line: string)
    requires ParseLine(line).Some?
    ensures Says(line, ParseLine(line).value.0, ParseLine(line).value.1)
  {
    var name, body := ParsedHasQuote(line);
    ParseBehindQuote(name, body);
    var nl := FirstIndex(body, 0, '\n');
    FirstIndexStops(body, 0, '\n');
    var text, after := UnescapeReadsQuoted(body[..nl]);
    assert body == text + "\"" + (after + body[nl..]);
    assert forall c <- text :: c in body[..nl];
    assert line == "NAUT_CONFIG_" + name + "=\"" + text + "\"" + (after + body[nl..]);
  }

  /** A line is read as a value if and only if it says one; every other line is refused. */
  lemma ParseLineExactly(line: string, name: string, value: string)
    ensures ParseLine(line) == Some((name, value)) <==> Says(line, name, value)
  {
    if Says(line, name, value) { SaidIsParsed(line, name, value); }
    if ParseLine(line) == Some((name, value)) { ParsedIsSaid(line); }
  }

  /** In particular a value without its opening quote is refused. */
  lemma UnquotedIsRefused(name: string, rest: string)
    requires '=' !in name && (rest == "" || rest[0] != '"')
    ensures ParseLine("NAUT_CONFIG_" + name + "=" + rest) == None
  {
    var line, eq := PREFIX + name + "=" + rest, |PREFIX| + |name|;
    NameEnds(name, rest);
    assert line[..|PREFIX|] == PREFIX && line[eq + 1..] == rest;
    if rest != "" { assert line[eq + 1] == rest[0]; }
  }

  /** strchr */
  method Strchr(s: string, from: nat, c: char) returns (k: nat)
    requires from <= |s|
    ensures k == FirstIndex(s, from, c)
  {
    k := from;
    while k < |s| && s[k] != c
      invariant from <= k <= |s| && FirstIndex(s, k, c) == FirstIndex(s, from, c)
    {
      k := k + 1;
    }
  }

  /** conf_read_simple on a line for a string symbol, which fits its buffer of 1024 characters. */
  method ReadLine(line: string) returns (r: Option<(string, string)>)
    requires |line| < 1024 && '\0' !in line
    ensures r == ParseLine(line)
    ensures if r.Some? then Says(line, r.value.0, r.value.1) else forall n, v :: !Says(line, n, v)
  {
    forall n, v ensures ParseLine(line) == Some((n, v)) <==> Says(line, n, v) {
      ParseLineExactly(line, n, v);
    }
    r := None;
    if |line| < |PREFIX| || line[..|PREFIX|] != PREFIX { return; }
    var eq := Strchr(line, |PREFIX|, '=');
    if eq == |line| { return; }
    var nl := Strchr(line, eq + 1, '\n');
    var p := eq + 1;
    if p >= nl || line[p] != '"' { return; }
    p := p + 1;
    var buf := new char[1024](_ => '\0');
    forall k | 0 <= k < nl {
      buf[k] := line[k];
    }
    ghost var text := line[p..nl];
    assert buf[p..nl] == text;
    var ok := UnescapeInPlace(buf, p, nl, text);
    if ok {
      var value := TextAt(buf, p, Unescape(text).value);
      r := Some((line[|PREFIX|..eq], value));
    }
  }

  /** strdup: the text in the buffer from p up to its NUL */
  method TextAt(buf: array<char>, p: nat, ghost text: string) returns (s: string)
    requires exists end: nat :: Holds(buf[..], p, end, text)
    ensures s == text
  {
    ghost var end: nat :| Holds(buf[..], p, end, text);
    var k := p;
    assert forall i | 0 <= i < |text| :: text[i] == buf[p + i];
    while buf[k] != '\0'
      invariant p <= k <= end
      decreases end - k
    {
      assert k < end;
      k := k + 1;
    }
    s := buf[p..k];
  }

  // ----- the round trip -----

  lemma {:induction false} EscapeKeepsLine(s: string)
    requires '\n' !in s
    ensures '\n' !in Escape(s)
  {
    if s != "" { EscapeKeepsLine(s[1..]); }
  }

  /** Every string value without a newline survives writing and reading, and the line is read as one
      line; the name is a symbol's, without an equals sign or a newline. */
  lemma LineRoundTrip(name: string, value: string)
    requires '=' !in name && '\n' !in name && '\n' !in value
    ensures ParseLine(ConfigLine(name, value)) == Some((name, value))
    ensures FirstIndex(ConfigLine(name, value), 0, '\n') == |ConfigLine(name, value)| - 1
  {
    var line, text := ConfigLine(name, value), Escape(value);
    EscapeKeepsLine(value);
    EscapeIsShortest(value, "");
    assert line == "NAUT_CONFIG_" + name + "=\"" + text + "\"" + "\n";
    SaidIsParsed(line, name, value);
    var init := "NAUT_CONFIG_" + name + "=\"" + text + "\"";
    assert line == init + "\n" && '\n' !in init;
    FirstIndexIs(line, 0, '\n', |init|);
  }
}
