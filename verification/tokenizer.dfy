/**
 The tokenizer of src/catalog/InitDataFileReader.cpp:143-229: plain tokens, and quoted tokens with a path that
 returns a slice of the line and a path that unescapes into a bounded buffer.
 */
module Tokenizer {
  import opened Base

  const PARSE_LIMIT := 4096

  // ---------------------------------------------------------------- what a token is

  /** The body of a quoted token: its text and the position of the closing quote, or a bad escape or a missing quote. */
  datatype Body = Closed(text: string, at: nat) | Malformed

  function Prepend(c: char, b: Body): Body {
    if b.Malformed? then b else Closed([c] + b.text, b.at)
  }

  predicate Special(c: char) {
    c == '"' || c == '\\'
  }

  /** Reading and unescaping from position `i` up to the closing quote. */
  function Unescape(s: string, i: nat): (b: Body)
    requires i <= |s|
    ensures b.Closed? ==> i <= b.at < |s| && s[b.at] == '"' && |b.text| <= b.at - i
    decreases |s| - i
  {
    if i == |s| then Malformed
    else if s[i] == '"' then Closed("", i)
    else if s[i] == '\\' then
      if i + 1 == |s| || !Special(s[i + 1]) then Malformed else Prepend(s[i + 1], Unescape(s, i + 2))
    else Prepend(s[i], Unescape(s, i + 1))
  }

  /** A backslash comes before the closing quote. */
  predicate Escaped(s: string, i: nat)
    requires i <= |s|
    decreases |s| - i
  {
    i < |s| && s[i] != '"' && (s[i] == '\\' || Escaped(s, i + 1))
  }

  /** The first blank at or behind `i`, or the end of the line. */
  function BlankFrom(s: string, i: nat): (r: nat)
    requires i <= |s|
    ensures i <= r <= |s|
    ensures forall k :: i <= k < r ==> s[k] != ' '
    ensures r < |s| ==> s[r] == ' '
    decreases |s| - i
  {
    if i == |s| || s[i] == ' ' then i else BlankFrom(s, i + 1)
  }

  /** A token and the position where the next one starts. */
  type Found = Option<(string, nat)>

  function AfterBlank(s: string, i: nat): nat {
    if i < |s| then i + 1 else i
  }

  function QuotedAt(s: string, start: nat): Found
    requires start < |s|
  {
    match Unescape(s, start + 1)
    case Malformed => None
    case Closed(text, at) =>
      if at + 1 < |s| && s[at + 1] != ' ' then None
      else if Escaped(s, start + 1) && |text| > PARSE_LIMIT then None
      else Some((text, AfterBlank(s, at + 1)))
  }

  /** The token at `start`. The first character of a plain token is taken whatever it is. */
  function TokenAt(s: string, start: nat): (r: Found)
    ensures r.Some? ==> start < r.value.1 <= |s|
  {
    if start >= |s| then None
    else if s[start] == '"' then QuotedAt(s, start)
    else Some((s[start..BlankFrom(s, start + 1)], AfterBlank(s, BlankFrom(s, start + 1))))
  }

  // ---------------------------------------------------------------- the scanner

  /** The slice path is at `i`: what is behind the opening quote up to there is text without an escape. */
  ghost predicate Slicing(s: string, from: nat, i: nat) {
    && from <= i <= |s|
    && (Escaped(s, from) <==> Escaped(s, i))
    && Unescape(s, from) == Prefixed(s[from..i], Unescape(s, i))
  }

  function Prefixed(text: string, b: Body): Body {
    if b.Malformed? then b else Closed(text + b.text, b.at)
  }

  lemma PrefixedStep(text: string, c: char, b: Body)
    ensures Prefixed(text, Prepend(c, b)) == Prefixed(text + [c], b)
  {
    if b.Closed? {
      assert text + ([c] + b.text) == (text + [c]) + b.text;
    }
  }

  lemma SlicingStep(s: string, from: nat, i: nat)
    requires Slicing(s, from, i) && i < |s| && !Special(s[i])
    ensures Slicing(s, from, i + 1)
  {
    assert s[from..i] + [s[i]] == s[from..i + 1];
    PrefixedStep(s[from..i], s[i], Unescape(s, i + 1));
  }

  /** The buffer path is at `i` with `text` in the buffer. */
  ghost predicate Buffering(s: string, from: nat, i: nat, text: string) {
    from <= i <= |s| && Escaped(s, from) && |text| <= PARSE_LIMIT && Unescape(s, from) == Prefixed(text, Unescape(s, i))
  }

  lemma BufferingStep(s: string, from: nat, i: nat, text: string, c: char, i': nat)
    requires from <= i < i' <= |s| && Escaped(s, from) && Unescape(s, from) == Prefixed(text, Unescape(s, i))
    requires Unescape(s, i) == Prepend(c, Unescape(s, i'))
    ensures Unescape(s, from) == Prefixed(text + [c], Unescape(s, i'))
    ensures |text| < PARSE_LIMIT ==> Buffering(s, from, i', text + [c])
  {
    PrefixedStep(text, c, Unescape(s, i'));
  }

  /** At the closing quote the text collected so far is the text of the token. */
  lemma Closes(s: string, start: nat, i: nat, text: string)
    requires start < i < |s| && s[start] == '"' && s[i] == '"'
    requires Unescape(s, start + 1) == Prefixed(text, Unescape(s, i))
    requires Escaped(s, start + 1) ==> |text| <= PARSE_LIMIT
    ensures TokenAt(s, start) == if i + 1 < |s| && s[i + 1] != ' ' then None else Some((text, AfterBlank(s, i + 1)))
  {
    assert text + "" == text;
  }

  /** A backslash at the end of the line or in front of another character is an error. */
  lemma BadEscape(s: string, start: nat, i: nat, text: string)
    requires start < i <= |s| && s[start] == '"' && Unescape(s, start + 1) == Prefixed(text, Unescape(s, i))
    requires i < |s| ==> s[i] == '\\' && (i + 1 == |s| || !Special(s[i + 1]))
    ensures TokenAt(s, start) == None
  {
  }

  /** A token that does not fit the buffer is rejected whatever follows. */
  lemma TooLong(s: string, start: nat, text: string, c: char, b: Body)
    requires start < |s| && s[start] == '"' && Escaped(s, start + 1) && |text| >= PARSE_LIMIT
    requires Unescape(s, start + 1) == Prefixed(text + [c], b)
    ensures TokenAt(s, start) == None
  {
  }

  /** The method returns the token and moves on, or returns nothing and stays. */
  predicate Answers(found: Found, token: Option<string>, startPos: nat, startPos': nat) {
    match found
    case None => token == None && startPos' == startPos
    case Some((text, next)) => token == Some(text) && startPos' == next
  }

  class Reader {
    /** `parse_buf`. */
    const parseBuf: array<char>

    constructor ()
      ensures fresh(parseBuf) && parseBuf.Length == PARSE_LIMIT
    {
      parseBuf := new char[PARSE_LIMIT](_ => ' ');
    }

    /** `FindNextToken`: the token, or nothing (a null view), and the new value of `start_pos`. */
    method FindNextToken(str: string, startPos: nat) returns (token: Option<string>, startPos': nat)
      requires parseBuf.Length == PARSE_LIMIT
      modifies parseBuf
      ensures Answers(TokenAt(str, startPos), token, startPos, startPos')
    {
      if startPos >= |str| {
        return None, startPos;
      }
      if str[startPos] == '"' {
        token, startPos' := FindQuoted(str, startPos);
        return;
      }
      var i := startPos + 1;
      while i < |str| && str[i] != ' '
        invariant startPos < i <= |str| && BlankFrom(str, startPos + 1) == BlankFrom(str, i)
      {
        i := i + 1;
      }
      token := Some(str[startPos..i]);
      startPos' := if i == |str| then i else i + 1;
    }

    /** The scan of a quoted token is at `i`: on the slice path, or with `bufi` characters in the buffer. */
    ghost predicate Scanning(str: string, s: nat, i: nat, bufi: nat, buffered: bool)
      reads parseBuf
    {
      bufi <= PARSE_LIMIT == parseBuf.Length && if buffered then Buffering(str, s, i, parseBuf[..bufi]) else Slicing(str, s, i)
    }

    /** The text scanned so far. */
    function TextAt(str: string, s: nat, i: nat, bufi: nat, buffered: bool): string
      requires s <= i <= |str| && bufi <= parseBuf.Length
      reads parseBuf
    {
      if buffered then parseBuf[..bufi] else str[s..i]
    }

    /** A character goes into the buffer, if there is room; the source position moves on to `next`. */
    method Buffer(str: string, startPos: nat, i: nat, bufi: nat, c: char, next: nat) returns (ok: bool, bufi': nat)
      requires startPos < i < next <= |str| && str[startPos] == '"' && parseBuf.Length == PARSE_LIMIT && bufi <= PARSE_LIMIT
      requires Escaped(str, startPos + 1) && Unescape(str, i) == Prepend(c, Unescape(str, next))
      requires Unescape(str, startPos + 1) == Prefixed(parseBuf[..bufi], Unescape(str, i))
      modifies parseBuf
      ensures ok ==> Scanning(str, startPos + 1, next, bufi', true)
      ensures !ok ==> TokenAt(str, startPos) == None
    {
      bufi' := bufi;
      BufferingStep(str, startPos + 1, i, parseBuf[..bufi], c, next);
      if bufi >= PARSE_LIMIT {
        TooLong(str, startPos, parseBuf[..bufi], c, Unescape(str, next));
        return false, bufi;
      }
      bufi' := Push(bufi, c);
      ok := true;
    }

    /** An escape: from here on the text is collected in the buffer. */
    method ScanEscape(str: string, startPos: nat, i: nat, bufi: nat, buffered: bool) returns (ok: bool, bufi': nat)
      requires startPos < i < |str| && str[startPos] == '"' && str[i] == '\\' && Scanning(str, startPos + 1, i, bufi, buffered)
      modifies parseBuf
      ensures ok ==> i + 2 <= |str| && Scanning(str, startPos + 1, i + 2, bufi', true)
      ensures !ok ==> TokenAt(str, startPos) == None
    {
      var s := startPos + 1;
      bufi' := bufi;
      if i + 1 == |str| || !Special(str[i + 1]) {
        BadEscape(str, startPos, i, TextAt(str, s, i, bufi, buffered));
        return false, bufi;
      }
      if !buffered {
        if i - s >= PARSE_LIMIT {
          BufferingStep(str, s, i, str[s..i], str[i + 1], i + 2);
          TooLong(str, startPos, str[s..i], str[i + 1], Unescape(str, i + 2));
          return false, bufi;
        }
        CopyFrom(str, s, i);
        bufi' := i - s;
      }
      ok, bufi' := Buffer(str, startPos, i, bufi', str[i + 1], i + 2);
    }

    /** The branch for a quoted token. */
    method FindQuoted(str: string, startPos: nat) returns (token: Option<string>, startPos': nat)
      requires parseBuf.Length == PARSE_LIMIT && startPos < |str| && str[startPos] == '"'
      modifies parseBuf
      ensures Answers(TokenAt(str, startPos), token, startPos, startPos')
    {
      token, startPos' := None, startPos;
      var s := startPos + 1;
      var i: nat, bufi: nat, buffered, ok := s, 0, false, true;
      while i < |str|
        invariant startPos' == startPos && token == None && s <= i <= |str| && Scanning(str, s, i, bufi, buffered)
        decreases |str| - i
      {
        if str[i] == '"' {
          Closes(str, startPos, i, TextAt(str, s, i, bufi, buffered));
          if i + 1 < |str| && str[i + 1] != ' ' {
            return;
          }
          startPos' := if i + 1 == |str| then i + 1 else i + 2;
          token := Some(if buffered then parseBuf[..bufi] else str[s..i]);
          return;
        }
        if str[i] == '\\' {
          ok, bufi := ScanEscape(str, startPos, i, bufi, buffered);
          if !ok {
            return;
          }
          i, buffered := i + 2, true;
          continue;
        }
        if buffered {
          ok, bufi := Buffer(str, startPos, i, bufi, str[i], i + 1);
          if !ok {
            return;
          }
        } else {
          SlicingStep(str, s, i);
        }
        i := i + 1;
      }
      BadEscape(str, startPos, i, TextAt(str, s, i, bufi, buffered));
    }

    /** One more character in the buffer. */
    method Push(bufi: nat, c: char) returns (bufi': nat)
      requires bufi < parseBuf.Length
      modifies parseBuf
      ensures bufi' == bufi + 1 && parseBuf[..bufi'] == old(parseBuf[..bufi]) + [c]
    {
      parseBuf[bufi] := c;
      bufi' := bufi + 1;
    }

    /** The copy of the text in front of the first escape. */
    method CopyFrom(str: string, s: nat, i: nat)
      requires s <= i <= |str| && i - s < parseBuf.Length
      modifies parseBuf
      ensures parseBuf[..i - s] == str[s..i]
    {
      for k := 0 to i - s
        invariant parseBuf[..k] == str[s..s + k]
      {
        parseBuf[k] := str[s + k];
      }
    }
  }

  // ---------------------------------------------------------------- the slice path

  /** Without an escape the text is the slice between the quotes. */
  lemma {:induction false} SliceIsText(s: string, i: nat)
    requires i <= |s| && !Escaped(s, i) && Unescape(s, i).Closed?
    ensures Unescape(s, i).text == s[i..Unescape(s, i).at]
    decreases |s| - i
  {
    if s[i] != '"' {
      SliceIsText(s, i + 1);
    }
  }

  // ---------------------------------------------------------------- writing and reading back

  /** Escaping quotes and backslashes. */
  function Escape(t: string): string {
    if t == "" then "" else EscapeOne(t[0]) + Escape(t[1..])
  }

  function EscapeOne(c: char): string {
    if Special(c) then ['\\', c] else [c]
  }

  /** The token contains a character that has to be escaped. */
  predicate HasSpecial(t: string) {
    t != "" && (Special(t[0]) || HasSpecial(t[1..]))
  }

  predicate NoBlankAt(t: string, k: nat)
    requires k < |t|
  {
    t[k] != ' '
  }

  /** How a token is written on a line: as it is, or quoted. */
  datatype Written = Plain(text: string) | Quoted(text: string)

  function Show(w: Written): string {
    match w
    case Plain(t) => t
    case Quoted(t) => "\"" + Escape(t) + "\""
  }

  /** A token that can be written this way: no blank behind the first character of a plain one, a quoted one short if escaped. */
  predicate Writable(w: Written) {
    match w
    case Plain(t) => t != "" && t[0] != '"' && forall k {:trigger NoBlankAt(t, k)} :: 1 <= k < |t| ==> NoBlankAt(t, k)
    case Quoted(t) => HasSpecial(t) ==> |t| <= PARSE_LIMIT
  }

  /** `s` holds the piece at `i`. */
  predicate HasAt(s: string, i: nat, piece: string) {
    i + |piece| <= |s| && forall k {:trigger SameChar(s, i, piece, k)} :: 0 <= k < |piece| ==> SameChar(s, i, piece, k)
  }

  predicate SameChar(s: string, i: nat, piece: string, k: nat)
    requires k < |piece| && i + k < |s|
  {
    s[i + k] == piece[k]
  }

  lemma HasAtSplit(s: string, i: nat, a: string, b: string)
    requires HasAt(s, i, a + b)
    ensures HasAt(s, i, a) && HasAt(s, i + |a|, b)
  {
    forall k | 0 <= k < |a|
      ensures SameChar(s, i, a, k)
    {
      assert SameChar(s, i, a + b, k);
    }
    var j := i + |a|;
    forall k | 0 <= k < |b|
      ensures SameChar(s, j, b, k)
    {
      var n := |a| + k;
      assert SameChar(s, i, a + b, n);
    }
  }

  lemma HasAtChar(s: string, i: nat, p: string, k: nat)
    requires HasAt(s, i, p) && k < |p|
    ensures s[i + k] == p[k]
  {
    assert SameChar(s, i, p, k);
  }

  lemma HasAtSlice(s: string, i: nat, p: string)
    requires HasAt(s, i, p)
    ensures s[i..i + |p|] == p
  {
    forall k | 0 <= k < |p|
      ensures s[i..i + |p|][k] == p[k]
    {
      assert SameChar(s, i, p, k);
    }
  }

  lemma {:induction false} UnescapeEscape(s: string, i: nat, t: string)
    requires HasAt(s, i, Escape(t) + "\"")
    ensures Unescape(s, i) == Closed(t, i + |Escape(t)|)
    ensures Escaped(s, i) <==> HasSpecial(t)
    decreases |t|
  {
    if t == "" {
      assert Escape(t) + "\"" == "\"";
      HasAtChar(s, i, "\"", 0);
    } else {
      var c := EscapeOne(t[0]);
      assert Escape(t) + "\"" == c + (Escape(t[1..]) + "\"");
      HasAtSplit(s, i, c, Escape(t[1..]) + "\"");
      HasAtChar(s, i, c, 0);
      HasAtChar(s, i, c, |c| - 1);
      UnescapeEscape(s, i + |c|, t[1..]);
    }
  }

  lemma {:induction false} SpecialSomewhere(t: string)
    ensures HasSpecial(t) <==> exists k {:trigger t[k]} :: 0 <= k < |t| && (t[k] == '"' || t[k] == '\\')
  {
    if t != "" {
      SpecialSomewhere(t[1..]);
      if k :| 0 <= k < |t[1..]| && (t[1..][k] == '"' || t[1..][k] == '\\') {
        assert t[k + 1] == t[1..][k];
      }
      if k :| 1 <= k < |t| && (t[k] == '"' || t[k] == '\\') {
        assert t[1..][k - 1] == t[k];
      }
    }
  }

  /** A quoted token is read back if and only if it needs no escape or is at most 4096 characters long. */
  lemma QuotedReadsBack(s: string, i: nat, t: string)
    requires HasAt(s, i, Show(Quoted(t))) && (i + |Show(Quoted(t))| < |s| ==> s[i + |Show(Quoted(t))|] == ' ')
    ensures TokenAt(s, i) == if Writable(Quoted(t)) then Some((t, AfterBlank(s, i + |Show(Quoted(t))|))) else None
    ensures TokenAt(s, i).None? <==> |t| > 4096 && exists k {:trigger t[k]} :: 0 <= k < |t| && (t[k] == '"' || t[k] == '\\')
  {
    SpecialSomewhere(t);
    assert Show(Quoted(t)) == "\"" + (Escape(t) + "\"");
    HasAtSplit(s, i, "\"", Escape(t) + "\"");
    HasAtChar(s, i, "\"", 0);
    UnescapeEscape(s, i + 1, t);
  }

  lemma HasAtJoin(s: string, i: nat, a: string, b: string)
    requires HasAt(s, i, a) && HasAt(s, i + |a|, b)
    ensures HasAt(s, i, a + b)
  {
    var j := i + |a|;
    forall k | 0 <= k < |a + b|
      ensures SameChar(s, i, a + b, k)
    {
      var n := k - |a|;
      if k < |a| {
        assert SameChar(s, i, a, k);
      } else {
        assert SameChar(s, j, b, n);
      }
    }
  }

  lemma HasAtOne(s: string, i: nat, c: char)
    requires i < |s| && s[i] == c
    ensures HasAt(s, i, [c])
  {
    assert SameChar(s, i, [c], 0);
  }

  /** What the scanner takes in one step is one escaped character. */
  lemma EscapedOne(s: string, i: nat)
    requires i < |s| && s[i] != '"' && Unescape(s, i).Closed?
    ensures HasAt(s, i, EscapeOne(Unescape(s, i).text[0])) && i + |EscapeOne(Unescape(s, i).text[0])| <= |s|
    ensures var c := Unescape(s, i).text[0]; Unescape(s, i) == Prepend(c, Unescape(s, i + |EscapeOne(c)|))
  {
    HasAtOne(s, i, s[i]);
    if s[i] == '\\' {
      HasAtOne(s, i + 1, s[i + 1]);
      HasAtJoin(s, i, [s[i]], [s[i + 1]]);
      assert [s[i]] + [s[i + 1]] == EscapeOne(s[i + 1]);
    }
  }

  lemma EscapeSplit(c: char, t: string)
    ensures EscapeOne(c) + (Escape(t) + "\"") == Escape([c] + t) + "\""
  {
    assert ([c] + t)[1..] == t;
  }

  /** The scanner accepts the escaped form of a text and nothing else. */
  lemma {:induction false} UnescapeSource(s: string, i: nat)
    requires i <= |s| && Unescape(s, i).Closed?
    ensures var b := Unescape(s, i); HasAt(s, i, Escape(b.text) + "\"") && b.at == i + |Escape(b.text)|
    decreases |s| - i
  {
    var b := Unescape(s, i);
    if s[i] == '"' {
      HasAtOne(s, i, '"');
      assert Escape("") + "\"" == ['"'];
    } else {
      EscapedOne(s, i);
      var c := b.text[0];
      var n := i + |EscapeOne(c)|;
      UnescapeSource(s, n);
      HasAtJoin(s, i, EscapeOne(c), Escape(Unescape(s, n).text) + "\"");
      EscapeSplit(c, Unescape(s, n).text);
    }
  }

  /** A backslash in front of anything but a quote or a backslash makes a quoted token bad. */
  lemma {:induction false} EscapeRejected(s: string, i: nat, at: nat)
    requires i <= at && at + 1 < |s| && s[at] == '\\' && s[at + 1] != '"' && s[at + 1] != '\\'
    requires forall k :: i <= k < at ==> s[k] != '"' && s[k] != '\\'
    ensures Unescape(s, i) == Malformed
    ensures i > 0 && s[i - 1] == '"' ==> TokenAt(s, i - 1) == None
    decreases at - i
  {
    if i < at {
      EscapeRejected(s, i + 1, at);
    }
  }

  /** `s` holds the quoted form of `t` at `start`, at the end of the line or in front of a blank, and `t` is not too long. */
  ghost predicate QuotedForm(s: string, start: nat, t: string) {
    var q := Show(Quoted(t));
    HasAt(s, start, q) && (start + |q| < |s| ==> s[start + |q|] == ' ') && Writable(Quoted(t))
  }

  lemma AcceptedIsQuoted(s: string, start: nat)
    requires start < |s| && s[start] == '"' && Unescape(s, start + 1).Closed?
    ensures var b := Unescape(s, start + 1);
      && HasAt(s, start, Show(Quoted(b.text))) && start + |Show(Quoted(b.text))| == b.at + 1
      && (Escaped(s, start + 1) <==> HasSpecial(b.text))
  {
    var t := Unescape(s, start + 1).text;
    UnescapeSource(s, start + 1);
    UnescapeEscape(s, start + 1, t);
    HasAtOne(s, start, '"');
    HasAtJoin(s, start, "\"", Escape(t) + "\"");
    assert "\"" + (Escape(t) + "\"") == Show(Quoted(t));
  }

  /**
   What is accepted at a quote, exactly: the quoted form of the text that is returned. Everything else, such as a
   bad escape, a missing or misplaced closing quote or an escaped text of more than 4096 characters, is an error.
   */
  lemma QuotedExactly(s: string, start: nat, t: string, next: nat)
    requires start < |s| && s[start] == '"'
    ensures TokenAt(s, start) == Some((t, next)) <==>
            QuotedForm(s, start, t) && next == AfterBlank(s, start + |Show(Quoted(t))|)
  {
    if QuotedForm(s, start, t) {
      QuotedReadsBack(s, start, t);
    }
    if Unescape(s, start + 1).Closed? {
      AcceptedIsQuoted(s, start);
    }
  }

  lemma {:induction false} BlankFromIs(s: string, i: nat, j: nat)
    requires i <= j <= |s| && (forall k :: i <= k < j ==> s[k] != ' ') && (j < |s| ==> s[j] == ' ')
    ensures BlankFrom(s, i) == j
    decreases j - i
  {
    if i < j {
      BlankFromIs(s, i + 1, j);
    }
  }

  lemma ReadsBack(s: string, i: nat, w: Written)
    requires Writable(w) && HasAt(s, i, Show(w)) && (i + |Show(w)| < |s| ==> s[i + |Show(w)|] == ' ')
    ensures TokenAt(s, i) == Some((w.text, AfterBlank(s, i + |Show(w)|)))
  {
    match w
    case Quoted(t) => QuotedReadsBack(s, i, t);
    case Plain(t) =>
      HasAtChar(s, i, t, 0);
      HasAtSlice(s, i, t);
      forall k | i + 1 <= k < i + |t|
        ensures s[k] != ' '
      {
        HasAtChar(s, i, t, k - i);
        assert NoBlankAt(t, k - i);
      }
      BlankFromIs(s, i + 1, i + |t|);
  }

  /** The tokens on a line, joined by single blanks. */
  function JoinAll(ws: seq<Written>): string {
    if ws == [] then "" else if |ws| == 1 then Show(ws[0]) else Show(ws[0]) + " " + JoinAll(ws[1..])
  }

  function Texts(ws: seq<Written>): (r: seq<string>)
    ensures |r| == |ws| && forall k :: 0 <= k < |ws| ==> r[k] == ws[k].text
  {
    seq(|ws|, k requires 0 <= k < |ws| => ws[k].text)
  }

  /** All tokens from `start` to the end of the line, or nothing if one is rejected. The loop of a line reader. */
  function TokensFrom(s: string, start: nat): Option<seq<string>>
    requires start <= |s|
    decreases |s| - start
  {
    if start == |s| then Some([])
    else match TokenAt(s, start)
      case None => None
      case Some((text, next)) =>
        match TokensFrom(s, next)
        case None => None
        case Some(rest) => Some([text] + rest)
  }

  /** The line from `i` on is the joined tokens. */
  predicate Rests(s: string, i: nat, ws: seq<Written>) {
    i + |JoinAll(ws)| == |s| && HasAt(s, i, JoinAll(ws))
  }

  lemma RestsStep(s: string, i: nat, ws: seq<Written>)
    requires |ws| > 1 && Rests(s, i, ws)
    ensures HasAt(s, i, Show(ws[0])) && i + |Show(ws[0])| < |s| && s[i + |Show(ws[0])|] == ' '
    ensures Rests(s, i + |Show(ws[0])| + 1, ws[1..])
  {
    var p, rest := Show(ws[0]), JoinAll(ws[1..]);
    assert JoinAll(ws) == p + (" " + rest);
    HasAtSplit(s, i, p, " " + rest);
    HasAtSplit(s, i + |p|, " ", rest);
    HasAtChar(s, i + |p|, " ", 0);
  }

  lemma TokensStep(s: string, i: nat, text: string, next: nat, rest: seq<string>)
    requires i < |s| && TokenAt(s, i) == Some((text, next)) && TokensFrom(s, next) == Some(rest)
    ensures TokensFrom(s, i) == Some([text] + rest)
  {
  }

  lemma TextsSplit(ws: seq<Written>)
    requires ws != []
    ensures Texts(ws) == [ws[0].text] + Texts(ws[1..])
  {
  }

  predicate AllWritable(ws: seq<Written>) {
    ws == [] || (Writable(ws[0]) && AllWritable(ws[1..]))
  }

  lemma {:induction false} EachWritable(ws: seq<Written>)
    requires forall k :: 0 <= k < |ws| ==> Writable(ws[k])
    ensures AllWritable(ws)
  {
    if ws != [] {
      EachWritable(ws[1..]);
    }
  }

  lemma ShowAt(s: string, i: nat, w: Written)
    requires HasAt(s, i, JoinAll([w]))
    ensures HasAt(s, i, Show(w))
  {
  }

  lemma ShowNotEmpty(w: Written)
    requires Writable(w)
    ensures |Show(w)| > 0
  {
  }

  /** Where the first of the joined tokens is, and where the next one starts. */
  lemma RestsFirst(s: string, i: nat, ws: seq<Written>) returns (next: nat)
    requires ws != [] && Rests(s, i, ws)
    ensures HasAt(s, i, Show(ws[0])) && (i + |Show(ws[0])| < |s| ==> s[i + |Show(ws[0])|] == ' ')
    ensures next == AfterBlank(s, i + |Show(ws[0])|) <= |s| && Rests(s, next, ws[1..])
  {
    if |ws| == 1 {
      assert ws == [ws[0]];
      ShowAt(s, i, ws[0]);
      next := |s|;
    } else {
      RestsStep(s, i, ws);
      next := i + |Show(ws[0])| + 1;
    }
  }

  /** The first of the joined tokens is read. */
  lemma FirstReadsBack(s: string, i: nat, ws: seq<Written>) returns (next: nat)
    requires i <= |s| && ws != [] && Rests(s, i, ws) && Writable(ws[0])
    ensures i < |s| && TokenAt(s, i) == Some((ws[0].text, next)) && next <= |s|
    ensures Rests(s, next, ws[1..])
  {
    next := RestsFirst(s, i, ws);
    ShowNotEmpty(ws[0]);
    ReadsBack(s, i, ws[0]);
  }

  lemma {:induction false} JoinedReadsBack(s: string, i: nat, ws: seq<Written>)
    requires i <= |s| && Rests(s, i, ws) && AllWritable(ws)
    ensures TokensFrom(s, i) == Some(Texts(ws))
    decreases |ws|
  {
    if ws == [] {
    } else {
      TextsSplit(ws);
      var next := FirstReadsBack(s, i, ws);
      JoinedReadsBack(s, next, ws[1..]);
      TokensStep(s, i, ws[0].text, next, Texts(ws[1..]));
    }
  }

  /** Round trip: writing tokens on a line, joined by single blanks, and tokenizing the line gives back the tokens. */
  lemma LineRoundTrip(ws: seq<Written>)
    requires forall k :: 0 <= k < |ws| ==> Writable(ws[k])
    ensures TokensFrom(JoinAll(ws), 0) == Some(Texts(ws))
  {
    EachWritable(ws);
    JoinedReadsBack(JoinAll(ws), 0, ws);
  }
}
