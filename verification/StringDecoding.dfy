/** Lazy string decoding (StrPair::GetStr, StrPair::CollapseWhitespace): the in-place loops over the shared
    buffer and the functions they compute. */
module StringDecoding {
  import opened Optional
  import opened XmlChars
  import opened CharacterReferences
  import opened WrittenValues

  /** The processing bits of StrPair::_flags. */
  datatype Mode = Mode(entities: bool, newlines: bool, collapse: bool)

  const PLAIN := Mode(false, false, false)
  const NEWLINES := Mode(false, true, false)

  /** The entity table, in the order it is searched. */
  const ENTITIES: seq<(string, char)> := [("quot", '\"'), ("amp", '&'), ("apos", '\''), ("lt", '<'), ("gt", '>')]

  // ---------------------------------------------------------------------------------------------
  // One step of the loop
  // ---------------------------------------------------------------------------------------------

  /** What one iteration does with the text `s` at the read pointer: it consumes `used` bytes and writes
      `text`, or moves the write pointer over one byte without writing it (`Skip`). */
  datatype Chunk = Write(text: string, used: nat) | Skip

  /** The first table entry from `i` on that is spelled, with its semicolon, after the ampersand of `s`. */
  function EntityAt(s: string, i: nat): (r: Option<nat>)
    requires i <= |ENTITIES| && s != ""
    ensures r.Some? ==> i <= r.value < |ENTITIES|
                        && StartsWith(s[1..], ENTITIES[r.value].0)
                        && At(s, |ENTITIES[r.value].0| + 1) == ';'
    decreases |ENTITIES| - i
  {
    if i == |ENTITIES| then None
    else if StartsWith(s[1..], ENTITIES[i].0) && At(s, |ENTITIES[i].0| + 1) == ';' then Some(i)
    else EntityAt(s, i + 1)
  }

  function NextChunk(mode: Mode, s: string): (c: Chunk)
    requires s != ""
    ensures c.Write? ==> 1 <= c.used <= |s| && |c.text| <= c.used
  {
    if mode.newlines && s[0] == CR then Write([LF], if At(s, 1) == LF then 2 else 1)
    else if mode.newlines && s[0] == LF then Write([LF], if At(s, 1) == CR then 2 else 1)
    else if mode.entities && s[0] == '&' then
      if At(s, 1) == '#' then
        match CharacterRef(s)
        case Rejected => Write("&", 1)
        case Dropped => Write("", 1)
        case Decoded(code, used) => EncodedFits(s); Write(Utf8(code), used)
      else
        match EntityAt(s, 0)
        case Some(i) => Write([ENTITIES[i].1], |ENTITIES[i].0| + 2)
        case None => Skip
    else Write([s[0]], 1)
  }

  // ---------------------------------------------------------------------------------------------
  // The functional decoders
  // ---------------------------------------------------------------------------------------------

  /** What the in-place loop computes, for every input: an ampersand that starts nothing known leaves the byte
      that happens to lie under the write pointer, which is the original byte at that index. */
  function DecodeFrom(mode: Mode, raw: string, p: nat, out: string): (r: string)
    requires |out| <= p <= |raw|
    ensures |r| <= |raw|
    ensures out <= r
    decreases |raw| - p
  {
    if p == |raw| then out
    else
      match NextChunk(mode, raw[p..])
      case Write(text, used) => DecodeFrom(mode, raw, p + used, out + text)
      case Skip => DecodeFrom(mode, raw, p + 1, out + [raw[|out|]])
  }

  /** The decoder the engine documents: newlines normalized, references replaced, everything else kept, an ampersand
      that starts nothing known included. Only a reference cut off right after `&#` (`Dropped`) loses its ampersand, as
      the engine has it. */
  function Decode(mode: Mode, s: string): (r: string)
    decreases |s|
  {
    if s == "" then ""
    else
      match NextChunk(mode, s)
      case Write(text, used) => text + Decode(mode, s[used..])
      case Skip => "&" + Decode(mode, s[1..])
  }

  /** No unknown `&` is met while the byte under the write pointer differs from an ampersand.
      `p` and `q` are the offsets of the two pointers. */
  predicate StaleFree(mode: Mode, raw: string, p: nat, q: nat)
    requires q <= p <= |raw|
    decreases |raw| - p
  {
    p == |raw| ||
    match NextChunk(mode, raw[p..])
    case Write(text, used) => StaleFree(mode, raw, p + used, q + |text|)
    case Skip => raw[q] == '&' && StaleFree(mode, raw, p + 1, q + 1)
  }

  lemma UnfoldDecode(mode: Mode, s: string)
    ensures s == "" ==> Decode(mode, s) == ""
    ensures s != "" && NextChunk(mode, s).Skip? ==> Decode(mode, s) == "&" + Decode(mode, s[1..])
    ensures s != "" && NextChunk(mode, s).Write? ==>
              Decode(mode, s) == NextChunk(mode, s).text + Decode(mode, s[NextChunk(mode, s).used..])
  {
    hide NextChunk;
  }

  /** The loop computes the documented decoding exactly on the stale-free inputs. */
  lemma {:induction false} DecodeFromIsDecode(mode: Mode, raw: string, p: nat, out: string)
    requires |out| <= p <= |raw|
    ensures DecodeFrom(mode, raw, p, out) == out + Decode(mode, raw[p..]) <==> StaleFree(mode, raw, p, |out|)
    decreases |raw| - p
  {
    hide NextChunk, Decode;
    UnfoldDecode(mode, raw[p..]);
    if p == |raw| {
      assert out + "" == out;
    } else {
      match NextChunk(mode, raw[p..])
      case Write(text, used) =>
        DecodeFromIsDecode(mode, raw, p + used, out + text);
        assert raw[p..][used..] == raw[p + used..];
        Reassociate(out, text, Decode(mode, raw[p + used..]));
      case Skip =>
        DecodeFromIsDecode(mode, raw, p + 1, out + [raw[|out|]]);
        assert raw[p..][1..] == raw[p + 1..];
        SkipStep(out, raw[|out|], DecodeFrom(mode, raw, p, out), Decode(mode, raw[p + 1..]));
    }
  }

  lemma Reassociate(a: string, b: string, c: string)
    ensures a + (b + c) == a + b + c
  {
  }

  /** `whole` extends `out + [c]`; it can only equal a string with an ampersand there when c is one. */
  lemma SkipStep(out: string, c: char, whole: string, rest: string)
    requires out + [c] <= whole
    ensures whole == out + ("&" + rest) <==> c == '&' && whole == out + [c] + rest
  {
    assert whole[|out|] == (out + [c])[|out|];
    assert (out + ("&" + rest))[|out|] == '&';
    Reassociate(out, "&", rest);
  }

  /** Every ampersand starts a table entry or a reference that GetCharacterRef does not drop. */
  predicate Resolvable(mode: Mode, s: string)
    decreases |s|
  {
    s == "" ||
    match NextChunk(mode, s)
    case Write(_, used) => (mode.entities && s[0] == '&' ==> used > 1) && Resolvable(mode, s[used..])
    case Skip => false
  }

  lemma {:induction false} ResolvableIsStaleFree(mode: Mode, raw: string, p: nat, q: nat)
    requires q <= p <= |raw| && Resolvable(mode, raw[p..])
    ensures StaleFree(mode, raw, p, q)
    decreases |raw| - p
  {
    hide NextChunk;
    if p < |raw| {
      var c := NextChunk(mode, raw[p..]);
      assert raw[p..][c.used..] == raw[p + c.used..];
      ResolvableIsStaleFree(mode, raw, p + c.used, q + |c.text|);
    }
  }

  /** With every ampersand resolvable, the loop computes the documented decoding. */
  lemma ResolvableDecodes(mode: Mode, raw: string)
    requires Resolvable(mode, raw)
    ensures DecodeFrom(mode, raw, 0, "") == Decode(mode, raw)
  {
    assert raw[0..] == raw;
    ResolvableIsStaleFree(mode, raw, 0, 0);
    DecodeFromIsDecode(mode, raw, 0, "");
    assert "" + Decode(mode, raw) == Decode(mode, raw);
  }

  // ---------------------------------------------------------------------------------------------
  // What authors write
  // ---------------------------------------------------------------------------------------------

  /** The table finds each of the five names. */
  lemma NameIsFound(name: string, rest: string)
    requires name in ["amp", "lt", "gt", "quot", "apos"]
    ensures var s := "&" + name + ";" + rest;
            var i := EntityAt(s, 0);
            && s[0] == '&' && At(s, 1) == name[0] && |s| >= |name| + 2 && s[|name| + 2..] == rest
            && i.Some? && ENTITIES[i.value].0 == name && [ENTITIES[i.value].1] == Meaning(Named(name))
  {
    var s := "&" + name + ";" + rest;
    assert s[1..] == name + (";" + rest);
    assert s[1..][..|name|] == name;
    var k := if name == "quot" then 0 else if name == "amp" then 1 else if name == "apos" then 2
    else if name == "lt" then 3 else 4;
    assert ENTITIES[k].0 == name;
    forall i | 0 <= i < k
      ensures !StartsWith(s[1..], ENTITIES[i].0)
    {
      PrefixDiffers(s[1..], ENTITIES[i].0, if i == 1 && name == "apos" then 1 else 0);
    }
    hide StartsWith;
    EntityFirst(s, 0, k);
  }

  lemma {:induction false} EntityFirst(s: string, i: nat, k: nat)
    requires s != "" && i <= k < |ENTITIES| && forall j :: i <= j < k ==> !StartsWith(s[1..], ENTITIES[j].0)
    requires StartsWith(s[1..], ENTITIES[k].0) && At(s, |ENTITIES[k].0| + 1) == ';'
    ensures EntityAt(s, i) == Some(k)
    decreases k - i
  {
    hide StartsWith;
    if i < k {
      EntityFirst(s, i + 1, k);
    }
  }

  /** Every rest behind the five names is decoded on its own. */
  lemma FiveNames(mode: Mode, s: string)
    requires mode.entities
    ensures Decode(mode, "&amp;" + s) == "&" + Decode(mode, s) && Decode(mode, "&lt;" + s) == "<" + Decode(mode, s)
    ensures Decode(mode, "&gt;" + s) == ">" + Decode(mode, s)
    ensures Decode(mode, "&quot;" + s) == "\"" + Decode(mode, s) && Decode(mode, "&apos;" + s) == "'" + Decode(mode, s)
  {
    hide Decode;
    NameDecodes(mode, "amp", s);
    NameDecodes(mode, "lt", s);
    NameDecodes(mode, "gt", s);
    NameDecodes(mode, "quot", s);
    NameDecodes(mode, "apos", s);
    FiveSpellings();
  }

  lemma FiveSpellings()
    ensures "&" + "amp" + ";" == "&amp;" && "&" + "lt" + ";" == "&lt;" && "&" + "gt" + ";" == "&gt;"
    ensures "&" + "quot" + ";" == "&quot;" && "&" + "apos" + ";" == "&apos;"
  {
  }

  lemma NameDecodes(mode: Mode, name: string, s: string)
    requires mode.entities && name in ["amp", "lt", "gt", "quot", "apos"]
    ensures Decode(mode, "&" + name + ";" + s) == Meaning(Named(name)) + Decode(mode, s)
  {
    NameIsFound(name, s);
    UnfoldDecode(mode, "&" + name + ";" + s);
    hide Decode, EntityAt;
  }

  lemma EntityIsRead(mode: Mode, name: string, rest: string)
    requires mode.entities && name in ["amp", "lt", "gt", "quot", "apos"]
    ensures var s := "&" + name + ";" + rest;
            NextChunk(mode, s) == Write(Meaning(Named(name)), |name| + 2) && s[|name| + 2..] == rest && s[0] == '&'
  {
    hide EntityAt, CharacterRef;
    NameIsFound(name, rest);
  }

  /** One piece is decoded in one step. */
  lemma PieceIsRead(mode: Mode, p: Piece, rest: string)
    requires ProperPiece(mode.entities, p) && mode.newlines
    requires p.Break? && |p.spelling| == 1 ==> At(rest, 0) !in "\r\n" || At(rest, 0) == p.spelling[0]
    ensures var s := Spelling(p) + rest;
            && NextChunk(mode, s) == Write(Meaning(p), |Spelling(p)|) && s[|Spelling(p)|..] == rest
            && (mode.entities && s[0] == '&' ==> |Spelling(p)| > 1)
  {
    hide CharacterRef, EntityAt, Utf8, Number, ProperDigits;
    match p
    case Plain(c) =>
    case Break(spelling) =>
      assert At(spelling + rest, 1) == if |spelling| == 1 then At(rest, 0) else spelling[1];
    case Named(name) => EntityIsRead(mode, name, rest);
    case Numbered(digits, hex) => ReferenceIsRead(mode, digits, hex, rest);
  }

  lemma ReferenceIsRead(mode: Mode, digits: string, hex: bool, rest: string)
    requires mode.entities && ProperDigits(digits, hex)
    ensures var ref := (if hex then "&#x" else "&#") + digits + ";";
            && NextChunk(mode, ref + rest) == Write(Utf8(Number(digits, hex)), |ref|) && (ref + rest)[|ref|..] == rest
            && ref[0] == '&' && |ref| > 1
  {
    hide CharacterRef, Utf8, EntityAt;
    NumberIs(digits, hex);
    WellFormedReference(digits, hex, rest);
    var ref := (if hex then "&#x" else "&#") + digits + ";";
    assert At(ref + rest, 1) == '#';
  }

  /** What follows a line end of one byte is no other half of it. */
  lemma NothingMerges(entities: bool, ps: seq<Piece>)
    requires Proper(entities, ps) && ps != [] && ps[0].Break? && |ps[0].spelling| == 1
    ensures At(Written(ps[1..]), 0) !in "\r\n" || At(Written(ps[1..]), 0) == ps[0].spelling[0]
  {
    if |ps| > 1 {
      assert Apart(ps[0], ps[1]) && ProperPiece(entities, ps[1]);
      assert ps[1..][0] == ps[1];
      assert Written(ps[1..]) == Spelling(ps[1]) + Written(ps[1..][1..]);
      assert Written(ps[1..])[0] == Spelling(ps[1])[0];
    }
  }

  lemma {:induction false} WrittenDecodes(mode: Mode, ps: seq<Piece>)
    requires Proper(mode.entities, ps) && mode.newlines
    ensures Decode(mode, Written(ps)) == Meant(ps) && Resolvable(mode, Written(ps))
    decreases ps
  {
    hide NextChunk, Decode, Spelling, Meaning, ProperPiece, Apart;
    UnfoldDecode(mode, Written(ps));
    if ps != [] {
      var s, rest := Written(ps), Written(ps[1..]);
      if ps[0].Break? && |ps[0].spelling| == 1 {
        NothingMerges(mode.entities, ps);
      }
      PieceIsRead(mode, ps[0], rest);
      ProperRest(mode.entities, ps);
      WrittenDecodes(mode, ps[1..]);
    }
  }

  lemma ProperRest(entities: bool, ps: seq<Piece>)
    requires Proper(entities, ps) && ps != []
    ensures Proper(entities, ps[1..])
  {
    hide ProperPiece, Apart;
    forall i | 0 < i < |ps[1..]|
      ensures Apart(ps[1..][i - 1], ps[1..][i])
    {
      assert ps[1..][i - 1] == ps[i] && ps[1..][i] == ps[i + 1];
    }
  }

  /** The C string a caller sees of a written value is what the value stands for. */
  lemma WrittenIsMeant(mode: Mode, ps: seq<Piece>)
    requires Proper(mode.entities, ps) && mode.newlines
    ensures Eager(mode, Written(ps)) == if mode.collapse then Collapse(CString(Meant(ps))) else CString(Meant(ps))
  {
    hide DecodeFrom, Decode, Resolvable;
    WrittenDecodes(mode, ps);
    ResolvableDecodes(mode, Written(ps));
  }

  /** A concrete failure: after `&lt;` shrank the text, the unknown `&x` turns into a byte of the old text. */
  lemma StaleByte()
    ensures DecodeFrom(Mode(true, true, false), "&lt;&x", 0, "") == "<lx"
    ensures Decode(Mode(true, true, false), "&lt;&x") == "<&x"
  {
    var mode, s := Mode(true, true, false), "&lt;&x";
    LessThanChunk(mode);
    UnknownChunk(mode);
    hide EntityAt, NextChunk;
    assert s[0..] == s && s[4..] == "&x" && s[5..] == "x" && s[6..] == "" && "&x"[1..] == "x" && "x"[1..] == "";
    assert Decode(mode, "x") == "x";
    assert Decode(mode, "&x") == "&x";
    assert DecodeFrom(mode, s, 6, "<lx") == "<lx";
    assert DecodeFrom(mode, s, 5, "<l") == DecodeFrom(mode, s, 6, "<l" + "x");
    assert DecodeFrom(mode, s, 4, "<") == DecodeFrom(mode, s, 5, "<" + "l");
    assert DecodeFrom(mode, s, 0, "") == DecodeFrom(mode, s, 4, "" + "<");
  }

  lemma LessThanChunk(mode: Mode)
    requires mode.entities
    ensures NextChunk(mode, "&lt;&x") == Write("<", 4)
  {
    var s := "&lt;&x";
    assert s[1..] == "lt;&x";
    assert s[1..][..2] == "lt";
    assert s[1] == 'l' && s[2] == 't';
    assert !StartsWith(s[1..], "quot") && !StartsWith(s[1..], "amp") && !StartsWith(s[1..], "apos");
    assert EntityAt(s, 0) == EntityAt(s, 1) == EntityAt(s, 2) == EntityAt(s, 3) == Some(3);
  }

  lemma UnknownChunk(mode: Mode)
    requires mode.entities
    ensures NextChunk(mode, "&x") == Skip && NextChunk(mode, "x") == Write("x", 1)
  {
    var t := "&x";
    assert t[1..] == "x";
    assert EntityAt(t, 0) == EntityAt(t, 1) == EntityAt(t, 2) == EntityAt(t, 3) == EntityAt(t, 4) == None;
  }

  // ---------------------------------------------------------------------------------------------
  // White space collapsing
  // ---------------------------------------------------------------------------------------------

  /** The loop of CollapseWhitespace on the text at its read pointer. */
  function CollapseRest(s: string): (r: string)
    ensures |r| <= |s|
    decreases |s|
  {
    if s == "" then ""
    else if IsWhiteSpace(s[0]) then
      var t := SkipWhite(s);
      if t == "" then "" else [' ', t[0]] + CollapseRest(t[1..])
    else [s[0]] + CollapseRest(s[1..])
  }

  function Collapse(s: string): string {
    CollapseRest(SkipWhite(s))
  }

  /** White space occurs in a collapsed string only as single spaces between other bytes. */
  predicate Collapsed(s: string) {
    && (s != "" ==> !IsWhiteSpace(s[0]) && !IsWhiteSpace(s[|s| - 1]))
    && SingleSpaces(s)
  }

  /** The bytes that are not white space, in order. */
  function Ink(s: string): string {
    if s == "" then "" else (if IsWhiteSpace(s[0]) then "" else [s[0]]) + Ink(s[1..])
  }

  lemma {:induction false} InkOfSkipped(s: string)
    ensures Ink(SkipWhite(s)) == Ink(s)
    decreases |s|
  {
    if s != "" && IsWhiteSpace(s[0]) {
      InkOfSkipped(s[1..]);
      assert s[1..][WhiteLead(s[1..])..] == s[WhiteLead(s)..];
      assert "" + Ink(s[1..]) == Ink(s[1..]);
    }
  }

  /** Every white byte is a space and no two are neighbours. */
  predicate SingleSpaces(s: string) {
    forall i :: 0 <= i < |s| && IsWhiteSpace(s[i]) ==> s[i] == ' ' && (i > 0 ==> !IsWhiteSpace(s[i - 1]))
  }

  /** What collapsing makes of `s`: single spaces, none at the end, every other byte kept. */
  predicate Shaped(r: string, s: string) {
    SingleSpaces(r) && Ink(r) == Ink(s) && (r != "" ==> !IsWhiteSpace(r[|r| - 1]))
  }

  lemma ShapedPrepend(c: char, r: string, s: string)
    requires Shaped(r, s) && !IsWhiteSpace(c)
    ensures Shaped([c] + r, [c] + s) && Shaped([' ', c] + r, [c] + s)
  {
    InkHead(c, r);
    InkHead(c, s);
    hide Ink, SingleSpaces;
    SpacedPrepend(c, r);
    SpacedPrepend(' ', [c] + r);
    assert [' '] + ([c] + r) == [' ', c] + r;
  }

  lemma SpacedPrepend(c: char, r: string)
    requires SingleSpaces(r) && (IsWhiteSpace(c) ==> c == ' ' && (r != "" ==> !IsWhiteSpace(r[0])))
    ensures SingleSpaces([c] + r)
  {
    hide IsWhiteSpace;
    var t := [c] + r;
    forall i | 0 <= i < |t| && IsWhiteSpace(t[i])
      ensures t[i] == ' ' && (i > 0 ==> !IsWhiteSpace(t[i - 1]))
    {
      assert i > 0 ==> t[i] == r[i - 1];
    }
  }

  lemma InkHead(c: char, s: string)
    requires !IsWhiteSpace(c)
    ensures Ink([c] + s) == [c] + Ink(s) && Ink([' ', c] + s) == [c] + Ink(s)
  {
    assert ([c] + s)[1..] == s;
    assert ([' ', c] + s)[1..] == [c] + s;
    assert "" + Ink([c] + s) == Ink([c] + s);
  }

  lemma ShapedSkips(r: string, s: string)
    ensures Shaped(r, SkipWhite(s)) ==> Shaped(r, s)
    ensures Shaped("", "")
  {
    InkOfSkipped(s);
  }

  lemma {:induction false} CollapseRestIsShaped(s: string)
    ensures Shaped(CollapseRest(s), s)
    decreases |s|
  {
    hide Shaped, WhiteLead, IsWhiteSpace;
    ShapedSkips("", s);
    if s == "" {
    } else if IsWhiteSpace(s[0]) {
      var t := SkipWhite(s);
      if t != "" {
        CollapseRestIsShaped(t[1..]);
        ShapedPrepend(t[0], CollapseRest(t[1..]), t[1..]);
        assert t == [t[0]] + t[1..];
        ShapedSkips(CollapseRest(s), s);
      }
    } else {
      CollapseRestIsShaped(s[1..]);
      ShapedPrepend(s[0], CollapseRest(s[1..]), s[1..]);
      assert s == [s[0]] + s[1..];
    }
  }

  /** Collapsing yields single inner spaces only and loses no other byte; collapsed strings are its fixed points. */
  lemma CollapseSpec(s: string)
    ensures Collapsed(Collapse(s))
    ensures Ink(Collapse(s)) == Ink(s)
    ensures Collapse(s) == s <==> Collapsed(s)
  {
    InkOfSkipped(s);
    var t := SkipWhite(s);
    CollapseRestIsShaped(t);
    if t != "" {
      assert CollapseRest(t)[0] == t[0];
    }
    if Collapsed(s) {
      CollapseRestFixed(s);
    }
  }

  lemma {:induction false} CollapseRestFixed(s: string)
    requires (s != "" ==> !IsWhiteSpace(s[|s| - 1])) && SingleSpaces(s)
    ensures CollapseRest(s) == s
    decreases |s|
  {
    if s != "" {
      if IsWhiteSpace(s[0]) {
        assert |s| > 1;
        assert s[..1] == [s[0]];
        WhiteLeadIs(s, 1);
        hide WhiteLead;
        CollapseRestFixed(s[2..]);
        assert s[1..][1..] == s[2..];
      } else {
        CollapseRestFixed(s[1..]);
      }
    }
  }

  // ---------------------------------------------------------------------------------------------
  // The value of a string that has not been read yet
  // ---------------------------------------------------------------------------------------------

  /** The C string a caller of GetStr sees for the raw bytes `raw`. */
  function Eager(mode: Mode, raw: string): string {
    var text := CString(DecodeFrom(mode, raw, 0, ""));
    if mode.collapse then Collapse(text) else text
  }

  // ---------------------------------------------------------------------------------------------
  // The loops in the shared buffer
  // ---------------------------------------------------------------------------------------------

  /** StrPair: a closed range of the buffer and the processing still to be done. */
  datatype StrPair = StrPair(start: nat, end: nat, mode: Mode, needsFlush: bool)

  /** strncmp of the text at `p` with a pattern. */
  method Matches(buf: array<char>, p: nat, end: nat, pattern: string) returns (b: bool)
    requires p <= end < buf.Length && buf[end] == NUL && NulFree(pattern)
    ensures b == StartsWith(buf[p..end], pattern)
  {
    var n := 0;
    while n < |pattern| && buf[p + n] == pattern[n]
      invariant n <= |pattern| && p + n <= end
      invariant forall i :: 0 <= i < n ==> buf[p + i] == pattern[i]
    {
      n := n + 1;
    }
    b := n == |pattern|;
    if !b {
      PrefixDiffers(buf[p..end], pattern, n);
    }
  }

  /** strncmp(p + 1, pattern, length) == 0 && p[length + 1] == ';' for the table entries in turn. */
  method FindEntity(buf: array<char>, p: nat, end: nat) returns (found: Option<nat>)
    requires p < end < buf.Length && buf[end] == NUL
    ensures found == EntityAt(buf[p..end], 0)
  {
    hide StartsWith, EntityAt;
    var i := 0;
    ghost var s := buf[p..end];
    assert s[1..] == buf[p + 1..end];
    while i < |ENTITIES|
      invariant i <= |ENTITIES|
      invariant EntityAt(s, 0) == EntityAt(s, i)
    {
      var pattern := ENTITIES[i].0;
      TableIsNulFree(i);
      EntityStep(s, i);
      var same := Matches(buf, p + 1, end, pattern);
      if same {
        PatternFits(s[1..], pattern);
        if buf[p + |pattern| + 1] == ';' {
          return Some(i);
        }
      }
      i := i + 1;
    }
    EntityStep(s, i);
    return None;
  }

  lemma EntityStep(s: string, i: nat)
    requires i <= |ENTITIES| && s != ""
    ensures i == |ENTITIES| ==> EntityAt(s, i) == None
    ensures i < |ENTITIES| ==>
              EntityAt(s, i) == if StartsWith(s[1..], ENTITIES[i].0) && At(s, |ENTITIES[i].0| + 1) == ';' then Some(i)
                                else EntityAt(s, i + 1)
  {
  }

  lemma TableIsNulFree(i: nat)
    requires i < |ENTITIES|
    ensures NulFree(ENTITIES[i].0)
  {
  }

  lemma PatternFits(s: string, t: string)
    requires StartsWith(s, t)
    ensures |t| <= |s|
  {
  }

  /** GetStr: reads the range once, from left to right, and writes behind the read pointer. */
  method GetStr(buf: array<char>, pair: StrPair) returns (read: StrPair)
    requires pair.needsFlush && pair.start <= pair.end < buf.Length
    modifies buf
    ensures forall i :: 0 <= i < buf.Length && !(pair.start <= i <= pair.end) ==> buf[i] == old(buf[i])
    ensures read == StrPair(read.start, pair.end, PLAIN, false) && pair.start <= read.start <= pair.end
    ensures CString(buf[read.start..pair.end]) == Eager(pair.mode, old(buf[pair.start..pair.end]))
    ensures buf[pair.end] == NUL
    ensures forall ps :: pair.mode.newlines && Proper(pair.mode.entities, ps)
                         && Written(ps) == old(buf[pair.start..pair.end]) ==>
              CString(buf[read.start..pair.end]) ==
                if pair.mode.collapse then Collapse(CString(Meant(ps))) else CString(Meant(ps))
    ensures pair.mode == PLAIN ==>
              read.start == pair.start && forall i :: 0 <= i < buf.Length && i != pair.end ==> buf[i] == old(buf[i])
  {
    hide DecodeFrom, Collapse, CString, Proper, Written, Meant;
    forall ps | pair.mode.newlines && Proper(pair.mode.entities, ps)
      ensures Eager(pair.mode, Written(ps)) ==
                if pair.mode.collapse then Collapse(CString(Meant(ps))) else CString(Meant(ps))
    {
      WrittenIsMeant(pair.mode, ps);
    }
    var start, end := pair.start, pair.end;
    ghost var raw := buf[start..end];
    buf[end] := NUL;
    read := StrPair(start, end, PLAIN, false);
    if pair.mode != PLAIN {
      var q := DecodeInPlace(buf, start, end, pair.mode);
      buf[q] := NUL;
      ghost var out := DecodeFrom(pair.mode, raw, 0, "");
      assert buf[start..q] == out;
      CStringUpTo(buf[start..end], out);
      if pair.mode.collapse {
        var newStart := CollapseWhitespace(buf, start, end);
        read := read.(start := newStart);
      }
    } else {
      PlainDecode(raw, 0, "");
      assert buf[start..end] == raw;
    }
  }

  /** A NUL right after `out`, or the end of the range, ends the C string. */
  lemma {:induction false} CStringUpTo(s: string, out: string)
    requires out <= s
    requires |out| < |s| ==> s[|out|] == NUL
    ensures CString(s) == CString(out)
    decreases |s|
  {
    if out == "" {
    } else if s[0] != NUL {
      CStringUpTo(s[1..], out[1..]);
    }
  }

  lemma {:induction false} PlainDecode(raw: string, p: nat, out: string)
    requires p <= |raw| && out == raw[..p]
    ensures DecodeFrom(PLAIN, raw, p, out) == raw
    decreases |raw| - p
  {
    if p < |raw| {
      assert out + [raw[p..][0]] == raw[..p + 1];
      PlainDecode(raw, p + 1, raw[..p + 1]);
    }
  }

  /** The decoding loop proper: `q` never passes `p`, `p` never passes the end, and only bytes below `q` change. */
  method DecodeInPlace(buf: array<char>, start: nat, end: nat, mode: Mode) returns (q: nat)
    requires start <= end < buf.Length && buf[end] == NUL
    modifies buf
    ensures start <= q <= end
    ensures buf[start..q] == DecodeFrom(mode, old(buf[start..end]), 0, "")
    ensures forall i :: 0 <= i < buf.Length && !(start <= i < q) ==> buf[i] == old(buf[i])
  {
    hide *;
    ghost var raw := buf[start..end];
    var p := start;
    q := start;
    while p < end
      invariant start <= q <= p <= end
      invariant forall i :: 0 <= i < buf.Length && !(start <= i < q) ==> buf[i] == old(buf[i])
      invariant DecodeFrom(mode, raw, 0, "") == DecodeFrom(mode, raw, p - start, buf[start..q])
      decreases end - p
    {
      ghost var out, p0, q0 := buf[start..q], p, q;
      assert raw[p - start..] == buf[p..end];
      DecodeOne(mode, raw, p - start, out);
      p, q := DecodeStep(buf, start, p, q, end, mode);
      assert buf[start..q0] == out;
      Adjacent(buf, start, q0, q);
    }
    DecodeEnd(mode, raw, buf[start..q]);
  }

  lemma Adjacent(buf: array<char>, a: nat, b: nat, c: nat)
    requires a <= b <= c <= buf.Length
    ensures buf[a..c] == buf[a..b] + buf[b..c]
  {
  }

  lemma DecodeEnd(mode: Mode, raw: string, out: string)
    requires |out| <= |raw|
    ensures DecodeFrom(mode, raw, |raw|, out) == out
  {
  }

  /** The decoder goes on behind one chunk. */
  lemma DecodeOne(mode: Mode, raw: string, k: nat, out: string)
    requires |out| <= k < |raw|
    ensures var c := NextChunk(mode, raw[k..]);
            && (c.Write? ==> |out + c.text| <= k + c.used <= |raw|
                             && DecodeFrom(mode, raw, k, out) == DecodeFrom(mode, raw, k + c.used, out + c.text))
            && (c.Skip? ==> DecodeFrom(mode, raw, k, out) == DecodeFrom(mode, raw, k + 1, out + [raw[|out|]]))
  {
    hide NextChunk;
  }

  /** One iteration of the decoding loop. */
  method DecodeStep(buf: array<char>, ghost start: nat, p: nat, q: nat, end: nat, mode: Mode) returns (p': nat, q': nat)
    requires start <= q <= p < end < buf.Length && buf[end] == NUL
    modifies buf
    ensures q <= q' <= p' <= end
    ensures forall i :: 0 <= i < buf.Length && !(q <= i < q') ==> buf[i] == old(buf[i])
    ensures match NextChunk(mode, old(buf[p..end]))
            case Write(text, used) => p' == p + used && q' == q + |text| && buf[q..q'] == text
            case Skip => p' == p + 1 && q' == q + 1 && buf[q..q'] == [old(buf[q])]
  {
    hide CharacterRef, EntityAt, Utf8, StartsWith;
    p', q' := p, q;
    ghost var s := buf[p..end];
    if mode.newlines && buf[p] == CR {
      p' := if buf[p + 1] == LF then p + 2 else p + 1;
      buf[q] := LF;
      q' := q + 1;
    } else if mode.newlines && buf[p] == LF {
      p' := if buf[p + 1] == CR then p + 2 else p + 1;
      buf[q] := LF;
      q' := q + 1;
    } else if mode.entities && buf[p] == '&' {
      if buf[p + 1] == '#' {
        p', q' := DecodeReference(buf, p, q, end);
      } else {
        p' := DecodeEntity(buf, p, q, end);
        q' := q + 1;
      }
    } else {
      buf[q] := buf[p];
      p' := p + 1;
      q' := q + 1;
    }
    OneByte(buf, q);
  }

  lemma OneByte(buf: array<char>, q: nat)
    requires q < buf.Length
    ensures buf[q..q + 1] == [buf[q]]
  {
  }

  /** The named entity branch: an unknown name leaves the byte under the write pointer. */
  method DecodeEntity(buf: array<char>, p: nat, q: nat, end: nat) returns (p': nat)
    requires q <= p < end < buf.Length && buf[end] == NUL && buf[p] == '&'
    modifies buf
    ensures q < p' <= end
    ensures forall i :: 0 <= i < buf.Length && i != q ==> buf[i] == old(buf[i])
    ensures match EntityAt(old(buf[p..end]), 0)
            case Some(i) => p' == p + |ENTITIES[i].0| + 2 && buf[q] == ENTITIES[i].1
            case None => p' == p + 1 && buf[q] == old(buf[q])
  {
    var entity := FindEntity(buf, p, end);
    p' := p + 1;
    if entity.Some? {
      buf[q] := ENTITIES[entity.value].1;
      p' := p + |ENTITIES[entity.value].0| + 2;
    }
  }

  /** The numeric reference branch: the decoded bytes are copied over the start of the reference. */
  method DecodeReference(buf: array<char>, p: nat, q: nat, end: nat) returns (p': nat, q': nat)
    requires q <= p < end < buf.Length && buf[end] == NUL && buf[p] == '&'
    modifies buf
    ensures q <= q' <= p' <= end
    ensures forall i :: 0 <= i < buf.Length && !(q <= i < q') ==> buf[i] == old(buf[i])
    ensures match CharacterRef(old(buf[p..end]))
            case Rejected => p' == p + 1 && q' == q + 1 && buf[q..q'] == "&"
            case Dropped => p' == p + 1 && q' == q
            case Decoded(code, used) => p' == p + used && q' == q + |Utf8(code)| && buf[q..q'] == Utf8(code)
  {
    hide CharacterRef, Utf8;
    ghost var s := buf[p..end];
    var value := new char[10];
    var adjusted, len := GetCharacterRef(buf, p, end, value);
    if adjusted.None? {
      buf[q] := buf[p];
      return p + 1, q + 1;
    }
    if CharacterRef(s).Decoded? {
      EncodedFits(s);
    }
    p' := adjusted.value;
    forall k | 0 <= k < len {
      buf[q + k] := value[k];
    }
    q' := q + len;
    assert buf[q..q'] == value[..len];
  }

  /** CollapseWhitespace on the C string at `start`, whose NUL lies at or before `end`. */
  method CollapseWhitespace(buf: array<char>, start: nat, end: nat) returns (newStart: nat)
    requires start <= end < buf.Length && buf[end] == NUL
    modifies buf
    ensures start <= newStart <= end
    ensures forall i :: 0 <= i < buf.Length && !(start <= i < end) ==> buf[i] == old(buf[i])
    ensures CString(buf[newStart..end]) == Collapse(CString(old(buf[start..end])))
  {
    ghost var text := CString(buf[start..end]);
    CStringEnd(buf, start, end);
    hide CString, CollapseRest, WhiteLead, HoldsCString;
    newStart := SkipInBuffer(buf, start, text);
    ghost var out := SkipWhite(text);
    CursorAt(buf, newStart, out);
    if buf[newStart] != NUL {
      out := CollapseInPlace(buf, newStart, out);
    } else {
      CollapseNothing(out);
    }
    BufferCString(buf, newStart, end, out);
  }

  /** A buffer that is NUL-terminated at `end` holds a C string that ends there or before. */
  lemma CStringEnd(buf: array<char>, start: nat, end: nat)
    requires start <= end < buf.Length && buf[end] == NUL
    ensures HoldsCString(buf, start, CString(buf[start..end])) && start + |CString(buf[start..end])| <= end
  {
    var s := buf[start..end];
    assert CString(s) <= s;
  }

  lemma CollapseNothing(rest: string)
    ensures rest == "" ==> CollapseRest(rest) == ""
  {
  }

  lemma BufferCString(buf: array<char>, start: nat, end: nat, out: string)
    requires HoldsCString(buf, start, out) && start + |out| <= end < buf.Length
    ensures CString(buf[start..end]) == out
  {
    assert out <= buf[start..end];
    CStringUpTo(buf[start..end], out);
  }

  /** The bytes of the buffer from `p` on are `s`. */
  ghost predicate Holds(buf: array<char>, p: nat, s: string)
    reads buf
  {
    p + |s| <= buf.Length && forall i :: 0 <= i < |s| ==> buf[p + i] == s[i]
  }

  /** The C string at `p` is `s`. */
  ghost predicate HoldsCString(buf: array<char>, p: nat, s: string)
    reads buf
  {
    Holds(buf, p, s) && NulFree(s) && p + |s| < buf.Length && buf[p + |s|] == NUL
  }

  lemma HoldsSuffix(buf: array<char>, p: nat, s: string, n: nat)
    requires HoldsCString(buf, p, s) && n <= |s|
    ensures HoldsCString(buf, p + n, s[n..])
    ensures Cursor(buf, p + n, s[n..])
    ensures Holds(buf, p, "")
  {
    assert n < |s| ==> buf[p + n] == s[n] && s[n] in s;
  }

  lemma CursorAt(buf: array<char>, p: nat, s: string)
    requires HoldsCString(buf, p, s)
    ensures Cursor(buf, p, s)
  {
    assert s != "" ==> s[0] in s;
  }

  /** What one read at the cursor tells about the rest of the C string. */
  ghost predicate Cursor(buf: array<char>, p: nat, rest: string)
    reads buf
  {
    p < buf.Length && (buf[p] == NUL <==> rest == "") && (rest != "" ==> buf[p] == rest[0])
  }

  /** One write behind the read pointer. */
  method Put(buf: array<char>, ghost first: nat, q: nat, c: char, ghost out: string, ghost p: nat, ghost rest: string)
    requires q == first + |out| < p && Holds(buf, first, out) && HoldsCString(buf, p, rest)
    modifies buf
    ensures Holds(buf, first, out + [c]) && HoldsCString(buf, p, rest) && Cursor(buf, p, rest)
    ensures forall i :: 0 <= i < buf.Length && i != q ==> buf[i] == old(buf[i])
  {
    buf[q] := c;
    assert rest != "" ==> rest[0] in rest;
  }

  /** The byte at the read pointer copied to the write pointer. */
  method CopyInk(buf: array<char>, ghost first: nat, p: nat, q: nat, ghost out: string, ghost rest: string)
    requires q == first + |out| <= p && Holds(buf, first, out) && NulFree(out)
    requires HoldsCString(buf, p, rest) && Cursor(buf, p, rest) && rest != ""
    modifies buf
    ensures Holds(buf, first, out + [rest[0]]) && NulFree(out + [rest[0]])
    ensures HoldsCString(buf, p + 1, rest[1..]) && Cursor(buf, p + 1, rest[1..])
    ensures forall i :: 0 <= i < buf.Length && i != q ==> buf[i] == old(buf[i])
  {
    assert rest[0] in rest && NulFree(rest);
    hide Holds, HoldsCString;
    HoldsSuffix(buf, p, rest, 1);
    Put(buf, first, q, buf[p], out, p + 1, rest[1..]);
  }

  method Terminate(buf: array<char>, ghost first: nat, q: nat, ghost out: string)
    requires q == first + |out| < buf.Length && Holds(buf, first, out) && NulFree(out)
    modifies buf
    ensures HoldsCString(buf, first, out)
    ensures forall i :: 0 <= i < buf.Length && i != q ==> buf[i] == old(buf[i])
  {
    buf[q] := NUL;
  }

  /** The collapsing loop on the C string `body` at `first`. */
  method CollapseInPlace(buf: array<char>, first: nat, ghost body: string) returns (ghost out: string)
    requires HoldsCString(buf, first, body)
    modifies buf
    ensures out == CollapseRest(body) && |out| <= |body|
    ensures HoldsCString(buf, first, out)
    ensures forall i :: 0 <= i < buf.Length && !(first <= i < first + |body|) ==> buf[i] == old(buf[i])
  {
    hide CollapseRest, WhiteLead, Holds, HoldsCString, IsWhiteSpace;
    out := "";
    ghost var rest := body;
    ghost var stop := first + |body|;
    HoldsSuffix(buf, first, body, 0);
    assert body[0..] == body;
    var p, q := first, first;
    while buf[p] != NUL
      invariant q == first + |out| <= p && p + |rest| == stop
      invariant HoldsCString(buf, p, rest) && Cursor(buf, p, rest)
      invariant Holds(buf, first, out) && NulFree(out)
      invariant forall i :: 0 <= i < buf.Length && !(first <= i < q) ==> buf[i] == old(buf[i])
      invariant CollapseRest(body) == out + CollapseRest(rest)
      decreases stop - p
    {
      if IsWhiteSpace(buf[p]) {
        p := SkipInBuffer(buf, p, rest);
        HoldsSuffix(buf, p - WhiteLead(rest), rest, WhiteLead(rest));
        if buf[p] == NUL {
          CollapseEnd(rest);
          rest := "";
          break;
        }
        CollapseGap(rest, out);
        rest := SkipWhite(rest);
        Put(buf, first, q, ' ', out, p, rest);
        q := q + 1;
        out := out + [' '];
      }
      CollapseInk(rest, out);
      CopyInk(buf, first, p, q, out, rest);
      q := q + 1;
      p := p + 1;
      out, rest := out + [rest[0]], rest[1..];
    }
    CollapseNothing(rest);
    assert out + "" == out;
    Terminate(buf, first, q, out);
  }

  lemma CollapseEnd(rest: string)
    requires SkipWhite(rest) == ""
    ensures CollapseRest(rest) == ""
  {
  }

  lemma CollapseOne(rest: string)
    requires rest != "" && IsWhiteSpace(rest[0]) && SkipWhite(rest) != ""
    ensures CollapseRest(rest) == [' '] + CollapseRest(SkipWhite(rest))
  {
    var t := SkipWhite(rest);
    hide WhiteLead, IsWhiteSpace;
    assert !IsWhiteSpace(t[0]);
    assert CollapseRest(t) == [t[0]] + CollapseRest(t[1..]);
    assert [' ', t[0]] + CollapseRest(t[1..]) == [' '] + ([t[0]] + CollapseRest(t[1..]));
  }

  lemma CollapseInk(rest: string, out: string)
    requires rest != "" && !IsWhiteSpace(rest[0])
    ensures out + CollapseRest(rest) == out + [rest[0]] + CollapseRest(rest[1..])
  {
    Reassociate(out, [rest[0]], CollapseRest(rest[1..]));
  }

  lemma CollapseGap(rest: string, out: string)
    requires rest != "" && IsWhiteSpace(rest[0]) && SkipWhite(rest) != ""
    ensures out + CollapseRest(rest) == out + [' '] + CollapseRest(SkipWhite(rest))
  {
    var t := SkipWhite(rest);
    CollapseOne(rest);
    hide CollapseRest, WhiteLead, IsWhiteSpace;
    Reassociate(out, [' '], CollapseRest(t));
  }

  /** SkipWhiteSpace with a cursor. */
  method SkipInBuffer(buf: array<char>, p: nat, ghost s: string) returns (next: nat)
    requires HoldsCString(buf, p, s)
    ensures next == p + WhiteLead(s) && HoldsCString(buf, next, SkipWhite(s))
  {
    next := p;
    while IsWhiteSpace(buf[next])
      invariant p <= next <= p + |s|
      invariant forall i :: p <= i < next ==> IsWhiteSpace(buf[i])
      decreases p + |s| - next
    {
      next := next + 1;
    }
    WhiteLeadIs(s, next - p);
  }
}
