/** Entity escaping by the printer (XMLPrinter::PrintString) and why reading undoes it. */
module StringEscaping {
  import opened Optional
  import opened XmlChars
  import opened CharacterReferences
  import opened StringDecoding
  import WrittenValues

  /** The two flag tables of the printer: quotes are escaped in attribute values only. */
  predicate IsEscaped(restricted: bool, c: char) {
    c == '&' || c == '<' || c == '>' || (!restricted && (c == '\"' || c == '\''))
  }

  /** The table entry whose value is `c`. */
  function EntityIndex(c: char): (i: nat)
    requires IsEscaped(false, c)
    ensures i < |ENTITIES| && ENTITIES[i].1 == c
  {
    if c == '\"' then 0 else if c == '&' then 1 else if c == '\'' then 2 else if c == '<' then 3 else 4
  }

  function EscapeChar(restricted: bool, c: char): string {
    if IsEscaped(restricted, c) then "&" + ENTITIES[EntityIndex(c)].0 + ";" else [c]
  }

  /** PrintString: with entity processing off the bytes go out unchanged. */
  function Escape(process: bool, restricted: bool, s: string): string {
    if !process then s
    else if s == "" then ""
    else EscapeChar(restricted, s[0]) + Escape(process, restricted, s[1..])
  }

  /** The table spells the five entities by their names, and nothing else. */
  lemma EscapedByName(restricted: bool, c: char)
    ensures EscapeChar(restricted, c) == WrittenValues.Escaped(restricted, c)
  {
    assert "&" + "amp" + ";" == "&amp;" && "&" + "lt" + ";" == "&lt;" && "&" + "gt" + ";" == "&gt;";
    assert "&" + "quot" + ";" == "&quot;" && "&" + "apos" + ";" == "&apos;";
  }

  lemma {:induction false} AllEscapedByName(restricted: bool, s: string)
    ensures Escape(true, restricted, s) == WrittenValues.AllEscaped(restricted, s)
  {
    hide EscapeChar;
    if s != "" {
      EscapedByName(restricted, s[0]);
      AllEscapedByName(restricted, s[1..]);
    }
  }

  lemma {:induction false} EscapeConcat(process: bool, restricted: bool, a: string, b: string)
    ensures Escape(process, restricted, a + b) == Escape(process, restricted, a) + Escape(process, restricted, b)
  {
    if process {
      if a == "" {
        assert a + b == b;
      } else {
        assert (a + b)[1..] == a[1..] + b;
        EscapeConcat(process, restricted, a[1..], b);
      }
    }
  }

  /** No escaped output contains a byte that the table replaces, except the ampersands it adds. */
  lemma {:induction false} EscapeRemoves(restricted: bool, s: string, c: char)
    requires IsEscaped(restricted, c) && c != '&'
    ensures c !in Escape(true, restricted, s)
  {
    if s != "" {
      EscapeRemoves(restricted, s[1..], c);
      EscapedCharRemoves(restricted, s[0], c);
      hide EscapeChar, IsEscaped;
    }
  }

  lemma EscapedCharRemoves(restricted: bool, d: char, c: char)
    requires IsEscaped(restricted, c) && c != '&'
    ensures c !in EscapeChar(restricted, d)
  {
  }

  lemma {:induction false} EscapeKeepsOut(process: bool, restricted: bool, s: string, c: char)
    requires c !in s && (c == NUL || c == CR)
    ensures c !in Escape(process, restricted, s)
  {
    if process && s != "" {
      EscapeKeepsOut(process, restricted, s[1..], c);
      assert c !in EscapeChar(restricted, s[0]);
    }
  }

  lemma {:induction false} EscapeWhite(process: bool, restricted: bool, gap: string)
    requires AllWhite(gap)
    ensures Escape(process, restricted, gap) == gap
  {
    if process && gap != "" {
      EscapeWhite(process, restricted, gap[1..]);
      assert gap == [gap[0]] + gap[1..];
    }
  }

  // ---------------------------------------------------------------------------------------------
  // Reading back
  // ---------------------------------------------------------------------------------------------

  /** The flags a value printed with this setting is read back with. */
  function ReadMode(process: bool): Mode {
    Mode(process, true, false)
  }

  lemma ReadEntity(c: char, rest: string)
    requires IsEscaped(false, c)
    ensures var i := EntityIndex(c);
            NextChunk(ReadMode(true), "&" + ENTITIES[i].0 + ";" + rest)
                == StringDecoding.Write([c], |ENTITIES[i].0| + 2)
  {
    var i := EntityIndex(c);
    var s := "&" + ENTITIES[i].0 + ";" + rest;
    ReadEntityFrom(i, 0, rest);
    assert s[0] == '&' && s[1] == ENTITIES[i].0[0];
  }

  lemma {:induction false} ReadEntityFrom(i: nat, j: nat, rest: string)
    requires j <= i < |ENTITIES|
    ensures EntityAt("&" + ENTITIES[i].0 + ";" + rest, j) == Some(i)
    decreases i - j
  {
    var pattern := ENTITIES[i].0;
    var s := "&" + pattern + ";" + rest;
    assert s[1..] == pattern + ";" + rest;
    assert forall k :: 0 <= k < |pattern| ==> s[1..][k] == pattern[k];
    if j == i {
      assert s[1..][..|pattern|] == pattern;
    } else {
      PatternsDiffer(i, j, s[1..]);
      ReadEntityFrom(i, j + 1, rest);
    }
  }

  lemma PatternsDiffer(i: nat, j: nat, s: string)
    requires j < i < |ENTITIES| && |ENTITIES[i].0| <= |s|
    requires forall k :: 0 <= k < |ENTITIES[i].0| ==> s[k] == ENTITIES[i].0[k]
    ensures !StartsWith(s, ENTITIES[j].0)
  {
    PrefixDiffers(s, ENTITIES[j].0, if i == 2 && j == 1 then 1 else 0);
  }

  /** How many bytes of `s` one step of newline normalization takes: CR LF and LF CR count as one line end. */
  function LineEnd(s: string): (n: nat)
    requires s != "" && (s[0] == CR || s[0] == LF)
    ensures 1 <= n <= |s|
  {
    if At(s, 1) == (if s[0] == CR then LF else CR) then 2 else 1
  }

  /** Newline normalization alone (section 2.11 of XML 1.0, with LF CR treated like CR LF as well). */
  function Normalize(s: string): (r: string)
    ensures CR !in r
    decreases |s|
  {
    if s == "" then ""
    else if s[0] == CR || s[0] == LF then [LF] + Normalize(s[LineEnd(s)..])
    else [s[0]] + Normalize(s[1..])
  }

  lemma {:induction false} NormalizeFixed(s: string)
    ensures Normalize(s) == s <==> CR !in s
  {
    if CR !in s && s != "" {
      NormalizeFixed(s[1..]);
      assert s == [s[0]] + s[1..];
    }
  }

  /** The escaped text starts with a line end byte exactly when the text does. */
  lemma EscapeHead(process: bool, restricted: bool, s: string, c: char)
    requires c == CR || c == LF
    ensures At(Escape(process, restricted, s), 0) == c <==> At(s, 0) == c
  {
  }

  lemma EscapeUnfold(process: bool, restricted: bool, s: string)
    requires s != "" && (s[0] == CR || s[0] == LF)
    ensures Escape(process, restricted, s) == [s[0]] + Escape(process, restricted, s[1..])
  {
    assert s == [s[0]] + s[1..];
  }

  /** One line end is taken from the escaped text as from the text. */
  lemma EscapeLineEnd(process: bool, restricted: bool, s: string)
    requires s != "" && (s[0] == CR || s[0] == LF)
    ensures var e := Escape(process, restricted, s);
            && e != "" && e[0] == s[0] && LineEnd(e) == LineEnd(s)
            && e[LineEnd(s)..] == Escape(process, restricted, s[LineEnd(s)..])
  {
    EscapeUnfold(process, restricted, s);
    EscapeHead(process, restricted, s[1..], if s[0] == CR then LF else CR);
    hide Escape;
    var e, rest := Escape(process, restricted, s), Escape(process, restricted, s[1..]);
    SameLineEnd(s, e, if s[0] == CR then LF else CR);
    hide LineEnd;
    assert e[1..] == rest;
    if LineEnd(s) == 2 {
      EscapeUnfold(process, restricted, s[1..]);
      assert s[1..][1..] == s[2..];
      assert e[2..] == rest[1..];
    }
  }

  lemma SameLineEnd(s: string, e: string, other: char)
    requires s != "" && e != "" && e[0] == s[0] && ((s[0] == CR && other == LF) || (s[0] == LF && other == CR))
    requires At(e[1..], 0) == other <==> At(s[1..], 0) == other
    ensures LineEnd(e) == LineEnd(s) && 1 <= LineEnd(s) <= |s|
    ensures LineEnd(s) == 2 ==> s[1] == other
  {
  }

  lemma ReadLineEnd(process: bool, e: string)
    requires e != "" && (e[0] == CR || e[0] == LF)
    ensures NextChunk(ReadMode(process), e) == StringDecoding.Write([LF], LineEnd(e))
  {
  }

  /** Any other byte is read back in one step. */
  lemma ReadByte(process: bool, restricted: bool, c: char, rest: string)
    requires c != CR && c != LF
    ensures var piece := if process then EscapeChar(restricted, c) else [c];
            NextChunk(ReadMode(process), piece + rest) == StringDecoding.Write([c], |piece|)
            && (process && piece[0] == '&' ==> |piece| > 1)
  {
    if process && IsEscaped(restricted, c) {
      ReadEntity(c, rest);
    }
  }

  /** Decoding what was printed is newline normalization, on every string, and never meets an unknown ampersand. */
  lemma {:induction false} DecodeEscape(process: bool, restricted: bool, s: string)
    ensures Decode(ReadMode(process), Escape(process, restricted, s)) == Normalize(s)
    ensures Resolvable(ReadMode(process), Escape(process, restricted, s))
    decreases |s|
  {
    hide NextChunk;
    if s != "" {
      if s[0] == CR || s[0] == LF {
        EscapeLineEnd(process, restricted, s);
        ReadLineEnd(process, Escape(process, restricted, s));
        DecodeEscape(process, restricted, s[LineEnd(s)..]);
      } else {
        var piece := if process then EscapeChar(restricted, s[0]) else [s[0]];
        var rest := Escape(process, restricted, s[1..]);
        DecodeEscape(process, restricted, s[1..]);
        ReadByte(process, restricted, s[0], rest);
        assert Escape(process, restricted, s) == piece + rest by {
          assert s == [s[0]] + s[1..];
        }
        assert (piece + rest)[|piece|..] == rest;
      }
    }
  }

  /** What a caller of GetStr sees of a printed string: the string itself exactly when it holds neither CR nor NUL. */
  lemma ReadBack(process: bool, restricted: bool, s: string)
    ensures Eager(ReadMode(process), Escape(process, restricted, s)) == CString(Normalize(s))
    ensures Eager(ReadMode(process), Escape(process, restricted, s)) == s <==> CR !in s && NulFree(s)
  {
    DecodeEscape(process, restricted, s);
    ResolvableDecodes(ReadMode(process), Escape(process, restricted, s));
    NormalizeFixed(s);
    CStringKeeps(Normalize(s), CR);
  }

  lemma CStringKeeps(s: string, c: char)
    requires c !in s
    ensures c !in CString(s)
  {
    var r := CString(s);
    assert r == s[..|r|];
  }

  /** Comments, declarations, CDATA sections and unknowns only have their line ends normalized. */
  lemma ReadBackVerbatim(s: string)
    ensures Eager(NEWLINES, s) == CString(Normalize(s))
    ensures Eager(NEWLINES, s) == s <==> CR !in s && NulFree(s)
  {
    assert ReadMode(false) == NEWLINES && Escape(false, true, s) == s;
    ReadBack(false, true, s);
  }

  lemma {:induction false} NormalizeKeepsOut(s: string, c: char)
    requires c !in s && c != LF
    ensures c !in Normalize(s)
    decreases |s|
  {
    if s != "" {
      NormalizeKeepsOut(if s[0] == CR || s[0] == LF then s[LineEnd(s)..] else s[1..], c);
    }
  }

  /** A printed string without NUL is read back with its line ends normalized. */
  lemma ReadNormalized(process: bool, restricted: bool, s: string)
    requires NulFree(s)
    ensures Eager(ReadMode(process), Escape(process, restricted, s)) == Normalize(s)
    ensures Eager(NEWLINES, s) == Normalize(s)
  {
    ReadBack(process, restricted, s);
    ReadBackVerbatim(s);
    NormalizeKeepsOut(s, NUL);
  }
}
