/** Which bytes are white space, names and markup to the parser, and where white space makes no difference. What is said
    here names the bytes themselves. */
module XmlBytes {
  import opened Optional
  import opened XmlChars
  import opened BlankBytes
  import opened StringDecoding
  import opened Dom
  import opened XmlParsing
  import Layout
  import RoundTrip

  // ---------------------------------------------------------------------------------------------
  // Names
  // ---------------------------------------------------------------------------------------------

  predicate IsLetter(c: char) {
    c in "ABCDEFGHIJKLM" || c in "NOPQRSTUVWXYZ" || c in "abcdefghijklm" || c in "nopqrstuvwxyz"
  }

  predicate StartsName(c: char) {
    IsLetter(c) || c == '_' || c == ':' || c as int >= 128
  }

  predicate ContinuesName(c: char) {
    StartsName(c) || c in "0123456789.-"
  }

  predicate IsName(s: string) {
    s != "" && StartsName(s[0]) && forall i :: 0 <= i < |s| ==> ContinuesName(s[i])
  }

  lemma BlankIsWhite(c: char)
    ensures IsBlank(c) <==> IsWhiteSpace(c)
  {
  }

  lemma BlanksAreWhite(g: string)
    ensures Blanks(g) <==> AllWhite(g)
  {
    hide IsBlank, IsWhiteSpace;
    forall c: char
      ensures IsBlank(c) <==> IsWhiteSpace(c)
    {
      BlankIsWhite(c);
    }
  }

  lemma Letters(c: char)
    ensures IsLetter(c) <==> 'A' <= c <= 'Z' || 'a' <= c <= 'z'
  {
    UpperLetters(c);
    LowerLetters(c);
  }

  lemma UpperLetters(c: char)
    ensures c in "ABCDEFGHIJKLM" <==> 'A' <= c <= 'M'
    ensures c in "NOPQRSTUVWXYZ" <==> 'N' <= c <= 'Z'
  {
  }

  lemma LowerLetters(c: char)
    ensures c in "abcdefghijklm" <==> 'a' <= c <= 'm'
    ensures c in "nopqrstuvwxyz" <==> 'n' <= c <= 'z'
  {
  }

  lemma NameBytes(c: char)
    ensures StartsName(c) <==> IsNameStartChar(c)
    ensures ContinuesName(c) <==> IsNameChar(c)
  {
    hide IsLetter;
    Letters(c);
    NameDigits(c);
  }

  lemma NameDigits(c: char)
    ensures c in "0123456789.-" <==> '0' <= c <= '9' || c == '.' || c == '-'
  {
  }

  lemma NamesAreLegal(s: string)
    ensures IsName(s) <==> Layout.LegalName(s)
  {
    hide StartsName, ContinuesName, IsNameStartChar, IsNameChar;
    forall c: char
      ensures (StartsName(c) <==> IsNameStartChar(c)) && (ContinuesName(c) <==> IsNameChar(c))
    {
      NameBytes(c);
    }
  }

  // ---------------------------------------------------------------------------------------------
  // Where blanks make no difference, whatever follows
  // ---------------------------------------------------------------------------------------------

  lemma BlanksAreSkipped(g: string, s: string)
    requires Blanks(g)
    ensures SkipWhite(g + s) == SkipWhite(s)
  {
    BlanksAreWhite(g);
    RoundTrip.SkipMore(g, s);
  }

  /** In front of markup, or at the end of the input: for the child loop, errors included. */
  lemma InFrontOfMarkup(options: Options, g: string, s: string, isDocument: bool, depth: nat, before: seq<Node>)
    requires Blanks(g) && (s == "" || s[0] == '<' || s[0] == '\0')
    ensures ParseLoop(options, g + s, isDocument, depth, before) == ParseLoop(options, s, isDocument, depth, before)
  {
    hide ParseLoop;
    BlanksAreWhite(g);
    RoundTrip.SkipNothing(s);
    RoundTrip.WhiteIsPassed(options, g, s, isDocument, depth, before);
  }

  /** In front of a document. */
  lemma InFrontOfDocument(options: Options, g: string, text: string)
    requires Blanks(g)
    ensures ParseDocument(options, g + text) == ParseDocument(options, text)
  {
    hide ParseDocument, SkipWhite, Blanks, AtEnd;
    BlanksAreSkipped(g, text);
    if AtEnd(SkipWhite(text)) {
      NothingIsThere(options, g + text);
      NothingIsThere(options, text);
    } else {
      SomethingIsThere(options, g + text, text);
    }
  }

  lemma NothingIsThere(options: Options, text: string)
    requires AtEnd(SkipWhite(text))
    ensures ParseDocument(options, text) == ParseError(EmptyDocument)
  {
    hide ParseDeep, SkipWhite, StartsWith;
    PrefixDiffers(SkipWhite(text), BOM, 0);
  }

  /** A document is read from its first byte that is no white space on. */
  lemma SomethingIsThere(options: Options, a: string, b: string)
    requires SkipWhite(a) == SkipWhite(b) && !AtEnd(SkipWhite(a))
    ensures ParseDocument(options, a) == ParseDocument(options, b)
  {
    hide ParseDeep, SkipWhite, StartsWith, AtEnd;
    EndStays(a);
    EndStays(b);
  }

  lemma EndStays(s: string)
    ensures AtEnd(s) ==> AtEnd(SkipWhite(s))
  {
    hide SkipWhite;
    if AtEnd(s) {
      RoundTrip.SkipNothing(s);
    }
  }

  /** In front of an attribute or the end of a tag. */
  lemma InFrontOfAttribute(options: Options, g: string, s: string, attributes: seq<Attribute>)
    requires Blanks(g)
    ensures ParseAttributes(options, g + s, attributes) == ParseAttributes(options, s, attributes)
  {
    hide WhiteLead, ParseAttribute, HasAttribute, IsNameStartChar;
    BlanksAreSkipped(g, s);
  }

  /** Between a tag's `<` and its name, which is laxer than section 3.1 of XML 1.0. */
  lemma InFrontOfName(options: Options, g: string, s: string, depth: nat)
    requires Blanks(g)
    ensures ParseElement(options, g + s, depth) == ParseElement(options, s, depth)
  {
    hide WhiteLead, NameLength, ParseAttributes, ParseDeep;
    BlanksAreSkipped(g, s);
  }

  /** Around the equals sign of an attribute. */
  lemma AroundEquals(options: Options, name: string, g: string, h: string, s: string)
    requires IsName(name) && Blanks(g) && Blanks(h)
    ensures ParseAttribute(options, name + (g + ("=" + (h + s)))) == ParseAttribute(options, name + ("=" + s))
  {
    hide NameLength, FindTag, StringDecoding.Eager, ToQuote, IsName;
    NamesAreLegal(name);
    EqualsIsReached(g, h, s);
    EqualsIsReached("", "", s);
    assert "" + ("=" + ("" + s)) == "=" + s;
    GapEndsName(g, "=" + (h + s));
    GapEndsName("", "=" + s);
    RoundTrip.NameIsRead(name, g + ("=" + (h + s)));
    RoundTrip.NameIsRead(name, "=" + s);
  }

  lemma EqualsIsReached(g: string, h: string, s: string)
    requires Blanks(g) && Blanks(h)
    ensures ToQuote(g + ("=" + (h + s))) == Some(SkipWhite(s))
  {
    hide WhiteLead;
    BlanksAreSkipped(g, "=" + (h + s));
    BlanksAreSkipped(h, s);
    RoundTrip.SkipNothing("=" + (h + s));
    assert ("=" + (h + s))[1..] == h + s;
  }

  /** Neither a blank nor an equals sign is part of a name. */
  lemma GapEndsName(g: string, s: string)
    requires Blanks(g) && s != "" && s[0] == '='
    ensures !IsNameChar(At(g + s, 0))
  {
    assert (g + s)[0] == if g == "" then '=' else g[0];
  }

  // ---------------------------------------------------------------------------------------------
  // What no blank is
  // ---------------------------------------------------------------------------------------------

  /** Any other byte starts a text, which keeps the blanks in front of it. */
  lemma TextStarts(g: string, s: string)
    requires Blanks(g) && s != "" && !IsBlank(s[0]) && s[0] != '<' && s[0] != '\0'
    ensures Identify(g + s) == Some((StartLeaf(Text), g + s))
  {
    hide WhiteLead;
    BlanksAreSkipped(g, s);
    BlankIsWhite(s[0]);
    RoundTrip.SkipNothing(s);
    hide Identify;
    RoundTrip.IdentifyText(g + s);
  }

  /** In a tag, a byte that is no blank, starts no name and ends no tag is an error. */
  lemma NothingElseInTag(options: Options, g: string, s: string, attributes: seq<Attribute>)
    requires Blanks(g) && s != "" && !IsBlank(s[0]) && !StartsName(s[0]) && s[0] != '>' && s[0] != '/'
    ensures ParseAttributes(options, g + s, attributes) == TagError(ParsingElement)
  {
    hide WhiteLead, ParseAttribute, HasAttribute, StartsName, IsNameStartChar;
    BlanksAreSkipped(g, s);
    BlankIsWhite(s[0]);
    NameBytes(s[0]);
    RoundTrip.SkipNothing(s);
  }

  /** `t` occurs in `s`. */
  ghost predicate Occurs(t: string, s: string) {
    exists i: nat :: OccursAt(t, s, i)
  }

  predicate OccursAt(t: string, s: string, i: nat) {
    i + |t| <= |s| && s[i..i + |t|] == t
  }

  lemma {:induction false} FoundIfOccurs(s: string, t: string)
    requires NulFree(s) && t != "" && NulFree(t)
    ensures FindTag(s, t).Some? <==> Occurs(t, s)
    decreases |s|
  {
    if s == "" {
    } else if StartsWith(s, t) {
      assert OccursAt(t, s, 0);
    } else {
      FoundIfOccurs(s[1..], t);
      OccursLater(s, t);
      hide Occurs;
    }
  }

  lemma OccursLater(s: string, t: string)
    requires s != "" && t != "" && !StartsWith(s, t)
    ensures Occurs(t, s) <==> Occurs(t, s[1..])
  {
    if Occurs(t, s) {
      var i: nat :| OccursAt(t, s, i);
      assert i > 0;
      assert s[1..][i - 1..i - 1 + |t|] == s[i..i + |t|];
      assert OccursAt(t, s[1..], i - 1);
    }
    if Occurs(t, s[1..]) {
      var i: nat :| OccursAt(t, s[1..], i);
      assert s[i + 1..i + 1 + |t|] == s[1..][i..i + |t|];
      assert OccursAt(t, s, i + 1);
    }
  }

  /** A comment, section, declaration or unknown that nothing ends is an error of its kind, and so is a text. */
  lemma Unterminated(options: Options, g: string, s: string, isDocument: bool, depth: nat, before: seq<Node>)
    requires Blanks(g) && NulFree(s)
    ensures !Occurs("-->", s) ==>
              ParseLoop(options, g + ("<!--" + s), isDocument, depth, before) == Failed(ParsingComment)
    ensures !Occurs("]]>", s) ==>
              ParseLoop(options, g + ("<![CDATA[" + s), isDocument, depth, before) == Failed(ParsingCData)
    ensures !Occurs("?>", s) ==>
              ParseLoop(options, g + ("<?" + s), isDocument, depth, before) == Failed(ParsingDeclaration)
    ensures !Occurs(">", s) && At(s, 0) != '-' && At(s, 0) != '[' ==>
              ParseLoop(options, g + ("<!" + s), isDocument, depth, before) == Failed(ParsingUnknown)
    ensures !Occurs("<", s) && s != "" && !IsBlank(s[0]) ==>
              ParseLoop(options, g + s, isDocument, depth, before) == Failed(ParsingText)
  {
    hide ParseLoop, FindTag, Occurs;
    UnterminatedLeaf(options, g, Comment, s, isDocument, depth, before);
    UnterminatedLeaf(options, g, CData, s, isDocument, depth, before);
    UnterminatedLeaf(options, g, Declaration, s, isDocument, depth, before);
    if At(s, 0) != '-' && At(s, 0) != '[' {
      PrefixDiffers(s, "--", 0);
      PrefixDiffers(s, "[CDATA[", 0);
      UnterminatedLeaf(options, g, Unknown, s, isDocument, depth, before);
    }
    UnterminatedText(options, g, s, isDocument, depth, before);
  }

  lemma UnterminatedLeaf(options: Options, g: string, kind: LeafKind, s: string, isDocument: bool, depth: nat,
                         before: seq<Node>)
    requires Blanks(g) && NulFree(s) && !kind.Text?
    requires kind.Unknown? ==> !StartsWith(s, "--") && !StartsWith(s, "[CDATA[")
    ensures !Occurs(EndOf(kind), s) ==>
              ParseLoop(options, g + (Layout.HeaderOf(kind) + s), isDocument, depth, before) == Failed(LeafError(kind))
  {
    hide Identify, FindTag, Occurs, StartsWith;
    BlanksAreWhite(g);
    FoundIfOccurs(s, EndOf(kind));
    RoundTrip.HeaderIsIdentified(g, kind, s);
    NotAtEnd(g, Layout.HeaderOf(kind) + s);
  }

  lemma UnterminatedText(options: Options, g: string, s: string, isDocument: bool, depth: nat, before: seq<Node>)
    requires Blanks(g) && NulFree(s)
    ensures !Occurs("<", s) && s != "" && !IsBlank(s[0]) ==>
              ParseLoop(options, g + s, isDocument, depth, before) == Failed(ParsingText)
  {
    hide Identify, FindTag, Occurs;
    if !Occurs("<", s) && s != "" && !IsBlank(s[0]) {
      FoundIfOccurs(g + s, "<");
      NoTagInBlanks(g, s);
      TextStarts(g, s);
      NotAtEnd(g, s);
    }
  }

  lemma NoTagInBlanks(g: string, s: string)
    requires Blanks(g) && NulFree(s)
    ensures NulFree(g + s) && (Occurs("<", g + s) ==> Occurs("<", s))
    ensures s != "" && s[0] == '<' ==> Occurs("<", s)
  {
    if Occurs("<", g + s) {
      var i: nat :| OccursAt("<", g + s, i);
      assert (g + s)[i] == (g + s)[i..i + 1][0] == '<';
      NoTagInGap(g, s);
      assert s[i - |g|] == '<' && s[i - |g|..i - |g| + 1] == [s[i - |g|]];
      assert OccursAt("<", s, i - |g|);
    }
    if s != "" && s[0] == '<' {
      assert OccursAt("<", s, 0);
    }
  }

  lemma NoTagInGap(g: string, s: string)
    requires Blanks(g)
    ensures forall i :: 0 <= i < |g| ==> (g + s)[i] != '<'
  {
  }

  lemma NotAtEnd(g: string, s: string)
    requires Blanks(g) && !AtEnd(s)
    ensures !AtEnd(g + s)
  {
    assert (g + s)[0] == if g == "" then s[0] else g[0];
  }
}
