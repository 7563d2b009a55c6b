/** The recursive-descent parser on its mutable buffer (XMLDocument, XMLNode, XMLElement and XMLAttribute).

    Names are flushed in place while parsing goes on (a NUL overwrites the byte behind them); every other string
    stays a range of the buffer.  Each method is proved to make of the text what the function of the same name in
    XmlParsing does. */
module XmlParsers {
  import opened Optional
  import opened XmlChars
  import opened StringDecoding
  import opened Dom
  import opened LazyDom
  import opened XmlParsing
  import Layout
  import Spec = XmlParsing
  import W = WrittenDocuments

  // ---------------------------------------------------------------------------------------------
  // Text and positions
  // ---------------------------------------------------------------------------------------------

  lemma Suffix(text: string, p: nat, n: nat)
    requires p <= |text| && n <= |text| - p
    ensures text[p..][n..] == text[p + n..] && text[p..][..n] == text[p..p + n]
  {
  }

  lemma {:induction false} NoLineFeeds(s: string)
    requires LF !in s
    ensures CountLf(s) == 0
  {
    if s != "" {
      NoLineFeeds(s[1..]);
    }
  }

  lemma SameLine(text: string, p: nat, q: nat)
    requires p <= q <= |text| && LF !in text[p..q]
    ensures LineAt(text, q) == LineAt(text, p)
  {
    LineAdvances(text, p, q);
    NoLineFeeds(text[p..q]);
  }

  lemma NextLine(text: string, p: nat)
    requires p < |text|
    ensures LineAt(text, p + 1) == LineAt(text, p) + if text[p] == LF then 1 else 0
  {
    LineAdvances(text, p, p + 1);
    assert text[p..p + 1] == [text[p]];
    assert [text[p]][1..] == "";
    assert CountLf([text[p]]) == if text[p] == LF then 1 else 0;
  }

  lemma NamesHaveNoLineFeeds(s: string, n: nat)
    requires n == NameLength(s)
    ensures LF !in s[..n] && NulFree(s[..n])
  {
    forall i | 0 <= i < n
      ensures s[i] != LF && s[i] != NUL
    {
      assert i > 0 ==> s[i] == s[1..][i - 1];
    }
  }

  lemma PlainName(s: string)
    requires NulFree(s)
    ensures Eager(PLAIN, s) == s
  {
    PlainDecode(s, 0, "");
  }

  lemma IntactFrame(a: seq<char>, b: seq<char>, text: string, ss: seq<StrPair>, hi: nat)
    requires AllIntact(a, text, ss) && |a| == |b|
    requires forall i :: 0 <= i < |ss| ==> ss[i].end < hi
    requires forall i :: 0 <= i < |a| && i < hi ==> a[i] == b[i]
    ensures AllIntact(b, text, ss)
  {
  }

  lemma IntactConcat(b: seq<char>, text: string, ss: seq<StrPair>, tt: seq<StrPair>)
    requires AllIntact(b, text, ss) && AllIntact(b, text, tt)
    ensures AllIntact(b, text, ss + tt)
  {
  }

  /** One past every range read before position `p`: plain text ends at the markup that follows it. */
  function Bound(text: string, p: nat): nat {
    if At(text, p) == '<' then p + 1 else p
  }

  class XmlParser {
    const options: Options
    const buffer: array<char>
    ghost const text: string    // the bytes the buffer was filled with
    var errorID: Option<XmlError>
    var parseCurLineNum: nat
    var parsingDepth: nat

    /** From the cursor on, the buffer is untouched; the line counter counts the line feeds before it. */
    ghost predicate Ready(p: nat)
      reads this, buffer
    {
      && p <= |text| && buffer.Length == |text| + 1
      && (forall i :: p <= i <= |text| ==> buffer[i] == At(text, i))
      && parseCurLineNum == LineAt(text, p)
    }

    constructor (options: Options, content: string)
      ensures fresh(buffer) && this.options == options && text == content
      ensures buffer.Length == |text| + 1 && buffer[..|text|] == text && buffer[|text|] == NUL
      ensures errorID == None && parsingDepth == 0
    {
      this.options := options;
      text := content;
      var bytes := new char[|content| + 1];
      forall i | 0 <= i < |content| {
        bytes[i] := content[i];
      }
      bytes[|content|] := NUL;
      buffer := bytes;
      errorID, parseCurLineNum, parsingDepth := None, 0, 0;
    }

    method SkipWhiteSpace(p: nat) returns (q: nat)
      requires Ready(p)
      modifies this`parseCurLineNum
      ensures Ready(q) && q == p + WhiteLead(text[p..]) && text[q..] == SkipWhite(text[p..])
    {
      q := p;
      while IsWhiteSpace(buffer[q])
        invariant p <= q && Ready(q)
        invariant forall i :: p <= i < q ==> IsWhiteSpace(text[i])
        decreases |text| - q
      {
        NextLine(text, q);
        if buffer[q] == '\n' {
          parseCurLineNum := parseCurLineNum + 1;
        }
        q := q + 1;
      }
      Suffix(text, p, q - p);
      WhiteLeadIs(text[p..], q - p);
    }

    method LooksAt(p: nat, pattern: string) returns (b: bool)
      requires Ready(p) && NulFree(pattern)
      ensures b == StartsWith(text[p..], pattern)
    {
      assert buffer[p..|text|] == text[p..];
      b := Matches(buffer, p, buffer.Length - 1, pattern);
    }

    method ParseText(p: nat, endTag: string, mode: Mode) returns (pair: StrPair, next: Option<nat>)
      requires Ready(p) && endTag != "" && NulFree(endTag) && LF !in endTag
      modifies this`parseCurLineNum
      ensures match FindTag(text[p..], endTag)
              case None => next == None
              case Some(i) =>
                && next == Some(p + i + |endTag|) && Ready(p + i + |endTag|)
                && pair == StrPair(p, p + i, mode, true) && NulFree(text[p..p + i])
    {
      hide FindTag, LineAt, StartsWith;
      pair := StrPair(p, p, mode, true);
      var q := p;
      while buffer[q] != NUL
        invariant p <= q && Ready(q)
        invariant FindTag(text[p..], endTag).None? == FindTag(text[q..], endTag).None?
        invariant FindTag(text[p..], endTag).Some? ==>
                    FindTag(text[p..], endTag).value == q - p + FindTag(text[q..], endTag).value
        decreases |text| - q
      {
        var here := LooksAt(q, endTag);
        NextLine(text, q);
        if here {
          TagInFront(text[q..], endTag);
          TagHere(text, p, q, endTag);
          return StrPair(p, q, mode, true), Some(q + |endTag|);
        }
        TagLater(text, q, endTag);
        if buffer[q] == '\n' {
          parseCurLineNum := parseCurLineNum + 1;
        }
        q := q + 1;
      }
      NoTag(text, q, endTag);
      next := None;
    }

    /** The name at the cursor; a null cursor when there is none. */
    method ParseName(p: nat) returns (pair: StrPair, next: Option<nat>)
      requires Ready(p)
      ensures var n := NameLength(text[p..]);
              if n == 0 then next == None
              else
                && next == Some(p + n) && Ready(p + n) && pair == StrPair(p, p + n, PLAIN, true)
                && NulFree(text[p..p + n]) && !IsNameChar(At(text, p + n))
    {
      pair := StrPair(p, p, PLAIN, true);
      if !IsNameStartChar(buffer[p]) {
        return pair, None;
      }
      var q := p + 1;
      while IsNameChar(buffer[q])
        invariant p < q <= |text|
        invariant forall i :: p < i < q ==> IsNameChar(text[i])
        decreases |text| - q
      {
        q := q + 1;
      }
      NameEnds(text, p, q);
      return StrPair(p, q, PLAIN, true), Some(q);
    }

    /** Name() of an attribute or element: flushes the range on first use. */
    method ReadName(pair: StrPair) returns (read: StrPair)
      requires pair.start <= pair.end < buffer.Length && pair.mode == PLAIN
      requires Intact(buffer[..], text, pair)
      modifies buffer
      ensures read == pair.(needsFlush := false) && Intact(buffer[..], text, read)
      ensures forall i :: 0 <= i < buffer.Length && i != pair.end ==> buffer[i] == old(buffer[i])
      ensures !pair.needsFlush ==> buffer[..] == old(buffer[..])
    {
      read := pair;
      if pair.needsFlush {
        read := GetStr(buffer, pair);
      }
    }

    /** StringEqual on two C strings in the buffer. */
    method StringEqual(a: nat, b: nat, ghost x: string, ghost y: string) returns (same: bool)
      requires HoldsCString(buffer, a, x) && HoldsCString(buffer, b, y)
      ensures same == (x == y)
    {
      var n := 0;
      CStringAt(buffer, a, x, n);
      CStringAt(buffer, b, y, n);
      while buffer[a + n] == buffer[b + n] && buffer[a + n] != NUL
        invariant n <= |x| && n <= |y| && x[..n] == y[..n]
        invariant Cursor(buffer, a + n, x[n..]) && Cursor(buffer, b + n, y[n..])
        decreases |x| - n
      {
        assert x[n] == x[n..][0] && y[n] == y[n..][0];
        n := n + 1;
        CStringAt(buffer, a, x, n);
        CStringAt(buffer, b, y, n);
      }
      assert x == x[..n] + x[n..] && y == y[..n] + y[n..];
      return buffer[a + n] == buffer[b + n];
    }

    /** White space, `=`, white space. */
    method SkipToQuote(q: nat) returns (e: Option<nat>)
      requires Ready(q)
      modifies this`parseCurLineNum
      ensures match ToQuote(text[q..])
              case None => e == None
              case Some(t) => e.Some? && q < e.value && Ready(e.value) && text[e.value..] == t
    {
      hide ToQuote, WhiteLead, LineAt, IsWhiteSpace;
      var r := SkipWhiteSpace(q);
      QuoteAt(text, q, r);
      if buffer[r] != '=' {
        return None;
      }
      NextLine(text, r);
      r := SkipWhiteSpace(r + 1);
      return Some(r);
    }

    method ParseAttribute(p: nat) returns (attribute: LazyAttribute, next: Option<nat>)
      requires Ready(p) && IsNameStartChar(At(text, p))
      modifies this`parseCurLineNum
      ensures match Spec.ParseAttribute(options, text[p..])
              case None => next == None
              case Some((a, rest)) =>
                && next.Some? && Ready(next.value) && text[next.value..] == rest
                && AttributeRead(options, text, attribute, a, p, next.value)
    {
      hide Spec.ParseAttribute, NameLength, ToQuote, FindTag, Eager, LineAt, IsNameStartChar, IsNameChar, AttributeRead,
           NulFree, QuotedAt, AttributeMode;
      NameIsThere(text, p);
      var line := parseCurLineNum;
      var name, q := ParseName(p);
      attribute := LazyAttribute(name, name, line);
      var e := SkipToQuote(q.value);
      AttributeAt(options, text, p, q.value, e);
      if e.None? || (buffer[e.value] != '\"' && buffer[e.value] != '\'') {
        return attribute, None;
      }
      NextLine(text, e.value);
      var value;
      QuoteIsTag(buffer[e.value]);
      value, next := ParseText(e.value + 1, [buffer[e.value]], AttributeMode(options));
      attribute := LazyAttribute(name, value, line);
      QuotedIs(options, text, p, q.value, e.value, if next.Some? then Some(value.end) else None);
      if next.Some? {
        AttributeIsRead(options, text, p, q.value, e.value, value.end);
      }
    }

    /** Attribute(name): walks the list and compares. */
    method FindAttribute(attributes: seq<LazyAttribute>, name: StrPair, ghost read: seq<Attribute>)
        returns (found: bool)
      requires buffer.Length == |text| + 1 && read == EagerAttributes(text, attributes)
      requires AllIntact(buffer[..], text, AttributeSpans(attributes)) && NamesFlushed(attributes)
      requires !name.needsFlush && Intact(buffer[..], text, name)
      ensures found == HasAttribute(read, EagerString(text, name))
    {
      hide EagerString, Intact, NulFree, EagerAttributes, AttributeSpans, HoldsCString;
      var i := 0;
      NameInBuffer(buffer, text, name);
      while i < |attributes|
        invariant i <= |attributes|
        invariant forall j :: 0 <= j < i ==> read[j].name != EagerString(text, name)
      {
        AttributeSpanAt(attributes, i);
        NameInBuffer(buffer, text, attributes[i].name);
        var same := StringEqual(attributes[i].name.start, name.start,
                                EagerString(text, attributes[i].name), EagerString(text, name));
        if same {
          return true;
        }
        i := i + 1;
      }
      return false;
    }

    /** One round of the attribute loop: read, flush the name, reject duplicates, append. */
    method AddAttribute(p: nat, attributes: seq<LazyAttribute>, ghost lo: nat)
      returns (added: seq<LazyAttribute>, next: Option<nat>)
      requires Ready(p) && IsNameStartChar(At(text, p)) && lo <= p
      requires AttributesOk(buffer[..], text, attributes, lo, p)
      modifies this`parseCurLineNum, buffer
      ensures forall i :: 0 <= i < p ==> buffer[i] == old(buffer[i])
      ensures var round := AttributeRound(options, text[p..], EagerAttributes(text, attributes));
              && next.Some? == round.Some?
              && (next.Some? ==>
                    && p < next.value && Ready(next.value) && text[next.value..] == round.value.1
                    && EagerAttributes(text, added) == round.value.0
                    && AttributesOk(buffer[..], text, added, lo, next.value))
    {
      hide Spec.ParseAttribute, LineAt, EagerString, Intact, Ordered, AttributeSpans, IsNameStartChar, HasAttribute;
      added := attributes;
      var attribute;
      attribute, next := ParseAttribute(p);
      if next.None? {
        return;
      }
      ghost var a := Spec.ParseAttribute(options, text[p..]).value.0;
      FreshRanges(options, buffer[..], text, attribute, a, p, next.value);
      var name := ReadName(attribute.name);
      FlushKeeps(old(buffer[..]), buffer[..], text, attributes, attribute, name, lo, p, next.value);
      var found := FindAttribute(attributes, name, EagerAttributes(text, attributes));
      FlushedName(text, attribute.name);
      if found {
        return added, None;
      }
      var read := attribute.(name := name);
      added := attributes + [read];
      EagerAttributesAppend(text, attributes, read);
    }

    method ParseAttributes(p: nat) returns (attributes: seq<LazyAttribute>, next: Option<nat>, sealed: bool)
      requires Ready(p) && errorID == None && !IsNameStartChar(At(text, p))
      modifies this`parseCurLineNum, this`errorID, buffer
      ensures forall i :: 0 <= i < p ==> buffer[i] == old(buffer[i])
      ensures match Spec.ParseAttributes(options, text[p..], [])
              case TagError(error) => next == None && errorID == Some(error)
              case TagRead(read, rest, s) =>
                && next.Some? && p < next.value && Ready(next.value) && text[next.value..] == rest && sealed == s
                && errorID == None && EagerAttributes(text, attributes) == read
                && AttributesOk(buffer[..], text, attributes, p + 1, next.value)
    {
      hide Spec.ParseAttributes, AttributeRound, LineAt, AttributesOk, WhiteLead, IsNameStartChar, IsWhiteSpace,
           EagerAttributes;
      attributes, sealed := [], false;
      NoAttributes(buffer[..], text, p);
      var q := p;
      while true
        invariant p <= q && Ready(q) && errorID == None
        invariant forall i :: 0 <= i < p ==> buffer[i] == old(buffer[i])
        invariant AttributesOk(buffer[..], text, attributes, p + 1, q)
        invariant Spec.ParseAttributes(options, text[p..], [])
                  == Spec.ParseAttributes(options, text[q..], EagerAttributes(text, attributes))
        decreases |text| - q
      {
        ghost var q0 := q;
        q := SkipWhiteSpace(q);
        TagAt(options, text, q0, q, EagerAttributes(text, attributes));
        AttributesWiden(buffer[..], text, attributes, p + 1, q0, q);
        if buffer[q] == NUL {
          errorID := Some(ParsingElement);
          return attributes, None, false;
        }
        if IsNameStartChar(buffer[q]) {
          var after;
          attributes, after := AddAttribute(q, attributes, p + 1);
          if after.None? {
            errorID := Some(ParsingAttribute);
            return attributes, None, false;
          }
          q := after.value;
        } else if buffer[q] == '>' {
          NextLine(text, q);
          AttributesWiden(buffer[..], text, attributes, p + 1, q, q + 1);
          return attributes, Some(q + 1), false;
        } else if buffer[q] == '/' && buffer[q + 1] == '>' {
          NextLine(text, q);
          NextLine(text, q + 1);
          AttributesWiden(buffer[..], text, attributes, p + 1, q, q + 2);
          return attributes, Some(q + 2), true;
        } else {
          errorID := Some(ParsingElement);
          return attributes, None, false;
        }
      }
    }

    /** Recognizes the next node; `line` is the line of its first byte that is not white. */
    method Identify(p: nat) returns (start: Start, next: Option<nat>, line: nat)
      requires Ready(p)
      modifies this`parseCurLineNum
      ensures match Spec.Identify(text[p..])
              case None => next == None
              case Some(found) =>
                && next.Some? && Ready(next.value) && start == found.0 && text[next.value..] == found.1
                && HeaderRead(text, p, start, next.value) && line == LineAt(text, p + WhiteLead(text[p..]))
    {
      hide LineAt, WhiteLead, StartsWith, HeaderRead;
      start, next := StartElement, None;
      var startLine := parseCurLineNum;
      var q := SkipWhiteSpace(p);
      line := parseCurLineNum;
      if buffer[q] == NUL {
        IdentifyAt(text, p, q);
        return;
      }
      var pattern := "";
      start, pattern := Classify(q);
      IdentifyAt(text, p, q);
      if pattern == "" {
        // back up, all the text counts
        parseCurLineNum := startLine;
        return start, Some(p), line;
      }
      TagKeepsLine(text, q, pattern);
      return start, Some(q + |pattern|), line;
    }

    /** The chain of prefix tests, longest first. */
    method Classify(q: nat) returns (start: Start, pattern: string)
      requires Ready(q) && q < |text|
      ensures (start, pattern) == HeaderAt(text[q..])
    {
      hide StartsWith;
      var b := LooksAt(q, "<?");
      if b {
        return StartLeaf(Declaration), "<?";
      }
      b := LooksAt(q, "<!--");
      if b {
        return StartLeaf(Comment), "<!--";
      }
      b := LooksAt(q, "<![CDATA[");
      if b {
        return StartLeaf(CData), "<![CDATA[";
      }
      b := LooksAt(q, "<!");
      if b {
        return StartLeaf(Unknown), "<!";
      }
      b := LooksAt(q, "<");
      if b {
        return StartElement, "<";
      }
      return StartLeaf(Text), "";
    }

    /** XMLText, XMLComment, XMLDeclaration and XMLUnknown: up to the end tag; plain text stays in front of it. */
    method ParseLeaf(p: nat, kind: LeafKind, line: nat) returns (node: LazyNode, next: Option<nat>)
      requires Ready(p) && errorID == None
      modifies this`parseCurLineNum, this`errorID
      ensures match Spec.ParseLeaf(options, kind, text[p..])
              case Null(error) => next == None && errorID == error
              case Read(n, _, rest, _) =>
                && next.Some? && p <= next.value && Ready(next.value) && text[next.value..] == rest && errorID == None
                && EagerNode(text, node) == n
                && LeafRead(buffer[..], text, node, kind, line, p, next.value)
    {
      hide Spec.ParseLeaf, LineAt, FindTag, Eager, LeafMode, Intact, NulFree, LeafRead;
      var value, q := ParseText(p, EndOf(kind), LeafMode(options, kind));
      node := LazyLeaf(kind, value, line);
      LeafAt(options, kind, text, p, q);
      if q.None? {
        errorID := Some(LeafError(kind));
        return node, None;
      }
      LeafIsRead(buffer[..], text, node, p, q.value);
      if kind.Text? {
        if buffer[q.value] != NUL {
          LessThan(text, q.value - 1);
          return node, Some(q.value - 1);
        }
        return node, None;
      }
      return node, q;
    }

    /** XMLElement::ParseDeep, with the cursor behind the `<` at `p - 1`. */
    method ParseElement(p: nat, line: nat)
      returns (node: LazyNode, closing: Closing, next: Option<nat>, endTag: Option<StrPair>)
      requires Ready(p) && errorID == None && parsingDepth < MAX_ELEMENT_DEPTH
      requires p > 0 && text[p - 1] == '<' && line == LineAt(text, p - 1)
      modifies this`parseCurLineNum, this`errorID, this`parsingDepth, buffer
      ensures parsingDepth == old(parsingDepth)
      ensures forall i :: 0 <= i < p ==> buffer[i] == old(buffer[i])
      ensures match Spec.ParseElement(options, text[p..], old(parsingDepth))
              case Null(error) => next == None && errorID == error
              case Read(n, c, rest, tag) =>
                && next.Some? && p < next.value && Ready(next.value) && text[next.value..] == rest && errorID == None
                && closing == c && EagerNode(text, node) == n && node.LazyElement?
                && ElementRead(buffer[..], text, node, endTag, tag, p, next.value)
      decreases |text| - p, 0
    {
      hide Spec.ParseElement, Spec.ParseAttributes, Spec.ParseDeep, LineAt, NameLength, ElementRead, HeadOk,
           EagerString, NameFollows;
      closing, next, endTag := Open, None, None;
      var q, isClosing, q0 := SkipToName(p, line);
      var sealed;
      node, next, sealed := ParseHead(q, line, p, q0);
      if next.None? {
        return;
      }
      closing := if sealed then Closed else if isClosing then ClosingTag else Open;
      if sealed || isClosing || buffer[next.value] == NUL {
        EmptyChildren(buffer[..], text, node, p, q0, next.value);
        return;
      }
      node, next, endTag := ParseContent(next.value, node, p, q0);
    }

    /** White space in front of a name, and the slash of an end tag. */
    method SkipToName(p: nat, line: nat) returns (q: nat, isClosing: bool, ghost q0: nat)
      requires Ready(p) && p > 0 && text[p - 1] == '<' && line == LineAt(text, p - 1)
      modifies this`parseCurLineNum
      ensures p <= q && Ready(q) && NameFollows(text, line, p, q0, q)
      ensures forall depth ::
                var n := NameLength(text[q..]);
                Spec.ParseElement(options, text[p..], depth) ==
                if n == 0 then Null(None) else ElementTail(options, text[q..q + n], isClosing, text[q + n..], depth)
    {
      hide Spec.ParseElement, ElementTail, LineAt, NameLength, WhiteLead, IsWhiteSpace;
      q := SkipWhiteSpace(p);
      isClosing, q0 := buffer[q] == '/', q;
      if isClosing {
        NextLine(text, q);
        q := q + 1;
      }
      forall depth {
        ElementAt(options, text, p, q0, q, depth);
      }
    }

    /** The name and the attributes of a tag. */
    method ParseHead(q: nat, line: nat, ghost p: nat, ghost q0: nat)
        returns (node: LazyNode, next: Option<nat>, sealed: bool)
      requires Ready(q) && errorID == None && NameFollows(text, line, p, q0, q)
      modifies this`parseCurLineNum, this`errorID, buffer
      ensures forall i :: 0 <= i < q ==> buffer[i] == old(buffer[i])
      ensures var n := NameLength(text[q..]);
              if n == 0 then next == None && errorID == None
              else
                match Spec.ParseAttributes(options, text[q + n..], [])
                case TagError(error) => next == None && errorID == Some(error)
                case TagRead(attributes, rest, s) =>
                  && next.Some? && p < next.value && Ready(next.value) && text[next.value..] == rest && sealed == s
                  && errorID == None
                  && HeadOk(buffer[..], text, node, p, q0, next.value)
                  && EagerNode(text, node) == Element(text[q..q + n], attributes, [])
    {
      hide Spec.ParseAttributes, LineAt, NameLength, WhiteLead, AttributesOk, IsNameStartChar, IsNameChar, Intact,
           NameFollows;
      sealed := false;
      var name, r := ParseName(q);
      node, next := LazyElement(name, [], [], line), None;
      if r.None? {
        return;
      }
      NameStops(At(text, r.value));
      RangeIsIntact(buffer[..], text, name, q);
      var attributes;
      attributes, next, sealed := ParseAttributes(r.value);
      NameKept(old(buffer[..]), buffer[..], text, name, r.value);
      NameIsString(text, name);
      hide EagerString;
      node := LazyElement(name, attributes, [], line);
      if next.Some? {
        HeadIsOk(buffer[..], text, node, p, q0, next.value);
      }
    }

    /** The children and the end tag of an element whose head is `head`. */
    method ParseContent(u: nat, head: LazyNode, ghost p: nat, ghost q0: nat)
      returns (node: LazyNode, next: Option<nat>, endTag: Option<StrPair>)
      requires Ready(u) && errorID == None && parsingDepth < MAX_ELEMENT_DEPTH
               && HeadOk(buffer[..], text, head, p, q0, u)
      modifies this`parseCurLineNum, this`errorID, this`parsingDepth, buffer
      ensures parsingDepth == old(parsingDepth)
      ensures forall i :: 0 <= i < u ==> buffer[i] == old(buffer[i])
      ensures match Spec.ParseDeep(options, text[u..], false, old(parsingDepth))
              case EndTag(children, rest, name) =>
                && next.Some? && u < next.value && Ready(next.value) && text[next.value..] == rest && errorID == None
                && node.LazyElement? && EagerNode(text, node) == EagerNode(text, head).(children := children)
                && ElementRead(buffer[..], text, node, endTag, name, p, next.value)
              case EndOfInput(_) => next == None && errorID == None
              case Failed(error) => next == None && errorID == Some(error)
      decreases |text| - u, 4
    {
      hide Spec.ParseDeep, LineAt, ElementRead, HeadOk, EagerString, EndTagRead;
      node := head;
      HeadIsElement(buffer[..], text, head, p, q0, u);
      var children;
      children, next, endTag := ParseDeep(u, false);
      if next.None? {
        return;
      }
      node := head.(children := children);
      ghost var name := Spec.ParseDeep(options, text[u..], false, old(parsingDepth)).name;
      ElementIsRead(old(buffer[..]), buffer[..], text, head, children, endTag.value, name, p, q0, u, next.value);
    }

    /** Identify and the node's own ParseDeep; `more` is false when nothing but white space is left. */
    method ReadNode(p: nat)
      returns (more: bool, node: LazyNode, closing: Closing, next: Option<nat>, endTag: Option<StrPair>)
      requires Ready(p) && errorID == None && parsingDepth < MAX_ELEMENT_DEPTH
      modifies this`parseCurLineNum, this`errorID, this`parsingDepth, buffer
      ensures parsingDepth == old(parsingDepth)
      ensures forall i :: 0 <= i < p ==> buffer[i] == old(buffer[i])
      ensures var r := NodeAt(options, text[p..], old(parsingDepth));
              && more == r.Some?
              && (r.None? ==> errorID == None)
              && (r.Some? && r.value.Null? ==> next == None && errorID == Some(ErrorOr(r.value.error)))
              && (r.Some? && r.value.Read? ==>
                    && next.Some? && p < next.value && Ready(next.value) && text[next.value..] == r.value.rest
                    && errorID == None
                    && closing == r.value.closing && EagerNode(text, node) == r.value.node
                    && NodeRead(buffer[..], text, node, endTag, r.value.endTag, p, next.value))
      decreases |text| - p, 1
    {
      hide Spec.Identify, Spec.ParseElement, Spec.ParseLeaf, LineAt, WhiteLead, HeaderRead, LeafRead, ElementRead,
           NodeRead, EagerNode;
      more, closing, next, endTag := true, Open, None, None;
      var start, t, line := Identify(p);
      if t.None? {
        node := LazyLeaf(Text, StrPair(p, p, PLAIN, true), 0);
        return false, node, Open, None, None;
      }
      HeaderAdvances(text, p, start, t.value);
      if start.StartElement? {
        ElementFollows(text, p, t.value);
        node, closing, next, endTag := ParseElement(t.value, line);
        if next.Some? {
          ElementBehind(buffer[..], text, node, endTag, p, t.value, next.value);
        }
      } else {
        node, next := ParseLeaf(t.value, start.kind, line);
        if next.Some? {
          LeafBehind(buffer[..], text, node, start.kind, line, p, t.value, next.value);
        }
      }
      if next.None? && errorID == None {
        errorID := Some(Parsing);
      }
    }

    /** The end tag checks; both names are flushed when there is something to compare. */
    method CheckEndTag(node: LazyNode, closing: Closing, endTag: Option<StrPair>, ghost tag: string, ghost lo: nat,
                       ghost next: nat)
      returns (mismatch: bool, checked: LazyNode)
      requires node.LazyElement? && ElementRead(buffer[..], text, node, endTag, tag, lo, next)
      requires buffer.Length == |text| + 1 && next <= |text|
      modifies buffer
      ensures forall i :: 0 <= i < buffer.Length && (i < lo || next <= i) ==> buffer[i] == old(buffer[i])
      ensures mismatch == Spec.Mismatch(EagerString(text, node.name), closing, tag)
      ensures EagerNode(text, checked) == EagerNode(text, node) && checked.LazyElement?
      ensures !mismatch ==> NodeOk(buffer[..], text, checked, lo, next)
    {
      hide NodeOk, EagerString;
      checked := node;
      if endTag.None? {
        return closing == Open, checked;
      }
      if closing != Open {
        return true, checked;
      }
      NamePlace(buffer[..], text, node, lo, endTag.value.start);
      TagPlace(buffer[..], text, endTag.value, tag, next);
      var read := ReadName(endTag.value);
      NodeKept(old(buffer[..]), buffer[..], text, node, lo, endTag.value.start, endTag.value.end);
      NamePlace(buffer[..], text, node, lo, endTag.value.start);
      label flushed:
      var name := ReadName(node.name);
      checked := node.(name := name);
      NameFlushKeeps(old@flushed(buffer[..]), buffer[..], text, node, lo, endTag.value.start, next);
      RangeKept(old@flushed(buffer[..]), buffer[..], text, read, node.name.end);
      NameInBuffer(buffer, text, name);
      NameInBuffer(buffer, text, read);
      FlushedName(text, node.name);
      FlushedName(text, endTag.value);
      SameNode(text, node);
      var same := StringEqual(read.start, name.start, EagerString(text, read), EagerString(text, name));
      return !same, checked;
    }

    /** XMLNode::ParseDeep. */
    method ParseDeep(p: nat, isDocument: bool)
        returns (children: seq<LazyNode>, next: Option<nat>, endTag: Option<StrPair>)
      requires Ready(p) && errorID == None && parsingDepth < MAX_ELEMENT_DEPTH
      modifies this`parseCurLineNum, this`errorID, this`parsingDepth, buffer
      ensures parsingDepth == old(parsingDepth)
      ensures forall i :: 0 <= i < p ==> buffer[i] == old(buffer[i])
      ensures match Spec.ParseDeep(options, text[p..], isDocument, old(parsingDepth))
              case EndTag(read, rest, name) =>
                && next.Some? && p < next.value && Ready(next.value) && text[next.value..] == rest && errorID == None
                && EagerNodes(text, children) == read && endTag.Some?
                && EndTagRead(buffer[..], text, children, endTag.value, name, p, next.value)
              case EndOfInput(read) =>
                && next == None && errorID == None && EagerNodes(text, children) == read
                && NodesOk(buffer[..], text, children, p, |text| + 1)
              case Failed(error) => next == None && errorID == Some(error)
      decreases |text| - p, 3
    {
      hide Spec.ParseLoop, LineAt, NodesOk, EndTagRead;
      parsingDepth := parsingDepth + 1;
      if parsingDepth == MAX_ELEMENT_DEPTH {
        errorID := Some(DepthExceeded);
        children, next, endTag := [], None, None;
      } else {
        children, next, endTag := ParseChildren(p, isDocument);
      }
      parsingDepth := parsingDepth - 1;
    }

    /** The child loop. */
    method ParseChildren(p: nat, isDocument: bool)
        returns (children: seq<LazyNode>, next: Option<nat>, endTag: Option<StrPair>)
      requires Ready(p) && errorID == None && parsingDepth < MAX_ELEMENT_DEPTH
      modifies this`parseCurLineNum, this`errorID, this`parsingDepth, buffer
      ensures parsingDepth == old(parsingDepth)
      ensures forall i :: 0 <= i < p ==> buffer[i] == old(buffer[i])
      ensures match Spec.ParseLoop(options, text[p..], isDocument, old(parsingDepth), [])
              case EndTag(read, rest, name) =>
                && next.Some? && p < next.value && Ready(next.value) && text[next.value..] == rest && errorID == None
                && EagerNodes(text, children) == read && endTag.Some?
                && EndTagRead(buffer[..], text, children, endTag.value, name, p, next.value)
              case EndOfInput(read) =>
                && next == None && errorID == None && EagerNodes(text, children) == read
                && NodesOk(buffer[..], text, children, p, |text| + 1)
              case Failed(error) => next == None && errorID == Some(error)
      decreases |text| - p, 2
    {
      hide Spec.ParseLoop, NodeAt, LineAt, NodesOk, EndTagRead, NodeRead, EagerNode, EagerNodes, Spec.WellLocated,
           Spec.Mismatch, WellLocatedHere, NodePlaced;
      children, next, endTag := [], None, None;
      NoChildren(buffer[..], text, p);
      var q := p;
      while buffer[q] != NUL
        invariant p <= q && Ready(q) && errorID == None && parsingDepth == old(parsingDepth)
        invariant forall i :: 0 <= i < p ==> buffer[i] == old(buffer[i])
        invariant NodesOk(buffer[..], text, children, p, Bound(text, q))
        invariant Spec.ParseLoop(options, text[p..], isDocument, parsingDepth, [])
                  == Spec.ParseLoop(options, text[q..], isDocument, parsingDepth, EagerNodes(text, children))
        decreases |text| - q
      {
        LoopAt(options, text, q, isDocument, parsingDepth, EagerNodes(text, children));
        label round:
        var more, node, closing, r, tag := ReadNode(q);
        if !more {
          NodesKept(old@round(buffer[..]), buffer[..], text, children, p, q);
          NodesWiden(buffer[..], text, children, p, Bound(text, q), |text| + 1);
          return children, None, None;
        }
        if r.None? {
          return children, None, None;
        }
        ghost var n := NodeAt(options, text[q..], parsingDepth).value;
        KindsAgree(text, node);
        NodesKept(old@round(buffer[..]), buffer[..], text, children, p, q);
        if node.LazyLeaf? && node.kind.Declaration? && !WellLocatedHere(isDocument, children) {
          WellLocatedAgrees(text, isDocument, children);
          errorID := Some(ParsingDeclaration);
          return children, None, None;
        }
        WellLocatedAgrees(text, isDocument, children);
        if node.LazyElement? && closing == ClosingTag {
          TagReturned(buffer[..], text, children, node, tag, n.endTag, p, q, r.value);
          NameAgrees(text, node);
          return children, r, Some(node.name);
        }
        var mismatch;
        label checking:
        mismatch, node := CheckNode(node, closing, tag, n.endTag, q, r.value);
        if mismatch {
          errorID := Some(MismatchedElement);
          return children, None, None;
        }
        NodesFrame(old@checking(buffer[..]), buffer[..], text, children, p, Bound(text, q));
        NodeAppended(buffer[..], text, children, node, p, q, r.value);
        EagerAppend(text, children, node);
        children := children + [node];
        q := r.value;
      }
      LoopEnds(options, text, q, isDocument, parsingDepth, EagerNodes(text, children));
      NodesWiden(buffer[..], text, children, p, Bound(text, q), |text| + 1);
    }

    /** The element checks of the loop, with the ranges placed behind position `q`. */
    method CheckNode(node: LazyNode, closing: Closing, endTag: Option<StrPair>, ghost tag: string, ghost q: nat,
                     ghost next: nat)
      returns (mismatch: bool, checked: LazyNode)
      requires NodeRead(buffer[..], text, node, endTag, tag, q, next)
      requires buffer.Length == |text| + 1 && q < next <= |text|
      modifies buffer
      ensures forall i :: 0 <= i < buffer.Length && (i < Bound(text, q) || next <= i) ==> buffer[i] == old(buffer[i])
      ensures var n := EagerNode(text, node);
              mismatch == (n.Element? && Spec.Mismatch(n.name, closing, tag)) && EagerNode(text, checked) == n
      ensures !mismatch ==> NodePlaced(buffer[..], text, checked, q, next)
    {
      hide NodeOk, EagerString, EagerNode;
      KindsAgree(text, node);
      if node.LazyElement? {
        NameAgrees(text, node);
        mismatch, checked := CheckEndTag(node, closing, endTag, tag, q + 1, next);
        if !mismatch {
          ElementPlaced(buffer[..], text, checked, q, next);
        }
      } else {
        LeafPlaced(buffer[..], text, node, endTag, tag, q, next);
        mismatch, checked := false, node;
      }
    }

    /** XMLDocument::Parse on the filled buffer. */
    method Parse() returns (bom: bool, children: seq<LazyNode>)
      requires buffer.Length == |text| + 1 && buffer[..|text|] == text && buffer[|text|] == NUL
      requires errorID == None && parsingDepth == 0
      modifies this`parseCurLineNum, this`errorID, this`parsingDepth, buffer
      ensures parsingDepth == 0
      ensures match Spec.ParseDocument(options, text)
              case ParseError(error) => errorID == Some(error)
              case Parsed(b, read) =>
                && errorID == None && bom == b && EagerNodes(text, children) == read
                && NodesOk(buffer[..], text, children, 0, |text| + 1)
      ensures forall d :: W.ProperDocument(options.processEntities, d) && W.DocumentText(d) == text ==>
                errorID == None && bom == d.bom && EagerNodes(text, children) == W.Trees(options, d.nodes)
    {
      hide Spec.ParseDeep, LineAt, NodesOk, EndTagRead, EagerNodes, StartsWith, W.ProperDocument, W.DocumentText,
           W.Trees;
      forall d | W.ProperDocument(options.processEntities, d) && W.DocumentText(d) == text
        ensures Spec.ParseDocument(options, text) == Parsed(d.bom, W.Trees(options, d.nodes))
      {
        W.WrittenIsRead(options, d);
      }
      bom, children := false, [];
      if buffer[0] == NUL {
        errorID := Some(EmptyDocument);
        return;
      }
      parseCurLineNum := 1;
      FirstLine(text);
      assert forall i :: 0 <= i < |text| ==> buffer[i] == buffer[..|text|][i];
      var p := SkipWhiteSpace(0);
      assert text[0..] == text;
      bom := LooksAt(p, BOM);
      var q := if bom then p + 3 else p;
      if bom {
        BomHere(text, p);
      }
      if buffer[q] == NUL {
        errorID := Some(EmptyDocument);
        return;
      }
      var next, endTag;
      children, next, endTag := ParseDeep(q, true);
      DocumentEnds(buffer[..], text, children, endTag, q, next);
    }
  }

  /** One round of the attribute loop: the longer list and the rest, unless the attribute is bad or a duplicate. */
  function AttributeRound(options: Options, s: string, acc: seq<Attribute>): Option<(seq<Attribute>, string)> {
    match Spec.ParseAttribute(options, s)
    case None => None
    case Some(pair) => if HasAttribute(acc, pair.0.name) then None else Some((acc + [pair.0], pair.1))
  }

  lemma NameIsThere(text: string, p: nat)
    requires p <= |text| && IsNameStartChar(At(text, p))
    ensures NameLength(text[p..]) > 0
  {
  }

  lemma TagLater(text: string, q: nat, tag: string)
    requires q < |text| && text[q] != NUL && tag != "" && NulFree(tag) && !StartsWith(text[q..], tag)
    ensures FindTag(text[q..], tag).None? == FindTag(text[q + 1..], tag).None?
    ensures FindTag(text[q..], tag).Some? ==> FindTag(text[q..], tag).value == 1 + FindTag(text[q + 1..], tag).value
  {
    hide StartsWith;
    Suffix(text, q, 1);
  }

  lemma NoTag(text: string, q: nat, tag: string)
    requires q <= |text| && tag != "" && NulFree(tag) && At(text, q) == NUL
    ensures FindTag(text[q..], tag).None?
  {
  }

  lemma TagHere(text: string, p: nat, q: nat, tag: string)
    requires p <= q <= |text| && tag != "" && NulFree(tag) && LF !in tag
    requires StartsWith(text[q..], tag) && FindTag(text[p..], tag).Some?
    requires FindTag(text[p..], tag).value == q - p + FindTag(text[q..], tag).value
    ensures FindTag(text[p..], tag) == Some(q - p) && q + |tag| <= |text|
    ensures LineAt(text, q + |tag|) == LineAt(text, q)
    ensures NulFree(text[p..q])
  {
    TagInFront(text[q..], tag);
    TagKeepsLine(text, q, tag);
    hide FindTag, LineAt, StartsWith;
    Suffix(text, p, q - p);
  }

  lemma TagKeepsLine(text: string, q: nat, tag: string)
    requires q + |tag| <= |text| && text[q..][..|tag|] == tag && LF !in tag
    ensures LineAt(text, q + |tag|) == LineAt(text, q)
  {
    hide LineAt;
    Suffix(text, q, |tag|);
    SameLine(text, q, q + |tag|);
  }

  lemma TagInFront(s: string, tag: string)
    requires tag != "" && NulFree(tag) && StartsWith(s, tag)
    ensures FindTag(s, tag) == Some(0) && |tag| <= |s| && s[..|tag|] == tag
  {
    assert tag[0] in tag && s[0] == s[..|tag|][0];
  }

  lemma NameTailEnds(s: string, n: nat)
    requires n <= |s| && (forall i :: 0 <= i < n ==> IsNameChar(s[i])) && !IsNameChar(At(s, n))
    ensures NameTail(s) == n
  {
  }

  lemma NameEnds(text: string, p: nat, q: nat)
    requires p < q <= |text| && IsNameStartChar(text[p]) && !IsNameChar(At(text, q))
    requires forall i :: p < i < q ==> IsNameChar(text[i])
    ensures NameLength(text[p..]) == q - p && NulFree(text[p..q]) && LineAt(text, q) == LineAt(text, p)
  {
    var s := text[p..];
    assert s[1..] == text[p + 1..];
    NameTailEnds(s[1..], q - p - 1);
    NamesHaveNoLineFeeds(s, q - p);
    Suffix(text, p, q - p);
    SameLine(text, p, q);
  }

  lemma CStringAt(buffer: array<char>, a: nat, x: string, n: nat)
    requires HoldsCString(buffer, a, x) && n <= |x|
    ensures Cursor(buffer, a + n, x[n..])
  {
    HoldsSuffix(buffer, a, x, n);
  }

  /** What a successfully read attribute looks like. */
  ghost predicate AttributeRead(options: Options, text: string, lazy: LazyAttribute, a: Attribute, p: nat, next: nat) {
    && p == lazy.name.start <= lazy.name.end < lazy.value.start <= lazy.value.end < next <= |text|
    && lazy.line == LineAt(text, p)
    && lazy.name.needsFlush && lazy.value.needsFlush && lazy.name.mode == PLAIN
    && NulFree(text[lazy.name.start..lazy.name.end]) && NulFree(text[lazy.value.start..lazy.value.end])
    && EagerString(text, lazy.name) == a.name && EagerString(text, lazy.value) == a.value
  }

  lemma QuoteAt(text: string, q: nat, r: nat)
    requires q <= |text| && r == q + WhiteLead(text[q..])
    ensures At(text, r) != '=' ==> ToQuote(text[q..]) == None
    ensures At(text, r) == '=' ==> ToQuote(text[q..]) == Some(SkipWhite(text[r + 1..]))
  {
    Suffix(text, q, r - q);
    hide WhiteLead;
    assert SkipWhite(text[q..]) == text[r..];
    if r < |text| {
      Suffix(text, r, 1);
    }
  }

  /** The attribute at `p` whose name ends at `q` and whose opening quote is expected at `e`. */
  lemma AttributeAt(options: Options, text: string, p: nat, q: nat, e: Option<nat>)
    requires p <= |text| && q == p + NameLength(text[p..])
    requires match ToQuote(text[q..])
             case None => e == None
             case Some(t) => e.Some? && q < e.value <= |text| && text[e.value..] == t
    ensures e == None || (At(text, e.value) != '\"' && At(text, e.value) != '\'') ==>
              Spec.ParseAttribute(options, text[p..]) == None
    ensures e.Some? && (At(text, e.value) == '\"' || At(text, e.value) == '\'') ==>
              Spec.ParseAttribute(options, text[p..]) == QuotedAt(options, text, p, q, e.value)
  {
    hide NameLength, ToQuote, FindTag, Eager;
    Suffix(text, p, q - p);
    if e.Some? && (At(text, e.value) == '\"' || At(text, e.value) == '\'') {
      QuotedTail(options, text, p, q, e.value);
    }
  }

  function QuotedAt(options: Options, text: string, p: nat, q: nat, e: nat): Option<(Attribute, string)>
    requires p <= q <= e < |text| && text[e] != NUL
  {
    match FindTag(text[e + 1..], [text[e]])
    case None => None
    case Some(i) => Some((Attribute(text[p..q], Eager(AttributeMode(options), text[e + 1..e + 1 + i])),
                          text[e + 2 + i..]))
  }

  lemma AttributeIsRead(options: Options, text: string, p: nat, q: nat, e: nat, t: nat)
    requires p < q <= e < t < |text| && NulFree(text[p..q]) && NulFree(text[e + 1..t])
    ensures var mode := AttributeMode(options);
            AttributeRead(options, text,
                          LazyAttribute(StrPair(p, q, PLAIN, true), StrPair(e + 1, t, mode, true), LineAt(text, p)),
                          Attribute(text[p..q], Eager(mode, text[e + 1..t])), p, t + 1)
  {
    PlainName(text[p..q]);
    hide Eager, LineAt, NulFree, AttributeMode;
  }

  lemma QuotedIs(options: Options, text: string, p: nat, q: nat, e: nat, t: Option<nat>)
    requires p < q <= e < |text| && text[e] != NUL && (t.Some? ==> e < t.value < |text|)
    requires FindTag(text[e + 1..], [text[e]]) == if t.Some? then Some(t.value - e - 1) else None
    ensures QuotedAt(options, text, p, q, e) ==
              if t.Some? then
                Some((Attribute(text[p..q], Eager(AttributeMode(options), text[e + 1..t.value])), text[t.value + 1..]))
              else None
  {
    hide FindTag, Eager, AttributeMode;
  }

  lemma QuoteIsTag(c: char)
    requires c == '\"' || c == '\''
    ensures NulFree([c]) && LF !in [c]
  {
  }

  lemma QuotedTail(options: Options, text: string, p: nat, q: nat, e: nat)
    requires p <= q <= e < |text| && text[e] != NUL
    ensures var t := text[e..];
            QuotedAt(options, text, p, q, e) ==
            match FindTag(t[1..], [t[0]])
            case None => None
            case Some(i) => Some((Attribute(text[p..][..q - p], Eager(AttributeMode(options), t[1..][..i])),
                                  t[i + 2..]))
  {
    hide FindTag, Eager;
    Suffix(text, p, q - p);
    Suffix(text, e, 1);
    var found := FindTag(text[e + 1..], [text[e]]);
    if found.Some? {
      Suffix(text, e + 1, found.value);
      Suffix(text, e, found.value + 2);
    }
  }

  ghost predicate NamesFlushed(attributes: seq<LazyAttribute>) {
    forall i :: 0 <= i < |attributes| ==> !attributes[i].name.needsFlush
  }

  lemma {:induction false} AttributeSpanAt(attributes: seq<LazyAttribute>, i: nat)
    requires i < |attributes|
    ensures |AttributeSpans(attributes)| >= 2 * i + 2
    ensures AttributeSpans(attributes)[2 * i] == attributes[i].name
    ensures AttributeSpans(attributes)[2 * i + 1] == attributes[i].value
  {
    if i > 0 {
      AttributeSpanAt(attributes[1..], i - 1);
    }
  }

  /** A flushed name is a C string in the buffer. */
  lemma NameInBuffer(buffer: array<char>, text: string, name: StrPair)
    requires buffer.Length == |text| + 1 && !name.needsFlush && Intact(buffer[..], text, name)
    ensures HoldsCString(buffer, name.start, EagerString(text, name))
    ensures EagerString(text, name) == text[name.start..name.end]
  {
    var raw := text[name.start..name.end];
    assert NulFree(raw);
    PlainName(raw);
    assert forall i :: 0 <= i < |raw| ==> raw[i] == buffer[..][name.start + i];
  }

  /** What the attribute loop keeps: the ranges read so far are in order, untouched, and their names flushed. */
  ghost predicate AttributesOk(buffer: seq<char>, text: string, attributes: seq<LazyAttribute>, lo: nat, hi: nat) {
    && Ordered(AttributeSpans(attributes), lo, hi) && AllIntact(buffer, text, AttributeSpans(attributes))
    && NamesFlushed(attributes) && AttributeLines(text, attributes)
  }

  lemma NoAttributes(buffer: seq<char>, text: string, p: nat)
    ensures AttributesOk(buffer, text, [], p + 1, p) && EagerAttributes(text, []) == []
  {
  }

  lemma AttributesWiden(buffer: seq<char>, text: string, attributes: seq<LazyAttribute>, lo: nat, hi: nat, hi': nat)
    requires AttributesOk(buffer, text, attributes, lo, hi) && hi <= hi'
    ensures AttributesOk(buffer, text, attributes, lo, hi')
  {
    hide Intact;
  }

  /** The ranges of a new attribute are untouched. */
  lemma FreshRanges(options: Options, buffer: seq<char>, text: string, lazy: LazyAttribute, a: Attribute, p: nat,
                    next: nat)
    requires AttributeRead(options, text, lazy, a, p, next) && |buffer| == |text| + 1
    requires forall i :: p <= i <= |text| ==> buffer[i] == At(text, i)
    ensures Intact(buffer, text, lazy.name) && Intact(buffer, text, lazy.value)
  {
    RangeIsIntact(buffer, text, lazy.name, p);
    RangeIsIntact(buffer, text, lazy.value, p);
  }

  lemma RangeIsIntact(buffer: seq<char>, text: string, r: StrPair, p: nat)
    requires |buffer| == |text| + 1 && forall i :: p <= i <= |text| ==> buffer[i] == At(text, i)
    requires p <= r.start <= r.end <= |text| && NulFree(text[r.start..r.end]) && r.needsFlush
    ensures Intact(buffer, text, r)
  {
    forall i | r.start <= i < r.end
      ensures buffer[i] == text[i] && text[i] != NUL
    {
      assert text[i] == text[r.start..r.end][i - r.start];
    }
  }

  /** Flushing the new name leaves every other range as it was. */
  lemma FlushKeeps(before: seq<char>, after: seq<char>, text: string, attributes: seq<LazyAttribute>,
                   lazy: LazyAttribute, name: StrPair, lo: nat, p: nat, next: nat)
    requires |before| == |after|
             && lo <= p == lazy.name.start <= lazy.name.end < lazy.value.start <= lazy.value.end < next
    requires AttributesOk(before, text, attributes, lo, p) && p <= |text| && lazy.line == LineAt(text, p)
    requires Intact(before, text, lazy.value) && lazy.value.needsFlush
    requires forall i :: 0 <= i < |before| && i != lazy.name.end ==> after[i] == before[i]
    requires name == lazy.name.(needsFlush := false) && Intact(after, text, name)
    ensures AttributesOk(after, text, attributes, lo, p)
    ensures AttributesOk(after, text, attributes + [lazy.(name := name)], lo, next)
  {
    var spans := AttributeSpans(attributes);
    IntactFrame(before, after, text, spans, p);
    AttributeSpansAppend(attributes, lazy.(name := name));
    OneMoreLine(text, attributes, lazy.(name := name));
    hide AttributeSpans, AttributeLines, LineAt;
    var pair := [name, lazy.value];
    assert Intact(after, text, lazy.value);
    hide Intact;
    assert Ordered(pair, p, next);
    OrderedConcat(spans, pair, lo, p, next);
    IntactConcat(after, text, spans, pair);
  }

  lemma OneMoreLine(text: string, attributes: seq<LazyAttribute>, a: LazyAttribute)
    requires AttributeLines(text, attributes) && a.name.start <= |text| && a.line == LineAt(text, a.name.start)
    ensures AttributeLines(text, attributes + [a])
  {
    hide LineAt;
  }

  lemma FlushedName(text: string, name: StrPair)
    ensures EagerString(text, name.(needsFlush := false)) == EagerString(text, name)
  {
  }

  /** The next branch of the attribute loop after white space. */
  lemma TagAt(options: Options, text: string, p: nat, q: nat, acc: seq<Attribute>)
    requires p <= |text| && q == p + WhiteLead(text[p..])
    ensures At(text, q) == NUL ==> Spec.ParseAttributes(options, text[p..], acc) == TagError(ParsingElement)
    ensures At(text, q) != NUL && IsNameStartChar(At(text, q)) ==>
              Spec.ParseAttributes(options, text[p..], acc) ==
              match AttributeRound(options, text[q..], acc)
              case None => TagError(ParsingAttribute)
              case Some(round) => Spec.ParseAttributes(options, round.1, round.0)
    ensures At(text, q) == '>' ==>
              q < |text| && Spec.ParseAttributes(options, text[p..], acc) == TagRead(acc, text[q + 1..], false)
    ensures At(text, q) == '/' && At(text, q + 1) == '>' ==>
              q + 1 < |text| && Spec.ParseAttributes(options, text[p..], acc) == TagRead(acc, text[q + 2..], true)
    ensures At(text, q) != NUL && !IsNameStartChar(At(text, q)) && At(text, q) != '>'
            && !(At(text, q) == '/' && At(text, q + 1) == '>') ==>
              Spec.ParseAttributes(options, text[p..], acc) == TagError(ParsingElement)
  {
    hide WhiteLead, Spec.ParseAttribute, HasAttribute, IsNameStartChar;
    Suffix(text, p, q - p);
    assert IsNameStartChar('>') == IsNameStartChar('/') == false by {
      NotNames();
    }
    if q < |text| {
      Suffix(text, q, 1);
      if q + 1 < |text| {
        Suffix(text, q, 2);
      }
    }
  }

  lemma NotNames()
    ensures !IsNameStartChar('>') && !IsNameStartChar('/')
  {
  }

  // ---------------------------------------------------------------------------------------------
  // Nodes
  // ---------------------------------------------------------------------------------------------

  /** The header found at a byte that is not white. */
  function HeaderAt(s: string): (Start, string) {
    if StartsWith(s, "<?") then (StartLeaf(Declaration), "<?")
    else if StartsWith(s, "<!--") then (StartLeaf(Comment), "<!--")
    else if StartsWith(s, "<![CDATA[") then (StartLeaf(CData), "<![CDATA[")
    else if StartsWith(s, "<!") then (StartLeaf(Unknown), "<!")
    else if StartsWith(s, "<") then (StartElement, "<")
    else (StartLeaf(Text), "")
  }

  function PatternOf(start: Start): string {
    if start.StartElement? then "<" else Layout.HeaderOf(start.kind)
  }

  /** White space and then the header lie between `p` and `next`; plain text starts at `p` with its white space. */
  ghost predicate HeaderRead(text: string, p: nat, start: Start, next: nat)
    requires p <= |text|
  {
    var q := p + WhiteLead(text[p..]);
    && q < |text|
    && (if start == StartLeaf(Text) then next == p && text[q] != '<'
        else next == q + |PatternOf(start)| <= |text| && text[q..next] == PatternOf(start) && text[q] == '<')
  }

  lemma IdentifyAt(text: string, p: nat, q: nat)
    requires p <= |text| && q == p + WhiteLead(text[p..])
    ensures At(text, q) == NUL ==> Spec.Identify(text[p..]) == None
    ensures At(text, q) != NUL ==>
              var (start, pattern) := HeaderAt(text[q..]);
              && (pattern == "" ==>
                    start == StartLeaf(Text) && Spec.Identify(text[p..]) == Some((start, text[p..]))
                    && HeaderRead(text, p, start, p))
              && (pattern != "" ==>
                    && q + |pattern| <= |text| && text[q..][..|pattern|] == pattern && LF !in pattern
                    && Spec.Identify(text[p..]) == Some((start, text[q + |pattern|..]))
                    && HeaderRead(text, p, start, q + |pattern|))
  {
    hide WhiteLead, HeaderAt;
    IdentifySkips(text[p..]);
    Suffix(text, p, q - p);
    hide Spec.Identify;
    if q < |text| {
      HeaderFits(text[q..]);
      Suffix(text, q, |HeaderAt(text[q..]).1|);
    }
  }

  lemma IdentifySkips(s: string)
    ensures var p := SkipWhite(s);
            Spec.Identify(s) ==
            if AtEnd(p) then None
            else
              var (start, pattern) := HeaderAt(p);
              if pattern == "" then Some((start, s)) else Some((start, p[|pattern|..]))
  {
    hide WhiteLead;
    var p := SkipWhite(s);
    if !AtEnd(p) {
      HeaderFits(p);
      hide StartsWith;
    }
  }

  lemma HeaderFits(s: string)
    requires s != ""
    ensures var (start, pattern) := HeaderAt(s);
            && |pattern| <= |s| && s[..|pattern|] == pattern && LF !in pattern && pattern == PatternOf(start)
            && (pattern != "" ==> s[0] == '<')
            && (pattern == "" <==> start == StartLeaf(Text)) && (pattern == "" ==> s[0] != '<')
  {
    assert s[..1] == [s[0]];
  }

  /** The range of a leaf, between its header and its end tag. */
  ghost predicate LeafRead(buffer: seq<char>, text: string, node: LazyNode, kind: LeafKind, line: nat, p: nat,
                           next: nat) {
    && node.LazyLeaf? && node.kind == kind && node.line == line
    && p == node.value.start <= node.value.end < Bound(text, next)
    && next <= |text|
    && (kind.Text? ==> node.value.end == next && At(text, next) == '<') && (!kind.Text? ==> node.value.end < next)
    && Intact(buffer, text, node.value)
  }

  lemma LeafIsRead(buffer: seq<char>, text: string, node: LazyNode, p: nat, q: nat)
    requires |buffer| == |text| + 1 && forall i :: p <= i <= |text| ==> buffer[i] == At(text, i)
    requires node.LazyLeaf? && p == node.value.start <= node.value.end == q - |EndOf(node.kind)| && q <= |text|
    requires NulFree(text[p..node.value.end]) && node.value.needsFlush
    requires node.kind.Text? ==> text[node.value.end] == '<'
    ensures LeafRead(buffer, text, node, node.kind, node.line, p, if node.kind.Text? then node.value.end else q)
  {
    hide Intact, NulFree;
    RangeIsIntact(buffer, text, node.value, p);
  }

  lemma LeafAt(options: Options, kind: LeafKind, text: string, p: nat, q: Option<nat>)
    requires p <= |text|
    requires match FindTag(text[p..], EndOf(kind))
             case None => q == None
             case Some(i) => q == Some(p + i + |EndOf(kind)|)
    ensures q == None ==> Spec.ParseLeaf(options, kind, text[p..]) == Null(Some(LeafError(kind)))
    ensures q.Some? ==>
              var end := q.value - |EndOf(kind)|;
              && p <= end <= q.value <= |text| && NulFree(text[p..end])
              && (kind.Text? ==> text[end] == '<')
              && Spec.ParseLeaf(options, kind, text[p..]) ==
                 if kind.Text? && At(text, q.value) == NUL then Null(None)
                 else Read(Leaf(kind, Eager(LeafMode(options, kind), text[p..end])), Open,
                           text[if kind.Text? then end else q.value..], "")
  {
    hide Eager, FindTag, LeafMode, NulFree, StartsWith;
    if q.Some? {
      var i := FindTag(text[p..], EndOf(kind)).value;
      FoundTag(text[p..], EndOf(kind));
      Suffix(text, p, i);
      Suffix(text, p, i + |EndOf(kind)|);
      LessThanStands(text[p..], i);
      assert text[p..][i] == text[p + i];
    }
  }

  lemma LessThanStands(s: string, i: nat)
    requires i <= |s|
    ensures StartsWith(s[i..], "<") ==> i < |s| && s[i] == '<'
  {
    assert StartsWith(s[i..], "<") ==> s[i..][..1][0] == s[i];
  }

  lemma LessThan(text: string, p: nat)
    requires p < |text| && text[p] == '<'
    ensures LineAt(text, p) == LineAt(text, p + 1)
  {
    NextLine(text, p);
  }

  // ---------------------------------------------------------------------------------------------
  // Elements and children
  // ---------------------------------------------------------------------------------------------

  /** The ranges of a list of nodes lie in order in [lo, hi), are untouched, and every line number is right. */
  ghost predicate NodesOk(buffer: seq<char>, text: string, nodes: seq<LazyNode>, lo: nat, hi: nat) {
    Ordered(SpansAll(nodes), lo, hi) && AllIntact(buffer, text, SpansAll(nodes)) && LinesOk(text, nodes)
  }

  ghost predicate NodeOk(buffer: seq<char>, text: string, n: LazyNode, lo: nat, hi: nat) {
    Ordered(Spans(n), lo, hi) && AllIntact(buffer, text, Spans(n)) && LineOk(text, n)
  }

  /** The name of an end tag, not flushed yet. */
  ghost predicate TagOk(buffer: seq<char>, text: string, tag: StrPair, name: string, next: nat) {
    && tag.end < next && tag.needsFlush && tag.mode == PLAIN && Intact(buffer, text, tag)
    && EagerString(text, tag) == name
  }

  ghost predicate EndTagRead(buffer: seq<char>, text: string, children: seq<LazyNode>, tag: StrPair, name: string,
                             p: nat, next: nat) {
    p < tag.start && NodesOk(buffer, text, children, p, tag.start) && TagOk(buffer, text, tag, name, next) && name != ""
  }

  ghost predicate ElementRead(buffer: seq<char>, text: string, node: LazyNode, endTag: Option<StrPair>, tag: string,
                              p: nat, next: nat) {
    && node.LazyElement? && node.name.needsFlush && node.name.mode == PLAIN && node.name.start < node.name.end
    && (endTag == None <==> tag == "")
    && match endTag
       case None => NodeOk(buffer, text, node, p, next)
       case Some(t) => NodeOk(buffer, text, node, p, t.start) && TagOk(buffer, text, t, tag, next)
  }

  /** An element after its name, as a function of what follows. */
  function ElementTail(options: Options, name: string, closing: bool, s: string, depth: nat): NodeResult {
    match Spec.ParseAttributes(options, s, [])
    case TagError(error) => Null(Some(error))
    case TagRead(attributes, rest, sealed) =>
      if sealed || closing || AtEnd(rest) then
        Read(Element(name, attributes, []), if sealed then Closed else if closing then ClosingTag else Open, rest, "")
      else
        match Spec.ParseDeep(options, rest, false, depth)
        case EndTag(children, rest', tag) => Read(Element(name, attributes, children), Open, rest', tag)
        case EndOfInput(_) => Null(None)
        case Failed(error) => Null(Some(error))
  }

  lemma ElementAt(options: Options, text: string, p: nat, q0: nat, q: nat, depth: nat)
    requires p <= |text| && q0 == p + WhiteLead(text[p..]) && q == if At(text, q0) == '/' then q0 + 1 else q0
    ensures var n := NameLength(text[q..]);
            Spec.ParseElement(options, text[p..], depth) ==
            if n == 0 then Null(None)
            else ElementTail(options, text[q..q + n], At(text, q0) == '/', text[q + n..], depth)
  {
    hide WhiteLead, NameLength, Spec.ParseAttributes, Spec.ParseDeep, ElementTail, Spec.ParseElement;
    Suffix(text, p, q0 - p);
    if q0 < |text| {
      Suffix(text, q0, 1);
    }
    Suffix(text, q, NameLength(text[q..]));
    ElementSplit(options, text[p..], depth);
  }

  /** An element taken apart at its name. */
  lemma ElementSplit(options: Options, s: string, depth: nat)
    ensures var t := SkipWhite(s);
            var u := if At(t, 0) == '/' then t[1..] else t;
            var n := NameLength(u);
            Spec.ParseElement(options, s, depth) ==
            if n == 0 then Null(None) else ElementTail(options, u[..n], At(t, 0) == '/', u[n..], depth)
  {
    hide SkipWhite, NameLength, Spec.ParseAttributes, Spec.ParseDeep;
  }

  lemma NameStops(c: char)
    requires !IsNameChar(c)
    ensures !IsNameStartChar(c)
  {
  }

  lemma NameIsString(text: string, name: StrPair)
    requires name.mode == PLAIN && name.start <= name.end <= |text| && NulFree(text[name.start..name.end])
    ensures EagerString(text, name) == text[name.start..name.end]
  {
    PlainName(text[name.start..name.end]);
  }

  lemma NameKept(before: seq<char>, after: seq<char>, text: string, name: StrPair, r: nat)
    requires Intact(before, text, name) && name.needsFlush && name.end <= r
    requires |before| == |after| && forall i :: 0 <= i < r && i < |before| ==> after[i] == before[i]
    ensures Intact(after, text, name)
  {
  }

  /** Ranges behind the cursor survive what happens in front of it. */
  lemma StartKept(before: seq<char>, after: seq<char>, text: string, name: StrPair, attributes: seq<LazyAttribute>,
                  r: nat, u: nat)
    requires Intact(before, text, name) && name.needsFlush && name.end <= r < u
    requires AttributesOk(before, text, attributes, r + 1, u)
    requires |before| == |after| && forall i :: 0 <= i < u && i < |before| ==> after[i] == before[i]
    ensures Intact(after, text, name) && AttributesOk(after, text, attributes, r + 1, u)
  {
    NameKept(before, after, text, name, r);
    IntactFrame(before, after, text, AttributeSpans(attributes), u);
  }

  /** The name stands behind `<`, white space and possibly a slash. */
  lemma PrefixIsName(text: string, p: nat, q0: nat, q: nat)
    requires p <= |text| && q0 == p + WhiteLead(text[p..]) && q == (if At(text, q0) == '/' then q0 + 1 else q0)
             && q <= |text|
    ensures NamePrefix(text[p..q])
  {
    Suffix(text, p, q0 - p);
    assert AllWhite(text[p..q0]);
    if q == q0 + 1 {
      assert text[p..q][..q0 - p] == text[p..q0];
    }
  }

  lemma ElementLine(text: string, node: LazyNode, p: nat, q0: nat)
    requires node.LazyElement? && 0 < p <= |text| && text[p - 1] == '<' && node.line == LineAt(text, p - 1)
    requires q0 == p + WhiteLead(text[p..]) && node.name.start == (if At(text, q0) == '/' then q0 + 1 else q0)
             && node.name.start <= |text|
    requires LinesOk(text, node.children) && AttributeLines(text, node.attributes)
    ensures LineOk(text, node)
  {
    PrefixIsName(text, p, q0, node.name.start);
    hide LineAt, LinesOk, AttributeLines;
    assert StartsAt(text, node, p - 1);
  }

  lemma ElementRanges(buffer: seq<char>, text: string, node: LazyNode, p: nat, r: nat, u: nat, hi: nat)
    requires node.LazyElement? && p <= node.name.start <= node.name.end == r < u <= hi
    requires Intact(buffer, text, node.name) && AttributesOk(buffer, text, node.attributes, r + 1, u)
    requires Ordered(SpansAll(node.children), u, hi) && AllIntact(buffer, text, SpansAll(node.children))
    ensures Ordered(Spans(node), p, hi) && AllIntact(buffer, text, Spans(node))
  {
    var name, attributes, children := [node.name], AttributeSpans(node.attributes), SpansAll(node.children);
    assert Spans(node) == name + attributes + children;
    hide Spans, SpansAll, AttributeSpans, Intact;
    assert Ordered(name, p, r + 1);
    OrderedConcat(name, attributes, p, r + 1, u);
    OrderedConcat(name + attributes, children, p, u, hi);
    IntactConcat(buffer, text, name, attributes);
    IntactConcat(buffer, text, name + attributes, children);
  }

  /** The cursor stands at a name behind `<`, white space and possibly a slash; the `<` is on line `line`. */
  ghost predicate NameFollows(text: string, line: nat, p: nat, q0: nat, q: nat) {
    && 0 < p <= |text| && text[p - 1] == '<' && line == LineAt(text, p - 1)
    && q0 == p + WhiteLead(text[p..]) && q == (if At(text, q0) == '/' then q0 + 1 else q0)
  }

  /** A tag read up to `u`, without children yet. */
  ghost predicate HeadOk(buffer: seq<char>, text: string, head: LazyNode, p: nat, q0: nat, u: nat) {
    && head.LazyElement? && head.children == [] && NameFollows(text, head.line, p, q0, head.name.start)
    && head.name.start < head.name.end < u <= |text| && head.name.needsFlush && head.name.mode == PLAIN
    && Intact(buffer, text, head.name) && AttributesOk(buffer, text, head.attributes, head.name.end + 1, u)
  }

  lemma HeadIsOk(buffer: seq<char>, text: string, node: LazyNode, p: nat, q0: nat, u: nat)
    requires node.LazyElement? && node.children == [] && NameFollows(text, node.line, p, q0, node.name.start)
    requires node.name.start < node.name.end < u <= |text| && node.name.needsFlush && node.name.mode == PLAIN
    requires Intact(buffer, text, node.name) && AttributesOk(buffer, text, node.attributes, node.name.end + 1, u)
    ensures HeadOk(buffer, text, node, p, q0, u) && p < u
  {
  }

  lemma HeadIsElement(buffer: seq<char>, text: string, head: LazyNode, p: nat, q0: nat, u: nat)
    requires HeadOk(buffer, text, head, p, q0, u)
    ensures head.LazyElement? && p < u
  {
  }

  lemma EmptyChildren(buffer: seq<char>, text: string, node: LazyNode, p: nat, q0: nat, u: nat)
    requires HeadOk(buffer, text, node, p, q0, u)
    ensures ElementRead(buffer, text, node, None, "", p, u)
  {
    assert LinesOk(text, node.children) && SpansAll(node.children) == [];
    ElementLine(text, node, p, q0);
    hide LineAt, LineOk, WhiteLead, Intact, AttributesOk;
    ElementRanges(buffer, text, node, p, node.name.end, u, u);
  }

  lemma ElementIsRead(before: seq<char>, buffer: seq<char>, text: string, head: LazyNode, children: seq<LazyNode>,
                      tag: StrPair, name: string, p: nat, q0: nat, u: nat, next: nat)
    requires HeadOk(before, text, head, p, q0, u) && |buffer| == |before|
    requires forall i :: 0 <= i < u && i < |before| ==> buffer[i] == before[i]
    requires EndTagRead(buffer, text, children, tag, name, u, next)
    ensures ElementRead(buffer, text, head.(children := children), Some(tag), name, p, next)
  {
    var node := head.(children := children);
    StartKept(before, buffer, text, head.name, head.attributes, head.name.end, u);
    ElementLine(text, node, p, q0);
    hide LineAt, LineOk, WhiteLead, Intact, AttributesOk, NameFollows;
    ElementRanges(buffer, text, node, p, node.name.end, u, tag.start);
  }

  // ---------------------------------------------------------------------------------------------
  // Rounds of the child loop
  // ---------------------------------------------------------------------------------------------

  /** Identify and the ParseDeep of what it found. */
  function NodeAt(options: Options, s: string, depth: nat): Option<NodeResult> {
    match Spec.Identify(s)
    case None => None
    case Some(found) =>
      Some(if found.0.StartElement? then Spec.ParseElement(options, found.1, depth)
           else Spec.ParseLeaf(options, found.0.kind, found.1))
  }

  function ErrorOr(error: Option<XmlError>): XmlError {
    if error.Some? then error.value else Parsing
  }

  /** A node read from `p` on: its ranges lie behind everything read before. */
  ghost predicate NodeRead(buffer: seq<char>, text: string, node: LazyNode, endTag: Option<StrPair>, tag: string,
                           p: nat, next: nat) {
    if node.LazyElement? then ElementRead(buffer, text, node, endTag, tag, p + 1, next)
    else NodeOk(buffer, text, node, Bound(text, p), Bound(text, next)) && endTag == None && tag == ""
  }

  lemma HeaderAdvances(text: string, p: nat, start: Start, next: nat)
    requires p <= |text| && HeaderRead(text, p, start, next)
    ensures p <= next <= |text| && (start != StartLeaf(Text) ==> Bound(text, p) <= next && p < next)
  {
    var q := p + WhiteLead(text[p..]);
    assert q > p ==> IsWhiteSpace(text[p..][0]);
    assert |PatternOf(start)| == 0 <==> start == StartLeaf(Text);
  }

  lemma ElementFollows(text: string, p: nat, t: nat)
    requires p <= |text| && HeaderRead(text, p, StartElement, t)
    ensures t > 0 && t - 1 == p + WhiteLead(text[p..]) && text[t - 1] == '<'
  {
  }

  lemma ElementBehind(buffer: seq<char>, text: string, node: LazyNode, endTag: Option<StrPair>, p: nat, t: nat,
                      next: nat)
    requires p <= |text| && HeaderRead(text, p, StartElement, t) && node.LazyElement?
    ensures forall tag :: ElementRead(buffer, text, node, endTag, tag, t, next) ==>
              NodeRead(buffer, text, node, endTag, tag, p, next)
  {
    HeaderAdvances(text, p, StartElement, t);
    hide HeaderRead, ElementRead;
    forall tag | ElementRead(buffer, text, node, endTag, tag, t, next)
      ensures ElementRead(buffer, text, node, endTag, tag, p + 1, next)
    {
      ElementWidens(buffer, text, node, endTag, tag, t, p + 1, next);
    }
  }

  lemma ElementWidens(buffer: seq<char>, text: string, node: LazyNode, endTag: Option<StrPair>, tag: string, t: nat,
                      p: nat, next: nat)
    requires ElementRead(buffer, text, node, endTag, tag, t, next) && p <= t
    ensures ElementRead(buffer, text, node, endTag, tag, p, next)
  {
    hide LineOk, Intact;
  }

  lemma LeafBehind(buffer: seq<char>, text: string, node: LazyNode, kind: LeafKind, line: nat, p: nat, t: nat,
                   next: nat)
    requires p <= |text| && HeaderRead(text, p, StartLeaf(kind), t) && LeafRead(buffer, text, node, kind, line, t, next)
    requires line == LineAt(text, p + WhiteLead(text[p..]))
    ensures NodeRead(buffer, text, node, None, "", p, next) && p < next
  {
    hide HeaderRead, LineOk, LineAt, WhiteLead, Intact;
    HeaderAdvances(text, p, StartLeaf(kind), t);
    LeafLine(buffer, text, node, kind, p, t, next);
    assert Spans(node) == [node.value];
  }

  lemma LeafLine(buffer: seq<char>, text: string, node: LazyNode, kind: LeafKind, p: nat, t: nat, next: nat)
    requires p <= |text| && HeaderRead(text, p, StartLeaf(kind), t)
             && LeafRead(buffer, text, node, kind, node.line, t, next)
    requires node.line == LineAt(text, p + WhiteLead(text[p..]))
    ensures LineOk(text, node)
    ensures kind.Text? ==> At(text, p) != '<' && p < next
  {
    LeafStarts(buffer, text, node, kind, p, t, next);
    hide StartsAt, WhiteLead, LineAt, HeaderRead, LeafRead, AttributeLines, LinesOk;
    assert StartsAt(text, node, p + WhiteLead(text[p..]));
  }

  lemma LeafStarts(buffer: seq<char>, text: string, node: LazyNode, kind: LeafKind, p: nat, t: nat, next: nat)
    requires p <= |text| && HeaderRead(text, p, StartLeaf(kind), t)
             && LeafRead(buffer, text, node, kind, node.line, t, next)
    ensures StartsAt(text, node, p + WhiteLead(text[p..]))
    ensures kind.Text? ==> At(text, p) != '<' && p < next
  {
    var q := p + WhiteLead(text[p..]);
    if kind.Text? {
      TextStart(text, p, q);
    }
    hide WhiteLead, Intact, IsWhiteSpace, AllWhite;
  }

  /** The white space in front of plain text belongs to it. */
  lemma TextStart(text: string, p: nat, q: nat)
    requires p <= |text| && q == p + WhiteLead(text[p..]) < |text| && text[q] != '<'
    ensures AllWhite(text[p..q]) && !IsWhiteSpace(text[q])
    ensures forall i :: p <= i <= q ==> text[i] != '<'
  {
    var t := text[p..];
    assert text[q] == t[q - p];
    assert text[p..q] == t[..q - p];
    forall i | p <= i < q
      ensures text[i] != '<'
    {
      assert text[i] == t[i - p];
    }
  }

  lemma NamePlace(buffer: seq<char>, text: string, node: LazyNode, lo: nat, hi: nat)
    requires node.LazyElement? && NodeOk(buffer, text, node, lo, hi)
    ensures lo <= node.name.start <= node.name.end < hi && Intact(buffer, text, node.name)
  {
    hide LineOk, Intact;
    assert Spans(node)[0] == node.name;
  }

  lemma TagPlace(buffer: seq<char>, text: string, tag: StrPair, name: string, next: nat)
    requires TagOk(buffer, text, tag, name, next)
    ensures tag.start <= tag.end < next && tag.end < |buffer| && Intact(buffer, text, tag)
  {
  }

  lemma NodeKept(before: seq<char>, after: seq<char>, text: string, node: LazyNode, lo: nat, hi: nat, e: nat)
    requires NodeOk(before, text, node, lo, hi) && hi <= e && |before| == |after|
    requires forall i :: 0 <= i < |before| && i != e ==> after[i] == before[i]
    ensures NodeOk(after, text, node, lo, hi)
  {
    IntactFrame(before, after, text, Spans(node), hi);
  }

  /** Flushing the element's own name leaves its other ranges as they were. */
  lemma NameFlushKeeps(before: seq<char>, after: seq<char>, text: string, node: LazyNode, lo: nat, hi: nat, next: nat)
    requires node.LazyElement? && NodeOk(before, text, node, lo, hi) && hi <= next && |before| == |after|
    requires forall i :: 0 <= i < |before| && i != node.name.end ==> after[i] == before[i]
    requires Intact(after, text, node.name.(needsFlush := false))
    ensures NodeOk(after, text, node.(name := node.name.(needsFlush := false)), lo, next)
  {
    var name := node.name.(needsFlush := false);
    FlushedLine(text, node);
    FlushedSpans(node);
    hide LineOk, Spans;
    FrontReplaced(before, after, text, Spans(node), name, lo, hi, next);
  }

  lemma FlushedSpans(node: LazyNode)
    requires node.LazyElement?
    ensures var name := node.name.(needsFlush := false);
            Spans(node)[0] == node.name && Spans(node.(name := name)) == [name] + Spans(node)[1..]
  {
    var rest := AttributeSpans(node.attributes) + SpansAll(node.children);
    assert Spans(node) == [node.name] + rest;
  }

  lemma FrontReplaced(before: seq<char>, after: seq<char>, text: string, ss: seq<StrPair>, name: StrPair, lo: nat,
                      hi: nat, next: nat)
    requires ss != [] && Ordered(ss, lo, hi) && AllIntact(before, text, ss) && hi <= next && |before| == |after|
    requires name == ss[0].(needsFlush := false) && Intact(after, text, name)
    requires forall i :: 0 <= i < |before| && i != name.end ==> after[i] == before[i]
    ensures Ordered([name] + ss[1..], lo, next) && AllIntact(after, text, [name] + ss[1..])
  {
    var tt := [name] + ss[1..];
    assert |tt| == |ss| && forall i :: 0 < i < |ss| ==> tt[i] == ss[i];
    forall i | 0 <= i < |tt|
      ensures Intact(after, text, tt[i])
    {
      if i > 0 {
        assert ss[0].end < ss[i].start && Intact(before, text, ss[i]);
      }
    }
  }

  lemma FlushedLine(text: string, node: LazyNode)
    requires node.LazyElement? && LineOk(text, node)
    ensures LineOk(text, node.(name := node.name.(needsFlush := false)))
  {
    hide LineAt;
    var q :| StartsAt(text, node, q) && node.line == LineAt(text, q);
    assert StartsAt(text, node.(name := node.name.(needsFlush := false)), q);
  }

  lemma RangeKept(before: seq<char>, after: seq<char>, text: string, r: StrPair, e: nat)
    requires Intact(before, text, r) && e < r.start && |before| == |after|
    requires forall i :: 0 <= i < |before| && i != e ==> after[i] == before[i]
    ensures Intact(after, text, r)
  {
  }

  lemma SameNode(text: string, node: LazyNode)
    requires node.LazyElement?
    ensures EagerNode(text, node.(name := node.name.(needsFlush := false))) == EagerNode(text, node)
  {
    FlushedName(text, node.name);
  }

  lemma NameAgrees(text: string, node: LazyNode)
    requires node.LazyElement?
    ensures EagerNode(text, node).name == EagerString(text, node.name)
  {
  }

  lemma KindsAgree(text: string, node: LazyNode)
    ensures EagerNode(text, node).Element? <==> node.LazyElement?
    ensures IsDeclaration(EagerNode(text, node)) <==> node.LazyLeaf? && node.kind.Declaration?
  {
  }

  predicate IsLazyDeclaration(n: LazyNode) {
    n.LazyLeaf? && n.kind.Declaration?
  }

  /** FirstChild() and LastChild() are declarations, or there are no children. */
  predicate WellLocatedHere(isDocument: bool, children: seq<LazyNode>) {
    isDocument && (children != [] ==> IsLazyDeclaration(children[0]) && IsLazyDeclaration(children[|children| - 1]))
  }

  lemma {:induction false} EagerAt(text: string, ns: seq<LazyNode>, i: nat)
    requires i < |ns|
    ensures EagerNodes(text, ns)[i] == EagerNode(text, ns[i])
    decreases ns
  {
    hide EagerNode;
    if i > 0 {
      EagerAt(text, ns[1..], i - 1);
    }
  }

  lemma WellLocatedAgrees(text: string, isDocument: bool, children: seq<LazyNode>)
    ensures WellLocatedHere(isDocument, children) == Spec.WellLocated(isDocument, EagerNodes(text, children))
    ensures forall node :: IsDeclaration(EagerNode(text, node)) <==> IsLazyDeclaration(node)
  {
    hide EagerNodes;
    if children != [] {
      EagerAt(text, children, 0);
      EagerAt(text, children, |children| - 1);
    }
  }

  lemma NoChildren(buffer: seq<char>, text: string, p: nat)
    ensures NodesOk(buffer, text, [], p, Bound(text, p)) && EagerNodes(text, []) == []
  {
  }

  lemma NodesWiden(buffer: seq<char>, text: string, nodes: seq<LazyNode>, lo: nat, hi: nat, hi': nat)
    requires NodesOk(buffer, text, nodes, lo, hi) && hi <= hi'
    ensures NodesOk(buffer, text, nodes, lo, hi')
  {
    hide Intact, LinesOk;
  }

  /** Ranges read before position `q` survive what happens from there on. */
  lemma NodesKept(before: seq<char>, after: seq<char>, text: string, nodes: seq<LazyNode>, lo: nat, q: nat)
    requires NodesOk(before, text, nodes, lo, Bound(text, q)) && |before| == |after| == |text| + 1 && q <= |text|
    requires forall i :: 0 <= i < q ==> after[i] == before[i]
    requires before[q] == At(text, q)
    ensures NodesOk(after, text, nodes, lo, Bound(text, q))
  {
    var ss := SpansAll(nodes);
    hide LinesOk, SpansAll;
    forall i | 0 <= i < |ss|
      ensures Intact(after, text, ss[i])
    {
      assert Intact(before, text, ss[i]);
    }
  }

  lemma NodesFrame(before: seq<char>, after: seq<char>, text: string, nodes: seq<LazyNode>, lo: nat, hi: nat)
    requires NodesOk(before, text, nodes, lo, hi) && |before| == |after|
    requires forall i :: 0 <= i < |before| && i < hi ==> after[i] == before[i]
    ensures NodesOk(after, text, nodes, lo, hi)
  {
    hide LinesOk, SpansAll;
    IntactFrame(before, after, text, SpansAll(nodes), hi);
  }

  /** A node with its place behind position `q` and in front of what follows `next`. */
  ghost predicate NodePlaced(buffer: seq<char>, text: string, node: LazyNode, q: nat, next: nat) {
    NodeOk(buffer, text, node, Bound(text, q), Bound(text, next))
  }

  lemma LeafPlaced(buffer: seq<char>, text: string, node: LazyNode, endTag: Option<StrPair>, tag: string, q: nat,
                   next: nat)
    requires node.LazyLeaf? && NodeRead(buffer, text, node, endTag, tag, q, next)
    ensures NodePlaced(buffer, text, node, q, next)
  {
  }

  lemma ElementPlaced(buffer: seq<char>, text: string, node: LazyNode, q: nat, next: nat)
    requires NodeOk(buffer, text, node, q + 1, next)
    ensures NodePlaced(buffer, text, node, q, next)
  {
    hide LineOk, Intact;
  }

  lemma NodeAppended(buffer: seq<char>, text: string, children: seq<LazyNode>, node: LazyNode, p: nat, q: nat,
                     next: nat)
    requires NodesOk(buffer, text, children, p, Bound(text, q)) && NodePlaced(buffer, text, node, q, next) && p <= q
    ensures NodesOk(buffer, text, children + [node], p, Bound(text, next))
  {
    SpansAppend(children, node);
    var a, b := SpansAll(children), Spans(node);
    hide Spans, SpansAll, Intact, LineOk;
    assert p <= Bound(text, q) <= b[0].start <= b[0].end < Bound(text, next);
    OrderedConcat(a, b, p, Bound(text, q), Bound(text, next));
    IntactConcat(buffer, text, a, b);
  }

  lemma TagReturned(buffer: seq<char>, text: string, children: seq<LazyNode>, node: LazyNode, endTag: Option<StrPair>,
                    tag: string,
                    p: nat, q: nat, next: nat)
    requires NodesOk(buffer, text, children, p, Bound(text, q)) && node.LazyElement? && p <= q < next
    requires NodeRead(buffer, text, node, endTag, tag, q, next)
    ensures EndTagRead(buffer, text, children, node.name, EagerString(text, node.name), p, next)
  {
    hide NodesOk, NodeOk, EagerString;
    NamePlace(buffer, text, node, q + 1, if endTag.Some? then endTag.value.start else next);
    NodesWiden(buffer, text, children, p, Bound(text, q), node.name.start);
    NonEmptyName(buffer, text, node.name);
  }

  lemma NonEmptyName(buffer: seq<char>, text: string, name: StrPair)
    requires Intact(buffer, text, name) && name.mode == PLAIN && name.start < name.end
    ensures EagerString(text, name) != ""
  {
    NameIsString(text, name);
  }

  /** What the loop does with one result: stop with an error, return the end tag, or append and go on. */
  function Verdict(options: Options, isDocument: bool, depth: nat, before: seq<Node>, r: NodeResult): ChildrenResult {
    match r
    case Null(error) => Failed(ErrorOr(error))
    case Read(node, closing, rest, endTag) =>
      if IsDeclaration(node) && !Spec.WellLocated(isDocument, before) then Failed(ParsingDeclaration)
      else if node.Element? && closing == ClosingTag then EndTag(before, rest, node.name)
      else if node.Element? && Spec.Mismatch(node.name, closing, endTag) then Failed(MismatchedElement)
      else Spec.ParseLoop(options, rest, isDocument, depth, before + [node])
  }

  lemma LoopAt(options: Options, text: string, q: nat, isDocument: bool, depth: nat, before: seq<Node>)
    requires q < |text| && text[q] != NUL
    ensures var r := NodeAt(options, text[q..], depth);
            Spec.ParseLoop(options, text[q..], isDocument, depth, before)
            == if r.None? then EndOfInput(before) else Verdict(options, isDocument, depth, before, r.value)
  {
    hide Spec.Identify, Spec.ParseElement, Spec.ParseLeaf, Spec.WellLocated, Spec.Mismatch;
  }

  lemma LoopEnds(options: Options, text: string, q: nat, isDocument: bool, depth: nat, before: seq<Node>)
    requires q <= |text| && At(text, q) == NUL
    ensures Spec.ParseLoop(options, text[q..], isDocument, depth, before) == EndOfInput(before)
  {
  }

  lemma FirstLine(text: string)
    ensures LineAt(text, 0) == 1
  {
    assert text[..0] == "";
  }

  lemma BomHere(text: string, p: nat)
    requires p <= |text| && StartsWith(text[p..], BOM)
    ensures p + 3 <= |text| && text[p..][3..] == text[p + 3..] && LineAt(text, p + 3) == LineAt(text, p)
  {
    Suffix(text, p, 3);
    TagKeepsLine(text, p, BOM);
  }

  lemma DocumentEnds(buffer: seq<char>, text: string, children: seq<LazyNode>, endTag: Option<StrPair>, q: nat,
                     next: Option<nat>)
    requires |buffer| == |text| + 1
    ensures endTag.Some? && next.Some? && next.value <= |text| ==>
              forall name :: EndTagRead(buffer, text, children, endTag.value, name, q, next.value) ==>
                NodesOk(buffer, text, children, 0, |text| + 1)
    ensures NodesOk(buffer, text, children, q, |text| + 1) ==> NodesOk(buffer, text, children, 0, |text| + 1)
  {
    hide Intact, LinesOk;
  }
}
