/** What the recursive-descent parser makes of a NUL-terminated text: the specification of XmlParser.

    A function gets the text from the cursor on and returns the text from the new cursor on. */
module XmlParsing {
  import opened Optional
  import opened XmlChars
  import opened StringDecoding
  import opened Dom

  // ---------------------------------------------------------------------------------------------
  // Strings (StrPair::ParseText, StrPair::ParseName)
  // ---------------------------------------------------------------------------------------------

  predicate AtEnd(s: string) {
    s == "" || s[0] == NUL
  }

  /** Where `tag` first occurs in the C string `s`. */
  function FindTag(s: string, tag: string): (r: Option<nat>)
    requires tag != "" && NulFree(tag)
    ensures r.Some? ==> r.value + |tag| <= |s| && NulFree(s[..r.value])
  {
    if AtEnd(s) then None
    else if StartsWith(s, tag) then Some(0)
    else
      match FindTag(s[1..], tag)
      case None => None
      case Some(i) =>
        assert s[..i + 1] == [s[0]] + s[1..][..i];
        Some(i + 1)
  }

  /** The tag stands where it was found. */
  lemma {:induction false} FoundTag(s: string, tag: string)
    requires tag != "" && NulFree(tag) && FindTag(s, tag).Some?
    ensures StartsWith(s[FindTag(s, tag).value..], tag) && s[FindTag(s, tag).value] == tag[0]
  {
    if !StartsWith(s, tag) {
      FoundTag(s[1..], tag);
      assert s[1..][FindTag(s[1..], tag).value..] == s[FindTag(s, tag).value..];
    } else {
      assert s[0..] == s;
    }
  }

  /** The length of the name that starts `s`, 0 when none does. */
  function NameLength(s: string): (n: nat)
    ensures n <= |s|
    ensures n > 0 <==> s != "" && IsNameStartChar(s[0])
  {
    if s != "" && IsNameStartChar(s[0]) then 1 + NameTail(s[1..]) else 0
  }

  function NameTail(s: string): (n: nat)
    ensures n <= |s|
    ensures forall i :: 0 <= i < n ==> IsNameChar(s[i])
    ensures n < |s| ==> !IsNameChar(s[n])
  {
    if s != "" && IsNameChar(s[0]) then 1 + NameTail(s[1..]) else 0
  }

  // ---------------------------------------------------------------------------------------------
  // Tags (XMLAttribute::ParseDeep, XMLElement::ParseAttributes)
  // ---------------------------------------------------------------------------------------------

  datatype Closing = Open | Closed | ClosingTag

  function AttributeMode(options: Options): Mode {
    Mode(options.processEntities, true, false)
  }

  function TextMode(options: Options): Mode {
    Mode(options.processEntities, true, options.collapse)
  }

  /** The text after `name`, white space, `=`, white space: what must start with a quote. */
  function ToQuote(s: string): (r: Option<string>)
    ensures r.Some? ==> |r.value| < |s|
  {
    var t := SkipWhite(s);
    if At(t, 0) == '=' then Some(SkipWhite(t[1..])) else None
  }

  /** One attribute at the start of `s`, and the rest. */
  function ParseAttribute(options: Options, s: string): (r: Option<(Attribute, string)>)
    ensures r.Some? ==> |r.value.1| < |s|
  {
    var n := NameLength(s);
    match ToQuote(s[n..])
    case None => None
    case Some(t) =>
      if At(t, 0) != '\"' && At(t, 0) != '\'' then None
      else
        match FindTag(t[1..], [t[0]])
        case None => None
        case Some(i) => Some((Attribute(s[..n], Eager(AttributeMode(options), t[1..][..i])), t[i + 2..]))
  }

  datatype Tag = TagError(error: XmlError) | TagRead(attributes: seq<Attribute>, rest: string, sealed: bool)

  /** The attributes and the end of a tag; `attributes` are the ones read so far. */
  function ParseAttributes(options: Options, s: string, attributes: seq<Attribute>): (r: Tag)
    ensures r.TagRead? ==> |r.rest| < |s|
    decreases |s|
  {
    var t := SkipWhite(s);
    if AtEnd(t) then TagError(ParsingElement)
    else if IsNameStartChar(t[0]) then
      match ParseAttribute(options, t)
      case None => TagError(ParsingAttribute)
      case Some((attribute, rest)) =>
        if HasAttribute(attributes, attribute.name) then TagError(ParsingAttribute)
        else ParseAttributes(options, rest, attributes + [attribute])
    else if t[0] == '>' then TagRead(attributes, t[1..], false)
    else if t[0] == '/' && At(t, 1) == '>' then TagRead(attributes, t[2..], true)
    else TagError(ParsingElement)
  }

  // ---------------------------------------------------------------------------------------------
  // Nodes (XMLDocument::Identify and the ParseDeep family)
  // ---------------------------------------------------------------------------------------------

  datatype Start = StartElement | StartLeaf(kind: LeafKind)

  /** What comes next, and the cursor after its header; plain text keeps its leading white space. */
  function Identify(s: string): (r: Option<(Start, string)>)
    ensures r.Some? ==> |r.value.1| <= |s|
    ensures r.Some? && r.value.0 != StartLeaf(Text) ==> |r.value.1| < |s|
    ensures r.Some? && r.value.0 == StartLeaf(Text) ==> r.value.1 == s && s != "" && s[0] != '<'
  {
    var p := SkipWhite(s);
    if AtEnd(p) then None
    else if StartsWith(p, "<?") then Some((StartLeaf(Declaration), p[2..]))
    else if StartsWith(p, "<!--") then Some((StartLeaf(Comment), p[4..]))
    else if StartsWith(p, "<![CDATA[") then Some((StartLeaf(CData), p[9..]))
    else if StartsWith(p, "<!") then Some((StartLeaf(Unknown), p[2..]))
    else if StartsWith(p, "<") then Some((StartElement, p[1..]))
    else
      assert p[..1] == [p[0]];
      Some((StartLeaf(Text), s))
  }

  function EndOf(kind: LeafKind): (tag: string)
    ensures tag != "" && NulFree(tag)
  {
    match kind
    case Text => "<"
    case CData => "]]>"
    case Comment => "-->"
    case Declaration => "?>"
    case Unknown => ">"
  }

  function LeafError(kind: LeafKind): XmlError {
    match kind
    case Text => ParsingText
    case CData => ParsingCData
    case Comment => ParsingComment
    case Declaration => ParsingDeclaration
    case Unknown => ParsingUnknown
  }

  function LeafMode(options: Options, kind: LeafKind): Mode {
    if kind.Text? then TextMode(options) else NEWLINES
  }

  /** Result of one node's ParseDeep: a null cursor with the error it set itself, or a node, how its tag
      closed, the rest of the text and the name of the end tag read inside (empty when there is none). */
  datatype NodeResult =
    | Null(error: Option<XmlError>)
    | Read(node: Node, closing: Closing, rest: string, endTag: string)

  function ParseLeaf(options: Options, kind: LeafKind, s: string): (r: NodeResult)
    ensures r.Read? ==> |r.rest| <= |s| && (kind.Text? && s != "" && s[0] != '<' ==> |r.rest| < |s|)
    ensures r.Read? ==> r.node.Leaf? && r.closing == Open && r.endTag == ""
  {
    match FindTag(s, EndOf(kind))
    case None => Null(Some(LeafError(kind)))
    case Some(i) =>
      var node := Leaf(kind, Eager(LeafMode(options, kind), s[..i]));
      if kind.Text? then
        // plain text stops before the markup, and a lone '<' at the end of the input is an error of the caller
        if AtEnd(s[i + 1..]) then Null(None) else Read(node, Open, s[i..], "")
      else Read(node, Open, s[i + |EndOf(kind)|..], "")
  }

  /** Result of the child loop: the end tag of the parent was read, the input ended, or an error was set. */
  datatype ChildrenResult =
    | EndTag(children: seq<Node>, rest: string, name: string)
    | EndOfInput(children: seq<Node>)
    | Failed(error: XmlError)

  function ParseElement(options: Options, s: string, depth: nat): (r: NodeResult)
    ensures r.Read? ==> |r.rest| < |s| && r.node.Element?
    decreases |s|, 0
  {
    var t := SkipWhite(s);
    var closing := At(t, 0) == '/';
    var u := if closing then t[1..] else t;
    var n := NameLength(u);
    if n == 0 then Null(None)
    else
      match ParseAttributes(options, u[n..], [])
      case TagError(error) => Null(Some(error))
      case TagRead(attributes, rest, sealed) =>
        if sealed || closing || AtEnd(rest) then
          Read(Element(u[..n], attributes, []), if sealed then Closed else if closing then ClosingTag
               else Open, rest, "")
        else
          match ParseDeep(options, rest, false, depth)
          case EndTag(children, rest', name) => Read(Element(u[..n], attributes, children), Open, rest', name)
          case EndOfInput(_) => Null(None)
          case Failed(error) => Null(Some(error))
  }

  /** XMLNode::ParseDeep: one level deeper, or the depth error. */
  function ParseDeep(options: Options, s: string, isDocument: bool, depth: nat): (r: ChildrenResult)
    ensures r.EndTag? ==> |r.rest| < |s|
    decreases |s|, 2
  {
    if depth + 1 == MAX_ELEMENT_DEPTH then Failed(DepthExceeded)
    else ParseLoop(options, s, isDocument, depth + 1, [])
  }

  /** Declarations come first, and only at document level. */
  predicate WellLocated(isDocument: bool, before: seq<Node>) {
    isDocument && (before != [] ==> IsDeclaration(before[0]) && IsDeclaration(before[|before| - 1]))
  }

  function ParseLoop(options: Options, s: string, isDocument: bool, depth: nat, before: seq<Node>): (r: ChildrenResult)
    ensures r.EndTag? ==> |r.rest| < |s|
    decreases |s|, 1
  {
    if AtEnd(s) then EndOfInput(before)
    else
      match Identify(s)
      case None => EndOfInput(before)
      case Some((start, t)) =>
        var result := if start.StartElement? then ParseElement(options, t, depth)
            else ParseLeaf(options, start.kind, t);
        match result
        case Null(error) => Failed(if error.Some? then error.value else Parsing)
        case Read(node, closing, rest, endTag) =>
          if IsDeclaration(node) && !WellLocated(isDocument, before) then Failed(ParsingDeclaration)
          else if node.Element? && closing == ClosingTag then EndTag(before, rest, node.name)
          else if node.Element? && Mismatch(node.name, closing, endTag) then Failed(MismatchedElement)
          else ParseLoop(options, rest, isDocument, depth, before + [node])
  }

  /** An open element needs an end tag of its own name, a sealed one must not have read any. */
  predicate Mismatch(name: string, closing: Closing, endTag: string) {
    if endTag == "" then closing == Open else closing != Open || endTag != name
  }

  // ---------------------------------------------------------------------------------------------
  // Documents (XMLDocument::Parse)
  // ---------------------------------------------------------------------------------------------

  const BOM := [0xEF as char, 0xBB as char, 0xBF as char]

  datatype Document = ParseError(error: XmlError) | Parsed(bom: bool, children: seq<Node>)

  /** An end tag that matches nothing at document level stops the parser without an error. */
  function ParseDocument(options: Options, text: string): Document {
    if AtEnd(text) then ParseError(EmptyDocument)
    else
      var s := SkipWhite(text);
      var bom := StartsWith(s, BOM);
      var t := if bom then s[3..] else s;
      if AtEnd(t) then ParseError(EmptyDocument)
      else
        match ParseDeep(options, t, true, 0)
        case EndTag(children, _, _) => Parsed(bom, children)
        case EndOfInput(children) => Parsed(bom, children)
        case Failed(error) => ParseError(error)
  }
}
