/** What the lines of a configuration file say (CLI11, ConfigBase::from_config), and files as an author writes them,
    byte by byte. */
module ConfigLines {
  import opened BlankBytes

  type Path = seq<string>

  /** What a reader is configured with. */
  datatype Settings = Settings(commentChar: char, valueDelimiter: char)

  const DEFAULT := "default"

  // ---------------------------------------------------------------------------------------------
  // Strings
  // ---------------------------------------------------------------------------------------------

  predicate IsSpace(c: char) {
    c == ' ' || '\t' <= c <= '\r'
  }

  function TrimLeft(s: string): string {
    if s != "" && IsSpace(s[0]) then TrimLeft(s[1..]) else s
  }

  function TrimRight(s: string): string {
    if s != "" && IsSpace(s[|s| - 1]) then TrimRight(s[..|s| - 1]) else s
  }

  function Trim(s: string): string {
    TrimLeft(TrimRight(s))
  }

  function Lower(s: string): (r: string) {
    seq(|s|, i requires 0 <= i < |s| => if 'A' <= s[i] <= 'Z' then s[i] - 'A' + 'a' else s[i])
  }

  function Find(s: string, c: char): (i: nat)
    ensures i <= |s| && (i < |s| ==> s[i] == c)
  {
    if s == "" || s[0] == c then 0 else 1 + Find(s[1..], c)
  }

  /** The pieces between the delimiters; nothing follows a delimiter at the end. */
  function Split(s: string, delim: char): (r: seq<string>)
    requires s != ""
    ensures r != []
    decreases |s|
  {
    var i := Find(s, delim);
    [s[..i]] + if i + 1 < |s| then Split(s[i + 1..], delim) else []
  }

  function RemoveQuotes(s: string): string {
    if |s| > 1 && (s[0] == '"' || s[0] == '\'') && s[0] == s[|s| - 1] then s[1..|s| - 1] else s
  }

  function AllUnquoted(ps: Path): (r: Path)
    ensures |r| == |ps|
  {
    seq(|ps|, i requires 0 <= i < |ps| => RemoveQuotes(ps[i]))
  }

  // ---------------------------------------------------------------------------------------------
  // Lines
  // ---------------------------------------------------------------------------------------------

  /** A line starts a section, means nothing, or sets an option. */
  datatype Line = Header(section: string) | Blank | Entry(name: string, inputs: seq<string>)

  function Unbracket(s: string): string {
    if |s| > 1 && s[0] == '[' && s[|s| - 1] == ']' then s[1..|s| - 1] else s
  }

  /** What a line says; `values` is how the text of a value is split. */
  function Classify(settings: Settings, values: string -> seq<string>, line: string): Line {
    var t := Trim(line);
    if |t| > 1 && t[0] == '[' && t[|t| - 1] == ']' then Header(Unbracket(t[1..|t| - 1]))
    else if t == "" || t[0] == ';' || t[0] == '#' || t[0] == settings.commentChar then Blank
    else
      var pos := Find(t, settings.valueDelimiter);
      var name := Trim(t[..pos]);
      var inputs := if pos < |t| then values(Trim(t[pos + 1..])) else ["true"];
      Entry(if '.' in name then name else RemoveQuotes(name), AllUnquoted(inputs))
  }

  // ---------------------------------------------------------------------------------------------
  // Lines as they are written
  // ---------------------------------------------------------------------------------------------

  /** Neither the first nor the last byte is blank. */
  predicate Solid(s: string) {
    s != "" ==> !IsBlank(s[0]) && !IsBlank(s[|s| - 1])
  }

  /** The kinds of lines: blanks; a comment; a section in one or two pairs of brackets; an option with a value; an
      option by its name alone. */
  datatype Written =
    | Nothing(lead: string)
    | Comment(lead: string, mark: char, text: string)
    | Section(lead: string, name: string, doubled: bool, trail: string)
    | Assignment(lead: string, name: string, before: string, after: string, value: string, trail: string)
    | Flag(lead: string, name: string, trail: string)

  function Text(settings: Settings, w: Written): string {
    match w
    case Nothing(lead) => lead
    case Comment(lead, mark, text) => lead + ([mark] + text)
    case Section(lead, name, doubled, trail) => lead + (if doubled then "[[" + name + "]]" else "[" + name + "]")
        + trail
    case Assignment(lead, name, before, after, value, trail) =>
      lead + (name + before + [settings.valueDelimiter] + after + value) + trail
    case Flag(lead, name, trail) => lead + name + trail
  }

  predicate Quoted(s: string) {
    |s| > 1 && (s[0] == '\"' || s[0] == '\'') && s[0] == s[|s| - 1]
  }

  /** Without the quotes around it. */
  function Bare(s: string): string {
    if Quoted(s) then s[1..|s| - 1] else s
  }

  function AllBare(items: seq<string>): (r: seq<string>)
    ensures |r| == |items|
  {
    seq(|items|, i requires 0 <= i < |items| => Bare(items[i]))
  }

  predicate Bracketed(s: string) {
    |s| > 1 && s[0] == '[' && s[|s| - 1] == ']'
  }

  /** A name that is free of delimiters, quotes and blanks, and does not start like a section or a comment. */
  predicate PlainName(settings: Settings, name: string) {
    && name != "" && name[0] !in ['[', ';', '#', settings.commentChar]
    && forall i :: 0 <= i < |name| ==>
         name[i] !in [settings.valueDelimiter, '\"', '\''] && !IsBlank(name[i])
  }

  predicate Proper(settings: Settings, w: Written) {
    match w
    case Nothing(lead) => Blanks(lead)
    case Comment(lead, mark, _) =>
      Blanks(lead) && mark in [';', '#', settings.commentChar] && mark != '[' && !IsBlank(mark)
    case Section(lead, name, doubled, trail) => Blanks(lead) && Blanks(trail) && (!doubled ==> !Bracketed(name))
    case Assignment(lead, name, before, after, value, trail) =>
      && Blanks(lead) && Blanks(before) && Blanks(after) && Blanks(trail)
      && PlainName(settings, name) && Solid(value) && !IsBlank(settings.valueDelimiter)
    case Flag(lead, name, trail) => Blanks(lead) && Blanks(trail) && PlainName(settings, name)
  }

  /** What a written line stands for. */
  function Meaning(values: string -> seq<string>, w: Written): Line {
    match w
    case Nothing(_) => Blank
    case Comment(_, _, _) => Blank
    case Section(_, name, _, _) => Header(name)
    case Assignment(_, name, _, _, value, _) => Entry(name, AllBare(values(value)))
    case Flag(_, name, _) => Entry(name, ["true"])
  }

  // ---------------------------------------------------------------------------------------------
  // Written lines are classified as what they stand for
  // ---------------------------------------------------------------------------------------------

  lemma {:induction false} LeftTrimmed(lead: string, body: string)
    requires Blanks(lead) && (body != "" ==> !IsBlank(body[0]))
    ensures TrimLeft(lead + body) == body
  {
    if lead == "" {
      assert lead + body == body;
    } else {
      assert (lead + body)[1..] == lead[1..] + body;
      LeftTrimmed(lead[1..], body);
    }
  }

  lemma {:induction false} RightTrimmed(body: string, trail: string)
    requires Blanks(trail) && (body != "" ==> !IsBlank(body[|body| - 1]))
    ensures TrimRight(body + trail) == body
  {
    if trail == "" {
      assert body + trail == body;
    } else {
      var n := |trail| - 1;
      assert (body + trail)[..|body + trail| - 1] == body + trail[..n];
      RightTrimmed(body, trail[..n]);
    }
  }

  lemma Trimmed(lead: string, body: string, trail: string)
    requires Blanks(lead) && Blanks(trail) && Solid(body)
    ensures Trim(lead + body + trail) == body
  {
    if body == "" {
      RightTrimmed("", lead + trail);
      assert lead + body + trail == "" + (lead + trail);
    } else {
      RightTrimmed(lead + body, trail);
      LeftTrimmed(lead, body);
    }
  }

  lemma {:induction false} FoundAt(a: string, c: char, b: string)
    requires c !in a
    ensures Find(a + [c] + b, c) == |a| && Find(a, c) == |a|
  {
    if a != "" {
      assert (a + [c] + b)[1..] == a[1..] + [c] + b;
      FoundAt(a[1..], c, b);
    }
  }

  lemma Unquoting(items: seq<string>)
    ensures AllUnquoted(items) == AllBare(items)
  {
  }

  lemma WrittenIsMeant(settings: Settings, values: string -> seq<string>, w: Written)
    requires Proper(settings, w)
    ensures Classify(settings, values, Text(settings, w)) == Meaning(values, w)
  {
    match w
    case Nothing(lead) =>
      Trimmed("", "", lead);
      assert "" + "" + lead == lead;
    case Comment(lead, mark, text) => CommentIsBlank(settings, values, lead, mark, text);
    case Section(lead, name, doubled, trail) => SectionIsHeader(settings, values, lead, name, doubled, trail);
    case Assignment(lead, name, before, after, value, trail) => AssignmentIsEntry(settings, values, w);
    case Flag(lead, name, trail) => FlagIsEntry(settings, values, lead, name, trail);
  }

  lemma CommentIsBlank(settings: Settings, values: string -> seq<string>, lead: string, mark: char, text: string)
    requires Blanks(lead) && mark in [';', '#', settings.commentChar] && mark != '[' && !IsBlank(mark)
    ensures Classify(settings, values, lead + ([mark] + text)) == Blank
  {
    var body := TrimRight([mark] + text);
    var trail := KeepsFirst(mark, text);
    Trimmed(lead, body, trail);
    assert lead + ([mark] + text) == lead + body + trail;
  }

  /** Trimming on the right keeps a first byte that is not blank. */
  lemma {:induction false} KeepsFirst(c: char, s: string) returns (trail: string)
    requires !IsBlank(c)
    ensures var body := TrimRight([c] + s);
            body != "" && body[0] == c && Solid(body) && Blanks(trail) && [c] + s == body + trail
    decreases |s|
  {
    var t := [c] + s;
    if s != "" && IsSpace(t[|t| - 1]) {
      var n := |s| - 1;
      assert t[..|t| - 1] == [c] + s[..n];
      var shorter := KeepsFirst(c, s[..n]);
      trail := shorter + [s[n]];
      assert t == [c] + s[..n] + [s[n]];
    } else {
      trail := "";
      assert t + "" == t;
    }
  }

  lemma SectionIsHeader(settings: Settings, values: string -> seq<string>, lead: string, name: string, doubled: bool,
                        trail: string)
    requires Blanks(lead) && Blanks(trail) && (!doubled ==> !Bracketed(name))
    ensures Classify(settings, values, lead + (if doubled then "[[" + name + "]]" else "[" + name + "]") + trail)
            == Header(name)
  {
    var t := if doubled then "[[" + name + "]]" else "[" + name + "]";
    Trimmed(lead, t, trail);
    if doubled {
      assert t[1..|t| - 1] == "[" + name + "]";
    }
    assert ("[" + name + "]")[1..|name| + 1] == name;
  }

  lemma AssignmentIsEntry(settings: Settings, values: string -> seq<string>, w: Written)
    requires w.Assignment? && Proper(settings, w)
    ensures Classify(settings, values, Text(settings, w)) == Entry(w.name, AllBare(values(w.value)))
  {
    hide Trim, Find, RemoveQuotes, PlainName, Bare;
    var body := AssignmentBody(settings, w);
    PlainStart(settings, w.name);
    PlainInside(settings, w.name);
    Unquoting(values(w.value));
  }

  /** The line between its blanks, and its two halves. */
  lemma AssignmentBody(settings: Settings, w: Written) returns (body: string)
    requires w.Assignment? && Proper(settings, w)
    ensures Trim(Text(settings, w)) == body && body != "" && body[0] == w.name[0]
    ensures var pos := Find(body, settings.valueDelimiter);
            pos < |body| && Trim(body[..pos]) == w.name && Trim(body[pos + 1..]) == w.value
  {
    hide Trim, Find, PlainName, Solid, Text;
    var d, head := settings.valueDelimiter, w.name + w.before;
    var tail := if w.value == "" then "" else w.after + w.value;
    body := head + [d] + tail;
    PlainInside(settings, w.name);
    BodyIsSolid(settings, w, body);
    Trimmed(w.lead, body, if w.value == "" then w.after + w.trail else w.trail);
    TextIs(settings, w);
    DelimiterFirst(settings, w);
    Halves(head, d, tail);
    TrimmedParts(settings, w);
  }

  lemma Halves(a: string, c: char, b: string)
    requires c !in a
    ensures var s := a + [c] + b; Find(s, c) == |a| && s[..|a|] == a && s[|a| + 1..] == b
  {
    FoundAt(a, c, b);
  }

  lemma TrimmedParts(settings: Settings, w: Written)
    requires w.Assignment? && Proper(settings, w)
    ensures Trim(w.name + w.before) == w.name
    ensures Trim(if w.value == "" then "" else w.after + w.value) == w.value
  {
    hide Trim, PlainName;
    PlainInside(settings, w.name);
    Trimmed("", w.name, w.before);
    assert "" + w.name + w.before == w.name + w.before;
    Trimmed(if w.value == "" then "" else w.after, w.value, "");
    assert (if w.value == "" then "" else w.after) + w.value + "" == if w.value == "" then "" else w.after + w.value;
  }

  lemma TextIs(settings: Settings, w: Written)
    requires w.Assignment?
    ensures var body :=
            w.name + w.before + [settings.valueDelimiter] + (if w.value == "" then "" else w.after + w.value);
            Text(settings, w) == w.lead + body + (if w.value == "" then w.after + w.trail else w.trail)
  {
  }

  lemma BodyIsSolid(settings: Settings, w: Written, body: string)
    requires w.Assignment? && Proper(settings, w)
    requires body == w.name + w.before + [settings.valueDelimiter] + (if w.value == "" then "" else w.after + w.value)
    ensures Solid(body) && body != "" && body[0] == w.name[0]
  {
    PlainInside(settings, w.name);
    hide PlainName;
    assert w.value != "" ==> body[|body| - 1] == w.value[|w.value| - 1];
  }

  lemma DelimiterFirst(settings: Settings, w: Written)
    requires w.Assignment? && Proper(settings, w)
    ensures settings.valueDelimiter !in w.name + w.before
  {
  }

  lemma PlainStart(settings: Settings, name: string)
    requires PlainName(settings, name)
    ensures name[0] != '[' && name[0] != ';' && name[0] != '#' && name[0] != settings.commentChar
  {
  }

  lemma PlainInside(settings: Settings, name: string)
    requires PlainName(settings, name)
    ensures name != "" && Solid(name) && settings.valueDelimiter !in name && RemoveQuotes(name) == name
  {
  }

  lemma FlagIsEntry(settings: Settings, values: string -> seq<string>, lead: string, name: string, trail: string)
    requires Blanks(lead) && Blanks(trail) && PlainName(settings, name)
    ensures Classify(settings, values, lead + name + trail) == Entry(name, ["true"])
  {
    hide Trim, Find, RemoveQuotes, PlainName, Bare;
    PlainStart(settings, name);
    PlainInside(settings, name);
    Trimmed(lead, name, trail);
    FoundAt(name, settings.valueDelimiter, "");
    Trimmed("", name, "");
    assert "" + name + "" == name && name[..|name|] == name;
    Unquoting(["true"]);
    TrueIsBare();
  }

  lemma TrueIsBare()
    ensures AllBare(["true"]) == ["true"]
  {
  }
}
