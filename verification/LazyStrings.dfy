/** Reading the strings of a parsed document: in any order and as often as one likes, each read gives what
    decoding the original text at once would have given. */
module LazyStrings {
  import opened Optional
  import opened XmlChars
  import opened StringDecoding
  import opened Dom
  import opened LazyDom
  import opened XmlParsers
  import XmlParsing

  /** The state of one string: still raw, or a C string inside its own range. */
  ghost predicate StringReady(buffer: array<char>, text: string, original: StrPair, now: StrPair)
    reads buffer
  {
    && original.start <= original.end <= |text| && original.end < buffer.Length
    && if now.needsFlush then
         now == original && forall i :: now.start <= i < now.end ==> buffer[i] == text[i]
       else
         && original.start <= now.start && now.start + |EagerString(text, original)| <= original.end
         && HoldsCString(buffer, now.start, EagerString(text, original))
  }

  class SharedStrings {
    const buffer: array<char>
    var pairs: seq<StrPair>
    ghost const text: string
    ghost const original: seq<StrPair>

    ghost predicate Valid()
      reads this, buffer
    {
      && |pairs| == |original| && Ordered(original, 0, buffer.Length)
      && forall i :: 0 <= i < |pairs| ==> StringReady(buffer, text, original[i], pairs[i])
    }

    /** The strings of a document right after parsing. */
    constructor (buffer: array<char>, pairs: seq<StrPair>, ghost text: string)
      requires buffer.Length == |text| + 1
      requires Ordered(pairs, 0, buffer.Length) && AllIntact(buffer[..], text, pairs)
      ensures Valid() && this.buffer == buffer && this.text == text && original == pairs
    {
      this.buffer, this.pairs := buffer, pairs;
      this.text, original := text, pairs;
      new;
      forall i | 0 <= i < |pairs|
        ensures StringReady(buffer, text, pairs[i], pairs[i])
      {
        assert Intact(buffer[..], text, pairs[i]);
        ParsedStringIsReady(buffer, text, pairs[i]);
      }
    }

    /** GetStr of the i-th string, and the characters it points to. */
    method Read(i: nat) returns (value: string)
      requires Valid() && i < |pairs|
      modifies this`pairs, buffer
      ensures Valid() && value == EagerString(text, original[i])
    {
      hide EagerString, HoldsCString;
      if pairs[i].needsFlush {
        Flush(i);
      }
      value := CopyString(buffer, pairs[i].start, EagerString(text, original[i]));
    }

    /** The first GetStr: decodes in place and touches no other closed range. */
    method Flush(i: nat)
      requires Valid() && i < |pairs| && pairs[i].needsFlush
      modifies this`pairs, buffer
      ensures Valid() && !pairs[i].needsFlush
    {
      hide EagerString, Eager;
      RawBytes(buffer, text, original[i], pairs[i]);
      label before:
      var read := GetStr(buffer, pairs[i]);
      ReadStringIsReady(buffer, text, original[i], read);
      pairs := pairs[i := read];
      forall j | 0 <= j < |pairs| && j != i
        ensures StringReady(buffer, text, original[j], pairs[j])
      {
        assert original[i].end < original[j].start || original[j].end < original[i].start;
        assert old@before(StringReady(buffer, text, original[j], pairs[j]));
      }
    }

    /** Any sequence of reads. */
    method ReadAll(order: seq<nat>) returns (values: seq<string>)
      requires Valid() && forall k :: 0 <= k < |order| ==> order[k] < |pairs|
      modifies this`pairs, buffer
      ensures Valid() && |values| == |order|
      ensures forall k :: 0 <= k < |order| ==> values[k] == EagerString(text, original[order[k]])
    {
      hide EagerString;
      values := [];
      for k := 0 to |order|
        invariant Valid() && |pairs| == old(|pairs|) && |values| == k
        invariant forall m :: 0 <= m < k ==> values[m] == EagerString(text, original[order[m]])
      {
        var value := Read(order[k]);
        values := values + [value];
      }
    }
  }

  method CopyString(buffer: array<char>, start: nat, ghost expected: string) returns (value: string)
    requires HoldsCString(buffer, start, expected)
    ensures value == expected
  {
    var n := 0;
    value := "";
    CStringAt(buffer, start, expected, 0);
    while buffer[start + n] != NUL
      invariant n <= |expected| && value == expected[..n]
      invariant Cursor(buffer, start + n, expected[n..])
      decreases |expected| - n
    {
      assert expected[n] == expected[n..][0];
      value := value + [buffer[start + n]];
      n := n + 1;
      CStringAt(buffer, start, expected, n);
    }
    assert expected[n..] == "";
  }

  lemma ParsedStringIsReady(buffer: array<char>, text: string, p: StrPair)
    requires buffer.Length == |text| + 1 && Intact(buffer[..], text, p)
    ensures StringReady(buffer, text, p, p)
  {
    if p.needsFlush {
      assert forall i :: p.start <= i < p.end ==> buffer[i] == buffer[..][i];
    } else {
      NameInBuffer(buffer, text, p);
    }
  }

  lemma RawBytes(buffer: array<char>, text: string, original: StrPair, now: StrPair)
    requires StringReady(buffer, text, original, now) && now.needsFlush
    ensures now == original && now.start <= now.end < buffer.Length && now.end <= |text|
    ensures buffer[now.start..now.end] == text[now.start..now.end]
  {
  }

  lemma ReadStringIsReady(buffer: array<char>, text: string, original: StrPair, read: StrPair)
    requires original.start <= read.start <= original.end <= |text| && original.end < buffer.Length && !read.needsFlush
    requires buffer[original.end] == NUL
    requires CString(buffer[read.start..original.end]) == Eager(original.mode, text[original.start..original.end])
    ensures StringReady(buffer, text, original, read)
  {
    CStringEnd(buffer, read.start, original.end);
  }

  // ---------------------------------------------------------------------------------------------
  // From the text to the values
  // ---------------------------------------------------------------------------------------------

  /** Parse a document, then read its strings in the given order (indices beyond the last string are skipped). */
  method ParseAndRead(options: Options, content: string, order: seq<nat>)
    returns (error: Option<XmlError>, children: seq<LazyNode>, values: seq<string>)
    ensures match XmlParsing.ParseDocument(options, content)
            case ParseError(e) => error == Some(e)
            case Parsed(_, read) =>
              && error == None && EagerNodes(content, children) == read
              && LinesOk(content, children) && Ordered(SpansAll(children), 0, |content| + 1)
              && |values| == |order|
              && forall k :: 0 <= k < |order| ==>
                   values[k] == if order[k] < |SpansAll(children)|
                       then EagerString(content, SpansAll(children)[order[k]]) else ""
  {
    hide EagerString, SpansAll, LinesOk, Intact;
    var parser := new XmlParser(options, content);
    var bom;
    values := [];
    bom, children := parser.Parse();
    error := parser.errorID;
    if error.None? {
      var strings := new SharedStrings(parser.buffer, SpansAll(children), content);
      for k := 0 to |order|
        invariant strings.Valid() && strings.original == SpansAll(children) && strings.text == content && |values| == k
        invariant fresh(strings) && strings.buffer == parser.buffer && fresh(parser.buffer)
        invariant forall m :: 0 <= m < k ==>
                    values[m] == if order[m] < |SpansAll(children)|
                        then EagerString(content, SpansAll(children)[order[m]]) else ""
      {
        var value := "";
        if order[k] < |strings.pairs| {
          value := strings.Read(order[k]);
        }
        values := values + [value];
      }
    }
  }
}
