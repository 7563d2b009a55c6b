/** The stream of section openings and closings that the configuration reader emits (CLI11, ConfigBase::from_config
    and detail::checkParentSegments). */
module ConfigSections {
  import opened Optional
  import opened ConfigLines

  datatype ConfigItem = ConfigItem(parents: Path, name: string, inputs: seq<string>)

  const OPEN := "++"
  const CLOSE := "--"

  // ---------------------------------------------------------------------------------------------
  // Paths
  // ---------------------------------------------------------------------------------------------

  function SectionParts(section: string): Path {
    if Lower(section) == DEFAULT then []
    else if '.' in section then Split(section, '.')
    else [section]
  }

  /** The path of a section: empty for the default one. */
  function PathOf(section: string): (p: Path) {
    AllUnquoted(SectionParts(section))
  }

  /** The part of a dotted option name before its last piece. */
  function NameParts(name: string): Path {
    if '.' in name then Split(name, '.')[..|Split(name, '.')| - 1] else []
  }

  function OwnName(name: string): string {
    if '.' in name then RemoveQuotes(Split(name, '.')[|Split(name, '.')| - 1]) else name
  }

  function ParentsOf(section: string, name: string): Path {
    AllUnquoted(SectionParts(section) + NameParts(name))
  }

  method GenerateParents(section: string, name: string) returns (parents: Path, ownName: string)
    ensures parents == ParentsOf(section, name) && ownName == OwnName(name)
  {
    parents, ownName := [], name;
    if Lower(section) != DEFAULT {
      if '.' in section {
        parents := Split(section, '.');
      } else {
        parents := [section];
      }
    }
    if '.' in name {
      var plist := Split(name, '.');
      ownName := RemoveQuotes(plist[|plist| - 1]);
      plist := plist[..|plist| - 1];
      parents := parents + plist;
    }
    ghost var raw := parents;
    var i := 0;
    while i < |parents|
      invariant i <= |parents| == |raw|
      invariant forall j :: 0 <= j < |raw| ==> parents[j] == if j < i then RemoveQuotes(raw[j]) else raw[j]
    {
      parents := parents[i := RemoveQuotes(parents[i])];
      i := i + 1;
    }
  }

  // ---------------------------------------------------------------------------------------------
  // Openings and closings
  // ---------------------------------------------------------------------------------------------

  function Opening(p: Path): ConfigItem {
    ConfigItem(p, OPEN, [])
  }

  function Closing(p: Path, inputs: seq<string>): ConfigItem {
    ConfigItem(p, CLOSE, inputs)
  }

  /** Closings of the sections on the way down from `p` to its first `c` parts, all with the same inputs. */
  function Closings(p: Path, c: nat, inputs: seq<string>): seq<ConfigItem>
    decreases |p| - c
  {
    if c >= |p| then [] else Closings(p, c + 1, inputs) + [Closing(p[..c + 1], inputs)]
  }

  /** Openings of the sections on the way up from the first `c` parts of `q` to its first `k`. */
  function Openings(q: Path, c: nat, k: nat): seq<ConfigItem>
    requires k <= |q|
  {
    if k <= c then [] else Openings(q, c, k - 1) + [Opening(q[..k])]
  }

  /** Length of the longest common prefix. */
  function Common(a: Path, b: Path): (c: nat)
    ensures c <= |a| && c <= |b| && a[..c] == b[..c]
    ensures c < |a| && c < |b| ==> a[c] != b[c]
  {
    if a == [] || b == [] || a[0] != b[0] then 0
    else
      var c := Common(a[1..], b[1..]);
      assert a[..c + 1] == [a[0]] + a[1..][..c] && b[..c + 1] == [b[0]] + b[1..][..c];
      c + 1
  }

  predicate EndsInClose(output: seq<ConfigItem>) {
    output != [] && output[|output| - 1].name == CLOSE
  }

  /** What checkParentSegments makes of the output when the section `q` begins: the closing of the section before
      goes on down to what the two have in common, and from there the sections of `q` are opened. */
  function Segments(output: seq<ConfigItem>, q: Path): seq<ConfigItem>
    requires q != []
  {
    if EndsInClose(output) && (output[|output| - 1].parents != [] || |q| > 1) then
      var last := output[|output| - 1];
      var c := Common(last.parents, q[..|q| - 1]);
      output[..|output| - 1] + Closings(last.parents, c, last.inputs) + Openings(q, c, |q|)
    else output + Openings(q, 0, |q|)
  }

  // ---------------------------------------------------------------------------------------------
  // Reading the stream
  // ---------------------------------------------------------------------------------------------

  /** One item on the stack of open sections: an opening extends the innermost section by one part, a closing
      closes the innermost section, any other item is an option. */
  function Apply(stack: Option<seq<Path>>, item: ConfigItem): Option<seq<Path>> {
    if stack.None? || (item.name != OPEN && item.name != CLOSE) then stack
    else
      var s, p := stack.value, item.parents;
      if item.name == OPEN then
        if p != [] && p[..|p| - 1] == (if s == [] then [] else s[|s| - 1]) then Some(s + [p]) else None
      else if s != [] && s[|s| - 1] == p then Some(s[..|s| - 1]) else None
  }

  /** The open sections after the items, outermost first; none when they break the stack discipline. */
  function OpenSections(items: seq<ConfigItem>): Option<seq<Path>> {
    if items == [] then Some([]) else Apply(OpenSections(items[..|items| - 1]), items[|items| - 1])
  }

  function Prefixes(p: Path): (r: seq<Path>)
    ensures |r| == |p|
  {
    seq(|p|, i requires 0 <= i < |p| => p[..i + 1])
  }

  lemma OpenOne(items: seq<ConfigItem>, item: ConfigItem)
    ensures OpenSections(items + [item]) == Apply(OpenSections(items), item)
  {
    assert (items + [item])[..|items|] == items;
  }

  lemma PrefixesGrow(p: Path)
    requires p != []
    ensures Prefixes(p) == Prefixes(p[..|p| - 1]) + [p]
  {
    var n := |p| - 1;
    assert p[..|p|] == p;
    forall i | 0 <= i < n
      ensures Prefixes(p)[i] == Prefixes(p[..n])[i]
    {
      assert p[..n][..i + 1] == p[..i + 1];
    }
  }

  lemma PrefixesDiffer(p: Path, q: Path)
    requires |p| != |q|
    ensures Prefixes(p) != Prefixes(q)
  {
    assert |Prefixes(p)| == |p| && |Prefixes(q)| == |q|;
  }

  lemma OpenedOne(items: seq<ConfigItem>, p: Path)
    requires p != [] && OpenSections(items) == Some(Prefixes(p[..|p| - 1]))
    ensures OpenSections(items + [Opening(p)]) == Some(Prefixes(p))
  {
    OpenOne(items, Opening(p));
    PrefixesGrow(p);
    var s := Prefixes(p[..|p| - 1]);
    assert s != [] ==> s[|s| - 1] == p[..|p| - 1][..|p| - 1];
  }

  lemma ClosedOne(items: seq<ConfigItem>, p: Path, inputs: seq<string>)
    requires p != [] && OpenSections(items) == Some(Prefixes(p))
    ensures OpenSections(items + [Closing(p, inputs)]) == Some(Prefixes(p[..|p| - 1]))
  {
    OpenOne(items, Closing(p, inputs));
    PrefixesGrow(p);
  }

  lemma {:induction false} ClosedDown(items: seq<ConfigItem>, p: Path, c: nat, inputs: seq<string>)
    requires c <= |p| && OpenSections(items) == Some(Prefixes(p))
    ensures OpenSections(items + Closings(p, c, inputs)) == Some(Prefixes(p[..c]))
    decreases |p| - c
  {
    hide OpenSections, Prefixes;
    if c == |p| {
      assert p[..c] == p && items + [] == items;
    } else {
      ClosedDown(items, p, c + 1, inputs);
      ClosedOne(items + Closings(p, c + 1, inputs), p[..c + 1], inputs);
      assert p[..c + 1][..c] == p[..c];
      assert items + Closings(p, c, inputs) == items + Closings(p, c + 1, inputs) + [Closing(p[..c + 1], inputs)];
    }
  }

  lemma {:induction false} OpenedUp(items: seq<ConfigItem>, q: Path, c: nat, k: nat)
    requires c <= k <= |q| && OpenSections(items) == Some(Prefixes(q[..c]))
    ensures OpenSections(items + Openings(q, c, k)) == Some(Prefixes(q[..k]))
    decreases k
  {
    hide OpenSections, Prefixes;
    if k == c {
      assert items + [] == items;
    } else {
      OpenedUp(items, q, c, k - 1);
      assert q[..k][..k - 1] == q[..k - 1];
      OpenedOne(items + Openings(q, c, k - 1), q[..k]);
      assert items + Openings(q, c, k) == items + Openings(q, c, k - 1) + [Opening(q[..k])];
    }
  }

  lemma ChainShrinks(top: Path)
    requires top != []
    ensures var s, t := Prefixes(top), Prefixes(top[..|top| - 1]);
            s[..|s| - 1] == t && (t == [] ==> top[..|top| - 1] == []) && (t != [] ==> t[|t| - 1] == top[..|top| - 1])
  {
    PrefixesGrow(top);
    var t := Prefixes(top[..|top| - 1]);
    assert t != [] ==> t[|t| - 1] == top[..|top| - 1][..|top| - 1];
  }

  /** Every stack the stream can leave is the chain of the prefixes of its innermost section. */
  lemma {:induction false} AlwaysAChain(items: seq<ConfigItem>)
    ensures var s := OpenSections(items);
            s.Some? ==> s.value == Prefixes(if s.value == [] then [] else s.value[|s.value| - 1])
    decreases |items|
  {
    hide Apply;
    if items == [] {
      NothingOpen();
    } else {
      var n := |items| - 1;
      AlwaysAChain(items[..n]);
      AppliedToAChain(OpenSections(items[..n]), items[n]);
      hide Prefixes;
    }
  }

  lemma AppliedToAChain(stack: Option<seq<Path>>, item: ConfigItem)
    requires stack.Some? ==>
               stack.value == Prefixes(if stack.value == [] then [] else stack.value[|stack.value| - 1])
    ensures var s := Apply(stack, item);
            s.Some? ==> s.value == Prefixes(if s.value == [] then [] else s.value[|s.value| - 1])
  {
    hide Prefixes;
    NothingOpen();
    if stack.Some? && Apply(stack, item).Some? {
      if item.name == OPEN {
        PrefixesGrow(item.parents);
      } else if item.name == CLOSE {
        ChainShrinks(stack.value[|stack.value| - 1]);
      }
    }
  }

  /** After checkParentSegments exactly the sections on the way to `q` are open, provided the output ended in a
      closing or nothing was open. */
  lemma SegmentsOpen(output: seq<ConfigItem>, q: Path)
    requires q != [] && OpenSections(output).Some? && (EndsInClose(output) || OpenSections(output).value == [])
    ensures OpenSections(Segments(output, q)) == Some(Prefixes(q))
  {
    hide Prefixes, Closings, Openings, Common, OpenSections;
    assert q[..|q|] == q && q[..0] == [];
    if EndsInClose(output) {
      var before, p, inputs := output[..|output| - 1], output[|output| - 1].parents, output[|output| - 1].inputs;
      var c := Common(p, q[..|q| - 1]);
      BeforeClosing(output);
      ClosedDown(before, p, c, inputs);
      assert p[..c] == q[..c] by {
        assert q[..|q| - 1][..c] == q[..c];
      }
      OpenedUp(before + Closings(p, c, inputs), q, c, |q|);
    } else {
      NothingOpen();
      OpenedUp(output, q, 0, |q|);
    }
  }

  lemma NothingOpen()
    ensures Prefixes([]) == []
  {
  }

  /** In front of a closing the sections on the way to the closed one are open. */
  lemma BeforeClosing(output: seq<ConfigItem>)
    requires EndsInClose(output) && OpenSections(output).Some?
    ensures var p := output[|output| - 1].parents;
            p != [] && OpenSections(output[..|output| - 1]) == Some(Prefixes(p))
  {
    var before, item := output[..|output| - 1], output[|output| - 1];
    AlwaysAChain(before);
    assert OpenSections(output) == Apply(OpenSections(before), item);
    hide OpenSections;
    ClosesTop(OpenSections(before), item);
  }

  lemma ClosesTop(stack: Option<seq<Path>>, item: ConfigItem)
    requires item.name == CLOSE && Apply(stack, item).Some?
    requires stack.Some? ==>
               stack.value == Prefixes(if stack.value == [] then [] else stack.value[|stack.value| - 1])
    ensures item.parents != [] && stack == Some(Prefixes(item.parents))
  {
    hide Prefixes;
    assert |Prefixes(item.parents)| == |item.parents|;
  }

  // ---------------------------------------------------------------------------------------------
  // checkParentSegments
  // ---------------------------------------------------------------------------------------------

  function Back(output: seq<ConfigItem>): ConfigItem
    requires output != []
  {
    output[|output| - 1]
  }

  /** Closes further: the last closing, shortened by one part each time, while it has at least `size` parts. */
  method CloseWhileAtLeast(output: seq<ConfigItem>, size: nat) returns (r: seq<ConfigItem>)
    requires size > 0 && EndsInClose(output)
    ensures var last := Back(output);
            var c := if |last.parents| >= size then size - 1 else |last.parents|;
            && r != [] && Back(r) == Closing(last.parents[..c], last.inputs)
            && r[..|r| - 1] == output[..|output| - 1] + Closings(last.parents, c, last.inputs)
  {
    r := output;
    ghost var base, p, inputs := output[..|output| - 1], Back(output).parents, Back(output).inputs;
    while |Back(r).parents| >= size
      invariant r != [] && |Back(r).parents| <= |p| && Back(r) == Closing(p[..|Back(r).parents|], inputs)
      invariant |p| >= size ==> |Back(r).parents| >= size - 1
      invariant |p| < size ==> |Back(r).parents| == |p|
      invariant r[..|r| - 1] == base + Closings(p, |Back(r).parents|, inputs)
      decreases |Back(r).parents|
    {
      ghost var before, n := r, |Back(r).parents|;
      r := r + [Back(r)];
      r := r[|r| - 1 := Back(r).(parents := Back(r).parents[..|Back(r).parents| - 1])];
      assert r[..|r| - 1] == before == before[..|before| - 1] + [Closing(p[..n], inputs)];
      assert p[..n][..n - 1] == p[..n - 1];
    }
  }

  /** Appends the openings of `q` from its first `from + 1` parts up to all but the last. */
  method OpenFrom(output: seq<ConfigItem>, q: Path, from: nat) returns (r: seq<ConfigItem>)
    requires q != [] && from < |q|
    ensures r == output + Openings(q, from, |q| - 1)
  {
    r := output;
    var ii := from;
    while ii < |q| - 1
      invariant from <= ii <= |q| - 1 && r == output + Openings(q, from, ii)
    {
      r := r + [Opening(q[..ii + 1])];
      ii := ii + 1;
    }
  }

  /** How many parts of the last closing start `q`, one by one. */
  method CountCommon(p: Path, q: Path) returns (common: nat)
    requires q != [] && |p| < |q|
    ensures common == Common(p, q[..|q| - 1])
  {
    common := 0;
    var ii := 0;
    while ii < |p|
      invariant ii == common <= |p| && p[..ii] == q[..ii]
    {
      if p[ii] != q[ii] {
        break;
      }
      common := common + 1;
      ii := ii + 1;
    }
    CommonIs(p, q[..|q| - 1], common);
  }

  lemma {:induction false} CommonIs(a: Path, b: Path, c: nat)
    requires c <= |a| && c <= |b| && a[..c] == b[..c] && (c < |a| && c < |b| ==> a[c] != b[c])
    ensures c == Common(a, b)
  {
    PrefixesAgree(a, b, c);
    PrefixesAgree(a, b, Common(a, b));
  }

  lemma PrefixesAgree(a: Path, b: Path, c: nat)
    requires c <= |a| && c <= |b| && a[..c] == b[..c]
    ensures forall i :: 0 <= i < c ==> a[i] == b[i]
  {
    assert forall i :: 0 <= i < c ==> a[..c][i] == b[..c][i];
  }

  /** Shortening both paths does not change what they have in common below the shorter length. */
  lemma CommonCut(a: Path, b: Path, n: nat)
    requires n <= |a| && Common(a, b) <= n
    ensures Common(a[..n], b) == Common(a, b)
  {
    var c := Common(a, b);
    assert a[..n][..c] == a[..c];
    CommonIs(a[..n], b, c);
  }

  lemma {:induction false} ClosingsMeet(p: Path, n: nat, c: nat, inputs: seq<string>)
    requires c <= n <= |p|
    ensures Closings(p, c, inputs) == Closings(p, n, inputs) + Closings(p[..n], c, inputs)
    decreases n - c
  {
    if c < n {
      ClosingsMeet(p, n, c + 1, inputs);
      assert p[..n][..c + 1] == p[..c + 1];
    }
  }

  /** The closing of the first `c + 1` parts comes last. */
  lemma LastClosing(l: Path, c: nat, inputs: seq<string>)
    requires c < |l|
    ensures Closings(l, c, inputs) == Closings(l, c + 1, inputs) + [Closing(l[..c + 1], inputs)]
  {
  }

  /** Closes what the section before has below its common part with the new one. */
  method CloseToCommon(output: seq<ConfigItem>, parents: Path) returns (r: seq<ConfigItem>, common: nat)
    requires |parents| > 1 && EndsInClose(output)
    ensures var last := Back(output);
            common == Common(last.parents, parents[..|parents| - 1]) < |parents|
            && r == output[..|output| - 1] + Closings(last.parents, common, last.inputs)
  {
    hide Common, Closings;
    ghost var base, p, inputs := output[..|output| - 1], Back(output).parents, Back(output).inputs;
    ghost var c := Common(p, parents[..|parents| - 1]);
    r := CloseWhileAtLeast(output, |parents|);
    ghost var before, l := r, Back(r).parents;
    CommonCut(p, parents[..|parents| - 1], |l|);
    ClosingsMeet(p, |l|, c, inputs);
    var mpair := if |Back(r).parents| < |parents| - 1 then |Back(r).parents| else |parents| - 1;
    common := CountCommon(Back(r).parents, parents);
    if common == mpair {
      r := r[..|r| - 1];
      NoClosings(l, c, inputs);
    } else {
      r := CloseWhileAtLeast(r, common + 2);
      LastClosing(l, c, inputs);
      assert r == r[..|r| - 1] + [Back(r)];
    }
  }

  lemma NoClosings(p: Path, c: nat, inputs: seq<string>)
    ensures c >= |p| ==> Closings(p, c, inputs) == []
  {
  }

  /** The sections in between are closed and opened, and the new one begins. */
  method CheckParentSegments(output: seq<ConfigItem>, currentSection: string) returns (r: seq<ConfigItem>)
    requires PathOf(currentSection) != []
    ensures r == Segments(output, PathOf(currentSection))
  {
    hide Common, Closings, Openings, Segments, SectionParts, PathOf, ParentsOf;
    var parents, estring := GenerateParents(currentSection, "");
    NoNameParts(currentSection);
    r := output;
    if output != [] && Back(output).name == CLOSE {
      if |parents| > 1 {
        var common;
        r, common := CloseToCommon(output, parents);
        r := OpenFrom(r, parents, common);
        SegmentsGoOn(output, parents);
      } else {
        r := CloseWhileAtLeast(r, 2);
        SegmentsOfOnePart(output, r, parents);
      }
    } else {
      SegmentsStart(output, parents);
      if |parents| > 1 {
        r := OpenFrom(r, parents, 0);
      }
    }
    r := r + [Opening(parents)];
  }

  lemma OneMoreOpening(q: Path, c: nat)
    requires c < |q|
    ensures Openings(q, c, |q|) == Openings(q, c, |q| - 1) + [Opening(q)]
  {
    assert q[..|q|] == q;
  }

  lemma NoOpenings(q: Path)
    ensures Openings(q, 0, 0) == []
  {
  }

  lemma Joined(a: seq<ConfigItem>, b: seq<ConfigItem>, c: seq<ConfigItem>)
    ensures a + (b + c) == a + b + c
  {
  }

  lemma SegmentsStart(output: seq<ConfigItem>, q: Path)
    requires q != [] && !EndsInClose(output)
    ensures Segments(output, q) == (if |q| > 1 then output + Openings(q, 0, |q| - 1) else output) + [Opening(q)]
  {
    hide Common, Closings, Openings;
    OneMoreOpening(q, 0);
    if |q| == 1 {
      NoOpenings(q);
      assert output + [] == output;
    }
    Joined(output, Openings(q, 0, |q| - 1), [Opening(q)]);
  }

  lemma SegmentsGoOn(output: seq<ConfigItem>, q: Path)
    requires |q| > 1 && EndsInClose(output)
    ensures var last := Back(output);
            var c := Common(last.parents, q[..|q| - 1]);
            Segments(output, q)
            == output[..|output| - 1] + Closings(last.parents, c, last.inputs) + Openings(q, c, |q| - 1) + [Opening(q)]
  {
    hide Common, Closings;
    assert q[..|q|] == q;
  }

  lemma SegmentsOfOnePart(output: seq<ConfigItem>, r: seq<ConfigItem>, q: Path)
    requires |q| == 1 && EndsInClose(output) && r != []
    requires var last := Back(output);
             var c := if |last.parents| >= 2 then 1 else |last.parents|;
             && Back(r) == Closing(last.parents[..c], last.inputs)
             && r[..|r| - 1] == output[..|output| - 1] + Closings(last.parents, c, last.inputs)
    ensures Segments(output, q) == r + [Opening(q)]
  {
    var p, inputs := Back(output).parents, Back(output).inputs;
    OnePart(p, q, inputs);
    assert Openings(q, 0, |q|) == [Opening(q)] by {
      assert q[..|q|] == q && Openings(q, 0, 0) == [];
    }
    assert r == r[..|r| - 1] + [Back(r)];
    hide Common, Closings, Openings;
    if p == [] {
      assert output == output[..|output| - 1] + [Back(output)];
    }
  }

  /** All sections are closed when the new one has just one part. */
  lemma OnePart(p: Path, q: Path, inputs: seq<string>)
    requires |q| == 1
    ensures Common(p, q[..|q| - 1]) == 0
    ensures |p| >= 2 ==> Closings(p, 1, inputs) + [Closing(p[..1], inputs)] == Closings(p, 0, inputs)
    ensures |p| == 1 ==> Closings(p, 1, inputs) == [] && Closings(p, 0, inputs) == [Closing(p[..1], inputs)]
    ensures p == [] ==> Closings(p, 0, inputs) == []
  {
  }

  // ---------------------------------------------------------------------------------------------
  // from_config
  // ---------------------------------------------------------------------------------------------

  datatype Reader = Reader(section: string, output: seq<ConfigItem>)

  const START := Reader(DEFAULT, [])

  predicate WellNamed(r: Reader) {
    r.section == DEFAULT || Lower(r.section) != DEFAULT
  }

  lemma PathNotEmpty(section: string)
    ensures PathOf(section) == [] <==> Lower(section) == DEFAULT
  {
  }

  /** The output once the current section is left. */
  function Left(r: Reader): seq<ConfigItem> {
    if r.section != DEFAULT then r.output + [Closing(PathOf(r.section), [])] else r.output
  }

  /** An option joins the item before it when that has the same name and parents. */
  predicate Joins(r: Reader, name: string) {
    r.output != [] && OwnName(name) == Back(r.output).name && ParentsOf(r.section, name) == Back(r.output).parents
  }

  function Step(r: Reader, line: Line): (r': Reader)
    ensures WellNamed(r) ==> WellNamed(r')
  {
    match line
    case Header(s) =>
      PathNotEmpty(s);
      if Lower(s) == DEFAULT then Reader(DEFAULT, Left(r)) else Reader(s, Segments(Left(r), PathOf(s)))
    case Blank => r
    case Entry(name, inputs) =>
      if Joins(r, name) then
        r.(output := r.output[|r.output| - 1 := Back(r.output).(inputs := Back(r.output).inputs + inputs)])
      else r.(output := r.output + [ConfigItem(ParentsOf(r.section, name), OwnName(name), inputs)])
  }

  function Run(lines: seq<Line>): (r: Reader)
    ensures WellNamed(r)
  {
    if lines == [] then START else Step(Run(lines[..|lines| - 1]), lines[|lines| - 1])
  }

  /** The output at the end of the file: what is still open is closed. */
  function Finish(r: Reader): seq<ConfigItem> {
    if r.section != DEFAULT then r.output + Closings(PathOf(r.section), 0, []) else r.output
  }

  function AllClassified(settings: Settings, values: string -> seq<string>, lines: seq<string>): (r: seq<Line>)
    ensures |r| == |lines|
  {
    seq(|lines|, i requires 0 <= i < |lines| => Classify(settings, values, lines[i]))
  }

  /** The file is spelled by these written lines. */
  predicate Spells(settings: Settings, ws: seq<Written>, input: seq<string>) {
    |ws| == |input| && forall i :: 0 <= i < |ws| ==> Proper(settings, ws[i]) && Text(settings, ws[i]) == input[i]
  }

  function Meanings(values: string -> seq<string>, ws: seq<Written>): (r: seq<Line>)
    ensures |r| == |ws|
  {
    seq(|ws|, i requires 0 <= i < |ws| => Meaning(values, ws[i]))
  }

  lemma SpelledIsMeant(settings: Settings, values: string -> seq<string>, ws: seq<Written>, input: seq<string>)
    requires Spells(settings, ws, input)
    ensures AllClassified(settings, values, input) == Meanings(values, ws)
  {
    hide Classify, Text, Meaning, Proper;
    forall i | 0 <= i < |ws|
      ensures Classify(settings, values, input[i]) == Meaning(values, ws[i])
    {
      WrittenIsMeant(settings, values, ws[i]);
    }
  }

  method FromConfig(settings: Settings, values: string -> seq<string>, input: seq<string>)
      returns (output: seq<ConfigItem>)
    ensures output == Finish(Run(AllClassified(settings, values, input)))
    ensures forall ws :: Spells(settings, ws, input) ==> output == Finish(Run(Meanings(values, ws)))
  {
    hide Step, Finish, Classify, Spells, Meanings;
    forall ws | Spells(settings, ws, input)
      ensures AllClassified(settings, values, input) == Meanings(values, ws)
    {
      SpelledIsMeant(settings, values, ws, input);
    }
    var section := DEFAULT;
    output := [];
    ghost var lines := AllClassified(settings, values, input);
    var k := 0;
    while k < |input|
      invariant k <= |input| && Reader(section, output) == Run(lines[..k])
    {
      assert lines[..k + 1][..k] == lines[..k];
      var line := Classify(settings, values, input[k]);
      k := k + 1;
      section, output := ReadLine(section, output, line);
    }
    assert lines[..k] == lines;
    output := CloseAll(section, output);
  }

  /** The loop body for one line. */
  method ReadLine(section: string, output: seq<ConfigItem>, line: Line) returns (next: string, r: seq<ConfigItem>)
    ensures Reader(next, r) == Step(Reader(section, output), line)
  {
    hide Segments, SectionParts, ParentsOf, OwnName;
    next, r := section, output;
    match line {
      case Header(s) =>
        if section != DEFAULT {
          var parents, name := GenerateParents(section, "");
          NoNameParts(section);
          r := r + [Closing(parents, [])];
        }
        next := s;
        PathNotEmpty(s);
        if Lower(s) == DEFAULT {
          next := DEFAULT;
        } else {
          r := CheckParentSegments(r, s);
        }
      case Blank =>
      case Entry(name, inputs) =>
        var parents, ownName := GenerateParents(section, name);
        if r != [] && ownName == Back(r).name && parents == Back(r).parents {
          r := r[|r| - 1 := Back(r).(inputs := Back(r).inputs + inputs)];
        } else {
          r := r + [ConfigItem(parents, ownName, inputs)];
        }
    }
  }

  /** Behind the loop: the closings of the last section. */
  method CloseAll(section: string, output: seq<ConfigItem>) returns (r: seq<ConfigItem>)
    requires WellNamed(Reader(section, output))
    ensures r == Finish(Reader(section, output))
  {
    hide SectionParts, ParentsOf, Closings;
    r := output;
    if section != DEFAULT {
      var parents, ename := GenerateParents(section, "");
      NoNameParts(section);
      PathNotEmpty(section);
      r := r + [Closing(parents, [])];
      assert r[..|output|] == output;
      r := CloseWhileAtLeast(r, 2);
      OnePart(parents, [""], []);
      assert r == r[..|r| - 1] + [Back(r)];
    }
  }

  lemma NoNameParts(section: string)
    ensures ParentsOf(section, "") == PathOf(section)
  {
    assert SectionParts(section) + [] == SectionParts(section);
  }

  // ---------------------------------------------------------------------------------------------
  // Stack discipline over whole files
  // ---------------------------------------------------------------------------------------------

  /** The open sections are exactly the ones on the way to the current section. */
  predicate Good(r: Reader) {
    OpenSections(r.output) == Some(Prefixes(PathOf(r.section)))
  }

  /** The line that spoils it: a default header after a section of two or more parts, or an option that itself
      looks like an opening or a closing and does not join the item before it. */
  predicate Breaks(r: Reader, line: Line) {
    match line
    case Header(s) => Lower(s) == DEFAULT && |PathOf(r.section)| > 1
    case Blank => false
    case Entry(name, _) => (OwnName(name) == OPEN || OwnName(name) == CLOSE) && !Joins(r, name)
  }

  lemma LeftOpen(r: Reader)
    requires WellNamed(r) && Good(r)
    ensures var p := PathOf(r.section);
            && OpenSections(Left(r)) == Some(if p == [] then [] else Prefixes(p[..|p| - 1]))
            && (EndsInClose(Left(r)) || OpenSections(Left(r)).value == [])
  {
    hide OpenSections;
    PathNotEmpty(r.section);
    if r.section != DEFAULT {
      ClosedOne(r.output, PathOf(r.section), []);
    } else {
      LowerDefault();
    }
  }

  lemma LowerDefault()
    ensures Lower(DEFAULT) == DEFAULT && PathOf(DEFAULT) == []
  {
    assert Lower(DEFAULT) == DEFAULT;
  }

  lemma HeaderKeeps(r: Reader, s: string)
    requires WellNamed(r) && Good(r)
    ensures Good(Step(r, Header(s))) <==> !Breaks(r, Header(s))
  {
    hide OpenSections, Segments, Left, SectionParts, Lower;
    PathNotEmpty(s);
    LeftOpen(r);
    LowerDefault();
    var p := PathOf(r.section);
    if Lower(s) == DEFAULT {
      assert Prefixes([]) == [];
      if |p| > 1 {
        PrefixesDiffer(p[..|p| - 1], []);
      }
    } else {
      SegmentsOpen(Left(r), PathOf(s));
    }
  }

  lemma JoiningKeepsOpen(output: seq<ConfigItem>, inputs: seq<string>)
    requires output != []
    ensures OpenSections(output[|output| - 1 := Back(output).(inputs := inputs)]) == OpenSections(output)
  {
    var r := output[|output| - 1 := Back(output).(inputs := inputs)];
    assert r[..|r| - 1] == output[..|output| - 1];
  }

  lemma EntryKeeps(r: Reader, name: string, inputs: seq<string>)
    requires Good(r)
    ensures Good(Step(r, Entry(name, inputs))) <==> !Breaks(r, Entry(name, inputs))
  {
    if Joins(r, name) {
      JoiningKeepsOpen(r.output, Back(r.output).inputs + inputs);
    } else {
      var p, q := PathOf(r.section), ParentsOf(r.section, name);
      OpenOne(r.output, ConfigItem(q, OwnName(name), inputs));
      hide OpenSections, ParentsOf, SectionParts;
      assert |Prefixes(p)| == |p|;
    }
  }

  /** A line keeps the open sections right exactly when it does not break them. */
  lemma StepKeeps(r: Reader, line: Line)
    requires WellNamed(r) && Good(r)
    ensures Good(Step(r, line)) <==> !Breaks(r, line)
  {
    hide Good, Breaks;
    match line
    case Header(s) => HeaderKeeps(r, s);
    case Blank => BlankKeeps(r);
    case Entry(name, inputs) => EntryKeeps(r, name, inputs);
  }

  lemma BlankKeeps(r: Reader)
    ensures Good(Step(r, Blank)) == Good(r) && !Breaks(r, Blank)
  {
  }

  predicate GoodThroughout(lines: seq<Line>) {
    forall k :: 0 <= k <= |lines| ==> Good(Run(lines[..k]))
  }

  predicate NeverBreaks(lines: seq<Line>) {
    forall k :: 0 <= k < |lines| ==> !Breaks(Run(lines[..k]), lines[k])
  }

  lemma StartIsGood()
    ensures Good(START)
  {
    LowerDefault();
    assert Prefixes([]) == [];
  }

  /** Over every file: after every line the open sections are exactly the ones on the way to the current section,
      if and only if no line breaks them. */
  lemma {:induction false} GoodExactly(lines: seq<Line>)
    ensures GoodThroughout(lines) <==> NeverBreaks(lines)
    decreases |lines|
  {
    hide Good, Breaks, Step;
    if lines == [] {
      StartIsGood();
      assert lines[..0] == [];
    } else {
      var n := |lines| - 1;
      var before := lines[..n];
      GoodExactly(before);
      assert forall k :: 0 <= k <= n ==> before[..k] == lines[..k];
      assert lines[..|lines|] == lines;
      if GoodThroughout(before) {
        assert Good(Run(before[..n]));
        StepKeeps(Run(before), lines[n]);
      }
      SplitLast(lines);
    }
  }

  lemma SplitLast(lines: seq<Line>)
    requires lines != []
    ensures var before := lines[..|lines| - 1];
            && (GoodThroughout(lines) <==> GoodThroughout(before) && Good(Run(lines)))
            && (NeverBreaks(lines) <==> NeverBreaks(before) && !Breaks(Run(before), lines[|lines| - 1]))
  {
    hide Good, Breaks, Run;
    var n := |lines| - 1;
    var before := lines[..n];
    assert forall k :: 0 <= k <= n ==> before[..k] == lines[..k];
    assert lines[..|lines|] == lines;
    if GoodThroughout(before) && Good(Run(lines)) {
      forall k | 0 <= k <= |lines|
        ensures Good(Run(lines[..k]))
      {
        assert k <= n ==> Good(Run(before[..k]));
      }
    }
    if GoodThroughout(lines) {
      forall k | 0 <= k <= n
        ensures Good(Run(before[..k]))
      {
        assert Good(Run(lines[..k]));
      }
      assert Good(Run(lines[..|lines|]));
    }
  }

  /** At the end of a file that never breaks them, no section is open. */
  lemma AllClosed(lines: seq<Line>)
    requires NeverBreaks(lines)
    ensures OpenSections(Finish(Run(lines))) == Some([])
  {
    hide Breaks, OpenSections, Closings, SectionParts;
    GoodExactly(lines);
    assert lines[..|lines|] == lines;
    var r := Run(lines);
    assert Good(r);
    LowerDefault();
    assert Prefixes([]) == [];
    if r.section != DEFAULT {
      ClosedDown(r.output, PathOf(r.section), 0, []);
      assert PathOf(r.section)[..0] == [];
    }
  }

  /** A default header after a section of two or more parts leaves the outer ones open for good. */
  lemma DefaultLeavesOpen(s: string)
    requires |PathOf(s)| > 1
    ensures var p := PathOf(s);
            OpenSections(Finish(Run([Header(s), Header(DEFAULT)]))) == Some(Prefixes(p[..|p| - 1])) != Some([])
  {
    hide OpenSections, SectionParts, Left, Segments;
    var lines, p := [Header(s), Header(DEFAULT)], PathOf(s);
    assert lines[..1] == [Header(s)] && lines[..1][..0] == [];
    StartIsGood();
    PathNotEmpty(s);
    LowerDefault();
    var one := Step(START, Header(s));
    HeaderKeeps(START, s);
    LeftOpen(one);
    assert Run([]) == START;
    assert Run(lines[..1]) == one;
    assert Run(lines) == Step(Run(lines[..1]), lines[1]);
  }

  lemma TwoParts()
    ensures PathOf("a.b") == ["a", "b"]
  {
    assert "a.b"[2..] == "b" && "b"[..1] == "b" && "a.b"[..1] == "a";
    assert Split("b", '.') == ["b"];
    assert Split("a.b", '.') == ["a", "b"];
    assert SectionParts("a.b") == ["a", "b"] by {
      assert Lower("a.b")[1] == '.';
    }
    hide SectionParts, Split, Lower;
  }

  /** An option that looks like an opening breaks the discipline at once, and for good. */
  lemma OptionLooksLikeOpening()
    ensures var lines := [Entry(OPEN, ["1"])];
            Breaks(START, lines[0]) && OpenSections(Finish(Run(lines))).None?
  {
    var lines, item := [Entry(OPEN, ["1"])], ConfigItem([], OPEN, ["1"]);
    LowerDefault();
    assert '.' !in OPEN;
    assert ParentsOf(DEFAULT, OPEN) == [] && OwnName(OPEN) == OPEN by {
      assert SectionParts(DEFAULT) == [] && NameParts(OPEN) == [];
    }
    assert lines[..0] == [];
    assert Run([]) == START;
    assert Run(lines) == Step(START, lines[0]);
    assert Run(lines) == Reader(DEFAULT, [] + [item]);
    OpenOne([], item);
  }
}
