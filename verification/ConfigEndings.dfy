/** Which configuration files end with every section closed. */
module ConfigEndings {
  import opened Optional
  import opened ConfigLines
  import opened ConfigSections

  /** No option is named like an opening or a closing. */
  predicate NoMarks(lines: seq<Line>) {
    forall k :: 0 <= k < |lines| ==> Unmarked(lines[k])
  }

  predicate Unmarked(line: Line) {
    line.Entry? ==> OwnName(line.name) != OPEN && OwnName(line.name) != CLOSE
  }

  predicate IsDefault(line: Line) {
    line.Header? && Lower(line.section) == DEFAULT
  }

  predicate IsSection(line: Line) {
    line.Header? && Lower(line.section) != DEFAULT
  }

  /** Blank lines and default headers. */
  predicate IsQuiet(line: Line) {
    line.Blank? || IsDefault(line)
  }

  /** A default header behind a section of two or more parts. */
  predicate CutsOff(lines: seq<Line>, k: nat)
    requires k < |lines|
  {
    IsDefault(lines[k]) && |PathOf(Run(lines[..k]).section)| > 1
  }

  predicate QuietBetween(lines: seq<Line>, k: nat, j: nat) {
    forall i :: k < i < j && i < |lines| ==> IsQuiet(lines[i])
  }

  /** A section header is the first line behind it that is not quiet. */
  predicate Recovers(lines: seq<Line>, k: nat) {
    exists j :: k < j < |lines| && IsSection(lines[j]) && QuietBetween(lines, k, j)
  }

  predicate AllRecover(lines: seq<Line>) {
    forall k :: 0 <= k < |lines| && CutsOff(lines, k) ==> Recovers(lines, k)
  }

  // ---------------------------------------------------------------------------------------------
  // The states of a reader
  // ---------------------------------------------------------------------------------------------

  /** The open sections are right, or were cut off just now, or are lost for good. */
  datatype Phase = Fine | Pending | Lost

  function PhaseOf(lines: seq<Line>): Phase {
    if lines == [] then Fine
    else
      var n := |lines| - 1;
      match PhaseOf(lines[..n])
      case Fine => if CutsOff(lines, n) then Pending else Fine
      case Pending => if IsSection(lines[n]) then Fine else if IsQuiet(lines[n]) then Pending else Lost
      case Lost => Lost
  }

  /** Sections are still open, and the pending closing lets the next section go on from them. */
  ghost predicate IsPending(r: Reader) {
    && r.section == DEFAULT && EndsInClose(r.output)
    && OpenSections(r.output).Some? && OpenSections(r.output).value != []
  }

  /** The discipline is broken, and not by a last closing. */
  ghost predicate Broken(output: seq<ConfigItem>) {
    OpenSections(output).None? && (EndsInClose(output) ==> OpenSections(output[..|output| - 1]).None?)
  }

  /** Sections are still open, and no closing is pending. */
  ghost predicate Stranded(r: Reader) {
    && r.section == DEFAULT && !EndsInClose(r.output)
    && OpenSections(r.output).Some? && OpenSections(r.output).value != []
  }

  ghost predicate Means(phase: Phase, r: Reader) {
    match phase
    case Fine => Good(r)
    case Pending => IsPending(r)
    case Lost => Broken(r.output) || Stranded(r)
  }

  lemma StillBroken(output: seq<ConfigItem>, item: ConfigItem)
    requires OpenSections(output).None?
    ensures OpenSections(output + [item]).None? && Broken(output + [item])
  {
    OpenOne(output, item);
    assert (output + [item])[..|output|] == output;
  }

  lemma {:induction false} BrokenOn(output: seq<ConfigItem>, more: seq<ConfigItem>)
    requires OpenSections(output).None?
    ensures OpenSections(output + more).None?
    decreases |more|
  {
    if more == [] {
      assert output + more == output;
    } else {
      var n := |more| - 1;
      BrokenOn(output, more[..n]);
      assert output + more == output + more[..n] + [more[n]];
      OpenOne(output + more[..n], more[n]);
    }
  }

  lemma OpeningsEndOpen(q: Path, c: nat)
    requires c < |q|
    ensures Openings(q, c, |q|) != [] && Openings(q, c, |q|)[|Openings(q, c, |q|)| - 1].name == OPEN
  {
  }

  /** A broken stream stays broken when a section begins. */
  lemma BrokenSegments(output: seq<ConfigItem>, q: Path)
    requires q != [] && Broken(output)
    ensures Broken(Segments(output, q))
  {
    hide OpenSections, Openings, Closings, Common;
    if EndsInClose(output) && (output[|output| - 1].parents != [] || |q| > 1) {
      var last, front := output[|output| - 1], output[..|output| - 1];
      var c := Common(last.parents, q[..|q| - 1]);
      OpeningsEndOpen(q, c);
      BrokenOn(front, Closings(last.parents, c, last.inputs) + Openings(q, c, |q|));
      assert front + Closings(last.parents, c, last.inputs) + Openings(q, c, |q|)
             == front + (Closings(last.parents, c, last.inputs) + Openings(q, c, |q|));
    } else {
      OpeningsEndOpen(q, 0);
      BrokenOn(output, Openings(q, 0, |q|));
    }
  }

  /** With sections still open and no closing pending, the next section breaks the discipline. */
  lemma StrandedSegments(output: seq<ConfigItem>, q: Path)
    requires q != [] && !EndsInClose(output) && OpenSections(output).Some? && OpenSections(output).value != []
    ensures Broken(Segments(output, q))
  {
    hide OpenSections, Openings;
    FirstOpening(q);
    NotEmptyTop(output);
    var first, rest := Opening(q[..1]), Openings(q, 0, |q|)[1..];
    OpenOne(output, first);
    BrokenOn(output + [first], rest);
    assert output + Openings(q, 0, |q|) == output + [first] + rest;
    OpeningsEndOpen(q, 0);
  }

  lemma {:induction false} FirstOpeningOf(q: Path, k: nat)
    requires 0 < k <= |q|
    ensures Openings(q, 0, k) != [] && Openings(q, 0, k)[0] == Opening(q[..1])
    decreases k
  {
    if k > 1 {
      FirstOpeningOf(q, k - 1);
    }
  }

  lemma FirstOpening(q: Path)
    requires q != []
    ensures Openings(q, 0, |q|) != [] && Openings(q, 0, |q|)[0] == Opening(q[..1])
  {
    FirstOpeningOf(q, |q|);
  }

  /** The innermost open section is not the default one. */
  lemma NotEmptyTop(output: seq<ConfigItem>)
    requires OpenSections(output).Some? && OpenSections(output).value != []
    ensures var s := OpenSections(output).value; s[|s| - 1] != []
  {
    AlwaysAChain(output);
    var s := OpenSections(output).value;
    assert |Prefixes(s[|s| - 1])| == |s|;
  }

  // ---------------------------------------------------------------------------------------------
  // From line to line
  // ---------------------------------------------------------------------------------------------

  lemma CutOff(r: Reader, s: string)
    requires WellNamed(r) && Good(r) && Lower(s) == DEFAULT && |PathOf(r.section)| > 1
    ensures IsPending(Step(r, Header(s)))
  {
    hide OpenSections, SectionParts, Segments;
    PathNotEmpty(r.section);
    LeftOpen(r);
    var p := PathOf(r.section);
    assert |Prefixes(p[..|p| - 1])| == |p| - 1;
  }

  /** A section that begins while a closing is pending sets everything right. */
  lemma PendingSection(r: Reader, s: string)
    requires IsPending(r) && Lower(s) != DEFAULT
    ensures Good(Step(r, Header(s)))
  {
    hide OpenSections, SectionParts, Segments, Lower;
    PathNotEmpty(s);
    SegmentsOpen(r.output, PathOf(s));
  }

  lemma PendingQuiet(r: Reader, line: Line)
    requires IsPending(r) && IsQuiet(line)
    ensures Step(r, line) == r
  {
    hide OpenSections, SectionParts, Segments;
    if line.Header? {
      PathNotEmpty(line.section);
    }
  }

  lemma EntryAdds(r: Reader, name: string, inputs: seq<string>)
    requires OwnName(name) != OPEN && OwnName(name) != CLOSE
    ensures var out := Step(r, Entry(name, inputs)).output;
            OpenSections(out) == OpenSections(r.output) && !EndsInClose(out)
            && Step(r, Entry(name, inputs)).section == r.section
  {
    hide SectionParts, ParentsOf, OwnName;
    if Joins(r, name) {
      hide OpenSections;
      JoiningKeepsOpen(r.output, Back(r.output).inputs + inputs);
    } else {
      var item := ConfigItem(ParentsOf(r.section, name), OwnName(name), inputs);
      OpenOne(r.output, item);
      hide OpenSections;
    }
  }

  lemma LostHeader(r: Reader, s: string)
    requires WellNamed(r) && (Broken(r.output) || Stranded(r))
    ensures Broken(Step(r, Header(s)).output) || Stranded(Step(r, Header(s)))
  {
    hide OpenSections, SectionParts, Segments, Lower;
    PathNotEmpty(s);
    if Broken(r.output) {
      if r.section != DEFAULT {
        StillBroken(r.output, Closing(PathOf(r.section), []));
      }
      if Lower(s) != DEFAULT {
        BrokenSegments(Left(r), PathOf(s));
      }
    } else if Lower(s) != DEFAULT {
      StrandedSegments(r.output, PathOf(s));
    }
  }

  lemma PhaseStep(r: Reader, phase: Phase, line: Line)
    requires WellNamed(r) && Means(phase, r) && Unmarked(line)
    ensures var next := match phase
                        case Fine => if IsDefault(line) && |PathOf(r.section)| > 1 then Pending else Fine
                        case Pending => if IsSection(line) then Fine else if IsQuiet(line) then Pending else Lost
                        case Lost => Lost;
            Means(next, Step(r, line))
  {
    hide OpenSections, Step, PathOf, Good;
    match phase
    case Fine =>
      if IsDefault(line) && |PathOf(r.section)| > 1 {
        CutOff(r, line.section);
      } else {
        NotBreaking(r, line);
        StepKeeps(r, line);
      }
    case Pending =>
      if IsSection(line) {
        PendingSection(r, line.section);
      } else if IsQuiet(line) {
        PendingQuiet(r, line);
      } else {
        EntryAdds(r, line.name, line.inputs);
      }
    case Lost =>
      match line
      case Header(s) => LostHeader(r, s);
      case Blank => BlankDoesNothing(r);
      case Entry(name, inputs) => EntryAdds(r, name, inputs);
  }

  lemma NotBreaking(r: Reader, line: Line)
    requires Unmarked(line)
    ensures Breaks(r, line) <==> IsDefault(line) && |PathOf(r.section)| > 1
  {
    hide PathOf, OwnName;
  }

  lemma BlankDoesNothing(r: Reader)
    ensures Step(r, Blank) == r
  {
  }

  lemma {:induction false} PhaseMeans(lines: seq<Line>)
    requires NoMarks(lines)
    ensures Means(PhaseOf(lines), Run(lines))
    decreases |lines|
  {
    hide Means, Step;
    if lines == [] {
      StartIsGood();
      FineIsGood(START);
    } else {
      var n := |lines| - 1;
      assert NoMarks(lines[..n]);
      PhaseMeans(lines[..n]);
      PhaseStep(Run(lines[..n]), PhaseOf(lines[..n]), lines[n]);
    }
  }

  lemma FineIsGood(r: Reader)
    ensures Means(Fine, r) == Good(r)
  {
  }

  /** A file ends with every section closed exactly in the first phase. */
  lemma EndsClosed(r: Reader, phase: Phase)
    requires WellNamed(r) && Means(phase, r)
    ensures OpenSections(Finish(r)) == Some([]) <==> phase == Fine
  {
    hide OpenSections, Closings, SectionParts;
    LowerDefault();
    match phase
    case Fine =>
      assert Prefixes([]) == [];
      if r.section != DEFAULT {
        ClosedDown(r.output, PathOf(r.section), 0, []);
        assert PathOf(r.section)[..0] == [];
      }
    case Pending =>
    case Lost =>
      if Broken(r.output) && r.section != DEFAULT {
        BrokenOn(r.output, Closings(PathOf(r.section), 0, []));
      }
  }

  // ---------------------------------------------------------------------------------------------
  // From phases to lines
  // ---------------------------------------------------------------------------------------------

  /** The header at `k` cut off sections, and nothing but quiet lines follow it up to `j`. */
  predicate Waits(lines: seq<Line>, k: nat, j: nat) {
    k < j <= |lines| && CutsOff(lines, k) && QuietBetween(lines, k, j)
  }

  ghost predicate PhaseSays(phase: Phase, lines: seq<Line>) {
    match phase
    case Fine => AllRecover(lines)
    case Pending =>
      exists k :: Waits(lines, k, |lines|)
                  && forall i :: 0 <= i < |lines| && i != k && CutsOff(lines, i) ==> Recovers(lines, i)
    case Lost => exists k: nat, j: nat :: Waits(lines, k, j) && j < |lines| && lines[j].Entry?
  }

  lemma Extended(lines: seq<Line>, k: nat)
    requires lines != [] && k < |lines| - 1
    ensures var before := lines[..|lines| - 1];
            && CutsOff(lines, k) == CutsOff(before, k) && (Recovers(before, k) ==> Recovers(lines, k))
            && forall j: nat :: j <= |before| ==> QuietBetween(lines, k, j) == QuietBetween(before, k, j)
  {
    hide Run, PathOf, IsDefault, IsSection, IsQuiet;
    var before := lines[..|lines| - 1];
    assert lines[..k] == before[..k];
    if Recovers(before, k) {
      var j :| k < j < |before| && IsSection(before[j]) && QuietBetween(before, k, j);
      assert IsSection(lines[j]) && QuietBetween(lines, k, j);
    }
  }

  lemma WaitingIsNoRecovery(lines: seq<Line>, k: nat, j: nat)
    requires Waits(lines, k, j) && (j < |lines| ==> lines[j].Entry?)
    ensures !Recovers(lines, k)
  {
    hide CutsOff, Run;
    forall i | k < i < |lines| && IsSection(lines[i])
      ensures !QuietBetween(lines, k, i)
    {
      assert i >= j;
      assert !IsQuiet(lines[j]);
    }
  }

  lemma {:induction false} PhaseIs(lines: seq<Line>)
    ensures PhaseSays(PhaseOf(lines), lines)
    decreases |lines|
  {
    hide CutsOff, Recovers, QuietBetween, IsQuiet, IsSection, PhaseSays;
    if lines == [] {
      NothingCutsOff();
    } else {
      var n := |lines| - 1;
      PhaseIs(lines[..n]);
      match PhaseOf(lines[..n])
      case Fine => AfterFine(lines);
      case Pending => AfterPending(lines);
      case Lost => AfterLost(lines);
    }
  }

  lemma NothingCutsOff()
    ensures PhaseSays(Fine, [])
  {
  }

  lemma AfterFine(lines: seq<Line>)
    requires lines != [] && PhaseSays(Fine, lines[..|lines| - 1])
    ensures PhaseSays(if CutsOff(lines, |lines| - 1) then Pending else Fine, lines)
  {
    hide CutsOff, Recovers, QuietBetween;
    var n := |lines| - 1;
    forall k | 0 <= k < n
      ensures CutsOff(lines, k) ==> Recovers(lines, k)
    {
      Extended(lines, k);
    }
    if CutsOff(lines, n) {
      NothingBetween(lines, n);
      assert Waits(lines, n, |lines|);
    }
  }

  lemma NothingBetween(lines: seq<Line>, k: nat)
    ensures QuietBetween(lines, k, k + 1)
  {
  }

  lemma AfterPending(lines: seq<Line>)
    requires lines != [] && PhaseSays(Pending, lines[..|lines| - 1])
    requires PhaseOf(lines[..|lines| - 1]) == Pending
    ensures var line := lines[|lines| - 1];
            PhaseSays(if IsSection(line) then Fine else if IsQuiet(line) then Pending else Lost, lines)
  {
    hide CutsOff, Recovers, QuietBetween, PhaseOf;
    var n, before := |lines| - 1, lines[..|lines| - 1];
    var k :| Waits(before, k, |before|)
             && forall i :: 0 <= i < |before| && i != k && CutsOff(before, i) ==> Recovers(before, i);
    OneLineMore(lines, k);
    hide IsDefault;
    if IsSection(lines[n]) {
      SectionRecovers(lines, k, n);
      SectionIsNoCut(lines, n);
    } else if IsQuiet(lines[n]) {
      OneMoreQuiet(lines, k, n);
      QuietAgain(lines, k);
      assert Waits(lines, k, |lines|);
    } else {
      hide IsSection, IsQuiet;
      assert Waits(lines, k, n);
    }
  }

  /** What was said of the lines before the last one still holds. */
  lemma OneLineMore(lines: seq<Line>, k: nat)
    requires lines != [] && Waits(lines[..|lines| - 1], k, |lines| - 1)
    requires var before := lines[..|lines| - 1];
             forall i :: 0 <= i < |before| && i != k && CutsOff(before, i) ==> Recovers(before, i)
    ensures Waits(lines, k, |lines| - 1)
    ensures forall i :: 0 <= i < |lines| - 1 && i != k && CutsOff(lines, i) ==> Recovers(lines, i)
  {
    hide CutsOff, Recovers, QuietBetween;
    Extended(lines, k);
    forall i | 0 <= i < |lines| - 1 && i != k && CutsOff(lines, i)
      ensures Recovers(lines, i)
    {
      Extended(lines, i);
    }
  }

  lemma OneMoreQuiet(lines: seq<Line>, k: nat, j: nat)
    requires j < |lines| && IsQuiet(lines[j]) && QuietBetween(lines, k, j)
    ensures QuietBetween(lines, k, j + 1)
  {
    hide IsQuiet;
  }

  lemma SectionRecovers(lines: seq<Line>, k: nat, j: nat)
    requires k < j < |lines| && IsSection(lines[j]) && QuietBetween(lines, k, j)
    ensures Recovers(lines, k)
  {
  }

  lemma SectionIsNoCut(lines: seq<Line>, j: nat)
    requires j < |lines| && IsSection(lines[j])
    ensures !CutsOff(lines, j)
  {
    hide Run, PathOf;
  }

  /** Behind a header that cut off sections and quiet lines, the section is the default one. */
  lemma QuietAgain(lines: seq<Line>, k: nat)
    requires k < |lines| - 1 && CutsOff(lines, k) && QuietBetween(lines, k, |lines| - 1)
    ensures !CutsOff(lines, |lines| - 1)
  {
    hide Run, PathOf, IsDefault, QuietBetween, Lower;
    StillDefault(lines, k, |lines| - 1);
    LowerDefault();
  }

  lemma {:induction false} StillDefault(lines: seq<Line>, k: nat, j: nat)
    requires k < j <= |lines| && IsDefault(lines[k]) && QuietBetween(lines, k, j)
    ensures Run(lines[..j]).section == DEFAULT
    decreases j
  {
    hide Segments, Left, PathOf;
    assert lines[..j][..j - 1] == lines[..j - 1];
    if k < j - 1 {
      StillDefault(lines, k, j - 1);
      assert IsQuiet(lines[j - 1]);
    }
  }

  lemma AfterLost(lines: seq<Line>)
    requires lines != [] && PhaseSays(Lost, lines[..|lines| - 1])
    ensures PhaseSays(Lost, lines)
  {
    hide CutsOff, Recovers, QuietBetween;
    var before := lines[..|lines| - 1];
    var k: nat, j: nat :| Waits(before, k, j) && j < |before| && before[j].Entry?;
    Extended(lines, k);
    assert Waits(lines, k, j) && lines[j] == before[j];
  }

  /** Over every file without options named like openings or closings: it ends with every section closed if and only
      if behind every default header that cuts off sections the next line that matters is a section header. */
  lemma ClosedExactly(lines: seq<Line>)
    requires NoMarks(lines)
    ensures OpenSections(Finish(Run(lines))) == Some([]) <==> AllRecover(lines)
  {
    hide OpenSections, Finish, Run, Means, CutsOff, Recovers, QuietBetween;
    PhaseMeans(lines);
    EndsClosed(Run(lines), PhaseOf(lines));
    PhaseIs(lines);
    hide PhaseOf;
    match PhaseOf(lines)
    case Fine =>
    case Pending =>
      var k :| Waits(lines, k, |lines|);
      WaitingIsNoRecovery(lines, k, |lines|);
    case Lost =>
      var k: nat, j: nat :| Waits(lines, k, j) && j < |lines| && lines[j].Entry?;
      WaitingIsNoRecovery(lines, k, j);
  }
}
