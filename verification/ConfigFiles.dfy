/** What the configuration reader emits for a file, line by line as the file is written. */
module ConfigFiles {
  import opened ConfigLines
  import opened ConfigSections

  /** Parts joined by dots. */
  function Dotted(parts: seq<string>): string
    requires parts != []
  {
    if |parts| == 1 then parts[0] else parts[0] + "." + Dotted(parts[1..])
  }

  predicate ProperParts(parts: seq<string>) {
    parts != [] && forall i :: 0 <= i < |parts| ==> parts[i] != "" && '.' !in parts[i]
  }

  /** `default`, in any mixture of cases. */
  predicate NamesDefault(s: string) {
    |s| == 7 && forall i :: 0 <= i < 7 ==> s[i] == "default"[i] || s[i] == "DEFAULT"[i]
  }

  /** The reader behind these lines. */
  function Behind(values: string -> seq<string>, ws: seq<Written>): Reader {
    Run(Meanings(values, ws))
  }

  lemma {:induction false} DottedSplits(parts: seq<string>)
    requires ProperParts(parts)
    ensures Dotted(parts) != "" && Split(Dotted(parts), '.') == parts && ('.' in Dotted(parts) <==> |parts| > 1)
  {
    hide Split, Find;
    if |parts| == 1 {
      OnePiece(parts[0]);
      assert parts == [parts[0]];
    } else {
      DottedSplits(parts[1..]);
      OnePieceMore(parts[0], Dotted(parts[1..]));
      assert parts == [parts[0]] + parts[1..];
    }
  }

  lemma OnePiece(s: string)
    requires s != "" && '.' !in s
    ensures Split(s, '.') == [s]
  {
    hide Find;
    FoundAt(s, '.', "");
    assert s[..|s|] == s;
  }

  lemma OnePieceMore(first: string, rest: string)
    requires '.' !in first && rest != ""
    ensures var s := first + "." + rest; s != "" && '.' in s && Split(s, '.') == [first] + Split(rest, '.')
  {
    hide Find;
    var s := first + "." + rest;
    Halves(first, '.', rest);
    assert s[|first|] == '.';
  }

  lemma LowerIsDefault(s: string)
    ensures Lower(s) == "default" <==> NamesDefault(s)
  {
    if Lower(s) == "default" {
      assert forall i :: 0 <= i < 7 ==> Lower(s)[i] == "default"[i];
    }
    if NamesDefault(s) {
      assert forall i :: 0 <= i < 7 ==> Lower(s)[i] == "default"[i];
    }
  }

  /** The path of a section is its parts without their quotes; the default section has none. */
  lemma SectionPath(parts: seq<string>)
    requires ProperParts(parts)
    ensures PathOf(Dotted(parts)) == if NamesDefault(Dotted(parts)) then [] else AllBare(parts)
  {
    hide Split, Lower, NamesDefault;
    LowerIsDefault(Dotted(parts));
    DottedSplits(parts);
    Unquoting(parts);
    if |parts| == 1 {
      assert parts == [Dotted(parts)];
    }
  }

  lemma OptionPath(section: string, parts: seq<string>)
    requires ProperParts(parts) && forall i :: 0 <= i < |parts| ==> !Quoted(parts[i])
    ensures ParentsOf(section, Dotted(parts)) == PathOf(section) + parts[..|parts| - 1]
    ensures OwnName(Dotted(parts)) == parts[|parts| - 1]
  {
    hide Split, SectionParts, Dotted, AllUnquoted;
    DottedSplits(parts);
    OwnNameIs(parts);
    assert NameParts(Dotted(parts)) == parts[..|parts| - 1];
    Unquoted(SectionParts(section), parts[..|parts| - 1]);
  }

  lemma OwnNameIs(parts: seq<string>)
    requires ProperParts(parts) && !Quoted(parts[|parts| - 1])
    ensures OwnName(Dotted(parts)) == parts[|parts| - 1]
  {
    hide Split;
    DottedSplits(parts);
    Unquoted([], [parts[|parts| - 1]]);
  }

  lemma Unquoted(raw: seq<string>, parts: seq<string>)
    requires forall i :: 0 <= i < |parts| ==> !Quoted(parts[i])
    ensures AllUnquoted(raw + parts) == AllUnquoted(raw) + parts
  {
  }

  lemma OneLineMore(values: string -> seq<string>, ws: seq<Written>, w: Written)
    ensures Behind(values, ws + [w]) == Step(Behind(values, ws), Meaning(values, w))
  {
    hide Step, Meaning;
    var lines := Meanings(values, ws + [w]);
    assert lines[..|ws|] == Meanings(values, ws) && lines[|ws|] == Meaning(values, w);
  }

  /** Blank lines and comments emit nothing. */
  lemma NothingIsEmitted(values: string -> seq<string>, ws: seq<Written>, w: Written)
    requires w.Nothing? || w.Comment?
    ensures Behind(values, ws + [w]) == Behind(values, ws)
  {
    hide Run;
    OneLineMore(values, ws, w);
  }

  /** An option is emitted under the path of its section and the front parts of its own name, with the items of its
      value, or `true` when it stands alone; behind an item of the same path and name its items join that one. */
  lemma OptionIsEmitted(values: string -> seq<string>, ws: seq<Written>, w: Written, parts: seq<string>)
    requires (w.Assignment? || w.Flag?) && ProperParts(parts) && w.name == Dotted(parts)
    requires forall i :: 0 <= i < |parts| ==> !Quoted(parts[i])
    ensures var r, after := Behind(values, ws), Behind(values, ws + [w]);
            var inputs := if w.Flag? then ["true"] else AllBare(values(w.value));
            var path, own, n := PathOf(r.section) + parts[..|parts| - 1], parts[|parts| - 1], |r.output| - 1;
            && after.section == r.section
            && after.output ==
               if r.output != [] && r.output[n].parents == path && r.output[n].name == own then
                 r.output[..n] + [ConfigItem(path, own, r.output[n].inputs + inputs)]
               else r.output + [ConfigItem(path, own, inputs)]
  {
    hide Run, Step, ParentsOf, OwnName, PathOf, AllBare, Dotted;
    OneLineMore(values, ws, w);
    OptionPath(Behind(values, ws).section, parts);
    EntryStep(Behind(values, ws), w.name, if w.Flag? then ["true"] else AllBare(values(w.value)));
  }

  lemma EntryStep(r: Reader, name: string, inputs: seq<string>)
    ensures var path, own, n := ParentsOf(r.section, name), OwnName(name), |r.output| - 1;
            Step(r, Entry(name, inputs)) ==
            Reader(r.section,
                   if r.output != [] && r.output[n].parents == path && r.output[n].name == own then
                     r.output[..n] + [ConfigItem(path, own, r.output[n].inputs + inputs)]
                   else r.output + [ConfigItem(path, own, inputs)])
  {
    hide ParentsOf, OwnName;
    if Joins(r, name) {
      var n := |r.output| - 1;
      var joined := r.output[n].(inputs := r.output[n].inputs + inputs);
      assert r.output[n := joined] == r.output[..n] + [joined];
    }
  }

  /** A section header ends the section before it and begins its own: the last item emitted opens it. */
  lemma SectionBegins(values: string -> seq<string>, ws: seq<Written>, w: Written, parts: seq<string>)
    requires w.Section? && ProperParts(parts) && w.name == Dotted(parts) && !NamesDefault(w.name)
    ensures var after := Behind(values, ws + [w]);
            && after.section == w.name && PathOf(after.section) == AllBare(parts) && after.output != []
            && after.output[|after.output| - 1] == ConfigItem(AllBare(parts), "++", [])
  {
    hide Run, PathOf, Lower, Left, NamesDefault, Dotted, AllBare;
    OneLineMore(values, ws, w);
    SectionPath(parts);
    LowerIsDefault(w.name);
    EndsInOpening(Left(Behind(values, ws)), AllBare(parts));
  }

  lemma EndsInOpening(output: seq<ConfigItem>, q: Path)
    requires q != []
    ensures var r := Segments(output, q); r != [] && r[|r| - 1] == ConfigItem(q, "++", [])
  {
    hide Closings, Common;
    assert q[..|q|] == q;
  }

  /** The default header ends the section before it. */
  lemma DefaultBegins(values: string -> seq<string>, ws: seq<Written>, w: Written)
    requires w.Section? && NamesDefault(w.name)
    ensures var r, after := Behind(values, ws), Behind(values, ws + [w]);
            && after.section == "default"
            && after.output == if r.section == "default" then r.output
                               else r.output + [ConfigItem(PathOf(r.section), "--", [])]
  {
    hide Run, PathOf, Lower, NamesDefault;
    OneLineMore(values, ws, w);
    LowerIsDefault(w.name);
  }

  /** One closing for every prefix of the path, the longest first. */
  function Downwards(p: Path): seq<ConfigItem> {
    if p == [] then [] else [ConfigItem(p, "--", [])] + Downwards(p[..|p| - 1])
  }

  /** At the end of the file the section is closed, and every section around it. */
  lemma FileEnds(values: string -> seq<string>, ws: seq<Written>)
    ensures var r := Behind(values, ws); Finish(r) == r.output + Downwards(PathOf(r.section))
  {
    hide Run, PathOf, Finish, Closings, Downwards;
    var r := Behind(values, ws);
    var p := PathOf(r.section);
    FinishIs(r);
    ClosingsDown(p, |p|);
    AllOfIt(p);
  }

  lemma FinishIs(r: Reader)
    requires WellNamed(r)
    ensures Finish(r) == r.output + Closings(PathOf(r.section), 0, [])
  {
    hide SectionParts;
    PathNotEmpty(r.section);
    LowerDefault();
    assert r.output + [] == r.output;
  }

  lemma AllOfIt(p: Path)
    ensures p[..|p|] == p && Closings(p, |p|, []) + Downwards(p) == Downwards(p)
  {
  }

  lemma {:induction false} ClosingsDown(p: Path, k: nat)
    requires k <= |p|
    ensures Closings(p, 0, []) == Closings(p, k, []) + Downwards(p[..k])
    decreases k
  {
    if k > 0 {
      ClosingsDown(p, k - 1);
      assert p[..k][..k - 1] == p[..k - 1];
    } else {
      assert Closings(p, 0, []) + [] == Closings(p, 0, []);
    }
  }
}
