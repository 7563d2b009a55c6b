/** When a tree that was printed and read back, with white space around its texts, is the tree it was. */
module Rereading {
  import opened XmlChars
  import opened StringDecoding
  import opened StringEscaping
  import opened XmlParsing
  import opened Dom
  import opened Layout
  import opened WhitespaceModes
  import opened PrintParse
  import RoundTrip

  /** Reading changes no value of the tree and drops no text. */
  predicate Steady(n: Node)
    decreases n
  {
    match n
    case Leaf(kind, value) => CR !in value && (kind.Text? ==> !AllWhite(value))
    case Element(_, attributes, children) =>
      (forall a :: a in attributes ==> CR !in a.value) && forall c :: c in children ==> Steady(c)
  }

  lemma {:induction false} PrintableExactly(process: bool, n: Node)
    ensures PrintableNode(process, n) <==> SendableNode(process, n) && Steady(n)
    decreases n
  {
    if n.Element? {
      forall c | c in n.children
        ensures PrintableNode(process, c) <==> SendableNode(process, c) && Steady(c)
      {
        PrintableExactly(process, c);
      }
      assert forall a :: a in n.attributes ==>
               (PrintableAttribute(process, a) <==> SendableAttribute(process, a) && CR !in a.value);
    }
  }

  // ---------------------------------------------------------------------------------------------
  // White space around texts
  // ---------------------------------------------------------------------------------------------

  lemma {:induction false} AbsorbsSendable(process: bool, n: Node, m: Node)
    requires Absorbs(n, m) && SendableNode(process, n)
    ensures SendableNode(process, m) && Nesting(m) == Nesting(n)
    ensures IsDeclaration(m) == IsDeclaration(n) && IsPlainText(m) == IsPlainText(n)
    decreases n, 0
  {
    match n
    case Leaf(kind, value) =>
      if kind.Text? {
        AroundKeepsOut(value, m.value, NUL);
        if !process {
          AroundKeepsOut(value, m.value, '<');
        }
      }
    case Element(name, attributes, children) =>
      AllAbsorbSendable(process, children, m.children);
  }

  lemma {:induction false} AllAbsorbSendable(process: bool, ns: seq<Node>, ms: seq<Node>)
    requires AbsorbsAll(ns, ms) && forall n :: n in ns ==> SendableNode(process, n)
    ensures forall m :: m in ms ==> SendableNode(process, m)
    ensures forall i :: 0 <= i < |ns| ==> Nesting(ms[i]) == Nesting(ns[i])
    ensures NestingAll(ms) == NestingAll(ns)
    ensures TextApart(ns) ==> TextApart(ms)
    ensures (forall n :: n in ns ==> !IsDeclaration(n)) ==> forall m :: m in ms ==> !IsDeclaration(m)
    ensures DeclarationsFirst(ns) ==> DeclarationsFirst(ms)
    decreases ns, 1
  {
    hide SendableNode, Absorbs, Nesting, IsDeclaration, IsPlainText;
    forall i | 0 <= i < |ns|
      ensures SendableNode(process, ms[i]) && Nesting(ms[i]) == Nesting(ns[i]) && ns[i] in ns
      ensures IsDeclaration(ms[i]) == IsDeclaration(ns[i]) && IsPlainText(ms[i]) == IsPlainText(ns[i])
    {
      assert ns[i] in ns && Absorbs(ns[i], ms[i]);
      AbsorbsSendable(process, ns[i], ms[i]);
    }
    SameNesting(ns, ms);
  }

  lemma {:induction false} SameNesting(ns: seq<Node>, ms: seq<Node>)
    requires |ns| == |ms| && forall i :: 0 <= i < |ns| ==> Nesting(ms[i]) == Nesting(ns[i])
    ensures NestingAll(ms) == NestingAll(ns)
    decreases |ns|
  {
    hide Nesting;
    if ns != [] {
      SameNesting(ns[1..], ms[1..]);
    }
  }

  lemma AbsorbedSendable(process: bool, ns: seq<Node>, ms: seq<Node>)
    requires AbsorbsAll(ns, ms) && Sendable(process, ns)
    ensures Sendable(process, ms)
  {
    hide SendableNode, Absorbs, Nesting, NestingAll, TextApart, DeclarationsFirst;
    AllAbsorbSendable(process, ns, ms);
    forall m | m in ms
      ensures Nesting(m) <= MAX_ELEMENT_DEPTH - 2
    {
      var i :| 0 <= i < |ms| && ms[i] == m;
      assert ns[i] in ns;
    }
  }

  lemma AroundKeepsOut(v: string, w: string, c: char)
    requires Around(v, w) && c !in v && !IsWhiteSpace(c)
    ensures c !in w
  {
    var a, b :| w == a + v + b && Quiet(a) && Quiet(b);
    assert forall x :: x in a + v + b <==> x in a || x in v || x in b;
  }

  lemma AroundIsBlank(v: string, w: string)
    requires Around(v, w)
    ensures AllWhite(w) <==> AllWhite(v)
  {
    var a, b :| w == a + v + b && Quiet(a) && Quiet(b);
    if AllWhite(w) {
      forall i | 0 <= i < |v|
        ensures IsWhiteSpace(v[i])
      {
        assert w[|a| + i] == v[i];
      }
    }
  }

  // ---------------------------------------------------------------------------------------------
  // Texts
  // ---------------------------------------------------------------------------------------------

  /** What a reader keeps of a text. */
  function KeptText(collapse: bool, s: string): string {
    if collapse then Collapse(s) else s
  }

  lemma TextBack(collapse: bool, v: string, w: string)
    requires Around(v, w)
    ensures KeptText(collapse, Normalize(w)) == v <==> CR !in v && if collapse then Collapsed(v) else w == v
  {
    hide Collapse, Collapsed, Normalize, Around;
    if collapse {
      CollapseSpec(Normalize(w));
      CollapsedIsQuiet(v);
    }
    if CR !in v {
      AroundFixed(v, w);
      if collapse {
        AroundCollapses(v, w);
        CollapseSpec(v);
      }
    }
  }

  lemma CollapsedIsQuiet(v: string)
    ensures Collapsed(v) ==> CR !in v
  {
    if Collapsed(v) && CR in v {
      var i :| 0 <= i < |v| && v[i] == CR;
      assert IsWhiteSpace(v[i]);
    }
  }

  lemma AroundFixed(v: string, w: string)
    requires Around(v, w) && CR !in v
    ensures Normalize(w) == w
  {
    var a, b :| w == a + v + b && Quiet(a) && Quiet(b);
    assert CR !in a + v + b;
    NormalizeFixed(w);
  }

  lemma AroundCollapses(v: string, w: string)
    requires Around(v, w)
    ensures Collapse(w) == Collapse(v)
  {
    var a, b :| w == a + v + b && Quiet(a) && Quiet(b);
    EndIsCollapsed(a + v, b);
    RoundTrip.SkipMore(a, v);
  }

  // ---------------------------------------------------------------------------------------------
  // Trees
  // ---------------------------------------------------------------------------------------------

  function KeptNode(collapse: bool, n: Node): Node {
    if collapse then Squash(n) else n
  }

  ghost predicate Unchanged(collapse: bool, n: Node, m: Node) {
    Steady(n) && if collapse then AllCollapsed(n) else m == n
  }

  lemma AttributesBack(attributes: seq<Attribute>)
    ensures RereadAttributes(attributes) == attributes <==> forall a :: a in attributes ==> CR !in a.value
  {
    forall i | 0 <= i < |attributes|
      ensures RereadAttributes(attributes)[i] == attributes[i] <==> CR !in attributes[i].value
    {
      NormalizeFixed(attributes[i].value);
    }
    assert forall i :: 0 <= i < |attributes| ==> attributes[i] in attributes;
    if forall a :: a in attributes ==> CR !in a.value {
      assert RereadAttributes(attributes) == attributes;
    }
  }

  lemma {:induction false} NodeBack(collapse: bool, n: Node, m: Node)
    requires Absorbs(n, m) && !IsBlank(n)
    ensures KeptNode(collapse, Reread(m)) == n <==> Unchanged(collapse, n, m)
    decreases n, 0
  {
    match n
    case Leaf(kind, value) =>
      hide Collapse, Collapsed, Normalize, Around;
      if kind.Text? {
        TextBack(collapse, value, m.value);
      } else {
        NormalizeFixed(value);
      }
    case Element(name, attributes, children) =>
      hide RereadAttributes, RereadAll, SquashAll, Kept;
      AttributesBack(attributes);
      ListBack(collapse, children, m.children);
      KeptElement(collapse, name, RereadAttributes(attributes), RereadAll(m.children));
  }

  lemma KeptElement(collapse: bool, name: string, attributes: seq<Attribute>, children: seq<Node>)
    ensures KeptNode(collapse, Element(name, attributes, children))
            == Element(name, attributes, Kept(collapse, children))
  {
    hide SquashAll;
  }

  /** The list comes back exactly when nothing in it is dropped or changed. */
  lemma {:induction false} ListBack(collapse: bool, ns: seq<Node>, ms: seq<Node>)
    requires AbsorbsAll(ns, ms)
    ensures Kept(collapse, RereadAll(ms)) == ns
            <==> (forall n :: n in ns ==> Steady(n))
                 && if collapse then forall n :: n in ns ==> AllCollapsed(n) else ms == ns
    decreases ns, 1
  {
    hide Absorbs, AbsorbsAll, IsBlank, Reread, Squash, Steady, AllCollapsed, RereadAll, SquashAll;
    if ns == [] {
      NothingBack(collapse, ms);
    } else {
      AbsorbsTail(ns, ms);
      var n, m := ns[0], ms[0];
      ListBack(collapse, ns[1..], ms[1..]);
      assert ns == [n] + ns[1..] && ms == [m] + ms[1..];
      assert ms == ns <==> m == n && ms[1..] == ns[1..];
      AllAreSteady(ns);
      BlankBack(n, m);
      FewerBack(ms[1..]);
      RereadHead(collapse, ms);
      if IsBlank(n) {
        assert n in ns;
      } else {
        NodeBack(collapse, n, m);
        HeadAndTail(KeptNode(collapse, Reread(m)), Kept(collapse, RereadAll(ms[1..])), n, ns[1..]);
      }
    }
  }

  lemma NothingBack(collapse: bool, ms: seq<Node>)
    requires AbsorbsAll([], ms)
    ensures ms == [] && Kept(collapse, RereadAll([])) == []
  {
  }

  lemma AbsorbsTail(ns: seq<Node>, ms: seq<Node>)
    requires ns != [] && AbsorbsAll(ns, ms)
    ensures |ms| == |ns| && Absorbs(ns[0], ms[0]) && AbsorbsAll(ns[1..], ms[1..])
  {
    hide Absorbs;
  }

  lemma AllAreSteady(ns: seq<Node>)
    requires ns != []
    ensures (forall x :: x in ns ==> Steady(x)) <==> Steady(ns[0]) && forall x :: x in ns[1..] ==> Steady(x)
    ensures (forall x :: x in ns ==> AllCollapsed(x))
            <==> AllCollapsed(ns[0]) && forall x :: x in ns[1..] ==> AllCollapsed(x)
  {
    hide Steady, AllCollapsed;
    assert forall x :: x in ns <==> x == ns[0] || x in ns[1..];
  }

  lemma HeadAndTail(a: Node, s: seq<Node>, b: Node, t: seq<Node>)
    ensures [a] + s == [b] + t <==> a == b && s == t
  {
    if [a] + s == [b] + t {
      assert ([a] + s)[0] == ([b] + t)[0];
      assert ([a] + s)[1..] == ([b] + t)[1..];
    }
  }

  lemma BlankBack(n: Node, m: Node)
    requires Absorbs(n, m)
    ensures IsBlank(m) == IsBlank(n) && (IsBlank(n) ==> !Steady(n))
  {
    if IsPlainText(n) {
      AroundIsBlank(n.value, m.value);
    }
  }

  lemma {:induction false} FewerBack(ms: seq<Node>)
    ensures |RereadAll(ms)| <= |ms|
    decreases |ms|
  {
    hide IsBlank, Reread;
    if ms != [] {
      FewerBack(ms[1..]);
    }
  }

  lemma RereadHead(collapse: bool, ms: seq<Node>)
    requires ms != []
    ensures Kept(collapse, RereadAll(ms))
            == (if IsBlank(ms[0]) then [] else [KeptNode(collapse, Reread(ms[0]))]) + Kept(collapse, RereadAll(ms[1..]))
  {
    hide IsBlank, Reread, Squash;
    var first, rest := if IsBlank(ms[0]) then [] else [Reread(ms[0])], RereadAll(ms[1..]);
    if first == [] {
      assert [] + rest == rest;
      assert [] + Kept(collapse, rest) == Kept(collapse, rest);
    } else {
      assert (first + rest)[1..] == rest;
    }
  }
}
