/** The printer object: its fields, its memory buffer, and the visitor that walks a tree (XMLPrinter).
    Every method is proved to do to the state what the function of the same name in XmlPrinting does. */
module XmlPrinters {
  import opened XmlChars
  import opened StringDecoding
  import opened StringEscaping
  import opened DynArrays
  import opened Dom
  import opened Layout
  import XmlParsing
  import WrittenValues
  import P = XmlPrinting

  const ENTITY_RANGE := 64

  /** The memory buffer ends in a NUL that is not part of the output. */
  ghost predicate BufferHolds(buffer: DynArray<char>, out: string)
    reads buffer, buffer.mem
  {
    buffer.Valid() && buffer.Contents() == out + [NUL]
  }

  ghost predicate StackHolds(stack: DynArray<string>, names: seq<string>)
    reads stack, stack.mem
  {
    stack.Valid() && stack.Contents() == names
  }

  /** Write on a memory buffer: backs up over the NUL, copies, and puts the NUL behind. */
  method Append(buffer: DynArray<char>, data: string, ghost out: string)
    requires BufferHolds(buffer, out)
    modifies buffer, buffer.mem
    ensures BufferHolds(buffer, out + data)
    ensures buffer.mem == old(buffer.mem) || fresh(buffer.mem)
  {
    assert buffer.size == |out| + 1;
    var first := buffer.PushArr(|data|);
    var p := first - 1;
    assert buffer.mem[..first] == out + [NUL];
    assert forall i :: 0 <= i < |out| ==> buffer.mem[i] == (out + [NUL])[i];
    forall i | 0 <= i < |data| {
      buffer.mem[p + i] := data[i];
    }
    buffer.mem[p + |data|] := NUL;
    Appended(buffer.Contents(), out, data);
  }

  lemma Appended(m: seq<char>, out: string, data: string)
    requires |m| == |out| + |data| + 1
    requires (forall i :: 0 <= i < |out| ==> m[i] == out[i]) && forall i :: 0 <= i < |data| ==> m[|out| + i] == data[i]
    requires m[|out| + |data|] == NUL
    ensures m == out + data + [NUL]
  {
  }

  class XmlPrinter {
    ghost var Repr: set<object>
    ghost var out: string           // what was printed
    ghost var names: seq<string>    // the open elements

    var elementJustOpened: bool
    const stack: DynArray<string>
    var firstElement: bool
    var depth: nat
    var textDepth: int
    const processEntities: bool
    const compactMode: bool
    const buffer: DynArray<char>

    ghost predicate Valid()
      reads this, Repr
      ensures Valid() ==> this in Repr
    {
      && this in Repr && buffer in Repr && buffer.mem in Repr && stack in Repr && stack.mem in Repr
      && buffer as object != stack && buffer.mem as object != stack.mem
      && BufferHolds(buffer, out) && StackHolds(stack, names)
    }

    ghost function State(): P.PrintState
      reads this
    {
      P.PrintState(out, names, depth, textDepth, elementJustOpened, firstElement)
    }

    ghost function Settings(): P.Settings {
      P.Settings(compactMode, processEntities)
    }

    constructor (compact: bool, processEntities: bool)
      ensures Valid() && fresh(Repr)
      ensures State() == P.INITIAL && Settings() == P.Settings(compact, processEntities)
    {
      elementJustOpened, firstElement, depth, textDepth := false, true, 0, -1;
      this.processEntities, compactMode := processEntities, compact;
      var names := new DynArray<string>(10);
      var bytes := new DynArray<char>(20);
      bytes.Push(NUL);
      stack, buffer := names, bytes;
      this.names, out := [], "";
      new;
      Repr := {this, buffer, buffer.mem, stack, stack.mem};
    }

    method Write(data: string)
      requires Valid()
      modifies Repr
      ensures Valid() && fresh(Repr - old(Repr))
      ensures State() == P.Put(old(State()), data)
    {
      hide BufferHolds, StackHolds;
      Append(buffer, data, out);
      out, Repr := out + data, Repr + {buffer.mem};
    }

    method PushName(name: string)
      requires Valid()
      modifies Repr
      ensures Valid() && fresh(Repr - old(Repr))
      ensures State() == old(State()).(stack := old(names) + [name])
    {
      hide BufferHolds;
      stack.Push(name);
      names, Repr := names + [name], Repr + {stack.mem};
    }

    method PopName() returns (name: string)
      requires Valid() && names != []
      modifies Repr
      ensures Valid() && fresh(Repr - old(Repr))
      ensures State() == old(State()).(stack := old(names)[..|old(names)| - 1])
      ensures name == old(names)[|old(names)| - 1]
    {
      hide BufferHolds;
      assert stack.size == |names|;
      name := stack.Pop();
      names := names[..|names| - 1];
    }

    method PrintSpace(depth: nat)
      requires Valid()
      modifies Repr
      ensures Valid() && fresh(Repr - old(Repr))
      ensures State() == P.Put(old(State()), P.Spaces(depth))
    {
      hide BufferHolds, StackHolds;
      ghost var before := State();
      assert before.out + P.Spaces(0) == before.out;
      for i := 0 to depth
        invariant Valid() && fresh(Repr - old(Repr))
        invariant State() == P.Put(before, P.Spaces(i))
      {
        Write("    ");
        MoreSpaces(before.out, i);
      }
    }

    /** Runs of plain bytes are written whole, entities one by one. */
    method PrintString(s: string, restricted: bool)
      requires Valid()
      modifies Repr
      ensures Valid() && fresh(Repr - old(Repr))
      ensures State() == P.Put(old(State()), Escape(processEntities, restricted, s))
      ensures out == old(out) + if processEntities then WrittenValues.AllEscaped(restricted, s) else s
    {
      hide BufferHolds, StackHolds, Escape, WrittenValues.AllEscaped;
      NotProcessed(restricted, s);
      AllEscapedByName(restricted, s);
      if !processEntities {
        Write(s);
        return;
      }
      ghost var before := State();
      var p, q := 0, 0;
      assert s[..0] == "";
      NothingAdded(before.out);
      while q < |s|
        invariant p <= q <= |s|
        invariant Valid() && fresh(Repr - old(Repr))
        invariant forall i :: p <= i < q ==> !IsEscaped(restricted, s[i])
        invariant State() == P.Put(before, Escape(true, restricted, s[..p]))
      {
        if 0 < s[q] as int < ENTITY_RANGE && IsEscaped(restricted, s[q]) {
          if p < q {
            Write(s[p..q]);
            EscapeRun(before.out, restricted, s, p, q);
          }
          Write("&" + ENTITIES[EntityIndex(s[q])].0 + ";");
          EscapeOne(before.out, restricted, s, q);
          p := q + 1;
        }
        q := q + 1;
      }
      if p < q {
        Write(s[p..q]);
        EscapeRun(before.out, restricted, s, p, q);
      }
      assert s[..q] == s;
    }

    method SealElementIfJustOpened()
      requires Valid()
      modifies Repr
      ensures Valid() && fresh(Repr - old(Repr))
      ensures State() == P.Seal(old(State()))
    {
      hide BufferHolds, StackHolds;
      if !elementJustOpened {
        return;
      }
      elementJustOpened := false;
      Write(">");
    }

    method WriteTwo(a: string, b: string)
      requires Valid()
      modifies Repr
      ensures Valid() && fresh(Repr - old(Repr))
      ensures State() == P.Put(old(State()), a + b)
    {
      hide BufferHolds, StackHolds;
      Write(a);
      Write(b);
      GapConcat(old(out), a, b);
    }

    method WriteThree(a: string, b: string, c: string)
      requires Valid()
      modifies Repr
      ensures Valid() && fresh(Repr - old(Repr))
      ensures State() == P.Put(old(State()), a + (b + c))
    {
      hide BufferHolds, StackHolds;
      Write(a);
      Write(b);
      Write(c);
      ThreeConcat(old(out), a, b, c);
    }

    /** The newline and the indentation in front of a start tag. */
    method WriteGap(compact: bool)
      requires Valid()
      modifies Repr
      ensures Valid() && fresh(Repr - old(Repr))
      ensures State() == P.Put(old(State()), (if P.BreaksLine(old(State()), compact) then "\n" else "")
                                             + (if compact then "" else P.Spaces(depth)))
    {
      hide BufferHolds, StackHolds;
      ghost var line := if P.BreaksLine(State(), compact) then "\n" else "";
      NothingAdded(out);
      if textDepth < 0 && !firstElement && !compact {
        Write("\n");
      }
      GapConcat(old(out), line, P.Spaces(depth));
      NothingAdded(line);
      if !compact {
        PrintSpace(depth);
      }
    }

    method WriteStart(name: string, compact: bool)
      requires Valid()
      modifies Repr
      ensures Valid() && fresh(Repr - old(Repr))
      ensures State() == P.Put(P.Put(old(State()), (if P.BreaksLine(old(State()), compact) then "\n" else "")
                                                   + (if compact then "" else P.Spaces(depth))), "<" + name)
    {
      hide BufferHolds, StackHolds, P.BreaksLine, P.Spaces;
      WriteGap(compact);
      WriteTwo("<", name);
    }

    method OpenElement(name: string, compact: bool)
      requires Valid()
      modifies Repr
      ensures Valid() && fresh(Repr - old(Repr))
      ensures State() == P.OpenElement(old(State()), name, compact)
    {
      hide BufferHolds, StackHolds;
      SealElementIfJustOpened();
      PushName(name);
      WriteStart(name, compact);
      elementJustOpened, firstElement, depth := true, false, depth + 1;
    }

    method PushAttribute(name: string, value: string)
      requires Valid()
      modifies Repr
      ensures Valid() && fresh(Repr - old(Repr))
      ensures State() == P.PushAttribute(Settings(), old(State()), Attribute(name, value))
    {
      hide BufferHolds, StackHolds;
      Write(" ");
      Write(name);
      Write("=\"");
      PrintString(value, false);
      Write("\"");
      AttributeConcat(old(State().out), name, Escape(processEntities, false, value));
    }

    /** `/>` for an element without content, otherwise the end tag on its own line unless text is open. */
    method WriteEnd(name: string, compact: bool)
      requires Valid()
      modifies Repr
      ensures Valid() && fresh(Repr - old(Repr))
      ensures State() == P.Put(old(State()),
                if elementJustOpened then "/>"
                else (if textDepth < 0 && !compact then "\n" + P.Spaces(depth) else "") + ("</" + (name + ">")))
    {
      hide BufferHolds, StackHolds;
      if elementJustOpened {
        Write("/>");
      } else {
        if textDepth < 0 && !compact {
          Write("\n");
          PrintSpace(depth);
        }
        WriteThree("</", name, ">");
        EndConcat(old(out), P.Spaces(depth), name);
      }
    }

    method CloseElement(compact: bool)
      requires Valid() && depth > 0 && names != []
      modifies Repr
      ensures Valid() && fresh(Repr - old(Repr))
      ensures State() == P.CloseElement(old(State()), compact)
    {
      hide BufferHolds, StackHolds, P.Spaces;
      depth := depth - 1;
      var name := PopName();
      WriteEnd(name, compact);
      LeaveElement(compact);
    }

    /** Behind the end tag: text that was open at this depth is closed, and a line at top level. */
    method LeaveElement(compact: bool)
      requires Valid()
      modifies Repr
      ensures Valid() && fresh(Repr - old(Repr))
      ensures State() == P.Put(old(State()), if depth == 0 && !compact then "\n" else "")
                          .(textDepth := if old(textDepth) == depth then -1 else old(textDepth),
                            elementJustOpened := false)
    {
      hide BufferHolds, StackHolds;
      if textDepth == depth {
        textDepth := -1;
      }
      WriteLastLine(compact);
      elementJustOpened := false;
    }

    /** The newline behind an element at top level. */
    method WriteLastLine(compact: bool)
      requires Valid()
      modifies Repr
      ensures Valid() && fresh(Repr - old(Repr))
      ensures State() == P.Put(old(State()), if depth == 0 && !compact then "\n" else "")
    {
      hide BufferHolds, StackHolds;
      NothingAdded(out);
      if depth == 0 && !compact {
        Write("\n");
      }
    }

    method PushText(text: string, cdata: bool)
      requires Valid()
      modifies Repr
      ensures Valid() && fresh(Repr - old(Repr))
      ensures State() == P.PushLeaf(Settings(), old(State()), if cdata then CData else Text, text)
    {
      hide BufferHolds, StackHolds;
      textDepth := depth - 1;
      SealElementIfJustOpened();
      if cdata {
        WriteThree("<![CDATA[", text, "]]>");
      } else {
        PrintString(text, true);
        NothingAdded(Escape(processEntities, true, text));
      }
    }

    /** PushComment, PushDeclaration and PushUnknown. */
    method PushMarkup(kind: LeafKind, value: string)
      requires Valid() && !kind.Text? && !kind.CData?
      modifies Repr
      ensures Valid() && fresh(Repr - old(Repr))
      ensures State() == P.PushLeaf(Settings(), old(State()), kind, value)
    {
      hide BufferHolds, StackHolds;
      SealElementIfJustOpened();
      WriteLine();
      WriteThree(if kind.Comment? then "<!--" else if kind.Declaration? then "<?" else "<!",
                 value,
                 if kind.Comment? then "-->" else if kind.Declaration? then "?>" else ">");
    }

    /** The new line in front of markup other than elements. */
    method WriteLine()
      requires Valid()
      modifies Repr
      ensures Valid() && fresh(Repr - old(Repr))
      ensures State() == P.Put(old(State()),
                               if P.BreaksLine(old(State()), compactMode) then "\n" + P.Spaces(depth) else "")
                          .(firstElement := false)
    {
      hide BufferHolds, StackHolds;
      NothingAdded(out);
      if textDepth < 0 && !firstElement && !compactMode {
        Write("\n");
        PrintSpace(depth);
      }
      GapConcat(old(out), "\n", P.Spaces(depth));
      firstElement := false;
    }

    method PushAttributes(attributes: seq<Attribute>)
      requires Valid()
      modifies Repr
      ensures Valid() && fresh(Repr - old(Repr))
      ensures State() == P.PushAttributes(Settings(), old(State()), attributes)
    {
      hide BufferHolds, StackHolds;
      var rest := attributes;
      while rest != []
        invariant Valid() && fresh(Repr - old(Repr))
        invariant P.PushAttributes(Settings(), State(), rest) == P.PushAttributes(Settings(), old(State()), attributes)
        decreases |rest|
      {
        PushAttribute(rest[0].name, rest[0].value);
        rest := rest[1..];
      }
    }

    /** Accept on one node, with this printer as the visitor. */
    method VisitNode(n: Node)
      requires Valid()
      modifies Repr
      ensures Valid() && fresh(Repr - old(Repr))
      ensures State() == P.PrintNode(Settings(), old(State()), n)
      decreases n
    {
      hide BufferHolds, StackHolds;
      match n
      case Leaf(kind, value) =>
        if kind.Text? || kind.CData? {
          PushText(value, kind.CData?);
        } else {
          PushMarkup(kind, value);
        }
      case Element(name, attributes, children) =>
        ghost var before := State();
        OpenElement(name, compactMode);
        PushAttributes(attributes);
        P.AttributesKeepStack(Settings(), P.OpenElement(before, name, compactMode), attributes);
        VisitNodes(children);
        CloseElement(compactMode);
    }

    method VisitNodes(nodes: seq<Node>)
      requires Valid()
      modifies Repr
      ensures Valid() && fresh(Repr - old(Repr))
      ensures State() == P.PrintNodes(Settings(), old(State()), nodes)
      decreases nodes
    {
      hide BufferHolds, StackHolds;
      if nodes != [] {
        VisitNode(nodes[0]);
        VisitNodes(nodes[1..]);
      }
    }

    /** XMLDocument::Print: the byte order mark, then every child. */
    method PrintDocument(bom: bool, children: seq<Node>)
      requires Valid() && State() == P.INITIAL
      modifies Repr
      ensures Valid() && fresh(Repr - old(Repr))
      ensures State().out == P.PrintDocument(Settings(), bom, children)
    {
      hide BufferHolds, StackHolds;
      if bom {
        Write(XmlParsing.BOM);
      }
      assert "" + "" == "";
      VisitNodes(children);
    }
  }

  // ---------------------------------------------------------------------------------------------
  // Strings put together piece by piece
  // ---------------------------------------------------------------------------------------------

  lemma NothingAdded(out: string)
    ensures out + "" == out && "" + out == out && "" + (out + "") == out
  {
  }

  lemma MoreSpaces(out: string, i: nat)
    ensures out + P.Spaces(i) + "    " == out + P.Spaces(i + 1)
  {
    assert P.Spaces(i) + "    " == P.Spaces(i + 1);
    assert out + P.Spaces(i) + "    " == out + (P.Spaces(i) + "    ");
  }

  lemma GapConcat(out: string, line: string, indent: string)
    ensures out + line + indent == out + (line + indent)
    ensures out + line + "" == out + line
  {
  }

  lemma ThreeConcat(out: string, a: string, b: string, c: string)
    ensures out + a + b + c == out + (a + (b + c))
  {
  }

  lemma AttributeConcat(out: string, name: string, value: string)
    ensures out + " " + name + "=\"" + value + "\"" == out + (" " + (name + ("=\"" + (value + "\""))))
  {
    ThreeConcat(out + " " + name, "=\"", value, "\"");
    ThreeConcat(out, " ", name, "=\"" + (value + "\""));
  }

  lemma EndConcat(out: string, indent: string, name: string)
    ensures out + "\n" + indent + ("</" + (name + ">")) == out + ("\n" + indent + ("</" + (name + ">")))
    ensures out + ("</" + (name + ">")) == out + ("" + ("</" + (name + ">")))
  {
    var tag := "</" + (name + ">");
    GapConcat(out, "\n", indent);
    GapConcat(out, "\n" + indent, tag);
    assert "" + tag == tag;
  }

  lemma {:induction false} EscapePlainRun(restricted: bool, run: string)
    requires forall i :: 0 <= i < |run| ==> !IsEscaped(restricted, run[i])
    ensures Escape(true, restricted, run) == run
  {
    if run != "" {
      EscapePlainRun(restricted, run[1..]);
      assert run == [run[0]] + run[1..];
    }
  }

  lemma NotProcessed(restricted: bool, s: string)
    ensures Escape(false, restricted, s) == s && Escape(true, restricted, "") == ""
  {
  }

  lemma EscapeRun(out: string, restricted: bool, s: string, p: nat, q: nat)
    requires p <= q <= |s| && forall i :: p <= i < q ==> !IsEscaped(restricted, s[i])
    ensures out + Escape(true, restricted, s[..p]) + s[p..q] == out + Escape(true, restricted, s[..q])
  {
    hide Escape, IsEscaped;
    EscapePlainRun(restricted, s[p..q]);
    EscapeConcat(true, restricted, s[..p], s[p..q]);
    assert s[..p] + s[p..q] == s[..q];
    assert out + Escape(true, restricted, s[..p]) + s[p..q] == out + (Escape(true, restricted, s[..p]) + s[p..q]);
  }

  lemma EscapeOne(out: string, restricted: bool, s: string, q: nat)
    requires q < |s| && IsEscaped(restricted, s[q])
    ensures out + Escape(true, restricted, s[..q]) + ("&" + ENTITIES[EntityIndex(s[q])].0 + ";")
            == out + Escape(true, restricted, s[..q + 1])
  {
    var one := [s[q]];
    assert one[1..] == "";
    assert Escape(true, restricted, one) == EscapeChar(restricted, s[q]) + "";
    EscapeConcat(true, restricted, s[..q], one);
    assert s[..q] + one == s[..q + 1];
    hide Escape;
    NothingAdded(EscapeChar(restricted, s[q]));
    GapConcat(out, Escape(true, restricted, s[..q]), EscapeChar(restricted, s[q]));
  }
}
