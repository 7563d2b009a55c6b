/** The document object model as a value: what a reader sees of a parsed or built tree. */
module Dom {
  import opened XmlChars

  datatype LeafKind = Text | CData | Comment | Declaration | Unknown

  datatype Attribute = Attribute(name: string, value: string)

  datatype Node =
    | Element(name: string, attributes: seq<Attribute>, children: seq<Node>)
    | Leaf(kind: LeafKind, value: string)

  /** XMLDocument's constructor arguments. */
  datatype Options = Options(processEntities: bool, collapse: bool)

  datatype XmlError =
    | ParsingElement | ParsingAttribute | ParsingText | ParsingCData | ParsingComment
    | ParsingDeclaration | ParsingUnknown | EmptyDocument | MismatchedElement | Parsing | DepthExceeded

  const MAX_ELEMENT_DEPTH := 100

  predicate IsDeclaration(n: Node) {
    n.Leaf? && n.kind.Declaration?
  }

  predicate IsPlainText(n: Node) {
    n.Leaf? && n.kind.Text?
  }

  /** True when some attribute of the list has this name. */
  predicate HasAttribute(attributes: seq<Attribute>, name: string) {
    exists i :: 0 <= i < |attributes| && attributes[i].name == name
  }

  predicate UniqueNames(attributes: seq<Attribute>) {
    forall i, j :: 0 <= i < j < |attributes| ==> attributes[i].name != attributes[j].name
  }

  /** Attribute names are unique in every element of the tree (section 3.1 of XML 1.0). */
  predicate UniqueEverywhere(n: Node)
    decreases n
  {
    n.Element? ==> UniqueNames(n.attributes) && forall c :: c in n.children ==> UniqueEverywhere(c)
  }

  // ---------------------------------------------------------------------------------------------
  // Changing attributes
  // ---------------------------------------------------------------------------------------------

  /** SetAttribute: the value of the first attribute of this name, or a new attribute at the end. */
  function SetAttr(attributes: seq<Attribute>, name: string, value: string): seq<Attribute> {
    if attributes == [] then [Attribute(name, value)]
    else if attributes[0].name == name then [Attribute(name, value)] + attributes[1..]
    else [attributes[0]] + SetAttr(attributes[1..], name, value)
  }

  /** DeleteAttribute: the first attribute of this name goes. */
  function UnsetAttr(attributes: seq<Attribute>, name: string): seq<Attribute> {
    if attributes == [] then []
    else if attributes[0].name == name then attributes[1..]
    else [attributes[0]] + UnsetAttr(attributes[1..], name)
  }

  predicate NoneNamed(attributes: seq<Attribute>, name: string) {
    forall i :: 0 <= i < |attributes| ==> attributes[i].name != name
  }

  lemma NoneInTail(attributes: seq<Attribute>, name: string, i: nat)
    requires 0 < i <= |attributes| && NoneNamed(attributes[..i], name)
    ensures attributes[0].name != name && NoneNamed(attributes[1..][..i - 1], name)
  {
    assert attributes[..i][0] == attributes[0];
    assert attributes[1..][..i - 1] == attributes[..i][1..];
  }

  lemma SetInTail(attributes: seq<Attribute>, a: Attribute, i: nat)
    requires i <= |attributes|
    ensures attributes == [] ==> attributes + [a] == [a]
    ensures i == 0 && attributes != [] ==> [a] + attributes[1..] == attributes[i := a]
    ensures i > 0 ==> [attributes[0]] + (attributes[1..] + [a]) == attributes + [a]
    ensures 0 < i < |attributes| ==> [attributes[0]] + attributes[1..][i - 1 := a] == attributes[i := a]
  {
  }

  lemma {:induction false} SetAttrAt(attributes: seq<Attribute>, name: string, value: string, i: nat)
    requires i <= |attributes| && NoneNamed(attributes[..i], name) && (i < |attributes| ==> attributes[i].name == name)
    ensures SetAttr(attributes, name, value) ==
              if i == |attributes| then attributes + [Attribute(name, value)]
                  else attributes[i := Attribute(name, value)]
  {
    hide NoneNamed;
    SetInTail(attributes, Attribute(name, value), i);
    if i > 0 {
      NoneInTail(attributes, name, i);
      SetAttrAt(attributes[1..], name, value, i - 1);
    }
  }

  lemma WithoutInTail(attributes: seq<Attribute>, i: nat)
    requires 0 < i <= |attributes|
    ensures [attributes[0]] + attributes[1..] == attributes
    ensures i < |attributes| ==>
              [attributes[0]] + (attributes[1..][..i - 1] + attributes[1..][i..])
                  == attributes[..i] + attributes[i + 1..]
  {
  }

  lemma {:induction false} UnsetAttrAt(attributes: seq<Attribute>, name: string, i: nat)
    requires i <= |attributes| && NoneNamed(attributes[..i], name) && (i < |attributes| ==> attributes[i].name == name)
    ensures UnsetAttr(attributes, name) == if i == |attributes| then attributes
            else attributes[..i] + attributes[i + 1..]
  {
    hide NoneNamed;
    if i > 0 {
      NoneInTail(attributes, name, i);
      WithoutInTail(attributes, i);
      UnsetAttrAt(attributes[1..], name, i - 1);
    }
  }

  /** Setting an attribute keeps names unique: it changes no name, and adds one that was not there. */
  lemma SetAttrUnique(attributes: seq<Attribute>, name: string, value: string)
    requires UniqueNames(attributes)
    ensures UniqueNames(SetAttr(attributes, name, value))
  {
    var i := FirstNamed(attributes, name);
    SetAttrAt(attributes, name, value, i);
  }

  /** Deleting an attribute keeps names unique, and leaves none of that name. */
  lemma UnsetAttrUnique(attributes: seq<Attribute>, name: string)
    requires UniqueNames(attributes)
    ensures UniqueNames(UnsetAttr(attributes, name)) && !HasAttribute(UnsetAttr(attributes, name), name)
  {
    hide UnsetAttr;
    var i := FirstNamed(attributes, name);
    UnsetAttrAt(attributes, name, i);
    if i < |attributes| {
      WithoutOne(attributes, i);
    } else {
      assert attributes[..i] == attributes;
    }
  }

  lemma WithoutOne(attributes: seq<Attribute>, i: nat)
    requires UniqueNames(attributes) && i < |attributes|
    ensures var rest := attributes[..i] + attributes[i + 1..];
            UniqueNames(rest) && !HasAttribute(rest, attributes[i].name)
  {
    var rest := attributes[..i] + attributes[i + 1..];
    forall j | 0 <= j < |rest|
      ensures rest[j] == attributes[if j < i then j else j + 1]
    {
    }
  }

  function FirstNamed(attributes: seq<Attribute>, name: string): (i: nat)
    ensures i <= |attributes| && NoneNamed(attributes[..i], name) && (i < |attributes| ==> attributes[i].name == name)
  {
    if attributes == [] || attributes[0].name == name then 0
    else
      var i := FirstNamed(attributes[1..], name);
      assert attributes[..i + 1] == [attributes[0]] + attributes[1..][..i];
      i + 1
  }
}
