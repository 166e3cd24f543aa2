/** `XMLPrinter`: the streaming printer, which keeps an element's tag open until something is written below
    it. It writes exactly what `XmlLayout.Print` says, in compact mode and outside. */
module XmlPrinter {
  import opened XmlText
  import XmlStrPair
  import opened XmlParse
  import opened XmlLayout

  // ----- Printing in front of something --------------------------------------------

  lemma {:induction false} AttributesAppend(attributes: seq<Attribute>, a: string, b: string)
    ensures PrintAttributes(attributes, a + b) == PrintAttributes(attributes, a) + b
  {
    hide Escape;
    if attributes != [] {
      AttributesAppend(attributes[1..], a, b);
    }
  }

  lemma NodeAppend(n: Node, pen: Pen, a: string, b: string)
    ensures PrintBare(n, pen, a + b) == PrintBare(n, pen, a) + b
    decreases n, 1
  {
    hide Escape, PrintAttributes, AfterAll;
    match n
    case Element(name, attributes, children) =>
      ElementAppend(n, pen, a, b);
    case Text(value, cdata) =>
      if cdata {
        RawAppend("<![CDATA[", value, "]]>", a, b);
      } else {
        assert Escape(value, true) + (a + b) == Escape(value, true) + a + b;
      }
    case Comment(value) => RawAppend("<!--", value, "-->", a, b);
    case Declaration(value) => RawAppend("<?", value, "?>", a, b);
    case Unknown(value) => RawAppend("<!", value, ">", a, b);
  }

  lemma ElementAppend(n: Node, pen: Pen, a: string, b: string)
    requires n.Element?
    ensures PrintBare(n, pen, a + b) == PrintBare(n, pen, a) + b
    decreases n, 0
  {
    hide PrintAttributes, PrintNodes, AfterAll;
    var behind := pen.Behind(n);
    assert behind + (a + b) == behind + a + b;
    if n.children == [] {
      assert "/>" + (behind + a + b) == "/>" + (behind + a) + b;
      AttributesAppend(n.attributes, "/>" + (behind + a), b);
    } else {
      var gap := AfterAll(n.children, pen.Inside()).EndGap();
      EndTagAppend(gap, n.name, behind + a, b);
      var end := gap + EndTag(n.name, behind + a);
      NodesAppend(n.children, pen.Inside(), end, b);
      var inner := PrintNodes(n.children, pen.Inside(), end);
      assert ">" + (inner + b) == ">" + inner + b;
      AttributesAppend(n.attributes, ">" + inner, b);
    }
  }

  lemma EndTagAppend(gap: string, name: string, a: string, b: string)
    ensures gap + EndTag(name, a + b) == gap + EndTag(name, a) + b
  {
  }

  lemma RawAppend(head: string, value: string, end: string, a: string, b: string)
    ensures head + (value + (end + (a + b))) == head + (value + (end + a)) + b
  {
  }

  lemma {:induction false} NodesAppend(nodes: seq<Node>, pen: Pen, a: string, b: string)
    ensures PrintNodes(nodes, pen, a + b) == PrintNodes(nodes, pen, a) + b
    decreases nodes, 2
  {
    hide PrintBare, After;
    if nodes != [] {
      var pen', gap := After(nodes[0], pen), pen.Gap(nodes[0]);
      NodesAppend(nodes[1..], pen', a, b);
      NodeAppend(nodes[0], pen, PrintNodes(nodes[1..], pen', a), b);
      var bare := PrintBare(nodes[0], pen, PrintNodes(nodes[1..], pen', a));
      assert gap + (bare + b) == gap + bare + b;
    }
  }

  /** A node with the white space in front of it. */
  ghost function Printed(n: Node, pen: Pen): string {
    pen.Gap(n) + PrintBare(n, pen, "")
  }

  lemma PrintedAlone(n: Node, pen: Pen)
    ensures PrintNodes([n], pen, "") == Printed(n, pen) && AfterAll([n], pen) == After(n, pen)
  {
    hide PrintBare, After;
    assert [n][1..] == [];
  }

  /** Printing one more node at the end. */
  lemma {:induction false} NodesSnoc(nodes: seq<Node>, n: Node, pen: Pen)
    ensures PrintNodes(nodes + [n], pen, "") == PrintNodes(nodes, pen, "") + Printed(n, AfterAll(nodes, pen))
    ensures AfterAll(nodes + [n], pen) == After(n, AfterAll(nodes, pen))
    decreases |nodes|
  {
    hide PrintBare, After, Printed;
    if nodes == [] {
      assert nodes + [n] == [n] && [n][1..] == [];
      PrintedAlone(n, pen);
      assert "" + Printed(n, pen) == Printed(n, pen);
    } else {
      var pen', gap := After(nodes[0], pen), pen.Gap(nodes[0]);
      NodesSnoc(nodes[1..], n, pen');
      assert (nodes + [n])[1..] == nodes[1..] + [n];
      var later, last := PrintNodes(nodes[1..], pen', ""), Printed(n, AfterAll(nodes[1..], pen'));
      NodeAppend(nodes[0], pen, later, last);
      XmlStrPair.Associate(gap, PrintBare(nodes[0], pen, later), last);
    }
  }

  /** How an element ends: with its own tag, or behind its children with an end tag. */
  ghost function Ending(n: Node, pen: Pen): string
    requires n.Element?
  {
    (if n.children == [] then "/>" else AfterAll(n.children, pen.Inside()).EndGap() + ("</" + n.name + ">")) +
      pen.Behind(n)
  }

  /** The printed element, cut where its children begin and end. */
  lemma ElementParts(n: Node, pen: Pen)
    requires n.Element?
    ensures PrintBare(n, pen, "") == "<" + n.name + PrintAttributes(n.attributes, "") +
            ((if n.children == [] then "" else ">" + PrintNodes(n.children, pen.Inside(), "")) + Ending(n, pen))
  {
    hide PrintAttributes, PrintNodes, AfterAll, Ending;
    var tail := (if n.children == [] then "" else ">" + PrintNodes(n.children, pen.Inside(), "")) + Ending(n, pen);
    ElementTail(n, pen);
    assert tail == "" + tail;
    AttributesAppend(n.attributes, "", tail);
    RawParts("<", n.name, PrintAttributes(n.attributes, ""), tail);
  }

  lemma ElementTail(n: Node, pen: Pen)
    requires n.Element?
    ensures var tail := (if n.children == [] then "" else ">" + PrintNodes(n.children, pen.Inside(), "")) +
            Ending(n, pen);
            PrintBare(n, pen, "") == "<" + (n.name + PrintAttributes(n.attributes, tail))
  {
    hide PrintAttributes, PrintNodes, AfterAll;
    var behind := pen.Behind(n);
    assert behind + "" == behind;
    if n.children == [] {
      assert "" + Ending(n, pen) == "/>" + behind;
    } else {
      ParentTail(n, pen);
    }
  }

  lemma ParentTail(n: Node, pen: Pen)
    requires n.Element? && n.children != []
    ensures ">" + PrintNodes(n.children, pen.Inside(),
                             AfterAll(n.children, pen.Inside()).EndGap() + EndTag(n.name, pen.Behind(n)))
         == (">" + PrintNodes(n.children, pen.Inside(), "")) + Ending(n, pen)
  {
    hide PrintNodes, AfterAll;
    var gap, ending := AfterAll(n.children, pen.Inside()).EndGap(), Ending(n, pen);
    assert gap + EndTag(n.name, pen.Behind(n)) == ending;
    assert ending == "" + ending;
    NodesAppend(n.children, pen.Inside(), "", ending);
  }

  lemma RawParts(a: string, b: string, c: string, d: string)
    ensures a + (b + (c + d)) == a + b + c + d
  {
  }

  // ----- The printer ---------------------------------------------------------------

  /** The pieces that a visit writes are the printed element. */
  lemma ElementWritten(base: string, n: Node, pen: Pen)
    requires n.Element?
    ensures base + pen.Gap(n) + ("<" + n.name) + PrintAttributes(n.attributes, "") +
            ChildrenSoFar(n.children, pen.Inside(), |n.children|) + Ending(n, pen) == base + Printed(n, pen)
  {
    hide PrintBare, PrintNodes, PrintAttributes, ChildrenSoFar, Ending;
    ElementParts(n, pen);
    AllChildren(n.children, pen.Inside());
    Assemble(base, pen.Gap(n), "<" + n.name, PrintAttributes(n.attributes, ""),
             ChildrenSoFar(n.children, pen.Inside(), |n.children|), Ending(n, pen));
  }

  lemma Assemble(base: string, gap: string, a: string, b: string, c: string, d: string)
    ensures base + gap + a + b + c + d == base + (gap + (a + b + (c + d)))
  {
  }

  /** What is written behind an element's attributes when `i` of its children have been printed. */
  ghost function ChildrenSoFar(children: seq<Node>, pen: Pen, i: nat): string
    requires i <= |children|
  {
    if i == 0 then "" else ">" + PrintNodes(children[..i], pen, "")
  }

  lemma OneMoreChild(children: seq<Node>, pen: Pen, i: nat)
    requires i < |children|
    ensures ChildrenSoFar(children, pen, i + 1)
         == ChildrenSoFar(children, pen, i) + (if i == 0 then ">" else "") +
            Printed(children[i], AfterAll(children[..i], pen))
    ensures AfterAll(children[..i + 1], pen) == After(children[i], AfterAll(children[..i], pen))
  {
    hide PrintBare, After, Printed;
    NodesSnoc(children[..i], children[i], pen);
    assert children[..i + 1] == children[..i] + [children[i]];
  }

  lemma AllChildren(children: seq<Node>, pen: Pen)
    ensures ChildrenSoFar(children, pen, 0) == "" && AfterAll(children[..0], pen) == pen
    ensures AfterAll(children[..|children|], pen) == AfterAll(children, pen)
    ensures children != [] ==> ChildrenSoFar(children, pen, |children|) == ">" + PrintNodes(children, pen, "")
  {
    assert children[..|children|] == children;
  }

  class XMLPrinter {
    var buffer: string
    var elementJustOpened: bool
    var firstElement: bool
    var depth: int
    var textDepth: int
    var stack: seq<string>
    var processEntities: bool
    const compactMode: bool

    constructor (compact: bool, initialDepth: int)
      ensures buffer == "" && !elementJustOpened && processEntities && PenNow() == NewPen(compact, initialDepth)
    {
      buffer, stack := "", [];
      elementJustOpened, firstElement, processEntities := false, true, true;
      depth, textDepth := initialDepth, -1;
      compactMode := compact;
    }

    /** Where the printer stands. */
    function PenNow(): Pen
      reads this
    {
      Pen(compactMode, depth, textDepth, firstElement)
    }

    /** The end of an element's tag that is still to be written. */
    function Pending(): string
      reads this
    {
      if elementJustOpened then ">" else ""
    }

    method Write(s: string)
      modifies this`buffer
      ensures buffer == old(buffer) + s
    {
      buffer := buffer + s;
    }

    method PrintSpace(n: int)
      modifies this`buffer
      ensures buffer == old(buffer) + Spaces(n)
    {
      var i := 0;
      while i < n
        invariant 0 <= i && i <= (if n < 0 then 0 else n)
        invariant buffer == old(buffer) + Spaces(i)
      {
        Write("    ");
        i := i + 1;
      }
    }

    /** Runs of plain characters are written in one go; `p` is the start of the run that ends at `q`. */
    method PrintString(s: string, restricted: bool)
      modifies this`buffer
      ensures buffer == old(buffer) + if processEntities then Escape(s, restricted) else s
    {
      hide Escape, EscapeChar, Pattern;
      if !processEntities {
        Write(s);
        return;
      }
      var p, q := 0, 0;
      assert s[..0] == "";
      NothingEscaped(restricted);
      while q < |s|
        invariant 0 <= p <= q <= |s|
        invariant buffer + s[p..q] == old(buffer) + Escape(s[..q], restricted)
      {
        RunStep(s, p, q, buffer, old(buffer), restricted);
        if IsEscaped(s[q], restricted) {
          Write(s[p..q]);
          WriteEntity(s[q]);
          p := q + 1;
          assert s[p..q + 1] == "";
        }
        q := q + 1;
      }
      Write(s[p..q]);
      assert s[..q] == s;
    }

    method WriteEntity(c: char)
      requires IsEscaped(c, false)
      modifies this`buffer
      ensures buffer == old(buffer) + ("&" + Pattern(c) + ";")
    {
      Write("&");
      Write(Pattern(c));
      Write(";");
    }

    method SealElementIfJustOpened()
      modifies this`buffer, this`elementJustOpened
      ensures buffer == old(buffer) + old(Pending()) && !elementJustOpened
    {
      if !elementJustOpened {
        return;
      }
      elementJustOpened := false;
      Write(">");
    }

    method OpenElement(name: string, compact: bool)
      modifies this
      ensures buffer == old(buffer) + old(Pending()) + old(PenNow()).(compact := compact).NewLine() +
                        (if compact then "" else Spaces(old(depth))) + ("<" + name)
      ensures elementJustOpened && PenNow() == old(PenNow()).Inside() && stack == old(stack) + [name]
      ensures processEntities == old(processEntities)
    {
      SealElementIfJustOpened();
      stack := stack + [name];
      if textDepth < 0 && !firstElement && !compact {
        Write("\n");
      }
      if !compact {
        PrintSpace(depth);
      }
      ghost var before := buffer;
      Write("<");
      Write(name);
      assert buffer == before + ("<" + name);
      elementJustOpened := true;
      firstElement := false;
      depth := depth + 1;
    }

    method PushAttribute(a: Attribute)
      modifies this`buffer
      ensures processEntities ==> buffer == old(buffer) + PrintAttributes([a], "")
    {
      hide Escape;
      Write(" ");
      Write(a.name);
      Write("=\"");
      PrintString(a.value, false);
      Write("\"");
      assert [a][1..] == [];
    }

    method CloseElement(compact: bool)
      requires stack != []
      modifies this
      ensures stack == old(stack)[..|old(stack)| - 1]
      ensures buffer == old(buffer) +
                (if old(elementJustOpened) then "/>"
                 else (if old(textDepth) < 0 && !compact then "\n" + Spaces(depth) else "") +
                      ("</" + old(stack)[|old(stack)| - 1] + ">")) +
                (if depth == 0 && !compact then "\n" else "")
      ensures !elementJustOpened && PenNow() == old(PenNow()).Outside()
      ensures processEntities == old(processEntities)
    {
      depth := depth - 1;
      var name := stack[|stack| - 1];
      stack := stack[..|stack| - 1];
      if elementJustOpened {
        Write("/>");
      } else {
        WriteEndTag(name, compact);
      }
      if textDepth == depth {
        textDepth := -1;
      }
      if depth == 0 && !compact {
        Write("\n");
      }
      elementJustOpened := false;
    }

    method WriteEndTag(name: string, compact: bool)
      modifies this`buffer
      ensures buffer == old(buffer) +
                ((if textDepth < 0 && !compact then "\n" + Spaces(depth) else "") + ("</" + name + ">"))
    {
      hide Spaces;
      if textDepth < 0 && !compact {
        Write("\n");
        PrintSpace(depth);
      }
      Write("</");
      Write(name);
      Write(">");
    }

    method PushText(text: string, cdata: bool)
      modifies this
      ensures processEntities ==> buffer == old(buffer) + old(Pending()) + Printed(Text(text, cdata), old(PenNow()))
      ensures !elementJustOpened && stack == old(stack) && processEntities == old(processEntities)
      ensures PenNow() == After(Text(text, cdata), old(PenNow()))
    {
      hide Escape;
      textDepth := depth - 1;
      SealElementIfJustOpened();
      if cdata {
        WriteRaw("<![CDATA[", text, "]]>");
      } else {
        PrintString(text, true);
      }
    }

    method WriteRaw(head: string, value: string, end: string)
      modifies this`buffer
      ensures buffer == old(buffer) + (head + (value + (end + "")))
    {
      Write(head);
      Write(value);
      Write(end);
    }

    /** `PushComment`, `PushDeclaration` and `PushUnknown` differ in the strings around the value only. */
    method PushRaw(head: string, value: string, end: string)
      modifies this
      ensures buffer == old(buffer) + old(Pending()) + old(PenNow()).Gap(Comment("")) + (head + (value + (end + "")))
      ensures !elementJustOpened && stack == old(stack) && processEntities == old(processEntities)
      ensures PenNow() == old(PenNow()).(first := false)
    {
      SealElementIfJustOpened();
      if textDepth < 0 && !firstElement && !compactMode {
        Write("\n");
        PrintSpace(depth);
      }
      firstElement := false;
      WriteRaw(head, value, end);
    }

    /** `Accept`: an element is entered, its children are visited in order, and it is left. */
    method Accept(n: Node)
      modifies this
      ensures processEntities ==> buffer == old(buffer) + old(Pending()) + Printed(n, old(PenNow()))
      ensures !elementJustOpened && stack == old(stack) && processEntities == old(processEntities)
      ensures PenNow() == After(n, old(PenNow()))
      decreases n, 2
    {
      hide PrintNodes, AfterAll, Escape;
      if !n.Element? && !n.Text? {
        RawPrinted(buffer + Pending(), n, PenNow());
      }
      match n
      case Element(name, attributes, children) =>
        VisitElement(n);
      case Text(value, cdata) =>
        PushText(value, cdata);
      case Comment(value) =>
        PushRaw("<!--", value, "-->");
      case Declaration(value) =>
        PushRaw("<?", value, "?>");
      case Unknown(value) =>
        PushRaw("<!", value, ">");
    }

    method VisitElement(n: Node)
      requires n.Element?
      modifies this
      ensures processEntities ==> buffer == old(buffer) + old(Pending()) + Printed(n, old(PenNow()))
      ensures !elementJustOpened && stack == old(stack) && processEntities == old(processEntities)
      ensures PenNow() == After(n, old(PenNow()))
      decreases n, 1
    {
      hide PrintBare, PrintNodes, PrintAttributes, ChildrenSoFar, Printed, AfterAll;
      ghost var base, pen := buffer + Pending(), PenNow();
      OpenElement(n.name, compactMode);
      GapOfElement(base, n, pen);
      PushAttributes(n.attributes);
      VisitChildren(n.children);
      CloseElement(compactMode);
      ElementWritten(base, n, pen);
    }

    /** The children of an element whose tag is still open. */
    method VisitChildren(children: seq<Node>)
      requires elementJustOpened
      modifies this
      ensures processEntities ==> buffer == old(buffer) + ChildrenSoFar(children, old(PenNow()), |children|)
      ensures elementJustOpened <==> children == []
      ensures stack == old(stack) && processEntities == old(processEntities)
      ensures PenNow() == AfterAll(children, old(PenNow()))
      decreases children, 0
    {
      hide PrintBare, PrintNodes, ChildrenSoFar, After, AfterAll, Printed;
      ghost var pen := PenNow();
      AllChildren(children, pen);
      var i := 0;
      while i < |children|
        invariant 0 <= i <= |children|
        invariant elementJustOpened <==> i == 0
        invariant processEntities ==> buffer == old(buffer) + ChildrenSoFar(children, pen, i)
        invariant PenNow() == AfterAll(children[..i], pen)
        invariant stack == old(stack) && processEntities == old(processEntities)
      {
        Accept(children[i]);
        OneMoreChild(children, pen, i);
        i := i + 1;
      }
    }

    method PushAttributes(attributes: seq<Attribute>)
      modifies this`buffer
      ensures processEntities ==> buffer == old(buffer) + PrintAttributes(attributes, "")
    {
      hide PrintAttributes;
      var i := 0;
      AttributesSnoc([], attributes, 0);
      while i < |attributes|
        invariant 0 <= i <= |attributes|
        invariant processEntities ==> buffer == old(buffer) + PrintAttributes(attributes[..i], "")
      {
        PushAttribute(attributes[i]);
        AttributesSnoc(attributes[..i], attributes, i);
        i := i + 1;
      }
      assert attributes[..i] == attributes;
    }

    /** `XMLDocument::Print`. */
    method PrintDocument(hasBom: bool, nodes: seq<Node>)
      requires buffer == "" && !elementJustOpened
      modifies this
      ensures processEntities ==> buffer == Print(hasBom, nodes, old(PenNow()))
    {
      hide PrintNodes, AfterAll, After, Printed;
      ghost var pen := PenNow();
      if hasBom {
        Write(BOM);
      }
      ghost var bom := if hasBom then BOM else "";
      var i := 0;
      NoNodes(nodes, pen);
      while i < |nodes|
        invariant 0 <= i <= |nodes| && !elementJustOpened && processEntities == old(processEntities)
        invariant processEntities ==> buffer == bom + PrintNodes(nodes[..i], pen, "")
        invariant PenNow() == AfterAll(nodes[..i], pen)
      {
        Accept(nodes[i]);
        NodesSnoc(nodes[..i], nodes[i], pen);
        assert nodes[..i + 1] == nodes[..i] + [nodes[i]];
        i := i + 1;
      }
      assert nodes[..i] == nodes;
    }
  }

  lemma GapOfElement(base: string, n: Node, pen: Pen)
    requires n.Element?
    ensures pen.(compact := pen.compact) == pen
    ensures base + pen.NewLine() + (if pen.compact then "" else Spaces(pen.depth)) == base + pen.Gap(n)
  {
  }

  /** The raw kinds, as they are written piece by piece. */
  lemma RawPrinted(base: string, n: Node, pen: Pen)
    requires !n.Element? && !n.Text?
    ensures pen.Gap(n) == pen.Gap(Comment("")) && base + pen.Gap(n) + PrintBare(n, pen, "") == base + Printed(n, pen)
  {
  }

  /** The next character of a run either is appended to it, or ends it with the character's entity. */
  lemma RunStep(s: string, p: nat, q: nat, buffer: string, before: string, restricted: bool)
    requires p <= q < |s|
    requires buffer + s[p..q] == before + Escape(s[..q], restricted)
    ensures IsEscaped(s[q], restricted) ==>
              buffer + s[p..q] + ("&" + Pattern(s[q]) + ";") == before + Escape(s[..q + 1], restricted)
    ensures !IsEscaped(s[q], restricted) ==> buffer + s[p..q + 1] == before + Escape(s[..q + 1], restricted)
  {
    hide Escape, Pattern;
    var done, e := Escape(s[..q], restricted), Escape([s[q]], restricted);
    assert s[..q + 1] == s[..q] + [s[q]];
    EscapeConcat(s[..q], [s[q]], restricted);
    EscapeOne(s[q], restricted);
    assert before + done + e == before + (done + e);
    assert buffer + s[p..q + 1] == buffer + s[p..q] + [s[q]];
  }

  lemma NothingEscaped(restricted: bool)
    ensures Escape("", restricted) == ""
  {
  }

  lemma EscapeOne(c: char, restricted: bool)
    ensures Escape([c], restricted) == if IsEscaped(c, restricted) then "&" + Pattern(c) + ";" else [c]
  {
    assert Escape([c], restricted) == EscapeChar(c, restricted) + Escape([c][1..], restricted);
  }

  lemma NoNodes(nodes: seq<Node>, pen: Pen)
    ensures PrintNodes(nodes[..0], pen, "") == "" && AfterAll(nodes[..0], pen) == pen
  {
  }

  lemma {:induction false} AttributesSnoc(before: seq<Attribute>, all: seq<Attribute>, i: nat)
    requires i <= |all| && before == all[..i]
    ensures i < |all| ==>
                PrintAttributes(all[..i + 1], "") == PrintAttributes(before, "") + PrintAttributes([all[i]], "")
    ensures i == 0 ==> PrintAttributes(before, "") == ""
  {
    if i < |all| {
      assert all[..i + 1] == before + [all[i]];
      AttributesConcat(before, [all[i]]);
    }
  }

  lemma AttributesConcat(a: seq<Attribute>, b: seq<Attribute>)
    ensures PrintAttributes(a + b, "") == PrintAttributes(a, "") + PrintAttributes(b, "")
  {
    hide PrintAttributes;
    AttributesChain(a, b);
    assert PrintAttributes(b, "") == "" + PrintAttributes(b, "");
    AttributesAppend(a, "", PrintAttributes(b, ""));
  }

  lemma {:induction false} AttributesChain(a: seq<Attribute>, b: seq<Attribute>)
    ensures PrintAttributes(a + b, "") == PrintAttributes(a, PrintAttributes(b, ""))
  {
    hide Escape;
    if a == [] {
      assert a + b == b;
    } else {
      AttributesChain(a[1..], b);
      assert (a + b)[1..] == a[1..] + b;
    }
  }
}
