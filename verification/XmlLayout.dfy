/** What the printer of tinyxml2 writes, with the white space that it adds outside compact mode. */
module XmlLayout {
  import opened XmlText
  import opened XmlStrPair
  import opened XmlParse

  /** Four blanks for each level. */
  function Spaces(n: int): string {
    if n <= 0 then "" else Spaces(n - 1) + "    "
  }

  /** The variables of the printer that decide about white space. `textDepth` is the depth of the element whose
      text was written last, or negative outside text. */
  datatype Pen = Pen(compact: bool, depth: int, textDepth: int, first: bool) {
    function NewLine(): string {
      if textDepth < 0 && !first && !compact then "\n" else ""
    }

    /** What is written in front of a node. An element is indented even inside text. */
    function Gap(n: Node): string {
      match n
      case Element(_, _, _) => NewLine() + if compact then "" else Spaces(depth)
      case Text(_, _) => ""
      case _ => if NewLine() == "" then "" else NewLine() + Spaces(depth)
    }

    /** Below an element's tag. */
    function Inside(): Pen {
      this.(depth := depth + 1, first := false)
    }

    /** What is written in front of an element's end tag, behind its children. */
    function EndGap(): string {
      if textDepth < 0 && !compact then "\n" + Spaces(depth - 1) else ""
    }

    /** Behind an element, from behind its children. */
    function Outside(): Pen {
      this.(depth := depth - 1, textDepth := if textDepth == depth - 1 then -1 else textDepth)
    }

    /** What is written behind a node. */
    function Behind(n: Node): string {
      if n.Element? && depth == 0 && !compact then "\n" else ""
    }
  }

  function After(n: Node, pen: Pen): (r: Pen)
    ensures r.depth == pen.depth && r.compact == pen.compact
    decreases n, 0
  {
    match n
    case Element(_, _, children) => AfterAll(children, pen.Inside()).Outside()
    case Text(_, _) => pen.(textDepth := pen.depth - 1)
    case _ => pen.(first := false)
  }

  function AfterAll(nodes: seq<Node>, pen: Pen): (r: Pen)
    ensures r.depth == pen.depth && r.compact == pen.compact
    decreases nodes, 1
  {
    if nodes == [] then pen else AfterAll(nodes[1..], After(nodes[0], pen))
  }

  // Each of these gives the printed form followed by `rest`, the text that is written behind it.

  function PrintAttributes(attributes: seq<Attribute>, rest: string): string {
    if attributes == [] then rest
    else
      var a := attributes[0];
      " " + (a.name + ("=\"" + (Escape(a.value, false) + ("\"" + PrintAttributes(attributes[1..], rest)))))
  }

  function EndTag(name: string, rest: string): string {
    "</" + (name + (">" + rest))
  }

  /** A node without the white space in front of it. */
  function PrintBare(n: Node, pen: Pen, rest: string): string
    decreases n, 0
  {
    match n
    case Element(name, attributes, children) =>
      "<" + (name + PrintAttributes(attributes,
        if children == [] then "/>" + (pen.Behind(n) + rest)
        else ">" + PrintNodes(children, pen.Inside(),
                              AfterAll(children, pen.Inside()).EndGap() + EndTag(name, pen.Behind(n) + rest))))
    case Text(value, cdata) =>
      if cdata then "<![CDATA[" + (value + ("]]>" + rest)) else Escape(value, true) + rest
    case Comment(value) => "<!--" + (value + ("-->" + rest))
    case Declaration(value) => "<?" + (value + ("?>" + rest))
    case Unknown(value) => "<!" + (value + (">" + rest))
  }

  function PrintNodes(nodes: seq<Node>, pen: Pen, rest: string): string
    decreases nodes, 1
  {
    if nodes == [] then rest
    else pen.Gap(nodes[0]) + PrintBare(nodes[0], pen, PrintNodes(nodes[1..], After(nodes[0], pen), rest))
  }

  /** A new printer, whose elements are indented by `depth` levels. */
  function NewPen(compact: bool, depth: int): Pen {
    Pen(compact, depth, -1, true)
  }

  function Print(hasBom: bool, nodes: seq<Node>, pen: Pen): string {
    (if hasBom then BOM else "") + PrintNodes(nodes, pen, "")
  }

  // ----- What the white space does to a tree -----------------------------------------

  predicate PlainText(n: Node) {
    n.Text? && !n.cdata
  }

  predicate Blank(w: string) {
    forall i :: 0 <= i < |w| ==> IsWhiteSpace(w[i])
  }

  /** A text that the reader takes for the white space in front of a tag. */
  predicate BlankText(n: Node) {
    PlainText(n) && Blank(n.value)
  }

  function ReturnedAttributes(attributes: seq<Attribute>): (r: seq<Attribute>)
    ensures |r| == |attributes|
  {
    seq(|attributes|, i requires 0 <= i < |attributes| =>
          Attribute(attributes[i].name, Newlines(attributes[i].value)))
  }

  function ReturnedText(value: string, gap: string, collapse: bool): string {
    if collapse then Collapse(Newlines(value + gap)) else Newlines(value + gap)
  }

  /** What comes back of a node when it is read again in front of `next`: line ends are normalised, and a text
      takes the indentation of an element behind it, and is collapsed when the reader collapses white space. */
  function Returned(n: Node, next: seq<Node>, compact: bool, collapse: bool, depth: int): (r: Node)
    ensures r.Element? == n.Element? && r.Declaration? == n.Declaration? && (n.Element? ==> r.name == n.name)
    decreases n, 0
  {
    match n
    case Element(name, attributes, children) =>
      Element(name, ReturnedAttributes(attributes), ReturnedAll(children, compact, collapse, depth + 1))
    case Text(value, cdata) =>
      if cdata then n
      else
        var gap := if next != [] && next[0].Element? && !compact then Spaces(depth) else "";
        Text(ReturnedText(value, gap, collapse), false)
    case _ => n
  }

  function ReturnedAll(nodes: seq<Node>, compact: bool, collapse: bool, depth: int): (r: seq<Node>)
    ensures |r| <= |nodes|
    decreases nodes, 1
  {
    if nodes == [] then []
    else
      (if BlankText(nodes[0]) then [] else [Returned(nodes[0], nodes[1..], compact, collapse, depth)]) +
      ReturnedAll(nodes[1..], compact, collapse, depth)
  }

  /** No text or attribute value has a carriage return, and no text is blank, at any level. */
  predicate Clean(nodes: seq<Node>)
    decreases nodes
  {
    nodes != [] ==>
      && (nodes[0].Element? ==> CleanAttributes(nodes[0].attributes) && Clean(nodes[0].children))
      && (PlainText(nodes[0]) ==> CR !in nodes[0].value && !Blank(nodes[0].value))
      && Clean(nodes[1..])
  }

  predicate CleanAttributes(attributes: seq<Attribute>) {
    forall i :: 0 <= i < |attributes| ==> CR !in attributes[i].value
  }

  /** No text is directly followed by an element, at any level. */
  predicate Unmixed(nodes: seq<Node>)
    decreases nodes
  {
    nodes != [] ==>
      && (nodes[0].Element? ==> Unmixed(nodes[0].children))
      && !(PlainText(nodes[0]) && |nodes| > 1 && nodes[1].Element?)
      && Unmixed(nodes[1..])
  }

  /** Every text that is not in a CDATA section is collapsed, at any level. */
  predicate AllCollapsed(nodes: seq<Node>)
    decreases nodes
  {
    nodes != [] ==>
      && (nodes[0].Element? ==> AllCollapsed(nodes[0].children))
      && (PlainText(nodes[0]) ==> Collapsed(nodes[0].value))
      && AllCollapsed(nodes[1..])
  }

  /** What white space asks of a tree: a reader that collapses needs its texts collapsed, and then takes off what
      indentation added; any other needs it unmixed if it is indented. */
  predicate Suits(nodes: seq<Node>, compact: bool, collapse: bool) {
    if collapse then AllCollapsed(nodes) else compact || Unmixed(nodes)
  }

  lemma FrontAndRest(r: seq<Node>, nodes: seq<Node>)
    requires |r| == |nodes| > 0
    ensures r == nodes <==> r[0] == nodes[0] && r[1..] == nodes[1..]
  {
    assert [r[0]] + r[1..] == r && [nodes[0]] + nodes[1..] == nodes;
  }

  lemma AttributesComeBack(attributes: seq<Attribute>)
    ensures ReturnedAttributes(attributes) == attributes <==> CleanAttributes(attributes)
  {
    hide Newlines;
    forall i | 0 <= i < |attributes|
      ensures ReturnedAttributes(attributes)[i] == attributes[i] <==> CR !in attributes[i].value
    {
      NewlinesIsIdentityIff(attributes[i].value);
    }
  }

  lemma LineEndBehind(s: string, w: string)
    requires s != "" && forall i :: 0 <= i < |w| ==> w[i] == ' '
    ensures LineEnd(s + w) == LineEnd(s)
  {
  }

  lemma {:induction false} NewlinesBehind(s: string, w: string)
    requires forall i :: 0 <= i < |w| ==> w[i] == ' '
    ensures Newlines(s + w) == Newlines(s) + w
    decreases |s|
  {
    hide Newlines, LineEnd;
    if s == "" {
      NewlinesIsIdentityIff("");
      NewlinesIsIdentityIff(w);
      assert s + w == w && "" + w == w;
    } else {
      var n := if LineEnd(s) > 0 then LineEnd(s) else 1;
      NewlinesStep(s);
      NewlinesStep(s + w);
      LineEndBehind(s, w);
      NewlinesBehind(s[n..], w);
      assert (s + w)[n..] == s[n..] + w && (s + w)[0] == s[0];
    }
  }

  /** A text comes back exactly without carriage returns, and collapsed or without a gap behind it. */
  lemma TextComesBack(value: string, gap: string, collapse: bool)
    requires forall i :: 0 <= i < |gap| ==> gap[i] == ' '
    ensures ReturnedText(value, gap, collapse) == value
            <==> CR !in value && if collapse then Collapsed(value) else gap == ""
  {
    hide Newlines, Collapse;
    NewlinesBehind(value, gap);
    NewlinesIsIdentityIff(value);
    if collapse {
      CollapseBehind(Newlines(value), gap);
      CollapseShape(Newlines(value));
      CollapseIsIdentityIff(value);
    } else {
      assert CR !in gap;
    }
  }

  /** Inside elements the tree comes back exactly if it is clean and its white space fits the printer and the
      reader. */
  lemma {:induction false} ReturnedIsSame(nodes: seq<Node>, compact: bool, collapse: bool, depth: int)
    requires depth >= 1 || (depth >= 0 && forall i :: 0 <= i < |nodes| ==> !PlainText(nodes[i]))
    ensures ReturnedAll(nodes, compact, collapse, depth) == nodes
            <==> Clean(nodes) && Suits(nodes, compact, collapse)
    decreases nodes
  {
    hide Returned, ReturnedText;
    if nodes != [] {
      var n, r := nodes[0], ReturnedAll(nodes, compact, collapse, depth);
      if !BlankText(n) && |r| == |nodes| {
        assert r[0] == Returned(n, nodes[1..], compact, collapse, depth);
        assert r[1..] == ReturnedAll(nodes[1..], compact, collapse, depth);
        FrontAndRest(r, nodes);
      }
      ReturnedIsSame(nodes[1..], compact, collapse, depth);
      if n.Element? {
        ReturnedIsSame(n.children, compact, collapse, depth + 1);
      }
      NodeComesBack(n, nodes[1..], compact, collapse, depth);
    }
  }

  lemma NodeComesBack(n: Node, next: seq<Node>, compact: bool, collapse: bool, depth: int)
    requires PlainText(n) ==> depth >= 1
    ensures Returned(n, next, compact, collapse, depth) == n <==>
              if n.Element? then CleanAttributes(n.attributes) &&
                                 ReturnedAll(n.children, compact, collapse, depth + 1) == n.children
              else PlainText(n) ==>
                     && CR !in n.value
                     && if collapse then Collapsed(n.value) else compact || next == [] || !next[0].Element?
  {
    hide ReturnedAttributes, ReturnedAll, CleanAttributes, ReturnedText;
    if n.Element? {
      AttributesComeBack(n.attributes);
    } else if PlainText(n) {
      SpacesAreBlank(depth);
      assert |Spaces(depth)| > 0;
      TextComesBack(n.value, if next != [] && next[0].Element? && !compact then Spaces(depth) else "", collapse);
    }
  }

  lemma {:induction false} SpacesAreBlank(n: int)
    ensures Blank(Spaces(n)) && forall i :: 0 <= i < |Spaces(n)| ==> Spaces(n)[i] == ' '
  {
    if n > 0 {
      SpacesAreBlank(n - 1);
    }
  }

  lemma SkipBehind(s: string, w: string, p: nat)
    requires Blank(w) && p <= |s|
    ensures SkipWhiteSpace(s + w, p) == if SkipWhiteSpace(s, p) == |s| then |s + w| else SkipWhiteSpace(s, p)
  {
    var t, r, q := s + w, SkipWhiteSpace(s, p), SkipWhiteSpace(s + w, p);
    assert forall i :: 0 <= i < |s| ==> t[i] == s[i];
    assert forall i :: |s| <= i < |t| ==> t[i] == w[i - |s|];
  }

  /** White space at the end is collapsed to nothing. */
  lemma {:induction false} CollapseFromBehind(s: string, w: string, p: nat, out: string)
    requires Blank(w) && |out| <= p <= |s|
    ensures CollapseFrom(s + w, p, out) == CollapseFrom(s, p, out)
    decreases |s| - p
  {
    hide SkipWhiteSpace;
    SkipBehind(s, w, p);
    var r := SkipWhiteSpace(s, p);
    if r < |s| {
      assert (s + w)[r] == s[r] && (s + w)[p] == s[p];
      CollapseFromBehind(s, w, r + 1, out + if r == p then [s[p]] else [' ', s[r]]);
    }
  }

  lemma CollapseBehind(s: string, w: string)
    requires Blank(w)
    ensures Collapse(s + w) == Collapse(s)
  {
    hide SkipWhiteSpace, CollapseFrom;
    SkipBehind(s, w, 0);
    var r := SkipWhiteSpace(s, 0);
    if r == |s| {
      assert (s + w)[|s + w|..] == "" == s[r..];
    } else {
      assert (s + w)[r..] == s[r..] + w;
      CollapseFromBehind(s[r..], w, 0, "");
    }
  }
}
