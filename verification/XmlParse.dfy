/** The recursive parser of tinyxml2, as functions of the text that is still to be read. Every parsed string
    appears with the value that its reader gets (`XmlStrPair.Shown`). */
module XmlParse {
  import opened Optional
  import opened XmlText
  import opened XmlStrPair

  // ----- The tree --------------------------------------------------------------

  datatype Attribute = Attribute(name: string, value: string)

  datatype Node =
    | Element(name: string, attributes: seq<Attribute>, children: seq<Node>)
    | Text(value: string, cdata: bool)
    | Comment(value: string)
    | Declaration(value: string)
    | Unknown(value: string)

  datatype Error =
    | Success
    | ParsingElement | ParsingAttribute | ParsingText | ParsingCData | ParsingComment
    | ParsingDeclaration | ParsingUnknown | EmptyDocument | MismatchedElement | Parsing | DepthExceeded

  datatype Closing = Open | Closed | Closing

  /** The options of a document: entity processing, and the white space mode. */
  datatype Options = Options(processEntities: bool, collapseWhitespace: bool) {
    function TextFlags(): Flags { Flags(processEntities, true, collapseWhitespace) }
    function AttributeFlags(): Flags { Flags(processEntities, true, false) }
  }

  const MAX_ELEMENT_DEPTH: nat := 100
  const RAW: Flags := Flags(false, true, false)

  // ----- Pieces of text ----------------------------------------------------------

  datatype Cut = Cut(text: string, rest: string)

  /** The first position from `i` on where `tag` occurs, or the length when there is none. */
  function FindTag(t: string, tag: string, i: nat): (r: nat)
    requires i <= |t| && tag != ""
    ensures i <= r <= |t|
    ensures r < |t| ==> tag <= t[r..]
    ensures forall k :: i <= k < r ==> !(tag <= t[k..])
    decreases |t| - i
  {
    if i == |t| || tag <= t[i..] then i else FindTag(t, tag, i + 1)
  }

  /** `StrPair::ParseText`: the text before the end tag, and what follows the tag. */
  function ParseText(t: string, tag: string): (r: Option<Cut>)
    requires tag != ""
    ensures r.Some? ==> |r.value.rest| < |t| && |r.value.text| < |t|
  {
    var i := FindTag(t, tag, 0);
    if i == |t| then None else Some(Cut(t[..i], t[i + |tag|..]))
  }

  function NameEnd(t: string, i: nat): (r: nat)
    requires i <= |t|
    ensures i <= r <= |t|
    ensures forall k :: i <= k < r ==> IsNameChar(t[k])
    ensures r < |t| ==> !IsNameChar(t[r])
    decreases |t| - i
  {
    if i < |t| && IsNameChar(t[i]) then NameEnd(t, i + 1) else i
  }

  function ParseName(t: string): (r: Option<Cut>)
    ensures r.Some? ==> |r.value.rest| < |t|
  {
    if t == "" || !IsNameStartChar(t[0]) then None
    else
      var i := NameEnd(t, 1);
      Some(Cut(t[..i], t[i..]))
  }

  function Skip(t: string): (r: string)
    ensures |r| <= |t|
    ensures r != "" ==> !IsWhiteSpace(r[0])
  {
    t[SkipWhiteSpace(t, 0)..]
  }

  // ----- Attributes --------------------------------------------------------------

  datatype AttributeCut = AttributeCut(attribute: Attribute, rest: string)

  function ParseAttribute(t: string, options: Options): (r: Option<AttributeCut>)
    ensures r.Some? ==> |r.value.rest| < |t|
  {
    var name := ParseName(t);
    if name.None? || name.value.rest == "" then None
    else
      var t1 := Skip(name.value.rest);
      if t1 == "" || t1[0] != '=' then None
      else
        var t2 := Skip(t1[1..]);
        if t2 == "" || (t2[0] != '\"' && t2[0] != '\'') then None
        else
          var value := ParseText(t2[1..], [t2[0]]);
          if value.None? then None
          else Some(AttributeCut(Attribute(name.value.text, Shown(value.value.text, options.AttributeFlags())),
                                 value.value.rest))
  }

  predicate HasAttribute(attributes: seq<Attribute>, name: string) {
    exists i :: 0 <= i < |attributes| && attributes[i].name == name
  }

  datatype AttributesResult =
    AttributesResult(rest: Option<string>, attributes: seq<Attribute>, closing: Closing, error: Error)

  function ParseAttributes(t: string, attributes: seq<Attribute>, closing: Closing, options: Options)
    : (r: AttributesResult)
    ensures r.rest.Some? ==> |r.rest.value| < |t| && r.error == Success
    decreases |t|
  {
    var t := Skip(t);
    if t == "" then AttributesResult(None, attributes, closing, ParsingElement)
    else if IsNameStartChar(t[0]) then
      var a := ParseAttribute(t, options);
      if a.None? || HasAttribute(attributes, a.value.attribute.name) then
        AttributesResult(None, attributes, closing, ParsingAttribute)
      else ParseAttributes(a.value.rest, attributes + [a.value.attribute], closing, options)
    else if t[0] == '>' then AttributesResult(Some(t[1..]), attributes, closing, Success)
    else if "/>" <= t then AttributesResult(Some(t[2..]), attributes, Closed, Success)
    else AttributesResult(None, attributes, closing, ParsingElement)
  }

  // ----- Nodes -------------------------------------------------------------------

  /** What `Identify` recognises, with the text behind the header. */
  datatype Header = NoNode | Header(node: Node, rest: string)

  function Identify(t: string): (r: Header)
    ensures r.Header? ==> |r.rest| <= |t| && (!r.node.Text? || r.node.cdata ==> |r.rest| < |t|)
    ensures r.Header? && r.node.Text? && !r.node.cdata ==> r.rest == t && Skip(t) != "" && Skip(t)[0] != '<'
  {
    var t' := Skip(t);
    if t' == "" then NoNode
    else if "<?" <= t' then Header(Declaration(""), t'[2..])
    else if "<!--" <= t' then Header(Comment(""), t'[4..])
    else if "<![CDATA[" <= t' then Header(Text("", true), t'[9..])
    else if "<!" <= t' then Header(Unknown(""), t'[2..])
    else if "<" <= t' then Header(Element("", [], []), t'[1..])
    else Header(Text("", false), t)
  }

  datatype NodeResult =
    NodeResult(rest: Option<string>, node: Node, closing: Closing, endTag: Option<string>, error: Error)

  datatype ChildrenResult =
    ChildrenResult(rest: Option<string>, children: seq<Node>, endTag: Option<string>, error: Error)

  function Failed(node: Node, error: Error): NodeResult {
    NodeResult(None, node, Open, None, error)
  }

  function Leaf(rest: string, node: Node): NodeResult {
    NodeResult(Some(rest), node, Open, None, Success)
  }

  /** `XMLText::ParseDeep` for text that is not in a CDATA section: it ends before the next `<`, which must not
      be the last character. */
  function ParseTextNode(t: string, options: Options): (r: NodeResult)
    ensures r.rest.Some? ==> r.error == Success
    ensures r.rest.Some? && t != "" && t[0] != '<' ==> |r.rest.value| < |t|
  {
    var cut := ParseText(t, "<");
    if cut.None? then Failed(Text("", false), ParsingText)
    else if cut.value.rest == "" then Failed(Text("", false), Success)
    else Leaf(t[|cut.value.text|..], Text(Shown(cut.value.text, options.TextFlags()), false))
  }

  /** `ParseDeep` of the node that `Identify` made. */
  function ParseNode(h: Header, options: Options, depth: nat): (r: NodeResult)
    requires h.Header?
    ensures r.rest.Some? && (h.node.Text? && !h.node.cdata ==> Skip(h.rest) != "" && Skip(h.rest)[0] != '<') ==>
              |r.rest.value| < |h.rest| || (h.node.Element? && |r.rest.value| <= |h.rest|)
    ensures r.rest.Some? ==> r.error == Success
    decreases |h.rest|, 1
  {
    match h.node
    case Declaration(_) =>
      var cut := ParseText(h.rest, "?>");
      if cut.None? then Failed(h.node, ParsingDeclaration)
      else Leaf(cut.value.rest, Declaration(Shown(cut.value.text, RAW)))
    case Comment(_) =>
      var cut := ParseText(h.rest, "-->");
      if cut.None? then Failed(h.node, ParsingComment) else Leaf(cut.value.rest, Comment(Shown(cut.value.text, RAW)))
    case Unknown(_) =>
      var cut := ParseText(h.rest, ">");
      if cut.None? then Failed(h.node, ParsingUnknown) else Leaf(cut.value.rest, Unknown(Shown(cut.value.text, RAW)))
    case Text(_, cdata) =>
      if cdata then
        var cut := ParseText(h.rest, "]]>");
        if cut.None? then Failed(h.node, ParsingCData)
        else Leaf(cut.value.rest, Text(Shown(cut.value.text, RAW), true))
      else ParseTextNode(h.rest, options)
    case Element(_, _, _) => ParseElement(h.rest, options, depth)
  }

  /** `XMLElement::ParseDeep`, behind the opening `<`. */
  function ParseElement(t: string, options: Options, depth: nat): (r: NodeResult)
    ensures r.node.Element?
    ensures r.rest.Some? ==> |r.rest.value| < |t| && r.error == Success
    decreases |t|, 0
  {
    var t1 := Skip(t);
    var closing := t1 != "" && t1[0] == '/';
    var name := ParseName(if closing then t1[1..] else t1);
    if name.None? then Failed(Element("", [], []), Success)
    else
      var a := ParseAttributes(name.value.rest, [], if closing then Closing else Open, options);
      var e := Element(name.value.text, a.attributes, []);
      if a.rest.None? || a.rest.value == "" || a.closing != Open then NodeResult(a.rest, e, a.closing, None, a.error)
      else
        var k := ParseChildren(a.rest.value, options, false, depth);
        NodeResult(k.rest, e.(children := k.children), Open, k.endTag, k.error)
  }

  /** `XMLNode::ParseDeep`: one more level of depth, then the loop over the children. */
  function ParseChildren(t: string, options: Options, atTop: bool, depth: nat): (r: ChildrenResult)
    ensures r.rest.Some? ==> |r.rest.value| <= |t| && r.error == Success
    decreases |t|, 3
  {
    if depth + 1 == MAX_ELEMENT_DEPTH then ChildrenResult(None, [], None, DepthExceeded)
    else ChildLoop(t, options, atTop, depth + 1, [])
  }

  /** Whether a declaration may follow these children of the document. */
  predicate WellLocated(atTop: bool, children: seq<Node>) {
    atTop && (children != [] ==> children[0].Declaration? && children[|children| - 1].Declaration?)
  }

  /** Whether an element's tag and the end tag that was read below it do not fit. */
  predicate Mismatch(r: NodeResult)
    requires r.node.Element?
  {
    match r.endTag
    case None => r.closing == Open
    case Some(endTag) => r.closing != Open || endTag != r.node.name
  }

  function ChildLoop(t: string, options: Options, atTop: bool, depth: nat, children: seq<Node>)
    : (r: ChildrenResult)
    ensures r.rest.Some? ==> |r.rest.value| <= |t| && r.error == Success
    decreases |t|, 2
  {
    var h := Identify(t);
    if h.NoNode? then ChildrenResult(None, children, None, Success)
    else
      var r := ParseNode(h, options, depth);
      if r.rest.None? then
        ChildrenResult(None, children, None, if r.error == Success then Parsing else r.error)
      else if r.node.Declaration? && !WellLocated(atTop, children) then
        ChildrenResult(None, children, None, ParsingDeclaration)
      else if r.node.Element? && r.closing == Closing then
        ChildrenResult(r.rest, children, if atTop then None else Some(r.node.name), Success)
      else if r.node.Element? && Mismatch(r) then
        ChildrenResult(None, children, None, MismatchedElement)
      else if r.rest.value == "" then ChildrenResult(None, children + [r.node], None, Success)
      else ChildLoop(r.rest.value, options, atTop, depth, children + [r.node])
  }

  // ----- Documents ---------------------------------------------------------------

  const BOM: string := ['\U{EF}', '\U{BB}', '\U{BF}']

  datatype Document = Invalid(error: Error) | Document(hasBom: bool, children: seq<Node>)

  /** `XMLDocument::Parse` on a text, which ends at its first NUL; a failed parse leaves no children. */
  function Parse(text: string, options: Options): Document {
    var t := Skip(CString(text));
    var hasBom := BOM <= t;
    var t' := if hasBom then t[3..] else t;
    if t' == "" then Invalid(EmptyDocument)
    else
      var r := ParseChildren(t', options, true, 0);
      if r.error != Success then Invalid(r.error) else Document(hasBom, r.children)
  }
}
