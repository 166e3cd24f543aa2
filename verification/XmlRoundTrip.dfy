/** Parsing what the printer wrote rebuilds the tree, up to line ends, blank texts and the white space that the printer
    adds to texts. */
module XmlRoundTrip {
  import opened Optional
  import opened XmlText
  import opened XmlStrPair
  import opened XmlParse
  import opened XmlLayout

  // ----- The trees that survive ----------------------------------------------------

  predicate GoodName(s: string) {
    s != "" && IsNameStartChar(s[0]) && forall i :: 0 <= i < |s| ==> IsNameChar(s[i])
  }

  predicate Contains(s: string, tag: string) {
    exists i :: 0 <= i <= |s| && tag <= s[i..]
  }

  predicate GoodAttributes(attributes: seq<Attribute>) {
    && (forall i :: 0 <= i < |attributes| ==> GoodName(attributes[i].name) && NUL !in attributes[i].value)
    && (forall i, j :: 0 <= i < j < |attributes| ==> attributes[i].name != attributes[j].name)
  }

  /** A node as the parser makes it: good names, distinct attribute names, no NUL, and in the raw kinds no carriage
      return and no end tag. */
  predicate GoodNode(n: Node, atTop: bool)
    decreases n, 0
  {
    match n
    case Element(name, attributes, children) =>
      GoodName(name) && GoodAttributes(attributes) && GoodNodes(children, false) && NoTextPairs(children)
    case Text(value, cdata) => if cdata then Plain(value) && !Contains(value, "]]>") else !atTop && NUL !in value
    case Comment(value) => Plain(value) && !Contains(value, "-->")
    case Declaration(value) => atTop && Plain(value) && !Contains(value, "?>")
    case Unknown(value) =>
      Plain(value) && !Contains(value, ">") && !("--" <= value) && !("[CDATA[" <= value)
  }

  predicate GoodNodes(nodes: seq<Node>, atTop: bool)
    decreases nodes, 1
  {
    nodes != [] ==> GoodNode(nodes[0], atTop) && GoodNodes(nodes[1..], atTop)
  }

  /** Two texts side by side would be read as one. */
  predicate NoTextPairs(nodes: seq<Node>) {
    forall i :: 0 <= i < |nodes| - 1 ==> !(PlainText(nodes[i]) && PlainText(nodes[i + 1]))
  }

  /** Declarations come before everything else. */
  predicate DeclarationsFirst(nodes: seq<Node>) {
    forall i, j :: 0 <= i < j < |nodes| && nodes[j].Declaration? ==> nodes[i].Declaration?
  }

  predicate GoodDocument(nodes: seq<Node>) {
    nodes != [] && GoodNodes(nodes, true) && DeclarationsFirst(nodes)
  }

  /** How many elements with children are nested in one another. */
  function Nesting(n: Node): nat
    decreases n, 0
  {
    if n.Element? && n.children != [] then 1 + NestingOfAll(n.children) else 0
  }

  function NestingOfAll(nodes: seq<Node>): nat
    decreases nodes, 1
  {
    if nodes == [] then 0
    else
      var a, b := Nesting(nodes[0]), NestingOfAll(nodes[1..]);
      if a < b then b else a
  }

  // ----- Pieces of text --------------------------------------------------------------

  lemma SkipNothing(t: string)
    requires t != "" ==> !IsWhiteSpace(t[0])
    ensures Skip(t) == t
  {
    assert t[0..] == t;
  }

  lemma SkipBlank(t: string)
    requires t != "" ==> !IsWhiteSpace(t[0])
    ensures Skip(" " + t) == t
  {
    var s := " " + t;
    assert SkipWhiteSpace(s, 0) == SkipWhiteSpace(s, 1) == 1;
    assert s[1..] == t;
  }

  lemma ParseNamePrinted(name: string, rest: string)
    requires GoodName(name)
    requires rest != "" ==> !IsNameChar(rest[0])
    ensures ParseName(name + rest) == Some(Cut(name, rest))
  {
    var t := name + rest;
    var i := NameEnd(t, 1);
    assert forall k :: 0 <= k < |name| ==> t[k] == name[k];
    assert |name| < |t| ==> t[|name|] == rest[0];
    assert i == |name|;
    assert t[..i] == name && t[i..] == rest;
  }

  /** An end tag whose last character occurs nowhere else in it is found right behind a text without it. */
  lemma ParseTextPrinted(s: string, tag: string, rest: string)
    requires tag != "" && forall k :: 0 <= k < |tag| - 1 ==> tag[k] != tag[|tag| - 1]
    requires !Contains(s, tag)
    ensures ParseText(s + (tag + rest), tag) == Some(Cut(s, rest))
  {
    var t := s + (tag + rest);
    var n := |tag|;
    forall j | 0 <= j < |s|
      ensures !(tag <= t[j..])
    {
      if j + n <= |s| {
        assert !(tag <= s[j..]);
        assert t[j..][..n] == s[j..][..n];
      } else {
        var k := j + n - 1 - |s|;
        assert t[j..][n - 1] == tag[k] != tag[n - 1];
      }
    }
    assert t[|s|..] == tag + rest;
    assert FindTag(t, tag, 0) == |s|;
    assert t[..|s|] == s && t[|s| + n..] == rest;
  }

  lemma ContainsChar(s: string, c: char)
    requires c !in s
    ensures !Contains(s, [c])
  {
    forall i | 0 <= i <= |s|
      ensures !([c] <= s[i..])
    {
      assert i < |s| ==> s[i..][0] == s[i] && s[i] in s;
    }
  }

  lemma NoNulIsAll(s: string)
    requires NUL !in s
    ensures CString(s) == s && NUL !in Newlines(s)
    decreases |s|
  {
    NewlinesBringNothing(s);
  }

  lemma {:induction false} NewlinesBringNothing(s: string)
    ensures forall c :: c in Newlines(s) ==> c == LF || c in s
    decreases |s|
  {
    if s != "" {
      NewlinesBringNothing(s[if LineEnd(s) > 0 then LineEnd(s) else 1..]);
    }
  }

  /** Text without entities to process is shown as it was parsed but for its line ends. */
  lemma ShownRaw(v: string)
    requires NUL !in v
    ensures Shown(v, RAW) == Newlines(v)
  {
    DecodeRaw(v, 0, "", RAW);
    assert v[0..] == v && "" + Newlines(v) == Newlines(v);
    NoNulIsAll(v);
  }

  lemma ShownEscaped(v: string, flags: Flags, restricted: bool)
    requires NUL !in v && flags.entities && flags.newlines
    ensures Shown(Escape(v, restricted), flags) == if flags.collapse then Collapse(Newlines(v)) else Newlines(v)
  {
    DecodeUndoesEscape(v, flags, restricted);
    NoNulIsAll(v);
  }

  // ----- Attributes --------------------------------------------------------------------

  predicate Readable(options: Options) {
    options.processEntities
  }

  /** A text as its reader sees it. */
  function Seen(text: string, options: Options): string {
    if options.collapseWhitespace then Collapse(Newlines(text)) else Newlines(text)
  }

  lemma ParseAttributePrinted(a: Attribute, rest: string, options: Options)
    requires GoodName(a.name) && NUL !in a.value && Readable(options)
    ensures ParseAttribute(a.name + ("=\"" + (Escape(a.value, false) + ("\"" + rest))), options)
         == Some(AttributeCut(Attribute(a.name, Newlines(a.value)), rest))
  {
    hide Escape, Shown, ParseText, ParseName, Skip;
    var e := Escape(a.value, false);
    var t2 := "\"" + (e + ("\"" + rest));
    var t1 := "=\"" + (e + ("\"" + rest));
    ParseNamePrinted(a.name, t1);
    SkipNothing(t1);
    assert t1[1..] == t2;
    SkipNothing(t2);
    assert t2[1..] == e + ("\"" + rest);
    EscapeShape(a.value, false);
    ContainsChar(e, '\"');
    ParseTextPrinted(e, "\"", rest);
    ShownEscaped(a.value, options.AttributeFlags(), false);
  }

  lemma ParseAttributesStep(a: Attribute, later: string, before: seq<Attribute>, options: Options)
    requires GoodName(a.name) && NUL !in a.value && Readable(options) && !HasAttribute(before, a.name)
    ensures ParseAttributes(" " + (a.name + ("=\"" + (Escape(a.value, false) + ("\"" + later)))), before, Open, options)
         == ParseAttributes(later, before + [Attribute(a.name, Newlines(a.value))], Open, options)
  {
    hide Escape, ParseAttribute, Skip;
    var t := a.name + ("=\"" + (Escape(a.value, false) + ("\"" + later)));
    assert t[0] == a.name[0];
    SkipBlank(t);
    ParseAttributePrinted(a, later, options);
  }

  /** The attributes of `all` from `k` on, when those before have been read. */
  lemma {:induction false} ParseAttributesPrinted(all: seq<Attribute>, k: nat, tail: string, options: Options)
    requires k <= |all| && GoodAttributes(all) && Readable(options)
    ensures ParseAttributes(PrintAttributes(all[k..], tail), ReturnedAttributes(all[..k]), Open, options)
         == ParseAttributes(tail, ReturnedAttributes(all), Open, options)
    decreases |all| - k
  {
    hide ParseAttributes, Newlines;
    if k == |all| {
      assert all[k..] == [] && all[..k] == all;
    } else {
      assert all[k..][0] == all[k] && all[k..][1..] == all[k + 1..];
      ParseAttributesStep(all[k], PrintAttributes(all[k + 1..], tail), ReturnedAttributes(all[..k]), options);
      assert ReturnedAttributes(all[..k]) + [Attribute(all[k].name, Newlines(all[k].value))]
          == ReturnedAttributes(all[..k + 1]);
      ParseAttributesPrinted(all, k + 1, tail, options);
    }
  }

  // ----- Nodes -------------------------------------------------------------------------

  /** A text that differs from a tag at some character does not start with it. */
  lemma StartsOtherwise(t: string, tag: string, i: nat)
    requires i < |tag| && i < |t| && t[i] != tag[i]
    ensures !(tag <= t)
  {
  }

  lemma Behind(head: string, rest: string)
    ensures head <= head + rest && (head + rest)[|head|..] == rest
    ensures forall i :: 0 <= i < |head| ==> (head + rest)[i] == head[i]
  {
  }

  lemma HeaderDeclaration(rest: string)
    ensures Identify("<?" + rest) == Header(Declaration(""), rest)
  {
    hide Skip;
    Behind("<?", rest);
    SkipNothing("<?" + rest);
  }

  lemma HeaderComment(rest: string)
    ensures Identify("<!--" + rest) == Header(Comment(""), rest)
  {
    hide Skip;
    var t := "<!--" + rest;
    Behind("<!--", rest);
    SkipNothing(t);
    StartsOtherwise(t, "<?", 1);
  }

  lemma HeaderCData(rest: string)
    ensures Identify("<![CDATA[" + rest) == Header(Text("", true), rest)
  {
    hide Skip;
    var t := "<![CDATA[" + rest;
    Behind("<![CDATA[", rest);
    SkipNothing(t);
    StartsOtherwise(t, "<?", 1);
    StartsOtherwise(t, "<!--", 2);
  }

  lemma HeaderUnknown(rest: string)
    requires !("--" <= rest) && !("[CDATA[" <= rest)
    ensures Identify("<!" + rest) == Header(Unknown(""), rest)
  {
    hide Skip;
    var t := "<!" + rest;
    Behind("<!", rest);
    SkipNothing(t);
    StartsOtherwise(t, "<?", 1);
    NotLonger("<!", "--", rest);
    NotLonger("<!", "[CDATA[", rest);
    LongTags();
  }

  lemma LongTags()
    ensures "<!" + "--" == "<!--" && "<!" + "[CDATA[" == "<![CDATA["
  {
  }

  lemma NotLonger(a: string, b: string, t: string)
    requires !(b <= t)
    ensures !(a + b <= a + t)
  {
    PrefixTail(a, b, t);
  }

  lemma PrefixTail(a: string, b: string, t: string)
    ensures a + b <= a + t ==> b <= t
  {
    if a + b <= a + t {
      assert b == (a + b)[|a|..] && t[..|b|] == (a + t)[|a|..|a| + |b|];
    }
  }

  lemma HeaderElement(rest: string)
    requires rest != "" && rest[0] != '?' && rest[0] != '!'
    ensures Identify("<" + rest) == Header(Element("", [], []), rest)
  {
    var t := "<" + rest;
    SkipNothing(t);
    assert t[1] == rest[0] && "<" <= t && t[1..] == rest;
  }

  lemma HeaderText(t: string)
    requires Skip(t) != "" && Skip(t)[0] != '<'
    ensures Identify(t) == Header(Text("", false), t)
  {
    var t' := Skip(t);
    assert "<"[0] != t'[0] && "<?"[0] != t'[0] && "<!"[0] != t'[0] && "<!--"[0] != t'[0] && "<![CDATA["[0] != t'[0];
  }

  lemma TagsAreDistinctive()
    ensures forall k :: 0 <= k < |"]]>"| - 1 ==> "]]>"[k] != "]]>"[|"]]>"| - 1]
    ensures forall k :: 0 <= k < |"-->"| - 1 ==> "-->"[k] != "-->"[|"-->"| - 1]
    ensures forall k :: 0 <= k < |"?>"| - 1 ==> "?>"[k] != "?>"[|"?>"| - 1]
  {
  }

  lemma UnknownHeaderFits(value: string, rest: string)
    requires !("--" <= value) && !("[CDATA[" <= value) && !Contains(value, ">")
    ensures !("--" <= value + (">" + rest)) && !("[CDATA[" <= value + (">" + rest))
  {
    var t := value + (">" + rest);
    if |value| < 2 {
      assert t[|value|] == '>' && "--"[|value|] == '-';
    } else {
      assert value[..2] == t[..2];
    }
    if |value| < 7 {
      assert t[|value|] == '>' && "[CDATA["[|value|] != '>';
    } else {
      assert value[..7] == t[..7];
    }
  }

  /** Every kind but elements and texts outside CDATA sections is read back as it was. */
  lemma LeafPrinted(n: Node, pen: Pen, rest: string, options: Options, depth: nat, atTop: bool)
    requires !n.Element? && !PlainText(n) && GoodNode(n, atTop)
    ensures var h := Identify(PrintBare(n, pen, rest));
            h.Header? && ParseNode(h, options, depth) == Leaf(rest, n)
  {
    hide ParseText, Identify, Shown;
    ShownRaw(n.value);
    NewlinesIsIdentityIff(n.value);
    TagsAreDistinctive();
    match n
    case Text(value, _) =>
      HeaderCData(value + ("]]>" + rest));
      ParseTextPrinted(value, "]]>", rest);
    case Comment(value) =>
      HeaderComment(value + ("-->" + rest));
      ParseTextPrinted(value, "-->", rest);
    case Declaration(value) =>
      HeaderDeclaration(value + ("?>" + rest));
      ParseTextPrinted(value, "?>", rest);
    case Unknown(value) =>
      UnknownHeaderFits(value, rest);
      HeaderUnknown(value + (">" + rest));
      ParseTextPrinted(value, ">", rest);
  }

  lemma {:induction false} EscapeKeepsInk(s: string, i: nat) returns (j: nat)
    requires i < |s| && !IsWhiteSpace(s[i])
    ensures j < |Escape(s, true)| && !IsWhiteSpace(Escape(s, true)[j])
  {
    var e := EscapeChar(s[0], true);
    if i == 0 {
      j := 0;
    } else {
      j := EscapeKeepsInk(s[1..], i - 1);
      assert Escape(s, true)[|e| + j] == Escape(s[1..], true)[j];
      j := |e| + j;
    }
  }

  predicate StartsTag(rest: string) {
    |rest| > 1 && rest[0] == '<'
  }

  /** The first character of a text behind its white space belongs to the text. */
  lemma TextStart(e: string, rest: string, j: nat)
    requires j < |e| && !IsWhiteSpace(e[j]) && '<' !in e
    ensures Skip(e + rest) != "" && Skip(e + rest)[0] != '<'
  {
    var t := e + rest;
    assert t[j] == e[j];
    var i := SkipWhiteSpace(t, 0);
    assert i <= j && t[i] == e[i] && e[i] in e;
  }

  lemma TextPrinted(s: string, rest: string, options: Options, depth: nat)
    requires NUL !in s && !Blank(s) && StartsTag(rest) && Readable(options)
    ensures var h := Identify(Escape(s, true) + rest);
            h.Header? && ParseNode(h, options, depth) == Leaf(rest, Text(Seen(s, options), false))
  {
    hide Identify, Shown, Escape, ParseText;
    var e := Escape(s, true);
    var i :| 0 <= i < |s| && !IsWhiteSpace(s[i]);
    var j := EscapeKeepsInk(s, i);
    EscapeShape(s, true);
    assert '<' !in e;
    TextStart(e, rest, j);
    HeaderText(e + rest);
    ContainsChar(e, '<');
    assert e + rest == e + ("<" + rest[1..]);
    ParseTextPrinted(e, "<", rest[1..]);
    assert (e + rest)[|e|..] == rest;
    ShownEscaped(s, options.TextFlags(), true);
  }

  /** A blank text is written as it is. */
  lemma {:induction false} EscapeBlankText(s: string)
    requires Blank(s)
    ensures Escape(s, true) == s
  {
    if s != "" {
      EscapeBlankText(s[1..]);
      assert [s[0]] + s[1..] == s;
    }
  }

  // ----- White space in front --------------------------------------------------------

  /** A text whose white space in front does not belong to a text node. */
  predicate Leads(t: string) {
    Skip(t) != "" ==> Skip(t)[0] == '<'
  }

  lemma {:induction false} SkipBlanks(w: string, t: string)
    requires Blank(w)
    ensures Skip(w + t) == Skip(t)
  {
    if w == "" {
      assert w + t == t;
    } else {
      var s := w + t;
      assert s[1..] == w[1..] + t;
      SkipBlanks(w[1..], t);
      SkipShifted(s, 1);
    }
  }

  lemma {:induction false} SkipShifted(s: string, i: nat)
    requires 1 <= i <= |s| && Blank(s[..i])
    ensures SkipWhiteSpace(s, i) == SkipWhiteSpace(s[1..], i - 1) + 1
    ensures Skip(s) == Skip(s[1..])
  {
  }

  lemma GapsAreBlank(pen: Pen, n: Node)
    ensures Blank(pen.Gap(n)) && Blank(pen.EndGap()) && Blank(pen.Behind(n))
  {
    SpacesAreBlank(pen.depth);
    SpacesAreBlank(pen.depth - 1);
  }

  /** White space in front of a tag, or of the end, is skipped by the loop over the children. */
  lemma LoopSkips(w: string, t: string, options: Options, atTop: bool, depth: nat, children: seq<Node>)
    requires Blank(w) && Leads(t)
    ensures ChildLoop(w + t, options, atTop, depth, children) == ChildLoop(t, options, atTop, depth, children)
  {
    hide ParseNode, Skip;
    SkipBlanks(w, t);
    SameHeader(w, t);
  }

  lemma SameHeader(w: string, t: string)
    requires Skip(w + t) == Skip(t) && Leads(t)
    ensures Identify(w + t) == Identify(t)
  {
    hide Skip;
    assert Skip(t) != "" ==> "<" <= Skip(t);
  }

  lemma TagLeads(t: string)
    requires StartsTag(t)
    ensures Leads(t)
  {
    SkipNothing(t);
  }

  // ----- Elements and lists of children ----------------------------------------------

  /** What reading the printed form of `n` gives, when it is not nested too deeply and comes back as `n'`. */
  function Outcome(n: Node, n': Node, rest: string): NodeResult {
    if !n.Element? then Leaf(rest, n')
    else if n.children == [] then NodeResult(Some(rest), n', Closed, None, Success)
    else NodeResult(Some(rest), n', Open, Some(n.name), Success)
  }

  lemma NameStarts(name: string, rest: string)
    requires GoodName(name)
    ensures name + rest != "" && (name + rest)[0] == name[0]
    ensures name[0] != '/' && name[0] != '?' && name[0] != '!' && !IsWhiteSpace(name[0])
  {
  }

  /** An element's tag is read up to its last character. */
  lemma OpenTagPrinted(name: string, attributes: seq<Attribute>, tail: string, options: Options)
    requires GoodName(name) && GoodAttributes(attributes) && Readable(options)
    requires tail != "" && !IsNameChar(tail[0])
    ensures var t := "<" + (name + PrintAttributes(attributes, tail));
            Identify(t) == Header(Element("", [], []), t[1..]) &&
            Skip(t[1..]) == t[1..] && t[1] != '/' &&
            ParseName(t[1..]) == Some(Cut(name, PrintAttributes(attributes, tail))) &&
            ParseAttributes(PrintAttributes(attributes, tail), [], Open, options)
            == ParseAttributes(tail, ReturnedAttributes(attributes), Open, options)
  {
    hide Identify, ParseName, ParseAttributes, Skip, GoodName, Newlines;
    var p := PrintAttributes(attributes, tail);
    NameStarts(name, p);
    HeaderElement(name + p);
    assert ("<" + (name + p))[1..] == name + p;
    SkipNothing(name + p);
    ParseNamePrinted(name, p);
    ParseAttributesPrinted(attributes, 0, tail, options);
    assert attributes[0..] == attributes && ReturnedAttributes(attributes[..0]) == [];
  }

  lemma TagEnd(t: string, attributes: seq<Attribute>, closing: Closing, options: Options)
    requires t != "" && t[0] == '>'
    ensures ParseAttributes(t, attributes, closing, options)
         == AttributesResult(Some(t[1..]), attributes, closing, Success)
  {
    hide ParseAttribute;
    SkipNothing(t);
  }

  lemma TagClosed(t: string, attributes: seq<Attribute>, closing: Closing, options: Options)
    requires "/>" <= t
    ensures ParseAttributes(t, attributes, closing, options)
         == AttributesResult(Some(t[2..]), attributes, Closed, Success)
  {
    hide ParseAttribute, Skip, IsNameStartChar;
    StartsWithSlash(t);
    SkipNothing(t);
  }

  lemma StartsWithSlash(t: string)
    requires "/>" <= t
    ensures t != "" && t[0] == '/' && !IsNameStartChar(t[0]) && !IsWhiteSpace(t[0])
  {
  }

  lemma EmptyElementPrinted(n: Node, rest: string, options: Options, depth: nat)
    requires n.Element? && n.children == [] && GoodNode(n, false) && Readable(options)
    ensures var h := Identify("<" + (n.name + PrintAttributes(n.attributes, "/>" + rest)));
            var n' := n.(attributes := ReturnedAttributes(n.attributes));
            h.Header? && ParseNode(h, options, depth) == Outcome(n, n', rest)
  {
    hide Identify, ParseName, ParseAttributes, GoodName, PrintAttributes, GoodAttributes;
    var tail := "/>" + rest;
    OpenTagPrinted(n.name, n.attributes, tail, options);
    TagClosed(tail, ReturnedAttributes(n.attributes), Open, options);
    assert "/>" <= tail && tail[2..] == rest;
  }

  /** An element with children is read as the list of its children at one level more. */
  lemma ElementPrinted(n: Node, inner: string, options: Options, depth: nat)
    requires n.Element? && GoodNode(n, false) && Readable(options) && inner != ""
    ensures var h := Identify("<" + (n.name + PrintAttributes(n.attributes, ">" + inner)));
            var k := ParseChildren(inner, options, false, depth);
            var n' := n.(attributes := ReturnedAttributes(n.attributes), children := k.children);
            h.Header? && ParseNode(h, options, depth) == NodeResult(k.rest, n', Open, k.endTag, k.error)
  {
    hide Identify, ParseName, ParseAttributes, GoodName, PrintAttributes, GoodAttributes, ParseChildren, ParseElement,
         Skip, ReturnedAttributes;
    var tail := ">" + inner;
    OpenTagPrinted(n.name, n.attributes, tail, options);
    TagEnd(tail, ReturnedAttributes(n.attributes), Open, options);
    assert tail[1..] == inner;
    var t := "<" + (n.name + PrintAttributes(n.attributes, tail));
    BehindTag(t[1..], n.name, ReturnedAttributes(n.attributes), PrintAttributes(n.attributes, tail), inner, options,
              depth);
  }

  lemma BehindTag(t: string, name: string, attributes: seq<Attribute>, p: string, inner: string,
                  options: Options, depth: nat)
    requires Skip(t) == t && t != "" && t[0] != '/' && ParseName(t) == Some(Cut(name, p)) && inner != ""
    requires ParseAttributes(p, [], Open, options) == AttributesResult(Some(inner), attributes, Open, Success)
    ensures var k := ParseChildren(inner, options, false, depth);
            ParseElement(t, options, depth)
            == NodeResult(k.rest, Element(name, attributes, k.children), Open, k.endTag, k.error)
  {
    hide ParseName, ParseAttributes, ParseChildren, Skip;
  }

  lemma ClosingElementPrinted(name: string, rest: string, options: Options, depth: nat)
    requires GoodName(name)
    ensures ParseElement("/" + (name + (">" + rest)), options, depth)
         == NodeResult(Some(rest), Element(name, [], []), Closing, None, Success)
  {
    hide ParseName, ParseAttributes, ParseChildren;
    var t1 := name + (">" + rest);
    var t := "/" + t1;
    SkipNothing(t);
    assert t[1..] == t1;
    ParseNamePrinted(name, ">" + rest);
    TagEnd(">" + rest, [], Closing, options);
    assert (">" + rest)[1..] == rest;
  }

  /** The closing tag ends the loop over the children and is handed up. */
  lemma ClosingTagPrinted(name: string, rest: string, options: Options, depth: nat, children: seq<Node>)
    requires GoodName(name)
    ensures ChildLoop(EndTag(name, rest), options, false, depth, children)
         == ChildrenResult(Some(rest), children, Some(name), Success)
  {
    hide Identify, ParseElement, GoodName;
    var t := "/" + (name + (">" + rest));
    assert "</" + (name + (">" + rest)) == "<" + t;
    HeaderElement(t);
    ClosingElementPrinted(name, rest, options, depth);
  }

  /** The printed form of a node starts a tag unless it is text. */
  lemma PrintedStart(n: Node, pen: Pen, rest: string, atTop: bool)
    requires GoodNode(n, atTop) && !PlainText(n)
    ensures StartsTag(PrintBare(n, pen, rest))
  {
    hide PrintAttributes, PrintNodes;
    if n.Element? {
      NameStarts(n.name, "");
    }
  }

  lemma EndTagStarts(name: string, rest: string)
    ensures StartsTag(EndTag(name, rest))
  {
  }

  /** Every node but a text is read back, with what stands behind it left over. */
  lemma NodePrinted(n: Node, pen: Pen, rest: string, options: Options, depth: nat, atTop: bool)
    requires GoodNode(n, atTop) && !PlainText(n) && Readable(options) && depth < MAX_ELEMENT_DEPTH && pen.depth >= 0
    ensures var h := Identify(PrintBare(n, pen, rest));
            h.Header? &&
            var r := ParseNode(h, options, depth);
            var n' := Returned(n, [], pen.compact, options.collapseWhitespace, pen.depth);
            if depth + Nesting(n) < MAX_ELEMENT_DEPTH then r == Outcome(n, n', pen.Behind(n) + rest)
            else r.rest.None? && r.error == DepthExceeded
    decreases n, 1
  {
    hide Identify, ParseNode, GoodName, GoodAttributes, PrintAttributes, PrintNodes, AfterAll, EndTag;
    if !n.Element? {
      LeafPrinted(n, pen, rest, options, depth, atTop);
      assert pen.Behind(n) + rest == rest;
    } else if n.children == [] {
      EmptyElementPrinted(n, pen.Behind(n) + rest, options, depth);
    } else {
      ParentPrinted(n, pen, rest, options, depth);
    }
  }

  lemma ParentPrinted(n: Node, pen: Pen, rest: string, options: Options, depth: nat)
    requires GoodNode(n, false) && n.Element? && n.children != [] && Readable(options)
    requires depth < MAX_ELEMENT_DEPTH && pen.depth >= 0
    ensures var h := Identify(PrintBare(n, pen, rest));
            h.Header? &&
            var r := ParseNode(h, options, depth);
            var n' := Returned(n, [], pen.compact, options.collapseWhitespace, pen.depth);
            if depth + Nesting(n) < MAX_ELEMENT_DEPTH then r == Outcome(n, n', pen.Behind(n) + rest)
            else r.rest.None? && r.error == DepthExceeded
    decreases n, 0
  {
    hide Identify, ParseNode, ChildLoop, GoodName, GoodAttributes, PrintAttributes, PrintNodes, AfterAll, EndTag;
    hide NestingOfAll, ReturnedAll;
    var pen', end := AfterAll(n.children, pen.Inside()), EndTag(n.name, pen.Behind(n) + rest);
    var tail := pen'.EndGap() + end;
    EndTagStarts(n.name, pen.Behind(n) + rest);
    ChildrenAreThere(n.children, pen.Inside(), tail);
    ElementPrinted(n, PrintNodes(n.children, pen.Inside(), tail), options, depth);
    if depth + 1 < MAX_ELEMENT_DEPTH {
      TailLeads(n.children, pen.Inside(), end);
      NodesPrinted(n.children, pen.Inside(), tail, [], options, depth + 1, false);
      ChildrenRead(n, pen', end, rest, pen, options, depth + 1);
    }
  }

  /** Behind its children an element's end tag is read. */
  lemma ChildrenRead(n: Node, pen': Pen, end: string, rest: string, pen: Pen, options: Options, depth: nat)
    requires n.Element? && n.children != [] && GoodName(n.name) && end == EndTag(n.name, pen.Behind(n) + rest)
    ensures var children := ReturnedAll(n.children, pen.compact, options.collapseWhitespace, pen.depth + 1);
            ChildLoop(pen'.EndGap() + end, options, false, depth, [] + children)
            == ChildrenResult(Some(pen.Behind(n) + rest), children, Some(n.name), Success)
  {
    hide ChildLoop, GoodName, EndTag;
    var children := ReturnedAll(n.children, pen.compact, options.collapseWhitespace, pen.depth + 1);
    EndTagStarts(n.name, pen.Behind(n) + rest);
    TagLeads(end);
    GapsAreBlank(pen', n);
    LoopSkips(pen'.EndGap(), end, options, false, depth, children);
    ClosingTagPrinted(n.name, pen.Behind(n) + rest, options, depth, children);
    assert [] + children == children;
  }

  /** What the loop over children can meet behind the last of them. */
  predicate GoodTail(nodes: seq<Node>, tail: string) {
    Leads(tail) && (nodes != [] && PlainText(nodes[|nodes| - 1]) ==> StartsTag(tail))
  }

  /** Behind a text there is no white space in front of the end tag. */
  lemma TailLeads(nodes: seq<Node>, pen: Pen, end: string)
    requires StartsTag(end) && pen.depth >= 1
    ensures GoodTail(nodes, AfterAll(nodes, pen).EndGap() + end)
  {
    hide Skip;
    var w := AfterAll(nodes, pen).EndGap();
    if nodes != [] && PlainText(nodes[|nodes| - 1]) {
      AfterText(nodes, pen);
      assert w + end == end;
    }
    GapsAreBlank(AfterAll(nodes, pen), Comment(""));
    SkipBlanks(w, end);
    TagLeads(end);
  }

  lemma {:induction false} AfterText(nodes: seq<Node>, pen: Pen)
    requires nodes != [] && nodes[|nodes| - 1].Text?
    ensures AfterAll(nodes, pen).textDepth == pen.depth - 1
    decreases nodes
  {
    if |nodes| == 1 {
      assert nodes[1..] == [];
    } else {
      AfterText(nodes[1..], After(nodes[0], pen));
    }
  }

  lemma {:induction false} ChildrenAreThere(nodes: seq<Node>, pen: Pen, tail: string)
    requires tail != ""
    ensures PrintNodes(nodes, pen, tail) != ""
    decreases nodes
  {
    hide After;
    if nodes != [] {
      var later := PrintNodes(nodes[1..], After(nodes[0], pen), tail);
      ChildrenAreThere(nodes[1..], After(nodes[0], pen), tail);
      NodeIsThere(nodes[0], pen, later);
    }
  }

  lemma NodeIsThere(n: Node, pen: Pen, rest: string)
    requires rest != ""
    ensures PrintBare(n, pen, rest) != ""
  {
    hide Escape, PrintAttributes, PrintNodes, AfterAll;
  }

  /** Reading siblings, when those in `done` have been read: the loop gets to the text behind them with all of
      them in place, unless one of them is nested too deeply. */
  lemma {:induction false} NodesPrinted(nodes: seq<Node>, pen: Pen, tail: string, done: seq<Node>, options: Options,
                                        depth: nat, atTop: bool)
    requires GoodNodes(nodes, atTop) && NoTextPairs(nodes) && Readable(options) && depth < MAX_ELEMENT_DEPTH
    requires atTop ==> DeclarationsFirst(done + nodes)
    requires pen.depth >= (if atTop then 0 else 1) && GoodTail(nodes, tail)
    ensures var r := ChildLoop(PrintNodes(nodes, pen, tail), options, atTop, depth, done);
            if depth + NestingOfAll(nodes) < MAX_ELEMENT_DEPTH
            then r == ChildLoop(tail, options, atTop, depth,
                                done + ReturnedAll(nodes, pen.compact, options.collapseWhitespace, pen.depth))
            else r.rest.None? && r.error == DepthExceeded
    decreases nodes, 2
  {
    hide ChildLoop, PrintBare, GoodNodes, NoTextPairs, GoodTail, DeclarationsFirst, After, Nesting, NestingOfAll, Back,
         ReturnedAll;
    DeepestOfAll(nodes);
    if nodes == [] {
      NothingReturns(pen, options);
      assert done + [] == done;
    } else {
      FirstRead(nodes, pen, tail, done, options, depth, atTop);
      RestIsGood(nodes, done, pen, options, tail, atTop);
      var back := Back(nodes, pen, options);
      var later := ReturnedAll(nodes[1..], pen.compact, options.collapseWhitespace, pen.depth);
      assert done + back + later == done + (back + later);
      NodesPrinted(nodes[1..], After(nodes[0], pen), tail, done + back, options, depth, atTop);
    }
  }

  /** The first of the siblings. */
  lemma FirstRead(nodes: seq<Node>, pen: Pen, tail: string, done: seq<Node>, options: Options, depth: nat,
                  atTop: bool)
    requires nodes != [] && GoodNodes(nodes, atTop) && NoTextPairs(nodes) && Readable(options)
    requires depth < MAX_ELEMENT_DEPTH && (atTop ==> DeclarationsFirst(done + nodes))
    requires pen.depth >= (if atTop then 0 else 1) && GoodTail(nodes, tail)
    ensures var later := PrintNodes(nodes[1..], After(nodes[0], pen), tail);
            var l := ChildLoop(PrintNodes(nodes, pen, tail), options, atTop, depth, done);
            if depth + Nesting(nodes[0]) < MAX_ELEMENT_DEPTH
            then l == ChildLoop(later, options, atTop, depth, done + Back(nodes, pen, options))
            else l.rest.None? && l.error == DepthExceeded
    decreases nodes, 1
  {
    hide ChildLoop, PrintNodes, GoodNodes, NoTextPairs, GoodTail, DeclarationsFirst, After, Nesting, NestingOfAll, Back;
    if PlainText(nodes[0]) {
      TextIsInside(nodes, atTop);
      DeepestOfAll(nodes);
      TextRead(nodes, pen, tail, done, options, depth, atTop);
    } else {
      NodeStep(nodes, pen, tail, done, options, depth, atTop);
    }
  }

  lemma TextIsInside(nodes: seq<Node>, atTop: bool)
    requires nodes != [] && GoodNodes(nodes, atTop) && PlainText(nodes[0])
    ensures !atTop
  {
  }

  lemma DeepestOfAll(nodes: seq<Node>)
    ensures if nodes == [] then NestingOfAll(nodes) == 0
            else NestingOfAll(nodes) == (if Nesting(nodes[0]) < NestingOfAll(nodes[1..]) then NestingOfAll(nodes[1..])
                                         else Nesting(nodes[0])) && (PlainText(nodes[0]) ==> Nesting(nodes[0]) == 0)
  {
  }

  /** The first of the siblings, if it is not text. */
  lemma NodeStep(nodes: seq<Node>, pen: Pen, tail: string, done: seq<Node>, options: Options, depth: nat, atTop: bool)
    requires nodes != [] && GoodNodes(nodes, atTop) && !PlainText(nodes[0]) && Readable(options)
    requires depth < MAX_ELEMENT_DEPTH && (atTop ==> DeclarationsFirst(done + nodes))
    requires pen.depth >= (if atTop then 0 else 1) && GoodTail(nodes, tail)
    ensures var later := PrintNodes(nodes[1..], After(nodes[0], pen), tail);
            var l := ChildLoop(PrintNodes(nodes, pen, tail), options, atTop, depth, done);
            if depth + Nesting(nodes[0]) < MAX_ELEMENT_DEPTH
            then l == ChildLoop(later, options, atTop, depth, done + Back(nodes, pen, options))
            else l.rest.None? && l.error == DepthExceeded
    decreases nodes, 0
  {
    hide ChildLoop, PrintBare, PrintNodes, Returned, GoodName, GoodAttributes, After, Skip;
    hide Nesting, Identify, ParseNode, Outcome;
    NodePrinted(nodes[0], pen, PrintNodes(nodes[1..], After(nodes[0], pen), tail), options, depth, atTop);
    NextMatters(nodes[0], nodes[1..], pen, options);
    NodeRead(nodes, pen, tail, done, options, depth, atTop);
  }

  lemma NothingReturns(pen: Pen, options: Options)
    ensures ReturnedAll([], pen.compact, options.collapseWhitespace, pen.depth) == []
  {
  }

  /** What comes back of the first of the siblings. */
  function Back(nodes: seq<Node>, pen: Pen, options: Options): seq<Node>
    requires nodes != []
  {
    if BlankText(nodes[0]) then []
    else [Returned(nodes[0], nodes[1..], pen.compact, options.collapseWhitespace, pen.depth)]
  }

  lemma RestIsGood(nodes: seq<Node>, done: seq<Node>, pen: Pen, options: Options, tail: string, atTop: bool)
    requires nodes != [] && GoodNodes(nodes, atTop) && NoTextPairs(nodes) && GoodTail(nodes, tail)
    requires atTop ==> DeclarationsFirst(done + nodes)
    ensures GoodNodes(nodes[1..], atTop) && NoTextPairs(nodes[1..]) && GoodTail(nodes[1..], tail)
    ensures var back := Back(nodes, pen, options);
            && (atTop ==> DeclarationsFirst(done + back + nodes[1..]))
            && ReturnedAll(nodes, pen.compact, options.collapseWhitespace, pen.depth)
               == back + ReturnedAll(nodes[1..], pen.compact, options.collapseWhitespace, pen.depth)
  {
    hide GoodNode, Leads, Returned;
    if atTop {
      NoTextAtTop(nodes, 0);
      var back := Back(nodes, pen, options);
      var all, all' := done + nodes, done + back + nodes[1..];
      assert forall i :: 0 <= i < |all| ==> all'[i].Declaration? == all[i].Declaration?;
    }
  }

  lemma NextMatters(n: Node, next: seq<Node>, pen: Pen, options: Options)
    requires !PlainText(n)
    ensures Returned(n, next, pen.compact, options.collapseWhitespace, pen.depth)
         == Returned(n, [], pen.compact, options.collapseWhitespace, pen.depth)
  {
  }

  /** A node that is not text, with the white space around it. */
  lemma NodeRead(nodes: seq<Node>, pen: Pen, tail: string, done: seq<Node>, options: Options, depth: nat, atTop: bool)
    requires nodes != [] && GoodNodes(nodes, atTop) && !PlainText(nodes[0])
    requires atTop ==> DeclarationsFirst(done + nodes)
    requires pen.depth >= (if atTop then 0 else 1) && GoodTail(nodes, tail)
    requires Identify(PrintBare(nodes[0], pen, PrintNodes(nodes[1..], After(nodes[0], pen), tail))).Header?
    ensures var n, later := nodes[0], PrintNodes(nodes[1..], After(nodes[0], pen), tail);
            var n' := Returned(n, nodes[1..], pen.compact, options.collapseWhitespace, pen.depth);
            var r := ParseNode(Identify(PrintBare(n, pen, later)), options, depth);
            var l := ChildLoop(PrintNodes(nodes, pen, tail), options, atTop, depth, done);
            && (r == Outcome(n, n', pen.Behind(n) + later) ==>
                 l == ChildLoop(later, options, atTop, depth, done + [n']))
            && (r.rest.None? && r.error == DepthExceeded ==> l.rest.None? && l.error == DepthExceeded)
  {
    hide ChildLoop, PrintBare, Returned, GoodName, GoodAttributes, After, Skip, ParseNode, Identify, GoodNode;
    var n, later := nodes[0], PrintNodes(nodes[1..], After(nodes[0], pen), tail);
    var n', t := Returned(n, nodes[1..], pen.compact, options.collapseWhitespace, pen.depth), PrintBare(n, pen, later);
    PrintedStart(n, pen, later, atTop);
    TagLeads(t);
    GapsAreBlank(pen, n);
    LoopSkips(pen.Gap(n), t, options, atTop, depth, done);
    assert [n] + nodes[1..] == nodes && GoodNode(n, atTop);
    LoopStep(t, n, n', pen.Behind(n) + later, options, depth, atTop, done, nodes[1..]);
    if pen.Behind(n) == "" {
      assert "" + later == later;
    } else {
      LaterLeads(nodes[1..], After(n, pen), tail);
      LoopSkips(pen.Behind(n), later, options, atTop, depth, done + [n']);
    }
  }

  /** At the top there is no text, so everything leads. */
  lemma LaterLeads(nodes: seq<Node>, pen: Pen, tail: string)
    requires GoodNodes(nodes, true) && Leads(tail)
    ensures Leads(PrintNodes(nodes, pen, tail))
  {
    hide PrintBare, Skip, GoodName, GoodAttributes, After;
    if nodes != [] {
      var later := PrintNodes(nodes[1..], After(nodes[0], pen), tail);
      PrintedStart(nodes[0], pen, later, true);
      TagLeads(PrintBare(nodes[0], pen, later));
      GapsAreBlank(pen, nodes[0]);
      SkipBlanks(pen.Gap(nodes[0]), PrintBare(nodes[0], pen, later));
    }
  }

  /** One turn of the loop over the children, when the node was read as it should. */
  lemma LoopStep(t: string, n: Node, n': Node, later: string, options: Options, depth: nat, atTop: bool,
                 done: seq<Node>, next: seq<Node>)
    requires (atTop ==> DeclarationsFirst(done + ([n] + next))) && GoodNode(n, atTop)
    requires n'.Declaration? == n.Declaration? && n'.Element? == n.Element? && (n.Element? ==> n'.name == n.name)
    requires Identify(t).Header?
    ensures var r := ParseNode(Identify(t), options, depth);
            var l := ChildLoop(t, options, atTop, depth, done);
            && (r == Outcome(n, n', later) ==> l == ChildLoop(later, options, atTop, depth, done + [n']))
            && (r.rest.None? && r.error == DepthExceeded ==> l.rest.None? && l.error == DepthExceeded)
  {
    hide ParseNode, GoodName, GoodAttributes;
    if atTop && n.Declaration? {
      LocatedWell(done, n, next);
    }
    assert n.Declaration? ==> atTop;
    if later == "" {
      assert Identify(later).NoNode?;
    }
  }

  lemma LocatedWell(done: seq<Node>, n: Node, next: seq<Node>)
    requires DeclarationsFirst(done + ([n] + next)) && n.Declaration?
    ensures WellLocated(true, done)
  {
    var all := done + ([n] + next);
    assert all[|done|] == n;
    assert forall i :: 0 <= i < |done| ==> all[i] == done[i];
  }

  // ----- Texts -----------------------------------------------------------------------

  lemma {:induction false} EscapeBlanks(w: string)
    requires forall i :: 0 <= i < |w| ==> w[i] == ' '
    ensures Escape(w, true) == w
  {
    if w != "" {
      EscapeBlanks(w[1..]);
      assert [w[0]] + w[1..] == w;
    }
  }

  /** The white space between a text and the node behind it. */
  function GapBehind(nodes: seq<Node>, pen: Pen): string
    requires nodes != []
  {
    if |nodes| == 1 then "" else After(nodes[0], pen).Gap(nodes[1])
  }

  lemma TextGap(nodes: seq<Node>, pen: Pen, options: Options)
    requires nodes != [] && PlainText(nodes[0]) && pen.depth >= 1 && (|nodes| > 1 ==> !PlainText(nodes[1]))
    ensures Returned(nodes[0], nodes[1..], pen.compact, options.collapseWhitespace, pen.depth)
         == Text(Seen(nodes[0].value + GapBehind(nodes, pen), options), false)
    ensures forall i :: 0 <= i < |GapBehind(nodes, pen)| ==> GapBehind(nodes, pen)[i] == ' '
  {
    hide Newlines, Collapse;
    SpacesAreBlank(pen.depth);
    assert "" + Spaces(pen.depth) == Spaces(pen.depth);
  }

  lemma TextLonger(s: string, w: string)
    requires NUL !in s && forall i :: 0 <= i < |w| ==> w[i] == ' '
    ensures NUL !in s + w && (Blank(s + w) <==> Blank(s))
  {
    assert forall i :: 0 <= i < |s| ==> (s + w)[i] == s[i];
  }

  /** A text takes the white space behind it, or is white space itself, and the loop goes on with what follows. */
  lemma TextRead(nodes: seq<Node>, pen: Pen, tail: string, done: seq<Node>, options: Options, depth: nat, atTop: bool)
    requires nodes != [] && GoodNodes(nodes, atTop) && PlainText(nodes[0]) && NoTextPairs(nodes) && Readable(options)
    requires pen.depth >= 1 && GoodTail(nodes, tail)
    ensures var later := PrintNodes(nodes[1..], After(nodes[0], pen), tail);
            ChildLoop(PrintNodes(nodes, pen, tail), options, atTop, depth, done)
            == ChildLoop(later, options, atTop, depth, done + Back(nodes, pen, options))
  {
    hide ChildLoop, Returned, GoodName, GoodAttributes, After, Skip, ParseNode, Identify, Blank, PrintNodes, Seen;
    var n, w := nodes[0], GapBehind(nodes, pen);
    var s := n.value + w;
    TextGap(nodes, pen, options);
    TextLonger(n.value, w);
    var t := TextAndRest(nodes, pen, tail, options, atTop);
    TagLeads(t);
    if BlankText(n) {
      EscapeBlankText(s);
      LoopSkips(s, t, options, atTop, depth, done);
      LoopSkips(w, t, options, atTop, depth, done);
      assert done + [] == done;
    } else {
      TextPrinted(s, t, options, depth);
      TextStep(Escape(s, true) + t, Seen(s, options), t, options, depth, atTop, done);
      LoopSkips(w, t, options, atTop, depth, done + [Text(Seen(s, options), false)]);
    }
  }

  /** A printed text, with the white space behind it, and the tag that follows. */
  lemma TextAndRest(nodes: seq<Node>, pen: Pen, tail: string, options: Options, atTop: bool) returns (t: string)
    requires nodes != [] && GoodNodes(nodes, atTop) && PlainText(nodes[0]) && NoTextPairs(nodes)
    requires pen.depth >= 1 && GoodTail(nodes, tail)
    ensures StartsTag(t) && Blank(GapBehind(nodes, pen))
    ensures GapBehind(nodes, pen) + t == PrintNodes(nodes[1..], After(nodes[0], pen), tail)
    ensures Escape(nodes[0].value + GapBehind(nodes, pen), true) + t == PrintNodes(nodes, pen, tail)
  {
    hide Skip, Escape, After;
    var n, pen', w := nodes[0], After(nodes[0], pen), GapBehind(nodes, pen);
    var later := PrintNodes(nodes[1..], pen', tail);
    TextGap(nodes, pen, options);
    if |nodes| == 1 {
      t := tail;
      assert nodes[1..] == [] && later == tail == w + t;
    } else {
      t := PrintBare(nodes[1], pen', PrintNodes(nodes[1..][1..], After(nodes[1], pen'), tail));
      assert nodes[1..][0] == nodes[1] && later == w + t;
      PrintedStart(nodes[1], pen', PrintNodes(nodes[1..][1..], After(nodes[1], pen'), tail), atTop);
    }
    EscapeConcat(n.value, w, true);
    EscapeBlanks(w);
    FrontOfList(Escape(n.value, true), w, t, later);
  }

  lemma FrontOfList(a: string, w: string, t: string, later: string)
    requires later == w + t
    ensures a + w + t == "" + (a + later)
  {
  }

  lemma TextStep(t: string, s: string, rest: string, options: Options, depth: nat, atTop: bool, done: seq<Node>)
    requires Identify(t).Header? && ParseNode(Identify(t), options, depth) == Leaf(rest, Text(s, false)) && rest != ""
    ensures ChildLoop(t, options, atTop, depth, done) == ChildLoop(rest, options, atTop, depth, done + [Text(s, false)])
  {
    hide ParseNode, Identify;
  }

  lemma {:induction false} NoTextAtTop(nodes: seq<Node>, i: nat)
    requires GoodNodes(nodes, true) && i < |nodes|
    ensures !PlainText(nodes[i])
  {
    if i > 0 {
      NoTextAtTop(nodes[1..], i - 1);
    }
  }

  lemma {:induction false} AttributesHaveNoNul(attributes: seq<Attribute>, rest: string)
    requires GoodAttributes(attributes) && NUL !in rest
    ensures NUL !in PrintAttributes(attributes, rest)
  {
    if attributes != [] {
      hide Escape;
      AttributesHaveNoNul(attributes[1..], rest);
      NameHasNoNul(attributes[0].name);
      EscapeShape(attributes[0].value, false);
      assert NUL !in attributes[0].value;
    }
  }

  lemma NameHasNoNul(name: string)
    requires GoodName(name)
    ensures NUL !in name
  {
  }

  lemma NoNulBehind(a: string, b: string)
    requires NUL !in b
    ensures NUL in a + b <==> NUL in a
  {
  }

  lemma RawHasNoNul(head: string, value: string, end: string, rest: string)
    requires NUL !in head && NUL !in value && NUL !in end && NUL !in rest
    ensures NUL !in head + (value + (end + rest))
  {
    NoNulBehind(end, rest);
    NoNulBehind(value, end + rest);
  }

  lemma GapsHaveNoNul(pen: Pen, n: Node)
    ensures NUL !in pen.Gap(n) && NUL !in pen.EndGap() && NUL !in pen.Behind(n)
  {
    GapsAreBlank(pen, n);
  }

  lemma NodeHasNoNul(n: Node, pen: Pen, rest: string, atTop: bool)
    requires GoodNode(n, atTop) && NUL !in rest
    ensures NUL !in PrintBare(n, pen, rest)
    decreases n, 0
  {
    hide Escape, GoodName, GoodAttributes, PrintAttributes, AfterAll;
    GapsHaveNoNul(pen, n);
    match n
    case Element(name, attributes, children) =>
      NameHasNoNul(name);
      var behind, pen' := pen.Behind(n) + rest, AfterAll(children, pen.Inside());
      NoNulBehind(pen.Behind(n), rest);
      var end := pen'.EndGap() + EndTag(name, behind);
      var tail := if children == [] then "/>" + behind else ">" + PrintNodes(children, pen.Inside(), end);
      if children == [] {
        NoNulBehind("/>", behind);
      } else {
        RawHasNoNul("</", name, ">", behind);
        GapsHaveNoNul(pen', n);
        NoNulBehind(pen'.EndGap(), EndTag(name, behind));
        NodesHaveNoNul(children, pen.Inside(), end, false);
        NoNulBehind(">", PrintNodes(children, pen.Inside(), end));
      }
      AttributesHaveNoNul(attributes, tail);
      RawHasNoNul("<", name, "", PrintAttributes(attributes, tail));
      assert "" + PrintAttributes(attributes, tail) == PrintAttributes(attributes, tail);
    case Text(value, cdata) =>
      assert NUL !in value;
      if cdata {
        RawHasNoNul("<![CDATA[", value, "]]>", rest);
      } else {
        EscapeShape(value, true);
      }
    case Comment(value) =>
      RawHasNoNul("<!--", value, "-->", rest);
    case Declaration(value) =>
      RawHasNoNul("<?", value, "?>", rest);
    case Unknown(value) =>
      RawHasNoNul("<!", value, ">", rest);
  }

  lemma {:induction false} NodesHaveNoNul(nodes: seq<Node>, pen: Pen, rest: string, atTop: bool)
    requires GoodNodes(nodes, atTop) && NUL !in rest
    ensures NUL !in PrintNodes(nodes, pen, rest)
    decreases nodes, 1
  {
    hide PrintBare, After;
    if nodes != [] {
      var pen' := After(nodes[0], pen);
      NodesHaveNoNul(nodes[1..], pen', rest, atTop);
      NodeHasNoNul(nodes[0], pen, PrintNodes(nodes[1..], pen', rest), atTop);
      GapsHaveNoNul(pen, nodes[0]);
      NoNulBehind(pen.Gap(nodes[0]), PrintBare(nodes[0], pen, PrintNodes(nodes[1..], pen', rest)));
    }
  }

  // ----- Documents -------------------------------------------------------------------

  /** Main result: for every document that consists of elements, attributes, texts, CDATA sections, comments,
      unknowns and leading declarations as `GoodDocument` says, printing it and parsing the text gives the
      document back with its texts as `ReturnedAll` says, exactly when at most 98 elements with children are
      nested; otherwise the parser reports that the depth is exceeded. */
  lemma ParsePrinted(hasBom: bool, nodes: seq<Node>, compact: bool, depth: nat, options: Options)
    requires GoodDocument(nodes) && Readable(options)
    ensures Parse(Print(hasBom, nodes, NewPen(compact, depth)), options)
         == if NestingOfAll(nodes) <= 98
           then Document(hasBom, ReturnedAll(nodes, compact, options.collapseWhitespace, depth))
            else Invalid(DepthExceeded)
  {
    hide Identify, ParseNode, PrintBare, GoodName, GoodAttributes, ChildLoop, PrintNodes, Skip, ReturnedAll;
    var pen := NewPen(compact, depth);
    var t := PrintNodes(nodes, pen, "");
    NodesHaveNoNul(nodes, pen, "", true);
    forall i | 0 <= i < |nodes|
      ensures !PlainText(nodes[i])
    {
      NoTextAtTop(nodes, i);
    }
    NothingLeads();
    var t' := FrontOfText(hasBom, nodes, pen);
    assert [] + nodes == nodes;
    NodesPrinted(nodes, pen, "", [], options, 1, true);
    var read := ReturnedAll(nodes, compact, options.collapseWhitespace, depth);
    assert [] + read == read;
    NothingLeft(options, read);
    FrontIsSkipped(hasBom, nodes, pen, options, t');
  }

  lemma NothingLeads()
    ensures Skip("") == "" && Leads("")
  {
  }

  /** The text that is parsed when white space and the byte order mark have been skipped. */
  lemma FrontOfText(hasBom: bool, nodes: seq<Node>, pen: Pen) returns (t': string)
    requires GoodDocument(nodes) && NUL !in PrintNodes(nodes, pen, "")
    ensures t' == if hasBom then PrintNodes(nodes, pen, "") else Skip(PrintNodes(nodes, pen, ""))
    ensures t' != "" && Skip(t') == Skip(PrintNodes(nodes, pen, "")) && Leads(t') && Leads(PrintNodes(nodes, pen, ""))
    ensures var s := Skip(CString(Print(hasBom, nodes, pen)));
            hasBom == (BOM <= s) && t' == if hasBom then s[3..] else s
  {
    hide PrintBare, GoodName, GoodAttributes, After, Skip;
    var later := PrintNodes(nodes[1..], After(nodes[0], pen), "");
    var w, bare, t := pen.Gap(nodes[0]), PrintBare(nodes[0], pen, later), PrintNodes(nodes, pen, "");
    NoTextAtTop(nodes, 0);
    PrintedStart(nodes[0], pen, later, true);
    GapsAreBlank(pen, nodes[0]);
    SkipBlanks(w, bare);
    SkipNothing(bare);
    TagLeads(bare);
    NoNulIsWhole(hasBom, t);
    if hasBom {
      t' := t;
      SkipNothing(BOM + t);
      assert (BOM + t)[3..] == t;
    } else {
      t' := bare;
      assert "" + t == t;
      assert BOM[0] != bare[0];
    }
  }

  lemma NoNulIsWhole(hasBom: bool, t: string)
    requires NUL !in t
    ensures var s := (if hasBom then BOM else "") + t; CString(s) == s
  {
  }

  lemma FrontIsSkipped(hasBom: bool, nodes: seq<Node>, pen: Pen, options: Options, t': string)
    requires t' != "" && Leads(t') && Leads(PrintNodes(nodes, pen, "")) && Skip(t') == Skip(PrintNodes(nodes, pen, ""))
    requires var s := Skip(CString(Print(hasBom, nodes, pen)));
             hasBom == (BOM <= s) && t' == if hasBom then s[3..] else s
    ensures var r := ChildLoop(PrintNodes(nodes, pen, ""), options, true, 1, []);
            Parse(Print(hasBom, nodes, pen), options)
            == if r.error != Success then Invalid(r.error) else Document(hasBom, r.children)
  {
    hide PrintNodes, Skip, ChildLoop;
    SameLoop(t', PrintNodes(nodes, pen, ""), options);
  }

  lemma SameLoop(t: string, t': string, options: Options)
    requires Skip(t) == Skip(t') && Leads(t)
    ensures ChildLoop(t, options, true, 1, []) == ChildLoop(t', options, true, 1, [])
  {
    hide Skip, ParseNode;
    SameStart(t, t');
  }

  lemma SameStart(t: string, t': string)
    requires Skip(t) == Skip(t') && Leads(t)
    ensures Identify(t) == Identify(t')
  {
    hide Skip;
    assert Skip(t) != "" ==> "<" <= Skip(t);
  }

  lemma NothingLeft(options: Options, nodes: seq<Node>)
    ensures ChildLoop("", options, true, 1, nodes) == ChildrenResult(None, nodes, None, Success)
  {
    assert Skip("") == "";
  }

  /** Main result: it gives the same document back exactly when besides the texts and attribute values are clean
      and the white space fits the mode of the printer and that of the reader. */
  lemma RoundTrip(hasBom: bool, nodes: seq<Node>, compact: bool, depth: nat, options: Options)
    requires GoodDocument(nodes) && Readable(options)
    ensures Parse(Print(hasBom, nodes, NewPen(compact, depth)), options) == Document(hasBom, nodes)
            <==> NestingOfAll(nodes) <= 98 && Clean(nodes) && Suits(nodes, compact, options.collapseWhitespace)
  {
    hide Parse, Print, Readable, ReturnedAll, Clean, Suits, GoodNode, GoodNodes;
    ParsePrinted(hasBom, nodes, compact, depth, options);
    forall i | 0 <= i < |nodes|
      ensures !PlainText(nodes[i])
    {
      NoTextAtTop(nodes, i);
    }
    ReturnedIsSame(nodes, compact, options.collapseWhitespace, depth);
  }

  /** Compact printing changes nothing in a clean tree: parsing undoes it. */
  lemma ParseUndoesPrint(hasBom: bool, nodes: seq<Node>, depth: nat, options: Options)
    requires GoodDocument(nodes) && Clean(nodes) && Readable(options) && !options.collapseWhitespace
    ensures Parse(Print(hasBom, nodes, NewPen(true, depth)), options)
         == if NestingOfAll(nodes) <= 98 then Document(hasBom, nodes) else Invalid(DepthExceeded)
  {
    hide Parse, Print, Readable, ReturnedAll, Clean, GoodNode, GoodNodes;
    ParsePrinted(hasBom, nodes, true, depth, options);
    RoundTrip(hasBom, nodes, true, depth, options);
  }

  /** An element with a text in front of an element, and the same with the blanks that come back. */
  function Mixed(text: string): Node {
    Element("a", [], [Text(text, false), Element("b", [], [])])
  }

  lemma MixedIsGood()
    ensures GoodDocument([Mixed("x")])
  {
    var e, t := Element("b", [], []), Text("x", false);
    assert [Mixed("x")][1..] == [] && [t, e][1..] == [e] && [e][1..] == [];
    assert GoodNode(e, false) && GoodNodes([], false);
    assert GoodNodes([e], false);
    assert GoodNode(t, false);
    assert GoodNodes([t, e], false);
  }

  lemma MixedReturned()
    ensures ReturnedAll([Mixed("x")], false, false, 0) == [Mixed("x    ")]
  {
    hide ReturnedText, Blank;
    var e, t := Element("b", [], []), Text("x", false);
    assert [Mixed("x")][1..] == [] && [t, e][1..] == [e] && [e][1..] == [];
    MixedGrown();
    assert Returned(t, [e], false, false, 1) == Text("x    ", false);
    assert Returned(e, [], false, false, 1) == e;
    assert ReturnedAll([e], false, false, 1) == [e];
    assert ReturnedAll([t, e], false, false, 1) == [Text("x    ", false), e];
  }

  lemma MixedGrown()
    ensures ReturnedText("x", Spaces(1), false) == "x    " && !Blank("x")
  {
    assert !IsWhiteSpace("x"[0]);
    assert Spaces(1) == Spaces(0) + "    " == "    ";
    assert "x" + "    " == "x    ";
    NewlinesIsIdentityIff("x    ");
  }

  /** The text and the element inside, in front of the end tag. */
  lemma MixedInside(inside: Pen, within: Pen, end: string)
    requires inside == NewPen(false, 0).Inside() && within == inside.(textDepth := 0)
    ensures After(Text("x", false), inside) == within && AfterAll([Element("b", [], [])], within) == within
    ensures PrintNodes([Text("x", false), Element("b", [], [])], inside, end) == "x    <b/>" + end
  {
    var e, t := Element("b", [], []), Text("x", false);
    assert [t, e][1..] == [e] && [e][1..] == [];
    assert AfterAll([], within) == within && After(e, within) == within;
    MixedGap(within);
    assert PrintBare(e, within, end) == "<b/>" + end by {
      assert within.Behind(e) + end == end;
      assert PrintAttributes([], "/>" + end) == "/>" + end;
      assert "<" + ("b" + ("/>" + end)) == "<b/>" + end;
    }
    assert PrintNodes([e], within, end) == "    " + ("<b/>" + end) by {
      assert PrintNodes([], within, end) == end;
    }
    assert Escape("x", true) == "x" by {
      assert Escape("x", true) == EscapeChar('x', true) + Escape("x"[1..], true);
    }
    assert "" + ("x" + ("    " + ("<b/>" + end))) == "x    <b/>" + end;
  }

  lemma MixedGap(pen: Pen)
    requires pen.textDepth == 0 && !pen.compact && pen.depth == 1
    ensures pen.Gap(Element("b", [], [])) == "    " && pen.EndGap() == ""
  {
    assert Spaces(1) == Spaces(0) + "    " == "    ";
  }

  lemma MixedPrinted()
    ensures Print(false, [Mixed("x")], NewPen(false, 0)) == "<a>x    <b/></a>\n"
  {
    hide Escape, PrintAttributes, PrintNodes, EndTag;
    var e, t, pen := Element("b", [], []), Text("x", false), NewPen(false, 0);
    var inside, within := pen.Inside(), pen.Inside().(textDepth := 0);
    var m := Mixed("x");
    assert [m][1..] == [] && [t, e][1..] == [e];
    assert pen.Behind(m) + "" == "\n";
    var end := EndTag("a", "\n");
    MixedEnd();
    PrintOne(m, pen);
    MixedInside(inside, within, end);
    MixedGap(within);
    assert "" + end == end;
    NoAttributes(">" + PrintNodes(m.children, inside, end));
    MixedText(end);
    assert PrintBare(m, pen, "") == "<a>x    <b/></a>\n";
    assert pen.Gap(m) == "";
    assert "" + PrintBare(m, pen, "") == PrintBare(m, pen, "");
  }

  lemma MixedEnd()
    ensures EndTag("a", "\n") == "</a>\n"
  {
  }

  lemma MixedText(end: string)
    requires end == "</a>\n"
    ensures "<" + ("a" + (">" + ("x    <b/>" + end))) == "<a>x    <b/></a>\n"
  {
  }

  lemma PrintOne(n: Node, pen: Pen)
    ensures PrintNodes([n], pen, "") == pen.Gap(n) + PrintBare(n, pen, "")
  {
    hide PrintBare;
    assert [n][1..] == [];
  }

  lemma NoAttributes(rest: string)
    ensures PrintAttributes([], rest) == rest
  {
  }

  /** Pretty printing at a text in front of an element: the blanks that indent the element come back as text. */
  lemma MixedContentGrows(options: Options)
    requires Readable(options) && !options.collapseWhitespace
    ensures Print(false, [Mixed("x")], NewPen(false, 0)) == "<a>x    <b/></a>\n"
    ensures Parse("<a>x    <b/></a>\n", options) == Document(false, [Mixed("x    ")])
  {
    hide Parse, Print, Readable, ReturnedAll, GoodDocument;
    MixedIsGood();
    MixedReturned();
    MixedPrinted();
    ParsePrinted(false, [Mixed("x")], false, 0, options);
    MixedIsShallow();
  }

  lemma MixedIsShallow()
    ensures NestingOfAll([Mixed("x")]) == 1
  {
    var e, t := Element("b", [], []), Text("x", false);
    assert [Mixed("x")][1..] == [] && [t, e][1..] == [e] && [e][1..] == [];
    assert NestingOfAll([e]) == 0 && NestingOfAll([t, e]) == 0;
  }
}
