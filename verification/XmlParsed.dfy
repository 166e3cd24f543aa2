/** What the parser makes of any text is a good document, up to texts at the top, so that printing it and parsing
    again gives it back exactly when its texts allow it. */
module XmlParsed {
  import opened Optional
  import opened XmlText
  import opened XmlStrPair
  import opened XmlParse
  import opened XmlLayout
  import opened XmlRoundTrip

  // ----- Pieces ------------------------------------------------------------------------

  lemma CutHasNoTag(t: string, tag: string)
    requires NUL !in t && tag != "" && ParseText(t, tag).Some?
    ensures var c := ParseText(t, tag).value;
            NUL !in c.text && NUL !in c.rest && !Contains(c.text, tag)
  {
    var i := FindTag(t, tag, 0);
    var c := ParseText(t, tag).value;
    forall k | 0 <= k <= |c.text|
      ensures !(tag <= c.text[k..])
    {
      assert c.text[k..] <= t[k..];
      assert k < i ==> !(tag <= t[k..]);
    }
  }

  /** A tag without line ends that stands in a normalised text stood there before. */
  lemma {:induction false} TagWasThere(v: string, tag: string)
    requires CR !in tag && LF !in tag && tag <= Newlines(v)
    ensures tag <= v
  {
    if tag != "" {
      assert tag[0] == Newlines(v)[0] && LineEnd(v) == 0;
      assert tag[1..] <= Newlines(v)[1..] == Newlines(v[1..]);
      TagWasThere(v[1..], tag[1..]);
      assert tag == [tag[0]] + tag[1..] && v == [v[0]] + v[1..];
    }
  }

  lemma {:induction false} TagWasSomewhere(v: string, tag: string, i: nat) returns (j: nat)
    requires CR !in tag && LF !in tag && i <= |Newlines(v)| && tag <= Newlines(v)[i..]
    ensures j <= |v| && tag <= v[j..]
    decreases |v|
  {
    if i == 0 {
      j := 0;
      assert Newlines(v)[0..] == Newlines(v) && v[0..] == v;
      TagWasThere(v, tag);
    } else {
      var n := if LineEnd(v) > 0 then LineEnd(v) else 1;
      assert Newlines(v)[i..] == Newlines(v[n..])[i - 1..];
      j := TagWasSomewhere(v[n..], tag, i - 1);
      assert v[n..][j..] == v[n + j..];
      j := n + j;
    }
  }

  /** Line ends apart, what stands in the raw kinds is what was cut out, so it is plain and has no end tag. */
  lemma RawIsGood(v: string, tag: string)
    requires NUL !in v && !Contains(v, tag) && CR !in tag && LF !in tag
    ensures Shown(v, RAW) == Newlines(v) && Plain(Newlines(v)) && !Contains(Newlines(v), tag)
  {
    hide Newlines;
    ShownRaw(v);
    NoNulIsAll(v);
    forall i | 0 <= i < |Newlines(v)|
      ensures Newlines(v)[i] != CR && Newlines(v)[i] != NUL
    {
      assert Newlines(v)[i] in Newlines(v);
    }
    if i :| 0 <= i <= |Newlines(v)| && tag <= Newlines(v)[i..] {
      var j := TagWasSomewhere(v, tag, i);
    }
  }

  lemma {:induction false} CollapseBringsNothing(s: string, p: nat, out: string)
    requires |out| <= p <= |s| && NUL !in s && NUL !in out
    ensures NUL !in CollapseFrom(s, p, out)
    decreases |s| - p
  {
    hide SkipWhiteSpace;
    var r := SkipWhiteSpace(s, p);
    if r < |s| {
      assert s[r] in s && s[p] in s;
      CollapseBringsNothing(s, r + 1, out + if r == p then [s[p]] else [' ', s[r]]);
    }
  }

  /** What a reader sees never holds a NUL. */
  lemma ShownHasNoNul(v: string, flags: Flags)
    ensures NUL !in Shown(v, flags)
  {
    hide Decode, CollapseFrom, SkipWhiteSpace;
    var d := if flags == Flags(false, false, false) then v else Decode(v, 0, "", flags);
    var c := CString(d);
    CollapseBringsNothing(c[SkipWhiteSpace(c, 0)..], 0, "");
  }

  lemma NameIsGood(t: string)
    requires NUL !in t && ParseName(t).Some?
    ensures GoodName(ParseName(t).value.text) && NUL !in ParseName(t).value.rest
  {
  }

  lemma SkipHasNoNul(t: string)
    requires NUL !in t
    ensures NUL !in Skip(t) && (t != "" ==> NUL !in t[1..])
  {
  }

  lemma AttributeIsGood(t: string, options: Options)
    requires NUL !in t && ParseAttribute(t, options).Some?
    ensures var a := ParseAttribute(t, options).value;
            GoodName(a.attribute.name) && NUL !in a.attribute.value && NUL !in a.rest
  {
    hide ParseName, ParseText, Skip, Shown, GoodName;
    NameIsGood(t);
    var t1 := Skip(ParseName(t).value.rest);
    SkipHasNoNul(ParseName(t).value.rest);
    SkipHasNoNul(t1);
    SkipHasNoNul(t1[1..]);
    var t2 := Skip(t1[1..]);
    SkipHasNoNul(t2);
    CutHasNoTag(t2[1..], [t2[0]]);
    ShownHasNoNul(ParseText(t2[1..], [t2[0]]).value.text, options.AttributeFlags());
  }

  lemma {:induction false} AttributesAreGood(t: string, before: seq<Attribute>, closing: Closing, options: Options)
    requires NUL !in t && GoodAttributes(before)
    ensures var r := ParseAttributes(t, before, closing, options);
            r.rest.Some? ==> GoodAttributes(r.attributes) && NUL !in r.rest.value
    decreases |t|
  {
    hide ParseAttribute, Skip, GoodName, IsNameStartChar;
    SkipHasNoNul(t);
    var u := Skip(t);
    if u != "" && IsNameStartChar(u[0]) {
      var a := ParseAttribute(u, options);
      if a.Some? && !HasAttribute(before, a.value.attribute.name) {
        AttributeIsGood(u, options);
        OneMoreIsGood(before, a.value.attribute);
        AttributesAreGood(a.value.rest, before + [a.value.attribute], closing, options);
      }
    }
  }

  lemma OneMoreIsGood(before: seq<Attribute>, a: Attribute)
    requires GoodAttributes(before) && GoodName(a.name) && NUL !in a.value && !HasAttribute(before, a.name)
    ensures GoodAttributes(before + [a])
  {
    hide GoodName;
  }

  // ----- Nodes ---------------------------------------------------------------------------

  /** A good node, or a text wherever it stands. */
  predicate Made(n: Node, atTop: bool) {
    if PlainText(n) then NUL !in n.value else GoodNode(n, atTop)
  }

  /** A reader that collapses white space makes collapsed texts. */
  predicate Settled(n: Node, options: Options) {
    options.collapseWhitespace ==> AllCollapsed([n])
  }

  lemma {:induction false} CollapsedAre(nodes: seq<Node>)
    ensures AllCollapsed(nodes) <==> forall i :: 0 <= i < |nodes| ==> AllCollapsed([nodes[i]])
    decreases |nodes|
  {
    if nodes != [] {
      CollapsedAre(nodes[1..]);
      OneOfAll(nodes);
      assert forall i :: 1 <= i < |nodes| ==> nodes[i] == nodes[1..][i - 1];
    }
  }

  lemma OneOfAll(nodes: seq<Node>)
    requires nodes != []
    ensures AllCollapsed(nodes) <==> AllCollapsed([nodes[0]]) && AllCollapsed(nodes[1..])
  {
    hide Collapsed;
    assert [nodes[0]][1..] == [];
  }

  lemma SettledElement(name: string, attributes: seq<Attribute>, children: seq<Node>, options: Options)
    ensures Settled(Element(name, attributes, children), options)
            <==> (options.collapseWhitespace ==> AllCollapsed(children))
  {
    SettledIs(Element(name, attributes, children), options);
  }

  lemma SettledIs(n: Node, options: Options)
    ensures Settled(n, options) <==> (options.collapseWhitespace ==>
              (n.Element? ==> AllCollapsed(n.children)) && (PlainText(n) ==> Collapsed(n.value)))
  {
    hide Collapsed;
    assert [n][0] == n && [n][1..] == [] && AllCollapsed([]);
  }

  /** Siblings in front of `t`. */
  predicate MadeAll(nodes: seq<Node>, atTop: bool, t: string, options: Options) {
    && (forall i :: 0 <= i < |nodes| ==> Made(nodes[i], atTop) && Settled(nodes[i], options))
    && NoTextPairs(nodes) && (atTop ==> DeclarationsFirst(nodes))
    && (nodes != [] && PlainText(nodes[|nodes| - 1]) ==> t != "" && t[0] == '<')
  }

  lemma {:induction false} GoodNodesAre(nodes: seq<Node>, atTop: bool)
    ensures GoodNodes(nodes, atTop) <==> forall i :: 0 <= i < |nodes| ==> GoodNode(nodes[i], atTop)
    decreases |nodes|
  {
    hide GoodNode;
    if nodes != [] {
      GoodNodesAre(nodes[1..], atTop);
      assert forall i :: 1 <= i < |nodes| ==> nodes[i] == nodes[1..][i - 1];
    }
  }

  lemma {:induction false} NestingSnoc(nodes: seq<Node>, n: Node)
    ensures var a, b := NestingOfAll(nodes), Nesting(n);
            NestingOfAll(nodes + [n]) == if a < b then b else a
  {
    hide Nesting;
    if nodes == [] {
      assert [] + [n] == [n] && [n][1..] == [];
    } else {
      NestingSnoc(nodes[1..], n);
      assert (nodes + [n])[1..] == nodes[1..] + [n];
    }
  }

  /** What is read of a node, in front of what is left. */
  predicate NodeIsMade(r: NodeResult, depth: nat, options: Options) {
    r.rest.Some? ==>
      && Made(r.node, true) && Settled(r.node, options) && NUL !in r.rest.value
      && depth + Nesting(r.node) < MAX_ELEMENT_DEPTH
      && (PlainText(r.node) ==> r.rest.value != "" && r.rest.value[0] == '<')
  }

  lemma HeaderHasNoNul(t: string)
    requires NUL !in t && Identify(t).Header?
    ensures NUL !in Identify(t).rest
  {
    hide Skip;
    SkipHasNoNul(t);
  }

  /** An unknown is neither a comment nor a CDATA section. */
  lemma UnknownStart(t: string)
    requires Identify(t).Header? && Identify(t).node.Unknown?
    ensures !("--" <= Identify(t).rest) && !("[CDATA[" <= Identify(t).rest)
  {
    hide Skip;
    var s, rest := Skip(t), Identify(t).rest;
    LongTags();
    assert s == "<!" + rest;
    PrefixTogether("<!", "--", rest);
    PrefixTogether("<!", "[CDATA[", rest);
  }

  lemma PrefixTogether(a: string, b: string, t: string)
    ensures b <= t ==> a + b <= a + t
  {
    if b <= t {
      assert a + t == a + b + t[|b|..];
    }
  }

  lemma LeafIsGood(t: string, options: Options, depth: nat)
    requires NUL !in t && Identify(t).Header? && !Identify(t).node.Element? && depth < MAX_ELEMENT_DEPTH
    ensures NodeIsMade(ParseNode(Identify(t), options, depth), depth, options)
  {
    hide Identify, ParseText, Shown, Contains, Newlines, FindTag;
    var h := Identify(t);
    HeaderHasNoNul(t);
    SettledIs(ParseNode(h, options, depth).node, options);
    if PlainText(h.node) {
      TextIsMade(h.rest, options, depth);
    } else {
      var tag := EndTagOf(h.node);
      if ParseText(h.rest, tag).Some? {
        CutHasNoTag(h.rest, tag);
        RawIsGood(ParseText(h.rest, tag).value.text, tag);
        if h.node.Unknown? {
          UnknownStart(t);
          UnknownIsGood(h.rest);
        }
      }
    }
  }

  function EndTagOf(n: Node): (tag: string)
    ensures tag != "" && CR !in tag && LF !in tag
  {
    match n
    case Text(_, _) => "]]>"
    case Comment(_) => "-->"
    case Declaration(_) => "?>"
    case _ => ">"
  }

  lemma UnknownIsGood(t: string)
    requires !("--" <= t) && !("[CDATA[" <= t) && ParseText(t, ">").Some?
    ensures var v := Newlines(ParseText(t, ">").value.text);
            !("--" <= v) && !("[CDATA[" <= v)
  {
    hide Newlines, FindTag;
    var w := ParseText(t, ">").value.text;
    assert w <= t;
    if "--" <= Newlines(w) {
      TagWasThere(w, "--");
    }
    if "[CDATA[" <= Newlines(w) {
      TagWasThere(w, "[CDATA[");
    }
  }

  lemma TextIsMade(t: string, options: Options, depth: nat)
    requires NUL !in t && depth < MAX_ELEMENT_DEPTH
    ensures NodeIsMade(ParseTextNode(t, options), depth, options)
  {
    hide Shown;
    var cut := ParseText(t, "<");
    if cut.Some? {
      var i := FindTag(t, "<", 0);
      assert "<"[0] == t[i..][0];
      ShownHasNoNul(cut.value.text, options.TextFlags());
      ShownIsCollapsed(cut.value.text, options.TextFlags());
      SettledIs(ParseTextNode(t, options).node, options);
    }
  }

  lemma ShownIsCollapsed(v: string, flags: Flags)
    ensures flags.collapse ==> Collapsed(Shown(v, flags))
  {
    hide Decode, Collapsed, Collapse;
    var d := if flags == Flags(false, false, false) then v else Decode(v, 0, "", flags);
    CollapseShape(CString(d));
  }

  lemma {:induction false} NodeIsGood(t: string, options: Options, depth: nat)
    requires NUL !in t && Identify(t).Header? && depth < MAX_ELEMENT_DEPTH
    ensures NodeIsMade(ParseNode(Identify(t), options, depth), depth, options)
    decreases |Identify(t).rest|, 1
  {
    hide Identify, ParseElement, NodeIsMade;
    if Identify(t).node.Element? {
      HeaderHasNoNul(t);
      ElementIsGood(Identify(t).rest, options, depth);
    } else {
      LeafIsGood(t, options, depth);
    }
  }

  lemma {:induction false} ElementIsGood(t: string, options: Options, depth: nat)
    requires NUL !in t && depth < MAX_ELEMENT_DEPTH
    ensures NodeIsMade(ParseElement(t, options, depth), depth, options)
    decreases |t|, 0
  {
    hide Skip, ParseName, ParseAttributes, ParseChildren, GoodName, GoodAttributes, Settled;
    SkipHasNoNul(t);
    var t1 := Skip(t);
    SkipHasNoNul(t1);
    var closing := t1 != "" && t1[0] == '/';
    var u := if closing then t1[1..] else t1;
    if ParseName(u).Some? {
      NameIsGood(u);
      var name := ParseName(u).value;
      NoAttributesAreGood();
      AttributesAreGood(name.rest, [], if closing then Closing else Open, options);
      var a := ParseAttributes(name.rest, [], if closing then Closing else Open, options);
      if a.rest.Some? && a.rest.value != "" && a.closing == Open {
        ChildrenAreGood(a.rest.value, options, false, depth);
        var k := ParseChildren(a.rest.value, options, false, depth);
        if k.rest.Some? {
          ParentIsGood(name.text, a.attributes, k, depth, options);
        }
      } else {
        assert GoodNodes([], false) && NoTextPairs([]);
        SettledElement(name.text, a.attributes, [], options);
      }
    }
  }

  lemma NoAttributesAreGood()
    ensures GoodAttributes([])
  {
  }

  lemma ParentIsGood(name: string, attributes: seq<Attribute>, k: ChildrenResult, depth: nat, options: Options)
    requires GoodName(name) && GoodAttributes(attributes) && ChildrenAreMade(k, false, depth + 1, options)
    requires k.rest.Some? && k.error == Success
    ensures var e := Element(name, attributes, k.children);
            GoodNode(e, true) && Settled(e, options) && depth + Nesting(e) < MAX_ELEMENT_DEPTH
  {
    hide GoodName, GoodAttributes, NestingOfAll, Made, GoodNode, AllCollapsed;
    forall i | 0 <= i < |k.children|
      ensures GoodNode(k.children[i], false)
    {
      MadeBelow(k.children[i]);
    }
    GoodNodesAre(k.children, false);
    CollapsedAre(k.children);
    SettledElement(name, attributes, k.children, options);
    GoodElement(Element(name, attributes, k.children));
  }

  lemma MadeBelow(n: Node)
    ensures Made(n, false) ==> GoodNode(n, false)
    ensures Made(n, true) && !n.Declaration? ==> Made(n, false)
  {
    hide GoodName, GoodAttributes;
  }

  lemma GoodElement(n: Node)
    requires n.Element? && GoodName(n.name) && GoodAttributes(n.attributes)
    requires GoodNodes(n.children, false) && NoTextPairs(n.children)
    ensures GoodNode(n, true) && Nesting(n) == if n.children == [] then 0 else 1 + NestingOfAll(n.children)
  {
  }

  /** What is read of the children of a node. */
  predicate ChildrenAreMade(r: ChildrenResult, atTop: bool, depth: nat, options: Options) {
    && (r.rest.Some? ==> NUL !in r.rest.value && depth < MAX_ELEMENT_DEPTH)
    && (r.error == Success ==>
         && (forall i :: 0 <= i < |r.children| ==> Made(r.children[i], atTop) && Settled(r.children[i], options))
         && NoTextPairs(r.children) && (atTop ==> DeclarationsFirst(r.children))
         && depth + NestingOfAll(r.children) < MAX_ELEMENT_DEPTH)
  }

  lemma {:induction false} ChildrenAreGood(t: string, options: Options, atTop: bool, depth: nat)
    requires NUL !in t && depth < MAX_ELEMENT_DEPTH
    ensures ChildrenAreMade(ParseChildren(t, options, atTop, depth), atTop, depth + 1, options)
    decreases |t|, 3
  {
    hide ChildLoop;
    if depth + 1 < MAX_ELEMENT_DEPTH {
      LoopIsGood(t, options, atTop, depth + 1, []);
    }
  }

  lemma {:induction false} LoopIsGood(t: string, options: Options, atTop: bool, depth: nat, children: seq<Node>)
    requires NUL !in t && depth < MAX_ELEMENT_DEPTH && MadeAll(children, atTop, t, options)
    requires depth + NestingOfAll(children) < MAX_ELEMENT_DEPTH
    ensures ChildrenAreMade(ChildLoop(t, options, atTop, depth, children), atTop, depth, options)
    decreases |t|, 2
  {
    hide Identify, ParseNode, NestingOfAll, Nesting, GoodNode, Mismatch, WellLocated, MadeAll, NodeIsMade;
    LoopStepIs(t, options, atTop, depth, children);
    MadeFacts(children, atTop, t, options);
    if Identify(t).Header? {
      var r := ParseNode(Identify(t), options, depth);
      NodeIsGood(t, options, depth);
      NodeShrinks(t, options, depth);
      KindStays(t, options, depth);
      if r.rest.Some? && !(r.node.Declaration? && !WellLocated(atTop, children)) {
        OneMoreChild(t, children, atTop, r, depth, options);
        if !(r.node.Element? && (r.closing == Closing || Mismatch(r))) {
          LoopIsGood(r.rest.value, options, atTop, depth, children + [r.node]);
        } else {
          RestFacts(r, depth, options);
        }
      }
    }
  }

  /** One turn of the loop over the children. */
  lemma LoopStepIs(t: string, options: Options, atTop: bool, depth: nat, children: seq<Node>)
    ensures var h, l := Identify(t), ChildLoop(t, options, atTop, depth, children);
            if h.NoNode? then l == ChildrenResult(None, children, None, Success)
            else
              var r := ParseNode(h, options, depth);
              if r.rest.None? then
                l == ChildrenResult(None, children, None, if r.error == Success then Parsing else r.error)
              else if r.node.Declaration? && !WellLocated(atTop, children) then
                l == ChildrenResult(None, children, None, ParsingDeclaration)
              else if r.node.Element? && r.closing == Closing then
                l == ChildrenResult(r.rest, children, if atTop then None else Some(r.node.name), Success)
              else if r.node.Element? && Mismatch(r) then l == ChildrenResult(None, children, None, MismatchedElement)
              else l == ChildLoop(r.rest.value, options, atTop, depth, children + [r.node])
  {
    hide ParseNode, Identify, WellLocated, Mismatch;
    assert Identify("").NoNode?;
  }

  lemma MadeFacts(children: seq<Node>, atTop: bool, t: string, options: Options)
    requires MadeAll(children, atTop, t, options)
    ensures forall i :: 0 <= i < |children| ==> Made(children[i], atTop) && Settled(children[i], options)
    ensures NoTextPairs(children) && (atTop ==> DeclarationsFirst(children))
  {
  }

  lemma RestFacts(r: NodeResult, depth: nat, options: Options)
    requires NodeIsMade(r, depth, options) && r.rest.Some?
    ensures NUL !in r.rest.value
  {
  }

  lemma NodeShrinks(t: string, options: Options, depth: nat)
    requires Identify(t).Header?
    ensures var r := ParseNode(Identify(t), options, depth);
            r.rest.Some? ==> |r.rest.value| < |t|
  {
    hide ParseNode, Identify;
  }

  /** In front of a tag no text is read. */
  lemma KindStays(t: string, options: Options, depth: nat)
    requires Identify(t).Header?
    ensures var r := ParseNode(Identify(t), options, depth);
            r.rest.Some? && PlainText(r.node) ==> t == "" || t[0] != '<'
  {
    hide Identify, ParseNode, Skip;
    if t != "" && t[0] == '<' {
      NothingInFront(t);
    }
    SameKind(Identify(t), options, depth);
  }

  lemma NothingInFront(t: string)
    requires t != "" && t[0] == '<'
    ensures Skip(t) == t
  {
    SkipNothing(t);
  }

  lemma SameKind(h: Header, options: Options, depth: nat)
    requires h.Header?
    ensures PlainText(ParseNode(h, options, depth).node) ==> PlainText(h.node)
  {
    hide ParseText, Shown, ParseElement;
    ElementStays(h.rest, options, depth);
  }

  lemma ElementStays(t: string, options: Options, depth: nat)
    ensures ParseElement(t, options, depth).node.Element?
  {
    hide Skip, ParseName, ParseAttributes, ParseChildren;
  }

  lemma OneMoreChild(t: string, children: seq<Node>, atTop: bool, r: NodeResult, depth: nat, options: Options)
    requires MadeAll(children, atTop, t, options) && NodeIsMade(r, depth, options) && r.rest.Some?
    requires r.node.Declaration? ==> WellLocated(atTop, children)
    requires PlainText(r.node) ==> t == "" || t[0] != '<'
    requires depth + NestingOfAll(children) < MAX_ELEMENT_DEPTH
    ensures MadeAll(children + [r.node], atTop, r.rest.value, options) && NUL !in r.rest.value
    ensures depth + NestingOfAll(children + [r.node]) < MAX_ELEMENT_DEPTH
  {
    hide Made, GoodNode, Nesting, NestingOfAll;
    NestingSnoc(children, r.node);
    MadeBelow(r.node);
    assert !(children != [] && PlainText(children[|children| - 1]) && PlainText(r.node));
    if atTop {
      DeclarationsStayFirst(children, r.node);
    }
  }

  lemma DeclarationsStayFirst(children: seq<Node>, n: Node)
    requires DeclarationsFirst(children) && (n.Declaration? ==> WellLocated(true, children))
    ensures DeclarationsFirst(children + [n])
  {
    var all := children + [n];
    forall i, j | 0 <= i < j < |all| && all[j].Declaration?
      ensures all[i].Declaration?
    {
      if j == |children| {
        assert i < |children| - 1 ==> children[|children| - 1].Declaration?;
      }
    }
  }

  // ----- Documents -------------------------------------------------------------------------

  /** No text stands outside the elements. */
  predicate NoTopText(nodes: seq<Node>) {
    forall i :: 0 <= i < |nodes| ==> !PlainText(nodes[i])
  }

  /** What the parser makes of any text is a good document if it is not empty and has no text at the top. */
  lemma ParsedIsGood(text: string, options: Options)
    requires Parse(text, options).Document?
    ensures var nodes := Parse(text, options).children;
            && NestingOfAll(nodes) <= 98 && (GoodDocument(nodes) <==> nodes != [] && NoTopText(nodes))
            && (options.collapseWhitespace ==> AllCollapsed(nodes))
  {
    hide Skip, ParseChildren, NestingOfAll, GoodNode, GoodNodes, NoTextPairs, DeclarationsFirst, Made, AllCollapsed;
    var t := Skip(CString(text));
    SkipHasNoNul(CString(text));
    var t' := if BOM <= t then t[3..] else t;
    ChildrenAreGood(t', options, true, 0);
    var nodes := ParseChildren(t', options, true, 0).children;
    GoodNodesAre(nodes, true);
    CollapsedAre(nodes);
    forall i | 0 <= i < |nodes|
      ensures GoodNode(nodes[i], true) <==> !PlainText(nodes[i])
    {
      MadeAtTop(nodes[i]);
    }
  }

  lemma MadeAtTop(n: Node)
    requires Made(n, true)
    ensures GoodNode(n, true) <==> !PlainText(n)
  {
    hide GoodName, GoodAttributes;
  }

  /** Main result: over all trees without text at the top, whatever their names and values, printing and parsing
      gives the tree back exactly if it is good, not nested too deeply, clean and suited to printer and reader. */
  lemma RoundTripsExactly(hasBom: bool, nodes: seq<Node>, compact: bool, depth: nat, options: Options)
    requires NoTopText(nodes) && Readable(options)
    ensures Parse(Print(hasBom, nodes, NewPen(compact, depth)), options) == Document(hasBom, nodes)
            <==> && GoodDocument(nodes) && NestingOfAll(nodes) <= 98
                 && Clean(nodes) && Suits(nodes, compact, options.collapseWhitespace)
  {
    hide Parse, Print, Readable, Clean, Suits, GoodNodes, NestingOfAll, DeclarationsFirst;
    if GoodDocument(nodes) {
      RoundTrip(hasBom, nodes, compact, depth, options);
    } else if Parse(Print(hasBom, nodes, NewPen(compact, depth)), options) == Document(hasBom, nodes) {
      ParsedIsGood(Print(hasBom, nodes, NewPen(compact, depth)), options);
      NothingIsEmpty(hasBom, NewPen(compact, depth), options);
      assert false;
    }
  }

  lemma NothingIsEmpty(hasBom: bool, pen: Pen, options: Options)
    ensures Parse(Print(hasBom, [], pen), options) == Invalid(EmptyDocument)
  {
    hide ParseChildren;
    assert BOM + "" == BOM && "" + "" == "";
    assert NUL !in BOM && NUL !in "";
    SkipNothing(BOM);
    SkipNothing("");
    assert BOM[3..] == "";
  }

  /** Main result: for every text that parses without text at the top, printing the document and parsing it again
      gives the document back exactly if it is not empty and clean, and, unless the reader collapses white space or
      the printer is compact, has no text directly in front of an element. */
  lemma PrintAfterParse(text: string, compact: bool, depth: nat, options: Options)
    requires Parse(text, options).Document? && NoTopText(Parse(text, options).children) && Readable(options)
    ensures var d := Parse(text, options);
            Parse(Print(d.hasBom, d.children, NewPen(compact, depth)), options) == d
            <==> && d.children != [] && Clean(d.children)
                 && (options.collapseWhitespace || compact || Unmixed(d.children))
  {
    hide Parse, Print, Readable, Clean, Unmixed, AllCollapsed, GoodDocument, NestingOfAll, NoTopText;
    var d := Parse(text, options);
    ParsedIsGood(text, options);
    RoundTripsExactly(d.hasBom, d.children, compact, depth, options);
  }

  // ----- Texts that are lost -----------------------------------------------------------------

  /** A text inside an element `a`. */
  function Inside(v: string): string {
    "<a>" + v + "</a>"
  }

  predicate OneWord(v: string) {
    v != "" && !IsWhiteSpace(v[0]) && '<' !in v && NUL !in v
  }

  lemma TextInside(v: string, options: Options)
    requires OneWord(v)
    ensures ParseChildren(v + EndTag("a", ""), options, false, 1)
         == ChildrenResult(Some(""), [Text(Shown(v, options.TextFlags()), false)], Some("a"), Success)
  {
    hide ChildLoop, Identify, Shown, ParseText, Skip;
    var end, s := EndTag("a", ""), Shown(v, options.TextFlags());
    var t := v + end;
    SkipNothing(t);
    HeaderText(t);
    ContainsChar(v, '<');
    assert end == "<" + "/a>";
    ParseTextPrinted(v, "<", "/a>");
    assert t[|v|..] == end;
    TextStep(t, s, end, options, 2, false, []);
    assert [] + [Text(s, false)] == [Text(s, false)];
    assert GoodName("a");
    ClosingTagPrinted("a", "", options, 2, [Text(s, false)]);
  }

  lemma OneText(v: string, options: Options)
    requires OneWord(v) && Readable(options)
    ensures Parse(Inside(v), options)
         == Document(false, [Element("a", [], [Text(Shown(v, options.TextFlags()), false)])])
  {
    hide ChildLoop, Identify, Shown, Skip, ParseChildren, EndTag, GoodNode, OneWord, ParseNode;
    var inner, e := v + EndTag("a", ""), Element("a", [], [Text(Shown(v, options.TextFlags()), false)]);
    InsideIs(v);
    NamedA();
    ElementPrinted(Element("a", [], []), inner, options, 1);
    TextInside(v, options);
    assert ReturnedAttributes([]) == [];
    LoopStepIs(Inside(v), options, true, 1, []);
    assert [] + [e] == [e];
    NothingLeft(options, [e]);
    ParseOf(Inside(v), options);
  }

  lemma NamedA()
    ensures GoodNode(Element("a", [], []), false)
  {
    assert GoodName("a") && GoodAttributes([]) && GoodNodes([], false) && NoTextPairs([]);
  }

  lemma InsideIs(v: string)
    requires OneWord(v)
    ensures Inside(v) == "<" + ("a" + PrintAttributes([], ">" + (v + EndTag("a", ""))))
    ensures NUL !in Inside(v) && Inside(v)[0] == '<' && v + EndTag("a", "") != ""
  {
    assert EndTag("a", "") == "</a>";
    assert PrintAttributes([], ">" + (v + "</a>")) == ">" + (v + "</a>");
    NoNulBehind("<a>" + v, "</a>");
    NoNulBehind("<a>", v);
  }

  /** A text that starts with a tag is parsed from its beginning. */
  lemma ParseOf(t: string, options: Options)
    requires t != "" && t[0] == '<' && NUL !in t
    ensures var r := ChildLoop(t, options, true, 1, []);
            Parse(t, options) == if r.error != Success then Invalid(r.error) else Document(false, r.children)
  {
    hide ChildLoop, Skip;
    SkipNothing(t);
    assert BOM[0] != t[0];
  }

  /** The references to a tab and to a carriage return. */
  lemma ReferenceTo(d: char)
    requires d == '9' || d == 'D'
    ensures CharacterRef("&#x" + [d] + ";") == Some(Piece(5, if d == '9' then "\t" else "\r"))
  {
    hide CharacterRef, Pow, Numeral, Weighted;
    assert Digits([d], true) && Digits("", true) && DigitValue(d, true) == if d == '9' then 9 else 13;
    NoDigits();
    Front(d, "", true);
    assert [d] + "" == [d];
    CharacterRefValue([d], "", true);
    assert "&#x" + [d] + ";" + "" == "&#x" + [d] + ";";
  }

  lemma NoDigits()
    ensures Pow(16, 0) == 1 && Weighted("", true) == 0
  {
  }

  lemma ReferenceStep(v: string, p: nat, d: char, q: nat, flags: Flags)
    requires flags.entities && q <= p <= |v| && v[p..] == "&#x" + [d] + ";" && (d == '9' || d == 'D')
    ensures DecodeStep(v, p, q, flags) == Piece(5, if d == '9' then "\t" else "\r")
  {
    hide CharacterRef, FindEntity;
    ReferenceTo(d);
    assert v[p] == v[p..][0] && v[p + 1] == v[p..][1];
  }

  lemma ShownIs(v: string, flags: Flags, d: string)
    requires flags == Flags(true, true, false) && Decode(v, 0, "", flags) == d && NUL !in d
    ensures Shown(v, flags) == d
  {
    hide Decode;
    NoNulIsAll(d);
  }

  lemma ReferencesAreWords()
    ensures OneWord("x&#xD;") && OneWord("&#x9;")
  {
  }

  lemma ReferenceShown(flags: Flags)
    requires flags == Flags(true, true, false)
    ensures OneWord("x&#xD;") && Shown("x&#xD;", flags) == "x\r"
  {
    hide DecodeStep, Decode, Shown, OneWord;
    ReferencesAreWords();
    var v := "x&#xD;";
    assert v[1..] == "&#x" + ['D'] + ";";
    assert DecodeStep(v, 0, 0, flags) == Piece(1, "x") by {
      assert "" + ['x'] + v[1..] == v;
      DecodeStepOfPlain("", 'x', v[1..], 0, flags);
    }
    OneStep(v, 0, "", flags, Piece(1, "x"));
    assert "" + "x" == "x";
    ReferenceStep(v, 1, 'D', 1, flags);
    OneStep(v, 1, "x", flags, Piece(5, "\r"));
    NothingToRead(v, "x" + "\r", flags);
    assert "x" + "\r" == "x\r" && "x\r" + "" == "x\r";
    ShownIs(v, flags, "x\r");
  }

  /** A reference to a carriage return: printed as it is and then read as a line feed. */
  lemma ReturnIsLost(depth: nat, options: Options)
    requires Readable(options) && !options.collapseWhitespace
    ensures var d := Parse("<a>x&#xD;</a>", options);
            && d.Document? && NoTopText(d.children)
            && Parse(Print(d.hasBom, d.children, NewPen(true, depth)), options) != d
  {
    hide Parse, Print, Shown;
    var nodes := [Element("a", [], [Text("x\r", false)])];
    ReferenceShown(options.TextFlags());
    OneText("x&#xD;", options);
    assert Inside("x&#xD;") == "<a>x&#xD;</a>";
    PrintAfterParse("<a>x&#xD;</a>", true, depth, options);
    assert !Clean(nodes[0].children) by {
      assert "x\r"[1] == CR;
    }
  }

  lemma TabShown(flags: Flags)
    requires flags == Flags(true, true, false)
    ensures OneWord("&#x9;") && Shown("&#x9;", flags) == "\t"
  {
    hide DecodeStep, Decode, Shown, OneWord;
    ReferencesAreWords();
    var v := "&#x9;";
    assert v[0..] == v == "&#x" + ['9'] + ";";
    ReferenceStep(v, 0, '9', 0, flags);
    OneStep(v, 0, "", flags, Piece(5, "\t"));
    NothingToRead(v, "" + "\t", flags);
    assert "" + "\t" == "\t" && "\t" + "" == "\t";
    ShownIs(v, flags, "\t");
  }

  /** A reference to white space: printed as it is and then taken for the white space in front of a tag. */
  lemma BlankIsLost(depth: nat, options: Options)
    requires Readable(options) && !options.collapseWhitespace
    ensures var d := Parse("<a>&#x9;</a>", options);
            && d.Document? && NoTopText(d.children)
            && Parse(Print(d.hasBom, d.children, NewPen(true, depth)), options) != d
  {
    hide Parse, Print, Shown;
    var nodes := [Element("a", [], [Text("\t", false)])];
    TabShown(options.TextFlags());
    OneText("&#x9;", options);
    assert Inside("&#x9;") == "<a>&#x9;</a>";
    PrintAfterParse("<a>&#x9;</a>", true, depth, options);
    assert !Clean(nodes[0].children);
  }
}
