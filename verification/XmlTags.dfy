/** The tags of a text, read off without building a tree: in every text that parses, each element ends at the end
    tag of its own name. */
module XmlTags {
  import opened Optional
  import opened XmlText
  import opened XmlStrPair
  import opened XmlParse
  import opened XmlLayout
  import opened XmlRoundTrip
  import opened XmlParsed

  // ----- Tags --------------------------------------------------------------------------

  datatype Tag = Begin(name: string) | End(name: string)

  /** What stands behind a comment, a declaration, an unknown, a CDATA section or a text. */
  function BehindLeaf(h: Header): (r: Option<string>)
    requires h.Header? && !h.node.Element?
    ensures r.Some? && !PlainText(h.node) ==> |r.value| < |h.rest|
  {
    match h.node
    case Declaration(_) => Behind(h.rest, "?>")
    case Comment(_) => Behind(h.rest, "-->")
    case Unknown(_) => Behind(h.rest, ">")
    case Text(_, cdata) =>
      if cdata then Behind(h.rest, "]]>")
      else if Behind(h.rest, "<").None? || Behind(h.rest, "<") == Some("") then None
      else Some(h.rest[FindTag(h.rest, "<", 0)..])
  }

  function Behind(t: string, tag: string): (r: Option<string>)
    requires tag != ""
    ensures r.Some? ==> |r.value| < |t|
  {
    var i := FindTag(t, tag, 0);
    if i == |t| then None else Some(t[i + |tag|..])
  }

  /** A tag behind its `<`: its name, what kind of tag it is, and what stands behind it. */
  datatype TagRead = NoTag | TagRead(name: string, closing: Closing, rest: string)

  function ReadTag(t: string, options: Options): (r: TagRead)
    ensures r.TagRead? ==> |r.rest| < |t|
  {
    var t1 := Skip(t);
    var slash := t1 != "" && t1[0] == '/';
    var name := ParseName(if slash then t1[1..] else t1);
    if name.None? then NoTag
    else
      var a := ParseAttributes(name.value.rest, [], if slash then Closing else Open, options);
      if a.rest.None? then NoTag else TagRead(name.value.text, a.closing, a.rest.value)
  }

  function Mark(r: TagRead): seq<Tag>
    requires r.TagRead?
  {
    match r.closing
    case Open => [Begin(r.name)]
    case Closed => []
    case Closing => [End(r.name)]
  }

  /** The tags of a text in order, as far as its pieces can be told apart. */
  function Tags(t: string, options: Options): seq<Tag>
    decreases |t|
  {
    var h := Identify(t);
    if h.NoNode? then []
    else if h.node.Element? then
      var r := ReadTag(h.rest, options);
      if r.NoTag? then [] else Mark(r) + Tags(r.rest, options)
    else
      var r := BehindLeaf(h);
      if r.None? then [] else LeafShrinks(t); Tags(r.value, options)
  }

  lemma LeafShrinks(t: string)
    requires Identify(t).Header? && !Identify(t).node.Element? && BehindLeaf(Identify(t)).Some?
    ensures |BehindLeaf(Identify(t)).value| < |t|
  {
    hide Identify;
    var h := Identify(t);
    if PlainText(h.node) {
      assert h.rest == t;
      TextShrinks(t);
    }
  }

  lemma TextShrinks(t: string)
    requires Skip(t) != "" && Skip(t)[0] != '<'
    ensures FindTag(t, "<", 0) > 0
  {
    if t[0] == '<' {
      SkipNothing(t);
    }
    assert t[0..] == t;
  }

  /** The names of the elements that are open behind these tags, the innermost first, when it was `stack` in front
      of them; an end tag must bear the innermost name. */
  function Nest(tags: seq<Tag>, stack: seq<string>): Option<seq<string>> {
    if tags == [] then Some(stack)
    else
      match tags[0]
      case Begin(name) => Nest(tags[1..], [name] + stack)
      case End(name) => if stack != [] && stack[0] == name then Nest(tags[1..], stack[1..]) else None
  }

  /** Every begin tag has the end tag of its name, properly nested. */
  predicate Balanced(tags: seq<Tag>) {
    Nest(tags, []) == Some([])
  }

  lemma {:induction false} NestConcat(a: seq<Tag>, b: seq<Tag>, stack: seq<string>)
    ensures Nest(a + b, stack) == if Nest(a, stack).None? then None else Nest(b, Nest(a, stack).value)
    decreases |a|
  {
    if a == [] {
      assert a + b == b;
    } else {
      assert (a + b)[1..] == a[1..] + b;
      match a[0]
      case Begin(name) => NestConcat(a[1..], b, [name] + stack);
      case End(name) =>
        if stack != [] && stack[0] == name {
          NestConcat(a[1..], b, stack[1..]);
        }
    }
  }

  /** What is open further out does not matter. */
  lemma {:induction false} NestInside(a: seq<Tag>, stack: seq<string>, outer: seq<string>)
    requires Nest(a, stack).Some?
    ensures Nest(a, stack + outer) == Some(Nest(a, stack).value + outer)
    decreases |a|
  {
    if a != [] {
      match a[0]
      case Begin(name) =>
        assert [name] + (stack + outer) == ([name] + stack) + outer;
        NestInside(a[1..], [name] + stack, outer);
      case End(name) =>
        assert (stack + outer)[1..] == stack[1..] + outer && (stack + outer)[0] == stack[0];
        NestInside(a[1..], stack[1..], outer);
    }
  }

  lemma BalancedConcat(a: seq<Tag>, b: seq<Tag>)
    requires Balanced(a) && Balanced(b)
    ensures Balanced(a + b)
  {
    NestConcat(a, b, []);
  }

  lemma BalancedElement(name: string, inner: seq<Tag>)
    requires Balanced(inner)
    ensures Balanced([Begin(name)] + inner + [End(name)])
  {
    assert ([Begin(name)] + inner + [End(name)])[1..] == inner + [End(name)];
    assert [name] + [] == [name] && [] + [name] == [name];
    NestInside(inner, [], [name]);
    NestConcat(inner, [End(name)], [name]);
    assert [End(name)][1..] == [] && [name][1..] == [];
  }

  // ----- What the parser reads -----------------------------------------------------------

  /** The tags of one node, around those of its children. */
  function Word(r: NodeResult, inner: seq<Tag>): seq<Tag> {
    if !r.node.Element? then []
    else
      match r.closing
      case Closing => [End(r.node.name)]
      case Closed => []
      case Open =>
        if r.endTag.None? then [Begin(r.node.name)] else [Begin(r.node.name)] + inner + [End(r.endTag.value)]
  }

  lemma LeafRest(h: Header, options: Options, depth: nat)
    requires h.Header? && !h.node.Element?
    ensures var r := ParseNode(h, options, depth);
            r.rest.Some? ==> !r.node.Element? && r.rest == BehindLeaf(h)
  {
    hide Shown, FindTag, ParseText, Behind;
    if h.node.Text? && !h.node.cdata {
      TextRest(h.rest, options);
    } else {
      BehindIs(h.rest, EndTagOf(h.node));
    }
  }

  lemma BehindIs(t: string, tag: string)
    requires tag != ""
    ensures Behind(t, tag) == if ParseText(t, tag).None? then None else Some(ParseText(t, tag).value.rest)
  {
    hide FindTag;
  }

  lemma TextRest(t: string, options: Options)
    ensures var r := ParseTextNode(t, options);
            r.rest.Some? ==> !r.node.Element? && Behind(t, "<").Some? && Behind(t, "<") != Some("") &&
                             r.rest == Some(t[FindTag(t, "<", 0)..])
  {
    hide Shown, FindTag;
  }

  lemma LeafTags(t: string, options: Options, depth: nat)
    requires Identify(t).Header? && !Identify(t).node.Element?
    ensures var r := ParseNode(Identify(t), options, depth);
            r.rest.Some? ==> !r.node.Element? && r.rest == BehindLeaf(Identify(t)) &&
                             Tags(t, options) == Tags(r.rest.value, options)
  {
    hide Identify, ParseNode, BehindLeaf;
    LeafRest(Identify(t), options, depth);
  }

  lemma ElementTags(t: string, options: Options)
    requires Identify(t).Header? && Identify(t).node.Element?
    ensures var r := ReadTag(Identify(t).rest, options);
            r.TagRead? ==> Tags(t, options) == Mark(r) + Tags(r.rest, options)
  {
    hide Identify, ReadTag;
  }

  lemma {:induction false} NodeTags(t: string, options: Options, depth: nat) returns (inner: seq<Tag>)
    requires Identify(t).Header? && ParseNode(Identify(t), options, depth).rest.Some?
    ensures var r := ParseNode(Identify(t), options, depth);
            Balanced(inner) && Tags(t, options) == Word(r, inner) + Tags(r.rest.value, options)
    decreases |Identify(t).rest|, 1
  {
    hide Identify, ParseElement, Tags, ReadTag;
    inner := [];
    if Identify(t).node.Element? {
      ElementTags(t, options);
      inner := TagsBelow(Identify(t).rest, options, depth);
    } else {
      LeafTags(t, options, depth);
    }
  }

  /** An element behind its `<`. */
  lemma {:induction false} TagsBelow(t: string, options: Options, depth: nat) returns (inner: seq<Tag>)
    requires ParseElement(t, options, depth).rest.Some?
    ensures var r, tag := ParseElement(t, options, depth), ReadTag(t, options);
            && Balanced(inner) && r.node.Element? && tag.TagRead?
            && Mark(tag) + Tags(tag.rest, options) == Word(r, inner) + Tags(r.rest.value, options)
    decreases |t|, 0
  {
    hide Skip, ParseName, ParseAttributes, ParseChildren, Tags;
    inner := [];
    var tag := ReadTag(t, options);
    if tag.closing == Open && tag.rest != "" {
      var name;
      inner, name := ChildrenTags(tag.rest, options, depth);
      var after := Tags(ParseChildren(tag.rest, options, false, depth).rest.value, options);
      assert [Begin(tag.name)] + (inner + [End(name)] + after) == [Begin(tag.name)] + inner + [End(name)] + after;
    }
  }

  lemma {:induction false} ChildrenTags(t: string, options: Options, depth: nat)
    returns (w: seq<Tag>, name: string)
    requires ParseChildren(t, options, false, depth).rest.Some?
    ensures var r := ParseChildren(t, options, false, depth);
            && Balanced(w) && r.endTag == Some(name)
            && Tags(t, options) == w + [End(name)] + Tags(r.rest.value, options)
    decreases |t|, 3
  {
    hide ChildLoop, Tags;
    w, name := LoopTags(t, options, false, depth + 1, []);
  }

  /** The tags of the siblings that are read from here on: balanced, up to the end of the text or to an end tag that
      is left over. */
  lemma {:induction false} LoopTags(t: string, options: Options, atTop: bool, depth: nat, children: seq<Node>)
    returns (w: seq<Tag>, name: string)
    requires ChildLoop(t, options, atTop, depth, children).error == Success
    ensures var r := ChildLoop(t, options, atTop, depth, children);
            && Balanced(w)
            && if r.rest.None? then Tags(t, options) == w
               else && Tags(t, options) == w + [End(name)] + Tags(r.rest.value, options)
                    && (!atTop ==> r.endTag == Some(name))
    decreases |t|, 2
  {
    hide Identify, ParseNode, Tags, WellLocated, Balanced;
    w, name := [], "";
    NothingIsBalanced();
    LoopStepIs(t, options, atTop, depth, children);
    if Identify(t).NoNode? {
      NoTags(t, options);
      return;
    }
    var r := ParseNode(Identify(t), options, depth);
    NodeShrinks(t, options, depth);
    var inner := NodeTags(t, options, depth);
    if r.node.Element? && r.closing == Closing {
      name := r.node.name;
      assert [] + [End(name)] == [End(name)];
      return;
    }
    NodeIsBalanced(r, inner);
    w, name := LoopTags(r.rest.value, options, atTop, depth, children + [r.node]);
    BalancedConcat(Word(r, inner), w);
    Reordered(Word(r, inner), w, [End(name)], ChildLoop(t, options, atTop, depth, children).rest, options);
    w := Word(r, inner) + w;
  }

  lemma Reordered(a: seq<Tag>, b: seq<Tag>, c: seq<Tag>, rest: Option<string>, options: Options)
    ensures rest.Some? ==> a + (b + c + Tags(rest.value, options)) == a + b + c + Tags(rest.value, options)
  {
    hide Tags;
  }

  lemma NothingIsBalanced()
    ensures Balanced([])
  {
  }

  lemma NoTags(t: string, options: Options)
    requires Identify(t).NoNode?
    ensures Tags(t, options) == []
  {
  }

  /** A node that passes the test for its end tag. */
  lemma NodeIsBalanced(r: NodeResult, inner: seq<Tag>)
    requires Balanced(inner) && (r.node.Element? ==> r.closing != Closing && !Mismatch(r))
    ensures Balanced(Word(r, inner))
  {
    hide Balanced;
    NothingIsBalanced();
    if r.node.Element? && r.closing == Open {
      BalancedElement(r.node.name, inner);
    }
  }

  // ----- Documents -------------------------------------------------------------------------

  /** The text that is parsed: behind white space and the byte order mark. */
  function Body(text: string): string {
    var t := Skip(CString(text));
    if BOM <= t then t[3..] else t
  }

  /** Main result: whatever the text, when it parses its tags are properly nested and each is closed by the end tag
      of its own name, up to the end of the text or to an end tag that closes nothing. */
  lemma TagsAreBalanced(text: string, options: Options) returns (k: nat)
    requires Parse(text, options).Document?
    ensures var tags := Tags(Body(text), options);
            k <= |tags| && Balanced(tags[..k]) && (k < |tags| ==> tags[k].End?)
  {
    hide Skip, ChildLoop, Tags, Balanced;
    var t := Body(text);
    var w, name := LoopTags(t, options, true, 1, []);
    k := |w|;
    assert Tags(t, options)[..k] == w;
  }

  /** So a text is refused whose tags are not. */
  lemma UnbalancedIsRefused(text: string, options: Options)
    requires var tags := Tags(Body(text), options);
             forall k :: 0 <= k <= |tags| && (k < |tags| ==> tags[k].End?) ==> !Balanced(tags[..k])
    ensures Parse(text, options).Invalid?
  {
    hide Parse, Tags, Balanced;
    if Parse(text, options).Document? {
      var k := TagsAreBalanced(text, options);
    }
  }

  // ----- Written tags ----------------------------------------------------------------------

  /** A written element whose end tag bears the name `end`. */
  function EndedBy(n: Node, end: string, pen: Pen): string
    requires n.Element?
  {
    "<" + (n.name + PrintAttributes(n.attributes, ">" + Below(n.children, end, pen.Inside())))
  }

  function Below(children: seq<Node>, end: string, pen: Pen): string {
    PrintNodes(children, pen, AfterAll(children, pen).EndGap() + EndTag(end, ""))
  }

  lemma BelowIsRead(children: seq<Node>, end: string, pen: Pen, options: Options)
    requires GoodNodes(children, false) && NoTextPairs(children) && NestingOfAll(children) <= 97
    requires GoodName(end) && Readable(options) && pen.depth >= 1
    ensures Below(children, end, pen) != "" && NUL !in Below(children, end, pen)
    ensures ParseChildren(Below(children, end, pen), options, false, 1)
         == ChildrenResult(Some(""), ReturnedAll(children, pen.compact, options.collapseWhitespace, pen.depth),
                           Some(end), Success)
  {
    hide ChildLoop, GoodNodes, NoTextPairs, GoodName, PrintNodes, AfterAll, ReturnedAll, EndTag, NestingOfAll;
    var gap, tag := AfterAll(children, pen).EndGap(), EndTag(end, "");
    var read := ReturnedAll(children, pen.compact, options.collapseWhitespace, pen.depth);
    EndTagStarts(end, "");
    ChildrenAreThere(children, pen, gap + tag);
    EndTagHasNoNul(end);
    GapsHaveNoNul(AfterAll(children, pen), Comment(""));
    NoNulBehind(gap, tag);
    NodesHaveNoNul(children, pen, gap + tag, false);
    TailLeads(children, pen, tag);
    NodesPrinted(children, pen, gap + tag, [], options, 2, false);
    assert [] + read == read;
    TagLeads(tag);
    GapsAreBlank(AfterAll(children, pen), Comment(""));
    LoopSkips(gap, tag, options, false, 2, read);
    ClosingTagPrinted(end, "", options, 2, read);
  }

  lemma EndTagHasNoNul(end: string)
    requires GoodName(end)
    ensures NUL !in EndTag(end, "")
  {
    NameHasNoNul(end);
    RawHasNoNul("</", end, ">", "");
  }

  /** Main result: with any attributes and children, in either mode, the name of the end tag decides. */
  lemma EndTagDecides(n: Node, end: string, compact: bool, depth: nat, options: Options)
    requires n.Element? && GoodNode(n, false) && GoodName(end) && NestingOfAll(n.children) <= 97 && Readable(options)
    ensures var children := ReturnedAll(n.children, compact, options.collapseWhitespace, depth + 1);
            Parse(EndedBy(n, end, NewPen(compact, depth)), options)
            == if end != n.name then Invalid(MismatchedElement)
               else Document(false, [Element(n.name, ReturnedAttributes(n.attributes), children)])
  {
    hide ChildLoop, Identify, ParseNode, GoodName, GoodAttributes, GoodNodes, NoTextPairs, PrintAttributes, ReturnedAll,
         Below, ReturnedAttributes, NestingOfAll, ParseChildren;
    var pen := NewPen(compact, depth);
    var inner, t := Below(n.children, end, pen.Inside()), EndedBy(n, end, pen);
    BelowIsRead(n.children, end, pen.Inside(), options);
    ElementPrinted(n, inner, options, 1);
    LoopStepIs(t, options, true, 1, []);
    var e := ParseNode(Identify(t), options, 1).node;
    assert [] + [e] == [e];
    NothingLeft(options, [e]);
    TagHasNoNul(n, inner);
    ParseOf(t, options);
  }

  lemma TagHasNoNul(n: Node, inner: string)
    requires n.Element? && GoodName(n.name) && GoodAttributes(n.attributes) && NUL !in inner
    ensures NUL !in "<" + (n.name + PrintAttributes(n.attributes, ">" + inner))
  {
    hide GoodName, GoodAttributes;
    NameHasNoNul(n.name);
    NoNulBehind(">", inner);
    AttributesHaveNoNul(n.attributes, ">" + inner);
    RawHasNoNul("<", n.name, "", PrintAttributes(n.attributes, ">" + inner));
    assert "" + PrintAttributes(n.attributes, ">" + inner) == PrintAttributes(n.attributes, ">" + inner);
  }
}
