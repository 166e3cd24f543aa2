/** What the parser accepts beyond what the printer writes, and the error that it gives for each defect. */
module XmlSyntax {
  import opened Optional
  import opened XmlText
  import opened XmlStrPair
  import opened XmlParse
  import opened XmlLayout
  import opened XmlRoundTrip
  import opened XmlParsed

  // ----- Values ------------------------------------------------------------------------

  /** A value as its reader sees it when entities are left alone. */
  lemma ShownWithoutEntities(v: string, flags: Flags)
    requires NUL !in v && !flags.entities && flags.newlines
    ensures Shown(v, flags) == if flags.collapse then Collapse(Newlines(v)) else Newlines(v)
  {
    hide Newlines, Collapse, Decode;
    DecodeRaw(v, 0, "", flags);
    assert v[0..] == v && "" + Newlines(v) == Newlines(v);
    NoNulIsAll(v);
  }

  /** Whether the reader of a text or of an attribute value gets entities processed and white space collapsed. */
  lemma WhoseFlags(v: string, options: Options)
    requires NUL !in v && !options.processEntities
    ensures Shown(v, options.AttributeFlags()) == Newlines(v)
    ensures Shown(v, options.TextFlags()) == if options.collapseWhitespace then Collapse(Newlines(v)) else Newlines(v)
  {
    hide Newlines, Collapse, Shown;
    ShownWithoutEntities(v, options.AttributeFlags());
    ShownWithoutEntities(v, options.TextFlags());
  }

  // ----- Attributes ----------------------------------------------------------------------

  /** White space may stand on both sides of the equals sign, and either quote may enclose the value. */
  function AttributeText(name: string, w1: string, w2: string, q: char, value: string, rest: string): string {
    name + (w1 + ("=" + (w2 + ([q] + (value + ([q] + rest))))))
  }

  lemma SkipTo(w: string, t: string)
    requires Blank(w) && (t != "" ==> !IsWhiteSpace(t[0]))
    ensures Skip(w + t) == t
  {
    XmlRoundTrip.SkipBlanks(w, t);
    SkipNothing(t);
  }

  /** Behind a name that is followed by white space or by a character that is in no name. */
  lemma NameThen(name: string, w: string, t: string)
    requires GoodName(name) && Blank(w) && (t != "" ==> !IsNameChar(t[0]) && !IsWhiteSpace(t[0]))
    ensures ParseName(name + (w + t)) == Some(Cut(name, w + t)) && Skip(w + t) == t
  {
    hide ParseName, Skip;
    BlankIsNoName(w);
    ParseNamePrinted(name, w + t);
    SkipTo(w, t);
  }

  lemma BlankIsNoName(w: string)
    requires Blank(w)
    ensures w != "" ==> !IsNameChar(w[0])
  {
  }

  lemma AttributeForm(name: string, w1: string, w2: string, q: char, value: string, rest: string, options: Options)
    requires GoodName(name) && Blank(w1) && Blank(w2) && (q == '\"' || q == '\'') && q !in value
    ensures ParseAttribute(AttributeText(name, w1, w2, q, value, rest), options)
         == Some(AttributeCut(Attribute(name, Shown(value, options.AttributeFlags())), rest))
  {
    hide Shown, ParseText, ParseName, Skip, GoodName;
    var t2 := [q] + (value + ([q] + rest));
    var t1 := "=" + (w2 + t2);
    NameThen(name, w1, t1);
    assert t1[1..] == w2 + t2;
    SkipTo(w2, t2);
    assert t2[1..] == value + ([q] + rest);
    ContainsChar(value, q);
    ParseTextPrinted(value, [q], rest);
  }

  /** No equals sign, no quote, or no quote at the end. */
  lemma AttributeDefects(name: string, w1: string, w2: string, t: string, options: Options)
    requires GoodName(name) && Blank(w1) && Blank(w2)
    ensures (t != "" ==> t[0] != '=' && !IsNameChar(t[0]) && !IsWhiteSpace(t[0])) ==>
              ParseAttribute(name + (w1 + t), options) == None
    ensures (t != "" ==> t[0] != '\"' && t[0] != '\'' && !IsWhiteSpace(t[0])) ==>
              ParseAttribute(name + (w1 + ("=" + (w2 + t))), options) == None
    ensures t != "" && (t[0] == '\"' || t[0] == '\'') && t[0] !in t[1..] ==>
              ParseAttribute(name + (w1 + ("=" + (w2 + t))), options) == None
  {
    hide Shown, ParseText, ParseName, Skip, GoodName;
    if t != "" ==> t[0] != '=' && !IsNameChar(t[0]) && !IsWhiteSpace(t[0]) {
      NameThen(name, w1, t);
    }
    var t1 := "=" + (w2 + t);
    NameThen(name, w1, t1);
    assert t1[1..] == w2 + t;
    if t != "" ==> !IsWhiteSpace(t[0]) {
      SkipTo(w2, t);
    }
    if t != "" && t[0] !in t[1..] {
      ContainsChar(t[1..], t[0]);
      NoTag(t[1..], [t[0]]);
    }
  }

  lemma NoTag(v: string, tag: string)
    requires tag != "" && !Contains(v, tag)
    ensures ParseText(v, tag) == None
  {
    var i := FindTag(v, tag, 0);
  }

  // ----- Tags ----------------------------------------------------------------------------

  /** A tag goes on with an attribute whose name is new, or is refused if the name is not. */
  lemma TagGoesOn(w: string, t: string, before: seq<Attribute>, closing: Closing, options: Options)
    requires Blank(w) && t != "" && IsNameStartChar(t[0]) && ParseAttribute(t, options).Some?
    ensures var a := ParseAttribute(t, options).value;
            ParseAttributes(w + t, before, closing, options)
            == if HasAttribute(before, a.attribute.name) then AttributesResult(None, before, closing, ParsingAttribute)
               else ParseAttributes(a.rest, before + [a.attribute], closing, options)
  {
    hide ParseAttribute, Skip, HasAttribute;
    StartIsInk(t[0]);
    SkipTo(w, t);
  }

  lemma StartIsInk(c: char)
    ensures IsNameStartChar(c) ==> !IsWhiteSpace(c)
  {
  }

  lemma TagStops(w: string, t: string, before: seq<Attribute>, closing: Closing, options: Options)
    requires Blank(w) && t != "" && IsNameStartChar(t[0]) && ParseAttribute(t, options).None?
    ensures ParseAttributes(w + t, before, closing, options)
         == AttributesResult(None, before, closing, ParsingAttribute)
  {
    hide ParseAttribute, Skip, HasAttribute;
    StartIsInk(t[0]);
    SkipTo(w, t);
  }

  /** How a tag ends, behind white space. */
  lemma TagEnds(w: string, rest: string, before: seq<Attribute>, closing: Closing, options: Options)
    requires Blank(w)
    ensures ParseAttributes(w + (">" + rest), before, closing, options)
         == AttributesResult(Some(rest), before, closing, Success)
    ensures ParseAttributes(w + ("/>" + rest), before, closing, options)
         == AttributesResult(Some(rest), before, Closed, Success)
  {
    hide ParseAttribute, Skip, HasAttribute;
    SkipTo(w, ">" + rest);
    SkipTo(w, "/>" + rest);
    assert (">" + rest)[1..] == rest && ("/>" + rest)[2..] == rest;
  }

  /** A tag that is cut off, or goes on with a character that begins no attribute. */
  lemma TagDefects(w: string, t: string, before: seq<Attribute>, closing: Closing, options: Options)
    requires Blank(w) && !("/>" <= t)
    requires t != "" ==> t[0] != '>' && !IsNameStartChar(t[0]) && !IsWhiteSpace(t[0])
    ensures ParseAttributes(w + t, before, closing, options) == AttributesResult(None, before, closing, ParsingElement)
  {
    hide ParseAttribute, Skip, HasAttribute;
    SkipTo(w, t);
  }

  /** An end tag: white space may stand in front of the slash and behind the name, but not between them. */
  lemma EndTagForm(w: string, name: string, w': string, rest: string, options: Options, depth: nat)
    requires GoodName(name) && Blank(w) && Blank(w')
    ensures ParseElement(w + ("/" + (name + (w' + (">" + rest)))), options, depth)
         == NodeResult(Some(rest), Element(name, [], []), Closing, None, Success)
  {
    hide Skip, ParseName, ParseAttributes, ParseChildren, GoodName;
    var t := name + (w' + (">" + rest));
    SkipTo(w, "/" + t);
    assert ("/" + t)[1..] == t;
    NameThen(name, w', ">" + rest);
    TagEnds(w', rest, [], Closing, options);
  }

  // ----- Errors --------------------------------------------------------------------------

  /** A document that begins with a node that fails. */
  lemma FirstNodeFails(t: string, options: Options)
    requires t != "" && t[0] == '<' && NUL !in t && Identify(t).Header?
    requires ParseNode(Identify(t), options, 1).rest.None?
    ensures var e := ParseNode(Identify(t), options, 1).error;
            Parse(t, options) == Invalid(if e == Success then Parsing else e)
  {
    hide ChildLoop, Identify, ParseNode, Skip;
    ParseOf(t, options);
    LoopStepIs(t, options, true, 1, []);
  }

  /** A comment, a declaration, a CDATA section or an unknown without its end. */
  lemma Unterminated(v: string, options: Options)
    requires NUL !in v
    ensures !Contains(v, "-->") ==> Parse("<!--" + v, options) == Invalid(ParsingComment)
    ensures !Contains(v, "?>") ==> Parse("<?" + v, options) == Invalid(ParsingDeclaration)
    ensures !Contains(v, "]]>") ==> Parse("<![CDATA[" + v, options) == Invalid(ParsingCData)
    ensures !Contains(v, ">") && !("--" <= v) && !("[CDATA[" <= v) ==>
              Parse("<!" + v, options) == Invalid(ParsingUnknown)
  {
    hide Parse, ParseText, Identify, Contains;
    if !Contains(v, "-->") {
      HeaderComment(v);
      NoTag(v, "-->");
      NoNulBehind("<!--", v);
      FirstNodeFails("<!--" + v, options);
    }
    if !Contains(v, "?>") {
      HeaderDeclaration(v);
      NoTag(v, "?>");
      NoNulBehind("<?", v);
      FirstNodeFails("<?" + v, options);
    }
    if !Contains(v, "]]>") {
      HeaderCData(v);
      NoTag(v, "]]>");
      NoNulBehind("<![CDATA[", v);
      FirstNodeFails("<![CDATA[" + v, options);
    }
    if !Contains(v, ">") && !("--" <= v) && !("[CDATA[" <= v) {
      HeaderUnknown(v);
      NoTag(v, ">");
      NoNulBehind("<!", v);
      FirstNodeFails("<!" + v, options);
    }
  }

  /** A text that no tag follows. */
  lemma TextUnterminated(v: string, options: Options)
    requires v != "" && !IsWhiteSpace(v[0]) && '<' !in v && NUL !in v && !(BOM <= v)
    ensures Parse(v, options) == Invalid(ParsingText)
  {
    hide ChildLoop, Identify, Skip, ParseText;
    SkipNothing(v);
    NoNulIsAll(v);
    HeaderText(v);
    ContainsChar(v, '<');
    NoTag(v, "<");
    LoopStepIs(v, options, true, 1, []);
  }

  /** A tag without a name. */
  lemma Nameless(t: string, options: Options)
    requires t != "" && t[0] !in "?!/" && !IsWhiteSpace(t[0]) && !IsNameStartChar(t[0]) && NUL !in t
    ensures Parse("<" + t, options) == Invalid(Parsing)
  {
    hide Parse, Identify, Skip;
    HeaderElement(t);
    SkipNothing(t);
    NoNulBehind("<", t);
    FirstNodeFails("<" + t, options);
  }

  /** Nothing may stand between the slash of an end tag and its name. */
  lemma NamelessEnd(t: string, options: Options)
    requires (t != "" ==> !IsNameStartChar(t[0])) && NUL !in t
    ensures Parse("</" + t, options) == Invalid(Parsing)
  {
    hide Parse, Identify, Skip;
    HeaderElement("/" + t);
    SkipNothing("/" + t);
    assert "</" + t == "<" + ("/" + t) && ("/" + t)[1..] == t;
    NoNulBehind("</", t);
    FirstNodeFails("</" + t, options);
  }

  /** An element whose tag fails behind its name has the error of the tag. */
  lemma TagFails(name: string, w: string, t: string, options: Options)
    requires GoodName(name) && Blank(w) && (t != "" ==> !IsWhiteSpace(t[0])) && NUL !in t
    requires w == "" ==> t == "" || !IsNameChar(t[0])
    requires ParseAttributes(w + t, [], Open, options).rest.None?
    ensures ParseAttributes(w + t, [], Open, options).error in {ParsingElement, ParsingAttribute} ==>
              Parse("<" + (name + (w + t)), options)
              == Invalid(ParseAttributes(w + t, [], Open, options).error)
  {
    hide Parse, Identify, ParseAttributes, ParseName, Skip, GoodName;
    NameStarts(name, w + t);
    HeaderElement(name + (w + t));
    SkipNothing(name + (w + t));
    BlankIsNoName(w);
    ParseNamePrinted(name, w + t);
    NameHasNoNul(name);
    NoNulBehind(w, t);
    RawHasNoNul("<", name, w, t);
    FirstNodeFails("<" + (name + (w + t)), options);
  }

  /** An attribute that stands there twice. */
  lemma AttributeTwice(name: string, a: string, v1: string, v2: string, rest: string, options: Options)
    requires GoodName(name) && GoodName(a) && '\"' !in v1 && '\"' !in v2
    requires NUL !in v1 && NUL !in v2 && NUL !in rest
    ensures var second := AttributeText(a, "", "", '\"', v2, rest);
            Parse("<" + (name + (" " + AttributeText(a, "", "", '\"', v1, " " + second))), options)
            == Invalid(ParsingAttribute)
  {
    hide Parse, ParseAttributes, ParseAttribute, AttributeText, GoodName, Shown;
    var second := AttributeText(a, "", "", '\"', v2, rest);
    var first := AttributeText(a, "", "", '\"', v1, " " + second);
    AttributeForm(a, "", "", '\"', v1, " " + second, options);
    AttributeForm(a, "", "", '\"', v2, rest, options);
    AttributeStart(a, v2, rest);
    NoNulBehind(" ", second);
    AttributeStart(a, v1, " " + second);
    var once := Attribute(a, Shown(v1, options.AttributeFlags()));
    TagGoesOn(" ", first, [], Open, options);
    assert HasAttribute([once], a) by {
      assert [once][0].name == a;
    }
    assert [] + [once] == [once];
    TagGoesOn(" ", second, [once], Open, options);
    TagFails(name, " ", first, options);
  }

  lemma AttributeStart(a: string, v: string, rest: string)
    requires GoodName(a) && NUL !in v && NUL !in rest
    ensures var t := AttributeText(a, "", "", '\"', v, rest);
            t != "" && IsNameStartChar(t[0]) && !IsWhiteSpace(t[0]) && NUL !in t
  {
    var t := AttributeText(a, "", "", '\"', v, rest);
    assert t[0] == a[0];
    NameHasNoNul(a);
    RawHasNoNul("\"", v, "\"", rest);
    assert "" + ("\"" + (v + ("\"" + rest))) == "\"" + (v + ("\"" + rest));
    RawHasNoNul(a, "=", "", "\"" + (v + ("\"" + rest)));
    assert "" + ("=" + ("" + ("\"" + (v + ("\"" + rest))))) == "=" + ("\"" + (v + ("\"" + rest)));
  }

  /** An end tag at the top is no error: the document ends there, whatever follows. */
  lemma EndTagAtTop(name: string, w: string, rest: string, options: Options)
    requires GoodName(name) && Blank(w) && NUL !in rest
    ensures Parse("<" + ("/" + (name + (w + (">" + rest)))), options) == Document(false, [])
  {
    hide ChildLoop, Identify, GoodName, ParseElement, Blank;
    var t := "/" + (name + (w + (">" + rest)));
    HeaderElement(t);
    NothingInFrontIsBlank();
    EndTagForm("", name, w, rest, options, 1);
    assert "" + t == t;
    LoopStepIs("<" + t, options, true, 1, []);
    NameHasNoNul(name);
    BlankHasNoNul(w);
    NoNulBehind(w, ">" + rest);
    RawHasNoNul("</", name, w, ">" + rest);
    assert "</" + (name + (w + (">" + rest))) == "<" + t;
    ParseOf("<" + t, options);
  }

  lemma NothingInFrontIsBlank()
    ensures Blank("")
  {
  }

  lemma BlankHasNoNul(w: string)
    requires Blank(w)
    ensures NUL !in w
  {
  }

  /** A declaration behind an element. */
  lemma LateDeclaration(name: string, v: string, rest: string, options: Options)
    requires GoodName(name) && NUL !in v && NUL !in rest && !Contains(v, "?>")
    ensures Parse("<" + (name + ("/>" + ("<?" + (v + ("?>" + rest))))), options) == Invalid(ParsingDeclaration)
  {
    hide ChildLoop, Identify, ParseNode, GoodName, Contains;
    var late := "<?" + (v + ("?>" + rest));
    var t := "<" + (name + ("/>" + late));
    EmptyIsRead(name, late, options);
    DeclarationIsRead(v, rest, options);
    LoopStepIs(t, options, true, 1, []);
    LoopStepIs(late, options, true, 1, [Element(name, [], [])]);
    assert [] + [Element(name, [], [])] == [Element(name, [], [])];
    RawHasNoNul("<?", v, "?>", rest);
    NameHasNoNul(name);
    RawHasNoNul("<", name, "/>", late);
    ParseOf(t, options);
  }

  lemma EmptyIsRead(name: string, rest: string, options: Options)
    requires GoodName(name)
    ensures var h := Identify("<" + (name + ("/>" + rest)));
            h.Header? &&
            ParseNode(h, options, 1) == NodeResult(Some(rest), Element(name, [], []), Closed, None, Success)
  {
    hide Identify, ParseName, ParseAttributes, ParseChildren, Skip, GoodName;
    NameStarts(name, "/>" + rest);
    HeaderElement(name + ("/>" + rest));
    SkipNothing(name + ("/>" + rest));
    ParseNamePrinted(name, "/>" + rest);
    TagEnds("", rest, [], Open, options);
    assert "" + ("/>" + rest) == "/>" + rest;
  }

  lemma DeclarationIsRead(v: string, rest: string, options: Options)
    requires !Contains(v, "?>")
    ensures var h := Identify("<?" + (v + ("?>" + rest)));
            h.Header? && ParseNode(h, options, 1) == Leaf(rest, Declaration(Shown(v, RAW)))
  {
    hide Identify, Shown, ParseText;
    HeaderDeclaration(v + ("?>" + rest));
    TagsAreDistinctive();
    ParseTextPrinted(v, "?>", rest);
  }

  // ----- Indentation, written out ----------------------------------------------------------

  /** An element in an element, as the default mode prints it. */
  lemma IndentedNest()
    ensures Print(false, [Element("a", [], [Element("b", [], [])])], NewPen(false, 0)) == "<a>\n    <b/>\n</a>\n"
  {
    hide PrintAttributes, PrintNodes, EndTag;
    var e, pen := Element("b", [], []), NewPen(false, 0);
    var n, inside := Element("a", [], [e]), pen.Inside();
    var end := EndTag("a", "\n");
    MixedEnd();
    InnerElement(inside, "\n" + end);
    assert Spaces(0) == "" && pen.Behind(n) + "" == "\n" && inside.EndGap() == "\n";
    PrintOne(n, pen);
    NoAttributes(">" + ("\n    <b/>" + ("\n" + end)));
    assert "<" + ("a" + (">" + ("\n    <b/>" + ("\n" + end)))) == "<a>\n    <b/>\n</a>\n";
  }

  lemma InnerElement(pen: Pen, rest: string)
    requires pen == NewPen(false, 0).Inside()
    ensures var e := Element("b", [], []);
            AfterAll([e], pen) == pen && PrintNodes([e], pen, rest) == "\n    <b/>" + rest
  {
    var e := Element("b", [], []);
    assert [e][1..] == [] && AfterAll([], pen) == pen && After(e, pen) == pen;
    assert Spaces(1) == Spaces(0) + "    " == "    ";
    assert pen.Gap(e) == "\n" + "    " && pen.Behind(e) + rest == rest;
    assert PrintNodes([], pen, rest) == rest && PrintAttributes([], "/>" + rest) == "/>" + rest;
    assert "<" + ("b" + ("/>" + rest)) == "<b/>" + rest;
    assert "\n" + "    " + ("<b/>" + rest) == "\n    <b/>" + rest;
  }
}
