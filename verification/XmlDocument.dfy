/** `XMLDocument` while it parses, on the buffer that it terminates in place: a name that is asked for gets a NUL
    behind it while the text further on is still to be read. A position is an index into that buffer, and the
    text is what the buffer held before. */
module XmlDocument {
  import opened Optional
  import opened XmlText
  import opened XmlStrPair
  import opened XmlParse

  // ----- A tree of pieces --------------------------------------------------------------

  /** A `StrPair` that is not decoded yet. */
  datatype Span = Span(start: nat, end: nat)

  datatype AttributeSpan = AttributeSpan(name: Span, value: Span)

  datatype Tree =
    | ElementTree(name: Span, attributes: seq<AttributeSpan>, children: seq<Tree>)
    | TextTree(value: Span, cdata: bool)
    | CommentTree(value: Span)
    | DeclarationTree(value: Span)
    | UnknownTree(value: Span)

  function At(text: string, s: Span): string {
    if s.start <= s.end <= |text| then text[s.start..s.end] else ""
  }

  function AttributeOf(text: string, a: AttributeSpan, options: Options): Attribute {
    Attribute(At(text, a.name), Shown(At(text, a.value), options.AttributeFlags()))
  }

  function AttributesOf(text: string, attributes: seq<AttributeSpan>, options: Options): (r: seq<Attribute>)
    ensures |r| == |attributes|
  {
    if attributes == [] then []
    else AttributesOf(text, attributes[..|attributes| - 1], options) +
         [AttributeOf(text, attributes[|attributes| - 1], options)]
  }

  /** The node that a reader of the tree will see. */
  function NodeOf(text: string, n: Tree, options: Options): Node
    decreases n, 0
  {
    match n
    case ElementTree(name, attributes, children) =>
      Element(At(text, name), AttributesOf(text, attributes, options), NodesOf(text, children, options))
    case TextTree(value, cdata) => Text(Shown(At(text, value), if cdata then RAW else options.TextFlags()), cdata)
    case CommentTree(value) => Comment(Shown(At(text, value), RAW))
    case DeclarationTree(value) => Declaration(Shown(At(text, value), RAW))
    case UnknownTree(value) => Unknown(Shown(At(text, value), RAW))
  }

  function NodesOf(text: string, nodes: seq<Tree>, options: Options): (r: seq<Node>)
    ensures |r| == |nodes|
    decreases nodes, 1
  {
    if nodes == [] then []
    else [NodeOf(text, nodes[0], options)] + NodesOf(text, nodes[1..], options)
  }

  lemma {:induction false} NodesSnoc(text: string, nodes: seq<Tree>, n: Tree, options: Options)
    ensures NodesOf(text, nodes + [n], options) == NodesOf(text, nodes, options) + [NodeOf(text, n, options)]
    decreases |nodes|
  {
    hide NodeOf;
    if nodes == [] {
      assert nodes + [n] == [n] && [n][1..] == [];
    } else {
      NodesSnoc(text, nodes[1..], n, options);
      assert (nodes + [n])[1..] == nodes[1..] + [n];
    }
  }

  // ----- The pieces of a tree ----------------------------------------------------------

  function AttributeSpans(attributes: seq<AttributeSpan>): seq<Span> {
    if attributes == [] then []
    else
      var a := attributes[|attributes| - 1];
      AttributeSpans(attributes[..|attributes| - 1]) + [a.name, a.value]
  }

  /** All pieces, in the order of the text. */
  function Spans(n: Tree): seq<Span>
    decreases n, 0
  {
    match n
    case ElementTree(name, attributes, children) => [name] + AttributeSpans(attributes) + AllSpans(children)
    case _ => [n.value]
  }

  function AllSpans(nodes: seq<Tree>): seq<Span>
    decreases nodes, 1
  {
    if nodes == [] then [] else Spans(nodes[0]) + AllSpans(nodes[1..])
  }

  lemma {:induction false} AllSpansSnoc(nodes: seq<Tree>, n: Tree)
    ensures AllSpans(nodes + [n]) == AllSpans(nodes) + Spans(n)
    decreases |nodes|
  {
    hide Spans;
    if nodes == [] {
      assert nodes + [n] == [n] && [n][1..] == [];
      assert Spans(n) + [] == [] + Spans(n);
    } else {
      AllSpansSnoc(nodes[1..], n);
      assert (nodes + [n])[1..] == nodes[1..] + [n];
      assert Spans(nodes[0]) + (AllSpans(nodes[1..]) + Spans(n)) == Spans(nodes[0]) + AllSpans(nodes[1..]) + Spans(n);
    }
  }

  /** From `lo` on, each piece and the character behind it lie in front of the next piece, the last in front of
      `hi`. So no terminator falls into a piece. */
  predicate Ordered(spans: seq<Span>, lo: nat, hi: nat) {
    && (forall k :: 0 <= k < |spans| ==> lo <= spans[k].start <= spans[k].end < hi)
    && (forall j, k :: 0 <= j < k < |spans| ==> spans[j].end < spans[k].start)
  }

  lemma OrderedConcat(a: seq<Span>, b: seq<Span>, lo: nat, mid: nat, hi: nat)
    requires Ordered(a, lo, mid) && Ordered(b, mid, hi) && lo <= mid <= hi
    ensures Ordered(a + b, lo, hi)
  {
  }

  // ----- The buffer ----------------------------------------------------------------------

  /** From `p` on the buffer is as it was, and a NUL ends it. */
  ghost predicate Unread(buf: array<char>, text: string, p: nat)
    reads buf
  {
    && p <= |text| < buf.Length && NUL !in text && buf[|text|] == NUL
    && forall i :: p <= i < |text| ==> buf[i] == text[i]
  }

  ghost predicate SpanIntact(buf: array<char>, text: string, s: Span)
    reads buf
  {
    s.end <= |text| < buf.Length && forall i :: s.start <= i < s.end ==> buf[i] == text[i]
  }

  ghost predicate Intact(buf: array<char>, text: string, spans: seq<Span>)
    reads buf
  {
    forall k :: 0 <= k < |spans| ==> SpanIntact(buf, text, spans[k])
  }

  /** Nothing but the characters from `p` to `q` has changed. */
  twostate predicate Within(buf: array<char>, p: nat, q: nat)
    reads buf
  {
    forall i :: 0 <= i < buf.Length && !(p <= i < q) ==> buf[i] == old(buf[i])
  }

  lemma NoNul(text: string)
    requires NUL !in text
    ensures forall i :: 0 <= i < |text| ==> text[i] != NUL
  {
  }

  lemma SkipIs(t: string, k: nat)
    requires k <= |t| && (forall i :: 0 <= i < k ==> IsWhiteSpace(t[i])) && (k < |t| ==> !IsWhiteSpace(t[k]))
    ensures Skip(t) == t[k..]
  {
  }

  method SkipWhiteSpaceAt(buf: array<char>, p: nat, ghost text: string) returns (q: nat)
    requires Unread(buf, text, p)
    ensures p <= q <= |text| && text[q..] == Skip(text[p..])
    ensures q < |text| ==> !IsWhiteSpace(text[q])
  {
    hide Skip;
    q := p;
    while IsWhiteSpace(buf[q])
      invariant p <= q <= |text| && forall i :: p <= i < q ==> IsWhiteSpace(text[i])
      decreases |text| - q
    {
      q := q + 1;
    }
    SkipIs(text[p..], q - p);
    assert text[p..][q - p..] == text[q..];
  }

  /** `strncmp` with a tag. */
  method StartsAt(buf: array<char>, p: nat, tag: string, ghost text: string) returns (starts: bool)
    requires Unread(buf, text, p) && NUL !in tag
    ensures starts <==> tag <= text[p..]
  {
    NoNul(tag);
    var i := 0;
    while i < |tag|
      invariant 0 <= i <= |tag| && p + i <= |text| && text[p..][..i] == tag[..i]
    {
      if buf[p + i] != tag[i] {
        assert p + i < |text| ==> text[p..][i] == buf[p + i];
        return false;
      }
      assert text[p..][i] == tag[i];
      i := i + 1;
    }
    return true;
  }

  lemma {:induction false} FoundAt(t: string, tag: string, i: nat, k: nat)
    requires i <= k <= |t| && tag != "" && (forall j :: i <= j < k ==> !(tag <= t[j..])) && (k < |t| ==> tag <= t[k..])
    ensures FindTag(t, tag, i) == k
    decreases k - i
  {
    if i < k {
      FoundAt(t, tag, i + 1, k);
    }
  }

  /** `StrPair::ParseText`: the end of the piece. */
  method ParseTextAt(buf: array<char>, p: nat, tag: string, ghost text: string) returns (q: Option<nat>)
    requires Unread(buf, text, p) && tag != "" && NUL !in tag
    ensures q.Some? ==> p <= q.value && q.value + |tag| <= |text| && tag <= text[q.value..]
    ensures ParseText(text[p..], tag) ==
              if q.None? then None else Some(Cut(text[p..q.value], text[q.value + |tag|..]))
  {
    hide FindTag;
    ghost var t := text[p..];
    var i := p;
    while buf[i] != NUL
      invariant p <= i <= |text| && forall j :: 0 <= j < i - p ==> !(tag <= t[j..])
      decreases |text| - i
    {
      assert t[i - p..] == text[i..];
      if buf[i] == tag[0] {
        var found := StartsAt(buf, i, tag, text);
        if found {
          FoundAt(t, tag, 0, i - p);
          assert t[..i - p] == text[p..i] && t[i - p + |tag|..] == text[i + |tag|..];
          return Some(i);
        }
      }
      i := i + 1;
    }
    assert i == |text|;
    FoundAt(t, tag, 0, |t|);
    return None;
  }

  lemma {:induction false} NameEndsAt(t: string, i: nat, k: nat)
    requires i <= k <= |t| && (forall j :: i <= j < k ==> IsNameChar(t[j])) && (k < |t| ==> !IsNameChar(t[k]))
    ensures NameEnd(t, i) == k
    decreases k - i
  {
    if i < k {
      NameEndsAt(t, i + 1, k);
    }
  }

  lemma StartIsName()
    ensures forall c :: IsNameStartChar(c) ==> IsNameChar(c)
  {
  }

  /** `StrPair::ParseName`. */
  method ParseNameAt(buf: array<char>, p: nat, ghost text: string) returns (q: Option<nat>)
    requires Unread(buf, text, p)
    ensures q.Some? ==> p < q.value <= |text| && (q.value < |text| ==> !IsNameStartChar(text[q.value]))
    ensures ParseName(text[p..]) == if q.None? then None else Some(Cut(text[p..q.value], text[q.value..]))
  {
    hide NameEnd, IsNameChar, IsNameStartChar;
    ghost var t := text[p..];
    if buf[p] == NUL || !IsNameStartChar(buf[p]) {
      return None;
    }
    var i := p + 1;
    while buf[i] != NUL && IsNameChar(buf[i])
      invariant p < i <= |text| && forall j :: 1 <= j < i - p ==> IsNameChar(t[j])
      decreases |text| - i
    {
      i := i + 1;
    }
    NameEndsAt(t, 1, i - p);
    NoNul(text);
    StartIsName();
    assert t[..i - p] == text[p..i] && t[i - p..] == text[i..];
    return Some(i);
  }

  /** `XMLAttribute::ParseDeep`. */
  method ReadAttribute(buf: array<char>, p: nat, options: Options, ghost text: string)
    returns (a: Option<AttributeSpan>, q: nat)
    requires Unread(buf, text, p)
    ensures a.Some? ==> p < q <= |text| && Ordered([a.value.name, a.value.value], p, q)
    ensures ParseAttribute(text[p..], options) ==
              if a.None? then None else Some(AttributeCut(AttributeOf(text, a.value, options), text[q..]))
  {
    hide ParseName, ParseText, Skip, Shown;
    var n := ParseNameAt(buf, p, text);
    if n.None? || buf[n.value] == NUL {
      return None, p;
    }
    var i := QuoteAt(buf, n.value, text);
    if i.None? {
      return None, p;
    }
    var end := ParseTextAt(buf, i.value + 1, [buf[i.value]], text);
    if end.None? {
      return None, p;
    }
    return Some(AttributeSpan(Span(p, n.value), Span(i.value + 1, end.value))), end.value + 1;
  }

  /** Behind the name of an attribute, the quote that its value begins with. */
  method QuoteAt(buf: array<char>, p: nat, ghost text: string) returns (q: Option<nat>)
    requires Unread(buf, text, p)
    ensures q.Some? ==> p < q.value < |text| && Unread(buf, text, q.value + 1) && buf[q.value] != NUL
    ensures var t1 := Skip(text[p..]);
            var t2 := if t1 == "" || t1[0] != '=' then "" else Skip(t1[1..]);
            if q.None? then t2 == "" || (t2[0] != '\"' && t2[0] != '\'')
            else t2 != "" && (t2[0] == '\"' || t2[0] == '\'') && t2[0] == buf[q.value] && t2[1..] == text[q.value + 1..]
  {
    hide Skip;
    var i := SkipWhiteSpaceAt(buf, p, text);
    if buf[i] != '=' {
      return None;
    }
    assert text[i..][1..] == text[i + 1..];
    i := SkipWhiteSpaceAt(buf, i + 1, text);
    if buf[i] != '\"' && buf[i] != '\'' {
      return None;
    }
    assert text[i..][1..] == text[i + 1..];
    return Some(i);
  }

  // ----- Names -----------------------------------------------------------------------------

  /** The C string at a position is taken out. */
  method TakeString(buf: array<char>, p: nat, ghost end: nat) returns (s: string)
    requires p <= end < buf.Length && NUL in buf[p..end + 1]
    ensures s == StringAt(buf, p)
  {
    var i := p;
    s := "";
    while buf[i] != NUL
      invariant p <= i <= end && s == buf[p..i] && NUL !in s && NUL in buf[i..end + 1]
      decreases end - i
    {
      s := s + [buf[i]];
      i := i + 1;
    }
    CStringEnds(buf[p..], i - p);
  }

  /** `GetStr` of a name: it gets its NUL and is read. */
  method GetName(buf: array<char>, s: Span, ghost text: string) returns (name: string)
    requires s.start <= s.end < |text| && SpanIntact(buf, text, s) && NUL !in text
    modifies buf
    ensures name == At(text, s)
    ensures forall i :: 0 <= i < buf.Length && i != s.end ==> buf[i] == old(buf[i])
  {
    buf[s.end] := NUL;
    NoNul(text);
    assert buf[s.start..][..s.end - s.start] == text[s.start..s.end];
    CStringEnds(buf[s.start..], s.end - s.start);
    assert buf[s.end] in buf[s.start..s.end + 1];
    name := TakeString(buf, s.start, s.end);
  }

  /** A terminator behind one of the pieces falls into none of them. */
  lemma TerminatorIsHarmless(spans: seq<Span>, lo: nat, hi: nat, k: nat)
    requires Ordered(spans, lo, hi) && k < |spans|
    ensures forall j :: 0 <= j < |spans| ==> !(spans[j].start <= spans[k].end < spans[j].end)
  {
  }

  /** The pieces stay intact when a terminator is written that falls into none of them. */
  twostate lemma StillIntact(d: Change)
    requires old(Intact(d.buf, d.text, d.spans))
    requires forall i :: 0 <= i < d.buf.Length && i != d.at ==> d.buf[i] == old(d.buf[i])
    requires forall j :: 0 <= j < |d.spans| ==> !(d.spans[j].start <= d.at < d.spans[j].end)
    ensures Intact(d.buf, d.text, d.spans)
  {
    forall k | 0 <= k < |d.spans|
      ensures SpanIntact(d.buf, d.text, d.spans[k])
    {
      assert old(SpanIntact(d.buf, d.text, d.spans[k]));
    }
  }

  datatype Change = Change(buf: array<char>, text: string, spans: seq<Span>, at: nat)

  lemma {:induction false} AttributeSpansAt(attributes: seq<AttributeSpan>, k: nat)
    requires k < |attributes|
    ensures |AttributeSpans(attributes)| == 2 * |attributes|
    ensures AttributeSpans(attributes)[2 * k] == attributes[k].name
    ensures AttributeSpans(attributes)[2 * k + 1] == attributes[k].value
    decreases |attributes|
  {
    var front := attributes[..|attributes| - 1];
    if k < |attributes| - 1 {
      AttributeSpansAt(front, k);
    } else if front != [] {
      AttributeSpansAt(front, 0);
    }
  }

  lemma {:induction false} AttributesOfAt(text: string, attributes: seq<AttributeSpan>, options: Options, k: nat)
    requires k < |attributes|
    ensures AttributesOf(text, attributes, options)[k] == AttributeOf(text, attributes[k], options)
    decreases |attributes|
  {
    hide AttributeOf;
    if k < |attributes| - 1 {
      AttributesOfAt(text, attributes[..|attributes| - 1], options, k);
    }
  }

  /** `FindAttribute` among the first `n` attributes: their names are terminated one by one. */
  method FindAttribute(buf: array<char>, all: seq<AttributeSpan>, n: nat, name: string, options: Options,
                       ghost text: string, ghost lo: nat, ghost hi: nat) returns (found: bool)
    requires n <= |all| && Ordered(AttributeSpans(all), lo, hi) && hi <= |text| < buf.Length
    requires Intact(buf, text, AttributeSpans(all)) && NUL !in text
    modifies buf
    ensures found <==> exists j :: 0 <= j < n && AttributesOf(text, all, options)[j].name == name
    ensures Intact(buf, text, AttributeSpans(all)) && Within(buf, lo, hi)
  {
    hide AttributesOf, AttributeSpans, AttributeOf, Ordered, Intact, SpanIntact;
    var k := 0;
    while k < n
      invariant 0 <= k <= n && Intact(buf, text, AttributeSpans(all)) && Within(buf, lo, hi)
      invariant forall j :: 0 <= j < k ==> AttributesOf(text, all, options)[j].name != name
    {
      AttributesOfAt(text, all, options, k);
      var other := NameOf(buf, all, k, text, lo, hi);
      NameOfAttribute(text, all[k], options);
      if other == name {
        return true;
      }
      k := k + 1;
    }
    return false;
  }

  lemma NameOfAttribute(text: string, a: AttributeSpan, options: Options)
    ensures AttributeOf(text, a, options).name == At(text, a.name)
  {
  }

  method NameOf(buf: array<char>, all: seq<AttributeSpan>, k: nat, ghost text: string, ghost lo: nat, ghost hi: nat)
    returns (name: string)
    requires k < |all| && Ordered(AttributeSpans(all), lo, hi) && hi <= |text| < buf.Length
    requires Intact(buf, text, AttributeSpans(all)) && NUL !in text
    modifies buf
    ensures name == At(text, all[k].name)
    ensures Intact(buf, text, AttributeSpans(all)) && Within(buf, lo, hi)
  {
    hide AttributeSpans, Intact, Ordered;
    AttributeSpansAt(all, k);
    name := NameIn(buf, all[k].name, AttributeSpans(all), 2 * k, text, lo, hi);
  }

  /** `GetStr` of a name that is one of some pieces. */
  method NameIn(buf: array<char>, s: Span, ghost spans: seq<Span>, ghost k: nat, ghost text: string,
                ghost lo: nat, ghost hi: nat) returns (name: string)
    requires k < |spans| && spans[k] == s && Ordered(spans, lo, hi) && hi <= |text| < buf.Length
    requires Intact(buf, text, spans) && NUL !in text
    modifies buf
    ensures name == At(text, s)
    ensures Intact(buf, text, spans) && Within(buf, lo, hi)
  {
    hide SpanIntact;
    assert SpanIntact(buf, text, spans[k]);
    TerminatorIsHarmless(spans, lo, hi, k);
    label L:
    name := GetName(buf, s, text);
    StillIntact@L(Change(buf, text, spans, s.end));
  }

  lemma UnreadFurther(buf: array<char>, text: string, p: nat, q: nat)
    requires Unread(buf, text, p) && p <= q <= |text|
    ensures Unread(buf, text, q)
  {
  }

  /** What is still to be read has its pieces intact. */
  lemma UnreadIsIntact(buf: array<char>, text: string, spans: seq<Span>, p: nat, q: nat)
    requires Unread(buf, text, p) && Ordered(spans, p, q) && q <= |text| + 1
    ensures Intact(buf, text, spans)
  {
  }

  lemma IntactConcat(buf: array<char>, text: string, a: seq<Span>, b: seq<Span>)
    requires Intact(buf, text, a) && Intact(buf, text, b)
    ensures Intact(buf, text, a + b)
  {
    hide SpanIntact;
  }

  /** What lies in front of the changes keeps its pieces. */
  twostate lemma BeforeIsIntact(d: Change)
    requires old(Intact(d.buf, d.text, d.spans)) && forall k :: 0 <= k < |d.spans| ==> d.spans[k].end <= d.at
    requires Within(d.buf, d.at, d.buf.Length)
    ensures Intact(d.buf, d.text, d.spans)
  {
    forall k | 0 <= k < |d.spans|
      ensures SpanIntact(d.buf, d.text, d.spans[k])
    {
      assert old(SpanIntact(d.buf, d.text, d.spans[k]));
    }
  }

  /** One more attribute that is still to be read. */
  lemma Appended(buf: array<char>, text: string, attributes: seq<AttributeSpan>, a: AttributeSpan, lo: nat, p: nat,
                 q: nat)
    requires lo <= p <= q <= |text| && Unread(buf, text, p) && Ordered([a.name, a.value], p, q)
    requires Ordered(AttributeSpans(attributes), lo, p) && Intact(buf, text, AttributeSpans(attributes))
    ensures var spans := AttributeSpans(attributes + [a]);
            && Ordered(spans, lo, q) && Intact(buf, text, spans) && Unread(buf, text, q)
            && |text| < buf.Length && NUL !in text
  {
    hide SpanIntact;
    assert (attributes + [a])[..|attributes|] == attributes;
    OrderedConcat(AttributeSpans(attributes), [a.name, a.value], lo, p, q);
    UnreadIsIntact(buf, text, [a.name, a.value], p, q);
    IntactConcat(buf, text, AttributeSpans(attributes), [a.name, a.value]);
  }

  twostate lemma UnreadBehind(d: Change)
    requires old(Unread(d.buf, d.text, d.at)) && Within(d.buf, 0, d.at)
    ensures Unread(d.buf, d.text, d.at)
  {
  }

  lemma HasBefore(text: string, attributes: seq<AttributeSpan>, a: AttributeSpan, options: Options, name: string)
    ensures var before, more := AttributesOf(text, attributes, options), AttributesOf(text, attributes + [a], options);
            && more == before + [AttributeOf(text, a, options)]
            && (HasAttribute(before, name) <==> exists j :: 0 <= j < |attributes| && more[j].name == name)
  {
    hide AttributeOf;
    assert (attributes + [a])[..|attributes|] == attributes;
    var before, more := AttributesOf(text, attributes, options), AttributesOf(text, attributes + [a], options);
    assert forall j :: 0 <= j < |attributes| ==> more[j] == before[j];
  }

  // ----- The parser ----------------------------------------------------------------------------

  /** What `Identify` recognises. */
  datatype Kind = NoKind | DeclarationKind | CommentKind | CDataKind | UnknownKind | ElementKind | TextKind

  function Blank(kind: Kind): Node {
    match kind
    case DeclarationKind => Declaration("")
    case CommentKind => Comment("")
    case CDataKind => Text("", true)
    case UnknownKind => Unknown("")
    case ElementKind => Element("", [], [])
    case _ => Text("", false)
  }

  /** The tag that a text starts with, and its length. */
  function Tagged(t: string): (Kind, nat) {
    if "<?" <= t then (DeclarationKind, 2)
    else if "<!--" <= t then (CommentKind, 4)
    else if "<![CDATA[" <= t then (CDataKind, 9)
    else if "<!" <= t then (UnknownKind, 2)
    else if "<" <= t then (ElementKind, 1)
    else (TextKind, 0)
  }

  lemma TaggedFits(t: string)
    ensures Tagged(t).1 <= |t| && (Tagged(t).0 == TextKind <==> t == "" || t[0] != '<')
    ensures Tagged(t).0 != NoKind && (Tagged(t).0 == TextKind <==> Tagged(t).1 == 0)
  {
    if t != "" && t[0] != '<' {
      assert "<?"[0] != t[0] && "<!--"[0] != t[0] && "<![CDATA["[0] != t[0] && "<!"[0] != t[0] && "<"[0] != t[0];
    }
    if t != "" && t[0] == '<' {
      assert "<" <= t;
    }
  }

  method TagAt(buf: array<char>, p: nat, ghost text: string) returns (kind: Kind, n: nat)
    requires Unread(buf, text, p)
    ensures (kind, n) == Tagged(text[p..])
  {
    hide Unread;
    var starts := StartsAt(buf, p, "<?", text);
    if starts {
      return DeclarationKind, 2;
    }
    starts := StartsAt(buf, p, "<!--", text);
    if starts {
      return CommentKind, 4;
    }
    starts := StartsAt(buf, p, "<![CDATA[", text);
    if starts {
      return CDataKind, 9;
    }
    starts := StartsAt(buf, p, "<!", text);
    if starts {
      return UnknownKind, 2;
    }
    starts := StartsAt(buf, p, "<", text);
    if starts {
      return ElementKind, 1;
    }
    return TextKind, 0;
  }

  /** The kind of the next node and where the rest of it begins: white space in front belongs to a text only. */
  method IdentifyAt(buf: array<char>, p: nat, ghost text: string) returns (kind: Kind, q: nat)
    requires Unread(buf, text, p)
    ensures kind != NoKind ==> p <= q <= |text| && p < |text| && (kind == TextKind ==> q == p && text[p] != '<')
    ensures kind != NoKind && kind != TextKind ==> p < q
    ensures Identify(text[p..]) == if kind == NoKind then NoNode else Header(Blank(kind), text[q..])
  {
    hide Identify, Tagged, Skip;
    var i := SkipWhiteSpaceAt(buf, p, text);
    NoKindAtEnd(text[p..]);
    NoNul(text);
    if buf[i] == NUL {
      return NoKind, p;
    }
    var n;
    kind, n := TagAt(buf, i, text);
    TaggedFits(text[i..]);
    assert text[i..][0] == text[i] && text[i..][n..] == text[i + n..];
    StartsWithTag(text, p, i);
    q := if kind == TextKind then p else i + n;
    IdentifyTagged(text[p..]);
  }

  lemma NoKindAtEnd(t: string)
    ensures Skip(t) == "" ==> Identify(t) == NoNode
  {
  }

  lemma StartsWithTag(text: string, p: nat, i: nat)
    requires p <= i < |text| && text[i..] == Skip(text[p..])
    ensures text[p] == '<' ==> text[i] == '<'
  {
    assert text[p..][0] == text[p];
  }

  lemma IdentifyTagged(t: string)
    requires Skip(t) != ""
    ensures var (kind, n) := Tagged(Skip(t));
            n <= |Skip(t)| && Identify(t) == Header(Blank(kind), if kind == TextKind then t else Skip(t)[n..])
  {
    hide Skip;
    TaggedFits(Skip(t));
  }

  /** What a node leaves: where to go on, its pieces, and the end tag that was read below it. */
  datatype NodeSpans = NodeSpans(rest: Option<nat>, node: Tree, closing: Closing, endTag: Option<Span>)

  datatype ChildrenSpans = ChildrenSpans(rest: Option<nat>, children: seq<Tree>, endTag: Option<Span>)

  function Tag(endTag: Option<Span>): seq<Span> {
    if endTag.None? then [] else [endTag.value]
  }

  function TagOf(text: string, endTag: Option<Span>): Option<string> {
    if endTag.None? then None else Some(At(text, endTag.value))
  }

  predicate IsPlain(n: Tree) {
    n.TextTree? && !n.cdata
  }

  /** The pieces of a node end in front of where it was read to, but the terminator of a text belongs to the tag
      behind it. */
  function Behind(n: Tree, q: nat): nat {
    if IsPlain(n) then q + 1 else q
  }

  /** Where the next piece may begin. */
  function Fence(text: string, q: nat): nat {
    if q < |text| && text[q] == '<' then q + 1 else q
  }

  lemma FrontIsOrdered(a: seq<Span>, b: seq<Span>, lo: nat, mid: nat, hi: nat)
    requires Ordered(a + b, lo, mid) && mid <= hi
    ensures Ordered(a, lo, hi)
  {
    assert forall k :: 0 <= k < |a| ==> (a + b)[k] == a[k];
  }

  lemma FrontIsIntact(buf: array<char>, text: string, a: seq<Span>, b: seq<Span>)
    requires Intact(buf, text, a + b)
    ensures Intact(buf, text, a)
  {
    hide SpanIntact;
    assert forall k :: 0 <= k < |a| ==> (a + b)[k] == a[k];
  }

  /** What the loop over the children makes of the next node. */
  function LoopStep(r: NodeResult, options: Options, atTop: bool, depth: nat, children: seq<Node>): ChildrenResult {
    if r.rest.None? then ChildrenResult(None, children, None, if r.error == Success then Parsing else r.error)
    else if r.node.Declaration? && !WellLocated(atTop, children) then
      ChildrenResult(None, children, None, ParsingDeclaration)
    else if r.node.Element? && r.closing == Closing then
      ChildrenResult(r.rest, children, if atTop then None else Some(r.node.name), Success)
    else if r.node.Element? && Mismatch(r) then ChildrenResult(None, children, None, MismatchedElement)
    else ChildLoop(r.rest.value, options, atTop, depth, children + [r.node])
  }

  lemma LoopStepIs(t: string, options: Options, atTop: bool, depth: nat, children: seq<Node>)
    requires Identify(t).Header?
    ensures ChildLoop(t, options, atTop, depth, children)
         == LoopStep(ParseNode(Identify(t), options, depth), options, atTop, depth, children)
  {
    hide ParseNode, Identify, WellLocated, Mismatch;
    var r := ParseNode(Identify(t), options, depth);
    if r.rest == Some("") {
      AtTheEnd(options, atTop, depth, children + [r.node]);
    }
  }

  lemma AtTheEnd(options: Options, atTop: bool, depth: nat, children: seq<Node>)
    ensures ChildLoop("", options, atTop, depth, children) == ChildrenResult(None, children, None, Success)
  {
  }

  /** A node takes some of the text. */
  lemma Shrinks(t: string, options: Options, depth: nat)
    requires Identify(t).Header?
    ensures var r := ParseNode(Identify(t), options, depth);
            r.rest.Some? ==> |r.rest.value| < |t| && r.error == Success
  {
    hide ParseNode, Identify;
  }

  lemma {:induction false} NodesAt(text: string, nodes: seq<Tree>, options: Options, k: nat)
    requires k < |nodes|
    ensures NodesOf(text, nodes, options)[k] == NodeOf(text, nodes[k], options)
    decreases |nodes|
  {
    hide NodeOf;
    if k > 0 {
      NodesAt(text, nodes[1..], options, k - 1);
    }
  }

  lemma WellLocatedTrees(text: string, atTop: bool, children: seq<Tree>, options: Options)
    ensures WellLocated(atTop, NodesOf(text, children, options)) <==>
              atTop && (children != [] ==> children[0].DeclarationTree? && children[|children| - 1].DeclarationTree?)
  {
    hide NodesOf, Shown;
    if children != [] {
      NodesAt(text, children, options, 0);
      NodesAt(text, children, options, |children| - 1);
    }
  }

  class XMLDocument {
    var charBuffer: array<char>
    var errorID: Error
    var parsingDepth: nat
    const options: Options
    /** What the buffer held when it was filled, up to its first NUL. */
    ghost var text: string

    constructor (options: Options)
      ensures errorID == Success && parsingDepth == 0 && this.options == options && fresh(charBuffer)
    {
      errorID, parsingDepth := Success, 0;
      charBuffer, text := new char[0], "";
      this.options := options;
    }

    /** One more attribute, unless it is malformed or repeated. */
    method AddAttribute(attributes: seq<AttributeSpan>, p: nat, ghost lo: nat)
      returns (all: Option<seq<AttributeSpan>>, q: nat)
      requires lo <= p && Unread(charBuffer, text, p)
      requires Ordered(AttributeSpans(attributes), lo, p) && Intact(charBuffer, text, AttributeSpans(attributes))
      modifies charBuffer
      ensures all.Some? ==> p < q <= |text| && Ordered(AttributeSpans(all.value), lo, q)
      ensures all.Some? ==> Intact(charBuffer, text, AttributeSpans(all.value)) && Unread(charBuffer, text, q)
      ensures Within(charBuffer, lo, if all.Some? then q else |text|)
      ensures var a := ParseAttribute(text[p..], options);
              var before := AttributesOf(text, attributes, options);
              if all.None? then a.None? || HasAttribute(before, a.value.attribute.name)
              else a.Some? && !HasAttribute(before, a.value.attribute.name) && a.value.rest == text[q..] &&
                   AttributesOf(text, all.value, options) == before + [a.value.attribute]
    {
      hide ParseAttribute, AttributeOf, AttributesOf, AttributeSpans, Unread, Ordered, Intact, HasAttribute;
      var a;
      a, q := ReadAttribute(charBuffer, p, options, text);
      if a.None? {
        return None, p;
      }
      ghost var spans := AttributeSpans(attributes + [a.value]);
      Appended(charBuffer, text, attributes, a.value, lo, p, q);
      HasBefore(text, attributes, a.value, options, At(text, a.value.name));
      NameOfAttribute(text, a.value, options);
      label L:
      var repeated := IsRepeated(attributes, a.value, lo, q);
      assert Within@L(charBuffer, lo, q);
      UnreadBehind@L(Change(charBuffer, text, spans, q));
      all := if repeated then None else Some(attributes + [a.value]);
    }

    /** Whether an attribute of that name is among the ones before. */
    method IsRepeated(attributes: seq<AttributeSpan>, a: AttributeSpan, ghost lo: nat, ghost hi: nat)
      returns (repeated: bool)
      requires Ordered(AttributeSpans(attributes + [a]), lo, hi) && hi <= |text| < charBuffer.Length
      requires Intact(charBuffer, text, AttributeSpans(attributes + [a])) && NUL !in text
      modifies charBuffer
      ensures repeated <==> exists j :: 0 <= j < |attributes| &&
                              AttributesOf(text, attributes + [a], options)[j].name == At(text, a.name)
      ensures Intact(charBuffer, text, AttributeSpans(attributes + [a])) && Within(charBuffer, lo, hi)
    {
      hide AttributesOf, AttributeSpans, Ordered, Intact;
      var more := attributes + [a];
      assert more[|attributes|] == a;
      var name := NameOf(charBuffer, more, |attributes|, text, lo, hi);
      repeated := FindAttribute(charBuffer, more, |attributes|, name, options, text, lo, hi);
    }

    /** The attributes of a tag whose name ends at `p`, read up to `q`. */
    ghost predicate Collected(attributes: seq<AttributeSpan>, p: nat, q: nat)
      reads this`charBuffer, this`text, charBuffer
    {
      && p <= q <= |text| && Unread(charBuffer, text, q)
      && Ordered(AttributeSpans(attributes), p + 1, if q == p then p + 1 else q)
      && Intact(charBuffer, text, AttributeSpans(attributes))
    }

    /** Where a tag was read to, and what is known of it. */
    ghost predicate TagRead(rest: Option<nat>, attributes: seq<AttributeSpan>, closing: Closing, r: AttributesResult,
                            p: nat)
      reads this, charBuffer
    {
      && errorID == r.error && rest.Some? == r.rest.Some?
      && (rest.Some? ==>
           && p < rest.value && Collected(attributes, p, rest.value) && r.rest.value == text[rest.value..]
           && closing == r.closing && r.attributes == AttributesOf(text, attributes, options))
    }

    /** `ParseAttributes`: the attributes of an element, and how its tag ends. */
    method ReadAttributes(p: nat, initial: Closing)
      returns (rest: Option<nat>, attributes: seq<AttributeSpan>, closing: Closing)
      requires errorID == Success && Unread(charBuffer, text, p) && (p < |text| ==> !IsNameStartChar(text[p]))
      modifies this`errorID, charBuffer
      ensures Within(charBuffer, p, |text|)
      ensures TagRead(rest, attributes, closing, ParseAttributes(text[p..], [], initial, options), p)
    {
      hide ParseAttributes, AttributesOf, AttributeSpans, Skip, IsNameStartChar, Intact;
      var q := p;
      attributes := [];
      NoAttributes(charBuffer, text, options);
      NulIsNoName();
      while true
        invariant Collected(attributes, p, q) && Within(charBuffer, p, |text|) && errorID == Success
        invariant ParseAttributes(text[p..], [], initial, options)
               == ParseAttributes(text[q..], AttributesOf(text, attributes, options), initial, options)
        decreases |text| - q
      {
        q := SkipInTag(attributes, p, q, initial);
        if !IsNameStartChar(charBuffer[q]) {
          rest, closing := ReadTagEnd(attributes, p, q, initial);
          return;
        }
        var all, next := OneMore(attributes, p, q, initial);
        if all.None? {
          errorID := ParsingAttribute;
          return None, attributes, initial;
        }
        attributes := all.value;
        q := next;
      }
    }

    method SkipInTag(attributes: seq<AttributeSpan>, p: nat, q: nat, initial: Closing) returns (i: nat)
      requires Collected(attributes, p, q)
      ensures q <= i && Collected(attributes, p, i) && Skip(text[i..]) == text[i..]
      ensures var before := AttributesOf(text, attributes, options);
              ParseAttributes(text[q..], before, initial, options)
                == ParseAttributes(text[i..], before, initial, options)
    {
      hide ParseAttributes, AttributesOf, AttributeSpans, Skip, Intact;
      i := SkipWhiteSpaceAt(charBuffer, q, text);
      SkipTwice(text[q..]);
      AttributesSkip(text[q..], AttributesOf(text, attributes, options), initial, options);
    }

    /** An attribute, behind white space. */
    method OneMore(attributes: seq<AttributeSpan>, p: nat, q: nat, initial: Closing)
      returns (all: Option<seq<AttributeSpan>>, next: nat)
      requires Collected(attributes, p, q) && q < |text| && IsNameStartChar(text[q]) && !IsNameStartChar(text[p])
      requires Skip(text[q..]) == text[q..]
      modifies charBuffer
      ensures Within(charBuffer, p, |text|)
      ensures all.Some? ==> q < next && Collected(all.value, p, next)
      ensures var r := ParseAttributes(text[q..], AttributesOf(text, attributes, options), initial, options);
              if all.None? then r.rest.None? && r.error == ParsingAttribute
              else r == ParseAttributes(text[next..], AttributesOf(text, all.value, options), initial, options)
    {
      hide ParseAttributes, ParseAttribute, AttributesOf, AttributeSpans, Skip, HasAttribute, IsNameStartChar, Intact;
      assert text[q..][0] == text[q];
      all, next := AddAttribute(attributes, q, p + 1);
      AttributesStep(text[q..], AttributesOf(text, attributes, options), initial, options);
    }

    /** What is not an attribute, behind white space: the end of the tag or an error. */
    method ReadTagEnd(attributes: seq<AttributeSpan>, p: nat, q: nat, initial: Closing)
      returns (rest: Option<nat>, closing: Closing)
      requires errorID == Success && Collected(attributes, p, q) && !IsNameStartChar(charBuffer[q])
      requires Skip(text[q..]) == text[q..]
      modifies this`errorID
      ensures var r := ParseAttributes(text[q..], AttributesOf(text, attributes, options), initial, options);
              TagRead(rest, attributes, closing, r, p)
    {
      hide ParseAttributes, ParseAttribute, AttributesOf, AttributeSpans, Skip, HasAttribute, IsNameStartChar, Intact;
      NextTwo(charBuffer, text, q);
      AttributesStep(text[q..], AttributesOf(text, attributes, options), initial, options);
      closing := initial;
      if charBuffer[q] == NUL {
        errorID := ParsingElement;
        return None, closing;
      }
      if charBuffer[q] == '>' {
        return Some(q + 1), closing;
      }
      if charBuffer[q] == '/' && charBuffer[q + 1] == '>' {
        closing := Closed;
        return Some(q + 2), closing;
      }
      errorID := ParsingElement;
      return None, closing;
    }

    /** A node that begins at `h` was read to `x.rest`, its pieces in order and intact. */
    ghost predicate NodeRead(x: NodeSpans, r: NodeResult, h: nat)
      reads this, charBuffer
    {
      && errorID == r.error && x.rest.Some? == r.rest.Some?
      && (x.rest.Some? ==>
           && h <= x.rest.value <= |text| && Unread(charBuffer, text, x.rest.value)
           && r.rest.value == text[x.rest.value..]
           && r.node == NodeOf(text, x.node, options) && r.closing == x.closing && r.endTag == TagOf(text, x.endTag)
           && Ordered(Spans(x.node) + Tag(x.endTag), h, Behind(x.node, x.rest.value))
           && Intact(charBuffer, text, Spans(x.node) + Tag(x.endTag))
           && (IsPlain(x.node) ==> x.rest.value < |text| && text[x.rest.value] == '<'))
    }

    /** A node whose text runs to an end tag. */
    method ReadRaw(h: nat, tag: string, failure: Error) returns (q: Option<nat>)
      requires Unread(charBuffer, text, h) && tag != "" && NUL !in tag && errorID == Success
      modifies this`errorID
      ensures errorID == if q.None? then failure else Success
      ensures q.Some? ==> h <= q.value && q.value + |tag| <= |text| && tag <= text[q.value..]
      ensures ParseText(text[h..], tag) ==
                if q.None? then None else Some(Cut(text[h..q.value], text[q.value + |tag|..]))
    {
      hide ParseText;
      q := ParseTextAt(charBuffer, h, tag, text);
      if q.None? {
        errorID := failure;
      }
    }

    /** A leaf from `h` to `q`, with `n` characters of its end tag behind it. */
    lemma LeafRead(h: nat, q: nat, n: nat, node: Tree, r: NodeResult)
      requires Unread(charBuffer, text, h) && h <= q && q + n <= |text| && errorID == Success
      requires !node.ElementTree? && node.value == Span(h, q)
      requires if IsPlain(node) then n == 0 && q < |text| && text[q] == '<' else n > 0
      requires r == Leaf(text[q + n..], NodeOf(text, node, options))
      ensures NodeRead(NodeSpans(Some(q + n), node, Open, None), r, h)
    {
      hide NodeOf;
      UnreadIsIntact(charBuffer, text, [node.value], h, q + 1);
      UnreadFurther(charBuffer, text, h, q + n);
      assert Spans(node) + Tag(None) == [node.value];
    }

    /** `ParseDeep` of the node that `Identify` made. */
    method ReadNode(kind: Kind, h: nat) returns (x: NodeSpans)
      requires kind != NoKind && errorID == Success && Unread(charBuffer, text, h)
      modifies this`errorID, this`parsingDepth, charBuffer
      ensures NodeRead(x, ParseNode(Header(Blank(kind), text[h..]), options, parsingDepth), h)
      ensures Within(charBuffer, h, |text|) && parsingDepth == old(parsingDepth)
      decreases |text| - h, 2
    {
      hide ParseText, Shown, ParseElement, Unread, Ordered, Intact;
      RawTags();
      x := NodeSpans(None, UnknownTree(Span(h, h)), Open, None);
      var q;
      match kind
      case DeclarationKind =>
        q := ReadRaw(h, "?>", ParsingDeclaration);
        if q.Some? {
          x := NodeSpans(Some(q.value + 2), DeclarationTree(Span(h, q.value)), Open, None);
          LeafRead(h, q.value, 2, x.node, ParseNode(Header(Blank(kind), text[h..]), options, parsingDepth));
        }
      case CommentKind =>
        q := ReadRaw(h, "-->", ParsingComment);
        if q.Some? {
          x := NodeSpans(Some(q.value + 3), CommentTree(Span(h, q.value)), Open, None);
          LeafRead(h, q.value, 3, x.node, ParseNode(Header(Blank(kind), text[h..]), options, parsingDepth));
        }
      case UnknownKind =>
        q := ReadRaw(h, ">", ParsingUnknown);
        if q.Some? {
          x := NodeSpans(Some(q.value + 1), UnknownTree(Span(h, q.value)), Open, None);
          LeafRead(h, q.value, 1, x.node, ParseNode(Header(Blank(kind), text[h..]), options, parsingDepth));
        }
      case CDataKind =>
        q := ReadRaw(h, "]]>", ParsingCData);
        if q.Some? {
          x := NodeSpans(Some(q.value + 3), TextTree(Span(h, q.value), true), Open, None);
          LeafRead(h, q.value, 3, x.node, ParseNode(Header(Blank(kind), text[h..]), options, parsingDepth));
        }
      case TextKind =>
        x := ReadText(h);
      case ElementKind =>
        x := ReadElement(h);
    }

    /** `XMLText::ParseDeep` outside CDATA sections. */
    method ReadText(h: nat) returns (x: NodeSpans)
      requires errorID == Success && Unread(charBuffer, text, h)
      modifies this`errorID
      ensures NodeRead(x, ParseTextNode(text[h..], options), h)
    {
      hide ParseText, Shown, Unread, Ordered, Intact;
      RawTags();
      x := NodeSpans(None, TextTree(Span(h, h), false), Open, None);
      var q := ReadRaw(h, "<", ParsingText);
      if q.Some? {
        EndOfBuffer(charBuffer, text, h, q.value + 1);
        if charBuffer[q.value + 1] != NUL {
          x := NodeSpans(Some(q.value), TextTree(Span(h, q.value), false), Open, None);
          assert text[q.value..][0] == '<' && text[h..][q.value - h..] == text[q.value..];
          LeafRead(h, q.value, 0, x.node, ParseTextNode(text[h..], options));
        }
      }
    }

    /** `XMLElement::ParseDeep`, behind the opening `<`. */
    method ReadElement(h: nat) returns (x: NodeSpans)
      requires errorID == Success && Unread(charBuffer, text, h)
      modifies this`errorID, this`parsingDepth, charBuffer
      ensures NodeRead(x, ParseElement(text[h..], options, parsingDepth), h)
      ensures Within(charBuffer, h, |text|) && parsingDepth == old(parsingDepth)
      decreases |text| - h, 1
    {
      hide ParseElement, ParseName, Skip, Unread, NodeRead, TagRead, ParseAttributes;
      x := NodeSpans(None, UnknownTree(Span(h, h)), Open, None);
      var p := SkipWhiteSpaceAt(charBuffer, h, text);
      EndOfBuffer(charBuffer, text, h, p);
      UnreadFurther(charBuffer, text, h, p);
      var closing := Open;
      ElementStart(charBuffer, text, p);
      if charBuffer[p] == '/' {
        closing := Closing;
        p := p + 1;
        UnreadFurther(charBuffer, text, h, p);
      }
      var n := ParseNameAt(charBuffer, p, text);
      if n.None? {
        NoName(h, p, closing, x);
        return;
      }
      assert NameAt(h, p, n.value, closing);
      x := ReadTag(h, p, n.value, closing);
    }

    lemma NoName(h: nat, p: nat, closing: Closing, x: NodeSpans)
      requires h <= p <= |text| && errorID == Success && x.rest.None?
      requires var t1 := Skip(text[h..]);
               if t1 != "" && t1[0] == '/' then closing == Closing && text[p..] == t1[1..]
               else closing == Open && text[p..] == t1
      requires ParseName(text[p..]).None?
      ensures NodeRead(x, ParseElement(text[h..], options, parsingDepth), h)
    {
      hide ParseName, Skip, ParseAttributes, ParseChildren;
    }

    /** Where an element's name stands behind its `<`. */
    ghost predicate NameAt(h: nat, p: nat, n: nat, closing: Closing)
      reads this`text
    {
      && h <= p < n <= |text| && (n < |text| ==> !IsNameStartChar(text[n]))
      && (var t1 := Skip(text[h..]);
          if t1 != "" && t1[0] == '/' then closing == Closing && text[p..] == t1[1..]
          else closing == Open && text[p..] == t1)
      && ParseName(text[p..]) == Some(Cut(text[p..n], text[n..]))
    }

    /** The attributes of an element whose name goes from `p` to `n`, and its children. */
    method ReadTag(h: nat, p: nat, n: nat, closing: Closing) returns (x: NodeSpans)
      requires errorID == Success && NameAt(h, p, n, closing) && Unread(charBuffer, text, p)
      modifies this`errorID, this`parsingDepth, charBuffer
      ensures NodeRead(x, ParseElement(text[h..], options, parsingDepth), h)
      ensures Within(charBuffer, h, |text|) && parsingDepth == old(parsingDepth)
      decreases |text| - h, 0
    {
      hide ParseElement, ParseAttributes, ParseChildren, NameAt, Intact, Ordered, Unread;
      ElementIs(h, p, n, closing);
      NameFacts(h, p, n, closing);
      label L:
      var q, attributes, closing' := ReadAttributes(n, closing);
      if q.None? {
        return NodeSpans(None, UnknownTree(Span(h, h)), Open, None);
      }
      BeforeIsIntact@L(Change(charBuffer, text, [Span(p, n)], n));
      ghost var a := ParseAttributes(text[n..], [], closing, options);
      NamePiece(p, n, q.value, attributes, closing', a);
      if charBuffer[q.value] == NUL || closing' != Open {
        x := NodeSpans(q, ElementTree(Span(p, n), attributes, []), closing', None);
        ChildlessRead(h, p, n, x, a);
        return;
      }
      x := ReadBelow(h, p, n, q.value, attributes, a);
    }

    /** The tag of an element from `p` to `q`: its pieces are in order and intact. */
    ghost predicate TagPieces(p: nat, n: nat, q: nat, attributes: seq<AttributeSpan>)
      reads this, charBuffer
    {
      && p < n < q <= |text| && Unread(charBuffer, text, q)
      && Ordered([Span(p, n)] + AttributeSpans(attributes), p, q)
      && Intact(charBuffer, text, [Span(p, n)] + AttributeSpans(attributes))
    }

    lemma NamePiece(p: nat, n: nat, q: nat, attributes: seq<AttributeSpan>, closing: Closing, a: AttributesResult)
      requires p < n && TagRead(Some(q), attributes, closing, a, n) && Intact(charBuffer, text, [Span(p, n)])
      ensures TagPieces(p, n, q, attributes) && q < charBuffer.Length
      ensures charBuffer[q] == NUL <==> a.rest.value == ""
    {
      hide Intact, AttributeSpans;
      EndOfBuffer(charBuffer, text, q, q);
      OrderedConcat([Span(p, n)], AttributeSpans(attributes), p, n + 1, q);
      IntactConcat(charBuffer, text, [Span(p, n)], AttributeSpans(attributes));
    }

    lemma ChildlessRead(h: nat, p: nat, n: nat, x: NodeSpans, a: AttributesResult)
      requires x.rest.Some? && x.node.ElementTree? && x.node.children == [] && x.node.name == Span(p, n)
      requires x.endTag == None
      requires h <= p && TagPieces(p, n, x.rest.value, x.node.attributes)
      requires TagRead(x.rest, x.node.attributes, x.closing, a, n)
      ensures NodeRead(x, NodeResult(a.rest, Element(text[p..n], a.attributes, []), a.closing, None, a.error), h)
    {
      hide Intact, AttributeSpans, AttributesOf;
      assert Spans(x.node) + Tag(None) == [Span(p, n)] + AttributeSpans(x.node.attributes);
    }

    /** The children below a tag that was read to `q`. */
    method ReadBelow(h: nat, p: nat, n: nat, q: nat, attributes: seq<AttributeSpan>, ghost a: AttributesResult)
      returns (x: NodeSpans)
      requires h <= p && TagPieces(p, n, q, attributes) && TagRead(Some(q), attributes, Open, a, n)
      requires errorID == Success
      modifies this`errorID, this`parsingDepth, charBuffer
      ensures var k := ParseChildren(text[q..], options, false, parsingDepth);
              NodeRead(x, NodeResult(k.rest, Element(text[p..n], a.attributes, k.children), Open, k.endTag, k.error), h)
      ensures Within(charBuffer, h, |text|) && parsingDepth == old(parsingDepth)
      decreases |text| - q, 6
    {
      hide ParseChildren, Intact, Ordered, ChildrenRead, NodeRead, AttributeSpans, AttributesOf;
      ghost var front := [Span(p, n)] + AttributeSpans(attributes);
      TagEnds(p, n, q, attributes, Open, a);
      label L:
      var k := ReadChildren(q, false);
      BeforeIsIntact@L(Change(charBuffer, text, front, q));
      x := NodeSpans(k.rest, ElementTree(Span(p, n), attributes, k.children), Open, k.endTag);
      ElementRead(h, p, n, q, x, a, ParseChildren(text[q..], options, false, parsingDepth));
    }

    lemma TagEnds(p: nat, n: nat, q: nat, attributes: seq<AttributeSpan>, closing: Closing, a: AttributesResult)
      requires TagPieces(p, n, q, attributes) && TagRead(Some(q), attributes, closing, a, n)
      ensures var front := [Span(p, n)] + AttributeSpans(attributes);
              && Ordered(front, p, q) && Intact(charBuffer, text, front) && Unread(charBuffer, text, q)
              && (forall k :: 0 <= k < |front| ==> front[k].end <= q)
              && a.attributes == AttributesOf(text, attributes, options)
    {
      hide Intact, AttributeSpans, AttributesOf;
    }

    lemma ElementRead(h: nat, p: nat, n: nat, q: nat, x: NodeSpans, a: AttributesResult, k: ChildrenResult)
      requires h <= p < n < q <= |text| && x.node.ElementTree? && x.node.name == Span(p, n) && x.closing == Open
      requires a.attributes == AttributesOf(text, x.node.attributes, options)
      requires var front := [Span(p, n)] + AttributeSpans(x.node.attributes);
               Ordered(front, p, q) && Intact(charBuffer, text, front)
      requires ChildrenRead(ChildrenSpans(x.rest, x.node.children, x.endTag), k, q)
      requires k.rest.Some? ==> k.error == Success
      ensures NodeRead(x, NodeResult(k.rest, Element(text[p..n], a.attributes, k.children), Open, k.endTag, k.error), h)
    {
      hide Intact, AttributeSpans, AttributesOf, AllSpans, NodesOf;
      if x.rest.Some? {
        var front := [Span(p, n)] + AttributeSpans(x.node.attributes);
        var below := AllSpans(x.node.children) + Tag(x.endTag);
        OrderedConcat(front, below, p, q, x.rest.value);
        IntactConcat(charBuffer, text, front, below);
        assert Spans(x.node) + Tag(x.endTag) == front + below;
      }
    }

    // ----- Children ------------------------------------------------------------------------

    /** The children of a node that begin at `p` were read: when there is no error, they are the ones of `r`, their
        pieces in order and intact. */
    ghost predicate ChildrenRead(x: ChildrenSpans, r: ChildrenResult, p: nat)
      reads this, charBuffer
    {
      && errorID == r.error && x.rest.Some? == r.rest.Some?
      && (x.rest.Some? ==>
           && p <= x.rest.value <= |text| && Unread(charBuffer, text, x.rest.value)
           && r.rest.value == text[x.rest.value..])
      && (r.error == Success ==>
           && r.children == NodesOf(text, x.children, options) && r.endTag == TagOf(text, x.endTag)
           && Ordered(AllSpans(x.children) + Tag(x.endTag), p, if x.rest.Some? then x.rest.value else |text|)
           && Intact(charBuffer, text, AllSpans(x.children) + Tag(x.endTag)))
    }

    /** `XMLNode::ParseDeep`, with its depth tracker. */
    method ReadChildren(p: nat, atTop: bool) returns (x: ChildrenSpans)
      requires errorID == Success && Unread(charBuffer, text, p)
      modifies this`errorID, this`parsingDepth, charBuffer
      ensures ChildrenRead(x, ParseChildren(text[p..], options, atTop, parsingDepth), p)
      ensures Within(charBuffer, p, |text|) && parsingDepth == old(parsingDepth)
      decreases |text| - p, 5
    {
      hide ChildLoop, Intact, Ordered, Unread;
      parsingDepth := parsingDepth + 1;
      if parsingDepth == MAX_ELEMENT_DEPTH {
        errorID := DepthExceeded;
        x := ChildrenSpans(None, [], None);
      } else {
        x := ReadLoop(p, atTop);
      }
      parsingDepth := parsingDepth - 1;
    }

    /** The siblings that were read from `p` to `q`: if a tag follows, it may take the terminator of a text. */
    ghost predicate Siblings(children: seq<Tree>, p: nat, q: nat)
      reads this`charBuffer, this`text, charBuffer
    {
      && p <= q <= |text| && Unread(charBuffer, text, q)
      && Ordered(AllSpans(children), p, Fence(text, q)) && Intact(charBuffer, text, AllSpans(children))
    }

    method ReadLoop(p: nat, atTop: bool) returns (x: ChildrenSpans)
      requires errorID == Success && Unread(charBuffer, text, p)
      modifies this`errorID, this`parsingDepth, charBuffer
      ensures ChildrenRead(x, ChildLoop(text[p..], options, atTop, parsingDepth, []), p)
      ensures Within(charBuffer, p, |text|) && parsingDepth == old(parsingDepth)
      decreases |text| - p, 4
    {
      hide ChildLoop, Siblings, NodesOf, ChildrenRead;
      var q, children := p, [];
      NoSiblings(p);
      while charBuffer[q] != NUL
        invariant Siblings(children, p, q) && p <= q <= |text| && Unread(charBuffer, text, q)
        invariant errorID == Success && parsingDepth == old(parsingDepth) && Within(charBuffer, p, |text|)
        invariant ChildLoop(text[p..], options, atTop, parsingDepth, [])
               == ChildLoop(text[q..], options, atTop, parsingDepth, NodesOf(text, children, options))
        decreases |text| - q
      {
        var done;
        done, children, q := ReadOne(children, p, q, atTop);
        if done.Some? {
          return done.value;
        }
      }
      EndOfBuffer(charBuffer, text, q, q);
      assert Identify("").NoNode?;
      x := NoMore(children, p, q, atTop);
    }

    /** The next node, which ends the loop or becomes a child. */
    method ReadOne(children: seq<Tree>, p: nat, q: nat, atTop: bool)
      returns (done: Option<ChildrenSpans>, all: seq<Tree>, next: nat)
      requires errorID == Success && Siblings(children, p, q)
      modifies this`errorID, this`parsingDepth, charBuffer
      ensures done.None? ==> Siblings(all, p, next) && q < next <= |text| && errorID == Success
      ensures done.None? ==> Unread(charBuffer, text, next)
      ensures Within(charBuffer, q, |text|) && parsingDepth == old(parsingDepth)
      ensures var k := ChildLoop(text[q..], options, atTop, parsingDepth, NodesOf(text, children, options));
              if done.Some? then ChildrenRead(done.value, k, p)
              else k == ChildLoop(text[next..], options, atTop, parsingDepth, NodesOf(text, all, options))
      decreases |text| - q, 3
    {
      hide ChildLoop, ParseNode, Identify, Intact, Ordered, NodesOf, NodeRead, ChildrenRead, AllSpans;
      all, next := children, q;
      var kind, h := IdentifyAt(charBuffer, q, text);
      if kind == NoKind {
        var x := NoMore(children, p, q, atTop);
        return Some(x), all, next;
      }
      BeforeTheNode(children, p, q, h);
      LoopStepIs(text[q..], options, atTop, parsingDepth, NodesOf(text, children, options));
      ghost var r := ParseNode(Header(Blank(kind), text[h..]), options, parsingDepth);
      label L:
      var n := ReadNode(kind, h);
      BeforeIsIntact@L(Change(charBuffer, text, AllSpans(children), h));
      done, all, next := Attach(children, p, h, n, atTop, r);
      Shrinks(text[q..], options, parsingDepth);
    }

    /** No node follows. */
    method NoMore(children: seq<Tree>, p: nat, q: nat, atTop: bool) returns (x: ChildrenSpans)
      requires errorID == Success && Siblings(children, p, q) && Identify(text[q..]).NoNode?
      ensures ChildrenRead(x, ChildLoop(text[q..], options, atTop, parsingDepth, NodesOf(text, children, options)), p)
    {
      hide Intact, NodesOf, AllSpans, ParseNode, Identify, WellLocated;
      x := ChildrenSpans(None, children, None);
      assert AllSpans(children) + Tag(None) == AllSpans(children);
    }

    lemma NoSiblings(p: nat)
      requires Unread(charBuffer, text, p)
      ensures Siblings([], p, p) && NodesOf(text, [], options) == []
    {
    }

    lemma BeforeTheNode(children: seq<Tree>, p: nat, q: nat, h: nat)
      requires Siblings(children, p, q) && q <= h <= |text| && (h == q ==> q < |text| && text[q] != '<')
      ensures Unread(charBuffer, text, h) && Ordered(AllSpans(children), p, h)
      ensures Intact(charBuffer, text, AllSpans(children))
      ensures forall k :: 0 <= k < |AllSpans(children)| ==> AllSpans(children)[k].end <= h
    {
      hide Intact, AllSpans;
    }

    /** What the loop makes of a node: `n` was read from `h` on, behind the children before it. */
    method Attach(children: seq<Tree>, p: nat, h: nat, n: NodeSpans, atTop: bool, ghost r: NodeResult)
      returns (done: Option<ChildrenSpans>, all: seq<Tree>, next: nat)
      requires p <= h && NodeRead(n, r, h) && (r.rest.Some? ==> r.error == Success)
      requires Ordered(AllSpans(children), p, h) && Intact(charBuffer, text, AllSpans(children))
      requires forall k :: 0 <= k < |AllSpans(children)| ==> AllSpans(children)[k].end <= h
      requires |text| < charBuffer.Length && NUL !in text
      modifies this`errorID, charBuffer
      ensures done.None? ==> Siblings(all, p, next) && Unread(charBuffer, text, next) && errorID == Success
      ensures done.None? ==> r.rest == Some(text[next..])
      ensures Within(charBuffer, h, |text|)
      ensures var k := LoopStep(r, options, atTop, parsingDepth, NodesOf(text, children, options));
              if done.Some? then ChildrenRead(done.value, k, p)
              else k == ChildLoop(text[next..], options, atTop, parsingDepth, NodesOf(text, all, options))
    {
      hide ChildLoop, Intact, Ordered, NodesOf, AllSpans, WellLocated, Mismatch, NodeRead;
      all, next := children, h;
      NodeFacts(n, r, h);
      if n.rest.None? {
        if errorID == Success {
          errorID := Parsing;
        }
        return Some(ChildrenSpans(None, children, None)), all, next;
      }
      WellLocatedTrees(text, atTop, children, options);
      if n.node.DeclarationTree? &&
         !(atTop && (children != [] ==> children[0].DeclarationTree? && children[|children| - 1].DeclarationTree?)) {
        errorID := ParsingDeclaration;
        return Some(ChildrenSpans(None, children, None)), all, next;
      }
      if n.node.ElementTree? {
        if n.closing == Closing {
          HandedUp(p, h, n, r, children, atTop);
          return Some(ChildrenSpans(n.rest, children, if atTop then None else Some(n.node.name))), all, next;
        }
        label L:
        var mismatch := Mismatched(n, h, r);
        BeforeIsIntact@L(Change(charBuffer, text, AllSpans(children), h));
        if mismatch {
          errorID := MismatchedElement;
          return Some(ChildrenSpans(None, children, None)), all, next;
        }
      }
      all, next := children + [n.node], n.rest.value;
      Joined(children, p, h, n, r);
      return None, all, next;
    }

    lemma NodeFacts(n: NodeSpans, r: NodeResult, h: nat)
      requires NodeRead(n, r, h)
      ensures errorID == r.error && n.rest.Some? == r.rest.Some?
      ensures n.rest.Some? ==> r.rest.value == text[n.rest.value..] && n.closing == r.closing
      ensures n.rest.Some? ==> (r.node.Declaration? <==> n.node.DeclarationTree?)
      ensures n.rest.Some? ==> (r.node.Element? <==> n.node.ElementTree?)
    {
      hide Unread, Ordered, Intact, Shown;
    }

    /** An end tag is handed up. */
    lemma HandedUp(p: nat, h: nat, n: NodeSpans, r: NodeResult, children: seq<Tree>, atTop: bool)
      requires p <= h && NodeRead(n, r, h) && n.rest.Some? && n.node.ElementTree? && r.error == Success
      requires Ordered(AllSpans(children), p, h) && Intact(charBuffer, text, AllSpans(children))
      ensures var x := ChildrenSpans(n.rest, children, if atTop then None else Some(n.node.name));
              ChildrenRead(x, ChildrenResult(r.rest, NodesOf(text, children, options),
                                             if atTop then None else Some(r.node.name), Success), p)
    {
      hide SpanIntact, AllSpans, NodesOf, AttributeSpans, AttributesOf;
      var endTag := if atTop then None else Some(n.node.name);
      assert (Spans(n.node) + Tag(n.endTag))[0] == n.node.name;
      OrderedConcat(AllSpans(children), Tag(endTag), p, h, n.rest.value);
      IntactConcat(charBuffer, text, AllSpans(children), Tag(endTag));
    }

    /** The node becomes a child. */
    lemma Joined(children: seq<Tree>, p: nat, h: nat, n: NodeSpans, r: NodeResult)
      requires p <= h && NodeRead(n, r, h) && n.rest.Some?
      requires Ordered(AllSpans(children), p, h) && Intact(charBuffer, text, AllSpans(children))
      ensures Siblings(children + [n.node], p, n.rest.value)
      ensures NodesOf(text, children + [n.node], options) == NodesOf(text, children, options) + [r.node]
    {
      hide SpanIntact, AllSpans, NodesOf, Spans, NodeOf;
      NodesSnoc(text, children, n.node, options);
      AllSpansSnoc(children, n.node);
      var spans := Spans(n.node) + Tag(n.endTag);
      FrontIsOrdered(Spans(n.node), Tag(n.endTag), h, Behind(n.node, n.rest.value), Fence(text, n.rest.value));
      FrontIsIntact(charBuffer, text, Spans(n.node), Tag(n.endTag));
      OrderedConcat(AllSpans(children), Spans(n.node), p, h, Fence(text, n.rest.value));
      IntactConcat(charBuffer, text, AllSpans(children), Spans(n.node));
    }

    /** Whether the tags of an element fit: both names get their terminators. */
    method Mismatched(n: NodeSpans, h: nat, ghost r: NodeResult) returns (mismatch: bool)
      requires NodeRead(n, r, h) && n.rest.Some? && n.node.ElementTree?
      modifies charBuffer
      ensures r.node.Element? && mismatch == Mismatch(r)
      ensures NodeRead(n, r, h) && Within(charBuffer, h, |text|)
    {
      hide AttributeSpans, AttributesOf, SpanIntact, AllSpans, NodesOf;
      if n.endTag.None? {
        return n.closing == Open;
      }
      if n.closing != Open {
        return true;
      }
      ghost var spans := Spans(n.node) + Tag(n.endTag);
      assert spans[0] == n.node.name && spans[|spans| - 1] == n.endTag.value;
      var endTag := NameIn(charBuffer, n.endTag.value, spans, |spans| - 1, text, h, n.rest.value);
      var name := NameIn(charBuffer, n.node.name, spans, 0, text, h, n.rest.value);
      return endTag != name;
    }

    lemma NameFacts(h: nat, p: nat, n: nat, closing: Closing)
      requires NameAt(h, p, n, closing) && Unread(charBuffer, text, p)
      ensures h <= p < n <= |text| && (n < |text| ==> !IsNameStartChar(text[n])) && Unread(charBuffer, text, n)
      ensures Intact(charBuffer, text, [Span(p, n)])
    {
    }

    lemma ElementIs(h: nat, p: nat, n: nat, closing: Closing)
      requires NameAt(h, p, n, closing)
      ensures var a := ParseAttributes(text[n..], [], closing, options);
              var e := Element(text[p..n], a.attributes, []);
              ParseElement(text[h..], options, parsingDepth) ==
                if a.rest.None? || a.rest.value == "" || a.closing != Open then
                  NodeResult(a.rest, e, a.closing, None, a.error)
                else
                  var k := ParseChildren(a.rest.value, options, false, parsingDepth);
                  NodeResult(k.rest, e.(children := k.children), Open, k.endTag, k.error)
    {
      hide ParseName, Skip, ParseAttributes, ParseChildren;
    }

    // ----- Documents -----------------------------------------------------------------------

    /** `XMLDocument::Parse`: without an error the tree shows what `Parse` says, and every piece is still to be read
        where it stands. */
    method ReadDocument(xml: string) returns (hasBom: bool, children: seq<Tree>)
      modifies this
      ensures text == CString(xml) && fresh(charBuffer) && charBuffer.Length == |xml| + 1 && parsingDepth == 0
      ensures Parse(xml, options) == if errorID != Success then Invalid(errorID)
                                     else Document(hasBom, NodesOf(text, children, options))
      ensures |text| < charBuffer.Length && NUL !in text
      ensures errorID == Success ==>
                  Ordered(AllSpans(children), 0, |text|) && Intact(charBuffer, text, AllSpans(children))
    {
      hide Skip, ParseChildren, Ordered, Intact, AllSpans, NodesOf, Unread, ChildrenRead;
      errorID, parsingDepth := Success, 0;
      Fill(xml);
      var p := SkipWhiteSpaceAt(charBuffer, 0, text);
      assert text[0..] == text;
      UnreadFurther(charBuffer, text, 0, p);
      hasBom := StartsAt(charBuffer, p, BOM, text);
      if hasBom {
        assert text[p..][3..] == text[p + 3..];
        p := p + 3;
        UnreadFurther(charBuffer, text, 0, p);
      }
      EndOfBuffer(charBuffer, text, p, p);
      if charBuffer[p] == NUL {
        errorID := EmptyDocument;
        return hasBom, [];
      }
      var x := ReadChildren(p, true);
      children := x.children;
      TopFacts(x, p);
    }

    /** `ParseChildren` at the top hands no end tag up. */
    lemma TopFacts(x: ChildrenSpans, p: nat)
      requires p <= |text| && ChildrenRead(x, ParseChildren(text[p..], options, true, 0), p)
      ensures errorID == ParseChildren(text[p..], options, true, 0).error
      ensures errorID == Success ==>
                && ParseChildren(text[p..], options, true, 0).children == NodesOf(text, x.children, options)
                && Ordered(AllSpans(x.children), 0, |text|) && Intact(charBuffer, text, AllSpans(x.children))
    {
      hide ParseChildren, AllSpans, NodesOf, SpanIntact;
      if errorID == Success {
        var hi := if x.rest.Some? then x.rest.value else |text|;
        assert Ordered(AllSpans(x.children) + Tag(x.endTag), p, hi);
        FrontIsOrdered(AllSpans(x.children), Tag(x.endTag), p, hi, |text|);
        FrontIsIntact(charBuffer, text, AllSpans(x.children), Tag(x.endTag));
      }
    }

    /** The buffer gets the text and a NUL. */
    method Fill(xml: string)
      modifies this`charBuffer, this`text
      ensures fresh(charBuffer) && charBuffer.Length == |xml| + 1
      ensures text == CString(xml) && Unread(charBuffer, text, 0)
    {
      text := CString(xml);
      charBuffer := new char[|xml| + 1](i => if 0 <= i < |xml| then xml[i] else NUL);
      FilledText(xml);
    }

    /** A document is parsed, and then all of its tree is read. */
    method ParseAndShow(xml: string) returns (d: Document)
      modifies this
      ensures d == Parse(xml, options)
    {
      hide Parse, Ordered, Intact, AllSpans, NodesOf;
      var hasBom, children := ReadDocument(xml);
      if errorID != Success {
        return Invalid(errorID);
      }
      var nodes := ShowNodes(charBuffer, children, options, text, 0, |text|);
      return Document(hasBom, nodes);
    }
  }

  /** How an element goes on behind the white space. */
  lemma ElementStart(buf: array<char>, text: string, p: nat)
    requires Unread(buf, text, p)
    ensures buf[p] == '/' <==> text[p..] != "" && text[p..][0] == '/'
    ensures buf[p] == '/' ==> p < |text| && text[p..][1..] == text[p + 1..]
  {
  }

  lemma RawTags()
    ensures NUL !in "?>" && NUL !in "-->" && NUL !in ">" && NUL !in "]]>" && NUL !in "<"
  {
  }

  lemma EndOfBuffer(buf: array<char>, text: string, h: nat, q: nat)
    requires Unread(buf, text, h) && h <= q <= |text|
    ensures q < buf.Length && (buf[q] == NUL <==> text[q..] == "")
  {
    NoNul(text);
  }


  lemma NulIsNoName()
    ensures !IsNameStartChar(NUL)
  {
  }

  lemma SkipTwice(t: string)
    ensures Skip(Skip(t)) == Skip(t)
  {
    var u := Skip(t);
    assert u[0..] == u;
  }

  lemma AttributesSkip(t: string, before: seq<Attribute>, initial: Closing, options: Options)
    ensures ParseAttributes(t, before, initial, options) == ParseAttributes(Skip(t), before, initial, options)
  {
    hide Skip, ParseAttribute, HasAttribute, IsNameStartChar;
    SkipTwice(t);
  }

  /** The next two characters of what is still to be read. */
  lemma NextTwo(buf: array<char>, text: string, q: nat)
    requires Unread(buf, text, q)
    ensures buf[q] == NUL <==> q == |text|
    ensures q < |text| ==> buf[q] == text[q..][0] && text[q..][1..] == text[q + 1..]
    ensures q < |text| ==> ("/>" <= text[q..] <==> buf[q] == '/' && buf[q + 1] == '>')
    ensures "/>" <= text[q..] ==> q + 2 <= |text| && text[q..][2..] == text[q + 2..]
  {
    NoNul(text);
    assert q + 1 < |text| ==> text[q..][1] == text[q + 1];
  }

  lemma AttributesStep(u: string, before: seq<Attribute>, initial: Closing, options: Options)
    requires u == Skip(u)
    ensures var r := ParseAttributes(u, before, initial, options);
            if u == "" then r == AttributesResult(None, before, initial, ParsingElement)
            else if IsNameStartChar(u[0]) then
              var a := ParseAttribute(u, options);
              r == if a.None? || HasAttribute(before, a.value.attribute.name)
                   then AttributesResult(None, before, initial, ParsingAttribute)
                   else ParseAttributes(a.value.rest, before + [a.value.attribute], initial, options)
            else if u[0] == '>' then r == AttributesResult(Some(u[1..]), before, initial, Success)
            else if "/>" <= u then r == AttributesResult(Some(u[2..]), before, Closed, Success)
            else r == AttributesResult(None, before, initial, ParsingElement)
  {
    hide ParseAttribute, Skip, HasAttribute, IsNameStartChar;
  }

  lemma NoAttributes(buf: array<char>, text: string, options: Options)
    ensures AttributesOf(text, [], options) == [] && AttributeSpans([]) == [] && Intact(buf, text, AttributeSpans([]))
  {
  }

  lemma FilledText(xml: string)
    ensures var text := CString(xml);
            |text| <= |xml| && (|text| < |xml| ==> xml[|text|] == NUL)
            && forall i :: 0 <= i < |text| ==> xml[i] == text[i]
  {
  }

  // ----- Reading the tree ------------------------------------------------------------------

  /** `StrPair::GetStr` of a piece of the tree: whichever is read, the others can still be read. */
  method ReadPiece(buf: array<char>, s: Span, flags: Flags, ghost text: string, ghost spans: seq<Span>,
                   ghost lo: nat, ghost hi: nat, ghost k: nat) returns (value: string)
    requires k < |spans| && spans[k] == s && Ordered(spans, lo, hi) && hi <= |text| < buf.Length
    requires Intact(buf, text, spans) && NUL !in text
    modifies buf
    ensures value == Shown(At(text, s), flags)
    ensures Within(buf, s.start, s.end + 1)
    ensures forall j :: 0 <= j < |spans| && j != k ==> SpanIntact(buf, text, spans[j])
  {
    hide Shown, Ordered, Intact, SpanIntact;
    PieceText(buf, text, spans, lo, hi, k);
    label L:
    value := TakePiece(buf, s, flags);
    OthersStand@L(Change(buf, text, spans, k));
  }

  method TakePiece(buf: array<char>, s: Span, flags: Flags) returns (value: string)
    requires s.start <= s.end < buf.Length && NUL !in buf[s.start..s.end]
    modifies buf
    ensures value == Shown(old(buf[s.start..s.end]), flags) && Within(buf, s.start, s.end + 1)
  {
    hide Shown;
    var pair := new StrPair.Set(buf, s.start, s.end, flags);
    var at := pair.GetStr();
    value := TakeString(buf, at, s.end);
  }

  lemma PieceText(buf: array<char>, text: string, spans: seq<Span>, lo: nat, hi: nat, k: nat)
    requires k < |spans| && Ordered(spans, lo, hi) && hi <= |text| < buf.Length
    requires Intact(buf, text, spans) && NUL !in text
    ensures var s := spans[k];
            s.start <= s.end < |text| && buf[s.start..s.end] == At(text, s) && NUL !in buf[s.start..s.end]
    ensures Ordered(spans, 0, |text|)
  {
    NoNul(text);
    var s := spans[k];
    assert SpanIntact(buf, text, s);
    assert buf[s.start..s.end] == text[s.start..s.end];
  }

  twostate lemma OthersStand(d: Change)
    requires d.at < |d.spans| && old(Intact(d.buf, d.text, d.spans)) && Ordered(d.spans, 0, |d.text|)
    requires Within(d.buf, d.spans[d.at].start, d.spans[d.at].end + 1)
    ensures forall j :: 0 <= j < |d.spans| && j != d.at ==> SpanIntact(d.buf, d.text, d.spans[j])
  {
    forall j | 0 <= j < |d.spans| && j != d.at
      ensures SpanIntact(d.buf, d.text, d.spans[j])
    {
      assert old(SpanIntact(d.buf, d.text, d.spans[j]));
      assert j < d.at ==> d.spans[j].end < d.spans[d.at].start;
    }
  }

  /** What lies behind the changes keeps its pieces. */
  twostate lemma BehindIsIntact(d: Change)
    requires old(Intact(d.buf, d.text, d.spans)) && forall k :: 0 <= k < |d.spans| ==> d.at <= d.spans[k].start
    requires Within(d.buf, 0, d.at)
    ensures Intact(d.buf, d.text, d.spans)
  {
    forall k | 0 <= k < |d.spans|
      ensures SpanIntact(d.buf, d.text, d.spans[k])
    {
      assert old(SpanIntact(d.buf, d.text, d.spans[k]));
    }
  }

  /** Where the pieces of `b` begin, behind those of `a`. */
  function Middle(b: seq<Span>, hi: nat): nat {
    if b == [] then hi else b[0].start
  }

  lemma InTwo(buf: array<char>, text: string, a: seq<Span>, b: seq<Span>, lo: nat, hi: nat)
    requires Ordered(a + b, lo, hi) && Intact(buf, text, a + b) && lo <= hi
    ensures var mid := Middle(b, hi);
            && lo <= mid <= hi && Ordered(a, lo, mid) && Ordered(b, mid, hi)
            && Intact(buf, text, a) && Intact(buf, text, b)
  {
    hide SpanIntact;
    var c := a + b;
    assert forall k :: 0 <= k < |a| ==> c[k] == a[k];
    assert forall k :: 0 <= k < |b| ==> c[|a| + k] == b[k];
    assert b != [] ==> c[|a|] == b[0];
  }

  /** The nodes that a reader sees when the tree is read in the order of the text. */
  method ShowNodes(buf: array<char>, nodes: seq<Tree>, options: Options, ghost text: string, ghost lo: nat,
                   ghost hi: nat) returns (shown: seq<Node>)
    requires Ordered(AllSpans(nodes), lo, hi) && Intact(buf, text, AllSpans(nodes))
    requires lo <= hi <= |text| < buf.Length && NUL !in text
    modifies buf
    ensures shown == NodesOf(text, nodes, options) && Within(buf, lo, hi)
    decreases nodes, 1
  {
    hide NodeOf, Spans, Intact, Ordered;
    if nodes == [] {
      return [];
    }
    ghost var later := AllSpans(nodes[1..]);
    ghost var mid := Middle(later, hi);
    InTwo(buf, text, Spans(nodes[0]), later, lo, hi);
    StartsAreBehind(later, mid, hi);
    label L:
    var first := ShowNode(buf, nodes[0], options, text, lo, mid);
    BehindIsIntact@L(Change(buf, text, later, mid));
    var rest := ShowNodes(buf, nodes[1..], options, text, mid, hi);
    return [first] + rest;
  }

  lemma StartsAreBehind(spans: seq<Span>, lo: nat, hi: nat)
    requires Ordered(spans, lo, hi)
    ensures forall k :: 0 <= k < |spans| ==> lo <= spans[k].start
  {
  }

  method ShowNode(buf: array<char>, n: Tree, options: Options, ghost text: string, ghost lo: nat, ghost hi: nat)
    returns (shown: Node)
    requires Ordered(Spans(n), lo, hi) && Intact(buf, text, Spans(n))
    requires lo <= hi <= |text| < buf.Length && NUL !in text
    modifies buf
    ensures shown == NodeOf(text, n, options) && Within(buf, lo, hi)
    decreases n, 1
  {
    hide Intact, Ordered, Shown;
    match n
    case ElementTree(name, attributes, children) =>
      shown := ShowElement(buf, n, options, text, lo, hi);
    case TextTree(value, cdata) =>
      var v := ReadOnly(buf, value, if cdata then RAW else options.TextFlags(), text, lo, hi);
      shown := Text(v, cdata);
    case CommentTree(value) =>
      var v := ReadOnly(buf, value, RAW, text, lo, hi);
      shown := Comment(v);
    case DeclarationTree(value) =>
      var v := ReadOnly(buf, value, RAW, text, lo, hi);
      shown := Declaration(v);
    case UnknownTree(value) =>
      var v := ReadOnly(buf, value, RAW, text, lo, hi);
      shown := Unknown(v);
  }

  method ReadOnly(buf: array<char>, s: Span, flags: Flags, ghost text: string, ghost lo: nat, ghost hi: nat)
    returns (value: string)
    requires Ordered([s], lo, hi) && Intact(buf, text, [s]) && hi <= |text| < buf.Length && NUL !in text
    modifies buf
    ensures value == Shown(At(text, s), flags) && Within(buf, lo, hi)
  {
    hide Shown, Intact;
    value := ReadPiece(buf, s, flags, text, [s], lo, hi, 0);
    assert lo <= [s][0].start && [s][0].end < hi;
  }

  method ShowElement(buf: array<char>, n: Tree, options: Options, ghost text: string, ghost lo: nat, ghost hi: nat)
    returns (shown: Node)
    requires n.ElementTree? && Ordered(Spans(n), lo, hi) && Intact(buf, text, Spans(n))
    requires lo <= hi <= |text| < buf.Length && NUL !in text
    modifies buf
    ensures shown == NodeOf(text, n, options) && Within(buf, lo, hi)
    decreases n, 0
  {
    hide Intact, Ordered, AttributeSpans, AllSpans, AttributesOf, NodesOf;
    ghost var tag, below := [n.name] + AttributeSpans(n.attributes), AllSpans(n.children);
    ghost var mid := Middle(below, hi);
    assert Spans(n) == tag + below;
    InTwo(buf, text, tag, below, lo, hi);
    StartsAreBehind(below, mid, hi);
    label L:
    var name, attributes := ShowTag(buf, n.name, n.attributes, options, text, lo, mid);
    BehindIsIntact@L(Change(buf, text, below, mid));
    var children := ShowNodes(buf, n.children, options, text, mid, hi);
    return Element(name, attributes, children);
  }

  method ShowTag(buf: array<char>, s: Span, attributes: seq<AttributeSpan>, options: Options, ghost text: string,
                 ghost lo: nat, ghost hi: nat) returns (name: string, shown: seq<Attribute>)
    requires Ordered([s] + AttributeSpans(attributes), lo, hi) && Intact(buf, text, [s] + AttributeSpans(attributes))
    requires lo <= hi <= |text| < buf.Length && NUL !in text
    modifies buf
    ensures name == At(text, s) && shown == AttributesOf(text, attributes, options) && Within(buf, lo, hi)
  {
    hide Intact, Ordered, AttributeSpans, AttributesOf;
    ghost var later := AttributeSpans(attributes);
    ghost var mid := Middle(later, hi);
    InTwo(buf, text, [s], later, lo, hi);
    StartsAreBehind(later, mid, hi);
    label L:
    name := NameIn(buf, s, [s], 0, text, lo, mid);
    BehindIsIntact@L(Change(buf, text, later, mid));
    shown := ShowAttributes(buf, attributes, options, text, mid, hi);
  }

  method ShowAttributes(buf: array<char>, attributes: seq<AttributeSpan>, options: Options, ghost text: string,
                        ghost lo: nat, ghost hi: nat) returns (shown: seq<Attribute>)
    requires Ordered(AttributeSpans(attributes), lo, hi) && Intact(buf, text, AttributeSpans(attributes))
    requires lo <= hi <= |text| < buf.Length && NUL !in text
    modifies buf
    ensures shown == AttributesOf(text, attributes, options) && Within(buf, lo, hi)
    decreases |attributes|
  {
    hide Intact, Ordered, AttributeOf;
    if attributes == [] {
      return [];
    }
    var front, a := attributes[..|attributes| - 1], attributes[|attributes| - 1];
    ghost var last := [a.name, a.value];
    ghost var mid := Middle(last, hi);
    InTwo(buf, text, AttributeSpans(front), last, lo, hi);
    StartsAreBehind(last, mid, hi);
    label L:
    var before := ShowAttributes(buf, front, options, text, lo, mid);
    BehindIsIntact@L(Change(buf, text, last, mid));
    var attribute := ShowAttribute(buf, a, options, text, mid, hi);
    return before + [attribute];
  }

  method ShowAttribute(buf: array<char>, a: AttributeSpan, options: Options, ghost text: string, ghost lo: nat,
                       ghost hi: nat) returns (shown: Attribute)
    requires Ordered([a.name, a.value], lo, hi) && Intact(buf, text, [a.name, a.value])
    requires lo <= hi <= |text| < buf.Length && NUL !in text
    modifies buf
    ensures shown == AttributeOf(text, a, options) && Within(buf, lo, hi)
  {
    hide Intact, Ordered, Shown;
    assert [a.name, a.value] == [a.name] + [a.value];
    ghost var mid := Middle([a.value], hi);
    InTwo(buf, text, [a.name], [a.value], lo, hi);
    StartsAreBehind([a.value], mid, hi);
    label L:
    var name := NameIn(buf, a.name, [a.name], 0, text, lo, mid);
    BehindIsIntact@L(Change(buf, text, [a.value], mid));
    var value := ReadOnly(buf, a.value, options.AttributeFlags(), text, mid, hi);
    return Attribute(name, value);
  }

  // ----- Terminators ---------------------------------------------------------------------------

  // The parser asks for names when it has read a whole attribute or a whole element, and then every name ends in
  // front of what is still to be read.

  lemma AttributeNameIsBehind(t: string, options: Options)
    requires ParseAttribute(t, options).Some?
    ensures ParseName(t).Some? && |ParseAttribute(t, options).value.rest| < |ParseName(t).value.rest|
  {
    hide ParseName, Shown;
  }

  lemma ElementNameIsBehind(t: string, options: Options, depth: nat)
    requires ParseElement(t, options, depth).rest.Some?
    ensures var t1 := Skip(t);
            var name := ParseName(if t1 != "" && t1[0] == '/' then t1[1..] else t1);
            name.Some? && |ParseElement(t, options, depth).rest.value| < |name.value.rest|
  {
    hide ParseName, Skip, ParseAttributes, ParseChildren;
  }
}
