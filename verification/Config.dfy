/** Configuration files: lines of sections and items, parsed into a map of maps and printed from it. */
module Config {
  import opened Numerals

  // ----- White space at the ends -----------------------------------------------------------

  predicate IsSpace(c: char) {
    c == ' ' || c == 12 as char || c == '\n' || c == '\r' || c == '\t' || c == 11 as char
  }

  predicate AllSpace(s: string) {
    forall i :: 0 <= i < |s| ==> IsSpace(s[i])
  }

  predicate Trimmed(s: string) {
    s != "" ==> !IsSpace(s[0]) && !IsSpace(s[|s| - 1])
  }

  function TrimFront(s: string): string {
    if s != "" && IsSpace(s[0]) then TrimFront(s[1..]) else s
  }

  function TrimBack(s: string): string {
    if s != "" && IsSpace(s[|s| - 1]) then TrimBack(s[..|s| - 1]) else s
  }

  function Trim(s: string): string {
    TrimBack(TrimFront(s))
  }

  lemma {:induction false} FrontGoes(a: string, s: string)
    requires AllSpace(a) && (s != "" ==> !IsSpace(s[0]))
    ensures TrimFront(a + s) == s
    decreases |a|
  {
    if a == "" {
      assert a + s == s;
    } else {
      assert (a + s)[1..] == a[1..] + s;
      FrontGoes(a[1..], s);
    }
  }

  lemma {:induction false} BackGoes(s: string, b: string)
    requires AllSpace(b) && (s != "" ==> !IsSpace(s[|s| - 1]))
    ensures TrimBack(s + b) == s
    decreases |b|
  {
    if b == "" {
      assert s + b == s;
    } else {
      assert (s + b)[..|s + b| - 1] == s + b[..|b| - 1];
      BackGoes(s, b[..|b| - 1]);
    }
  }

  /** White space around a text goes, and nothing else. */
  lemma TrimIsTheCore(a: string, s: string, b: string)
    requires AllSpace(a) && AllSpace(b) && Trimmed(s)
    ensures Trim(a + s + b) == s
  {
    if s == "" {
      var all := a + s + b;
      assert all == all + "";
      FrontGoes(all, "");
    } else {
      assert a + s + b == a + (s + b);
      FrontGoes(a, s + b);
      BackGoes(s, b);
    }
  }

  lemma TrimmedStays(s: string)
    requires Trimmed(s)
    ensures Trim(s) == s
  {
  }

  lemma {:induction false} FrontSplit(s: string) returns (a: string)
    ensures AllSpace(a) && s == a + TrimFront(s) && (TrimFront(s) != "" ==> !IsSpace(TrimFront(s)[0]))
  {
    if s != "" && IsSpace(s[0]) {
      var rest := FrontSplit(s[1..]);
      a := [s[0]] + rest;
    } else {
      a := "";
    }
  }

  lemma {:induction false} BackSplit(s: string) returns (b: string)
    ensures AllSpace(b) && s == TrimBack(s) + b && (TrimBack(s) != "" ==> !IsSpace(TrimBack(s)[|TrimBack(s)| - 1]))
  {
    if s != "" && IsSpace(s[|s| - 1]) {
      var rest := BackSplit(s[..|s| - 1]);
      b := rest + [s[|s| - 1]];
    } else {
      b := "";
    }
  }

  lemma TrimIsTrimmed(s: string) returns (a: string, b: string)
    ensures AllSpace(a) && AllSpace(b) && s == a + Trim(s) + b && Trimmed(Trim(s))
  {
    a := FrontSplit(s);
    b := BackSplit(TrimFront(s));
    var core := Trim(s);
    assert TrimFront(s) == core + b;
    assert a + (core + b) == a + core + b;
  }

  /** Blanks are counted from the front and erased, then from the back. */
  method RmSpaceInBegAndEnd(input: string) returns (s: string)
    ensures s == Trim(input)
  {
    s := input;
    if s == "" {
      return;
    }
    var index: nat := 0;
    while index < |s| && IsSpace(s[index])
      invariant index <= |s| && TrimFront(s) == TrimFront(s[index..])
    {
      assert s[index..][1..] == s[index + 1..];
      index := index + 1;
    }
    if index == |s| {
      return "";
    }
    s := s[index..];
    index := 0;
    assert s[..|s| - index] == s;
    while index < |s| && IsSpace(s[|s| - 1 - index])
      invariant index <= |s| && TrimBack(s) == TrimBack(s[..|s| - index])
    {
      assert s[..|s| - index][..|s| - index - 1] == s[..|s| - (index + 1)];
      index := index + 1;
    }
    s := s[..|s| - index];
  }

  // ----- Lines -----------------------------------------------------------------------------------

  const TWO_TO_THE_32 := 0x1_0000_0000

  /** The index of the first `c`, or the length. */
  function Find(s: string, c: char): (k: nat)
    ensures k <= |s| && c !in s[..k] && (k < |s| ==> s[k] == c) && (c in s <==> k < |s|)
  {
    if s == "" || s[0] == c then 0 else 1 + Find(s[1..], c)
  }

  function Count(s: string, c: char): nat {
    if s == "" then 0 else Count(s[..|s| - 1], c) + if s[|s| - 1] == c then 1 else 0
  }

  datatype Line = Blank | Section(name: string) | Item(name: string, value: string) | Bad(what: string)

  function FormatError(word: string, n: nat, s: string): string {
    "config format error at " + word + "=" + Decimal(n % TWO_TO_THE_32) + ": " + s
  }

  /** `checkSectionNameFromat`; the counts are of 32 bits. */
  predicate SectionOk(s: string)
    requires s != ""
  {
    s[0] == '[' && s[|s| - 1] == ']' && Count(s, '[') % TWO_TO_THE_32 == 1 && Count(s, ']') % TWO_TO_THE_32 == 1
  }

  /** `checkConfItemFormat`; the length is of 32 bits, and so is what is left of it after taking 2. */
  predicate ItemOk(s: string) {
    var p, last := Find(s, '='), (|s| % TWO_TO_THE_32 - 2) % TWO_TO_THE_32;
    p < |s| && 1 <= p <= last && p + 1 < |s| && s[p - 1] != ' ' && s[p + 1] != ' '
  }

  /** A line without the white space at its ends, the `n`th. */
  function Classify(s: string, n: nat): Line {
    if s == "" || s[0] == '#' then Blank
    else if '[' in s then
      if SectionOk(s) then Section(s) else Bad(FormatError("lineNum", n, s))
    else if ItemOk(s) then Item(s[..Find(s, '=')], s[Find(s, '=') + 1..])
    else Bad(FormatError("line", n, s))
  }

  // ----- Parsing -------------------------------------------------------------------------------------

  type Items = map<string, string>

  type Conf = map<string, Items>

  datatype Result = Ok(confs: Conf) | Error(what: string, confs: Conf)

  function Of(confs: Conf, section: string): Items {
    if section in confs then confs[section] else map[]
  }

  function Put(confs: Conf, section: string, name: string, value: string): Conf {
    confs[section := Of(confs, section)[name := value]]
  }

  function Rest(text: string, k: nat): (rest: string)
    requires k <= |text|
    ensures text != "" ==> |rest| < |text|
  {
    if k < |text| then text[k + 1..] else ""
  }

  /** The rest of a file, from line `n` on, under `section`. */
  function ParseText(text: string, section: string, confs: Conf, n: nat): Result
    decreases |text|
  {
    if text == "" then Ok(confs)
    else
      var k := Find(text, '\n');
      var rest := Rest(text, k);
      match Classify(Trim(text[..k]), n)
      case Blank => ParseText(rest, section, confs, n + 1)
      case Section(name) => ParseText(rest, name, confs, n + 1)
      case Item(name, value) => ParseText(rest, section, Put(confs, section, name, value), n + 1)
      case Bad(what) => Error(what, confs)
  }

  function Parse(text: string): Result {
    ParseText(text, "", map[], 1)
  }

  // ----- What parsing can produce --------------------------------------------------------------------

  predicate GoodSection(s: string) {
    s == "" || (Trimmed(s) && '\n' !in s && Classify(s, 0) == Section(s))
  }

  function ItemLine(name: string, value: string): string {
    name + "=" + value
  }

  predicate GoodItem(name: string, value: string) {
    var s := ItemLine(name, value);
    Trimmed(s) && '\n' !in s && Classify(s, 0) == Item(name, value)
  }

  predicate GoodItems(items: Items) {
    forall k :: k in items ==> GoodItem(k, items[k])
  }

  predicate GoodConf(confs: Conf) {
    forall s :: s in confs ==> GoodSection(s) && confs[s] != map[] && GoodItems(confs[s])
  }

  lemma LineIsGood(line: string, n: nat)
    requires '\n' !in line
    ensures match Classify(Trim(line), n)
            case Section(s) => GoodSection(s)
            case Item(k, v) => GoodItem(k, v)
            case _ => true
  {
    var s := Trim(line);
    var a, b := TrimIsTrimmed(line);
    assert forall i :: 0 <= i < |s| ==> s[i] == line[|a| + i];
    if s != "" && Classify(s, n).Item? {
      var p := Find(s, '=');
      assert ItemLine(s[..p], s[p + 1..]) == s;
    }
  }

  lemma PutIsGood(confs: Conf, section: string, name: string, value: string)
    requires GoodConf(confs) && GoodSection(section) && GoodItem(name, value)
    ensures GoodConf(Put(confs, section, name, value))
  {
    hide GoodItem, GoodSection;
    var items := Of(confs, section)[name := value];
    assert name in items;
    assert GoodItems(items);
  }

  lemma {:induction false} ParsedIsGood(text: string, section: string, confs: Conf, n: nat)
    requires GoodConf(confs) && GoodSection(section)
    ensures GoodConf(ParseText(text, section, confs, n).confs)
    decreases |text|
  {
    if text != "" {
      var k := Find(text, '\n');
      var rest := Rest(text, k);
      LineIsGood(text[..k], n);
      hide GoodItem, GoodSection, Put, GoodConf, Classify, Trim;
      match Classify(Trim(text[..k]), n)
      case Blank => ParsedIsGood(rest, section, confs, n + 1);
      case Section(name) => ParsedIsGood(rest, name, confs, n + 1);
      case Item(name, value) =>
        PutIsGood(confs, section, name, value);
        ParsedIsGood(rest, section, Put(confs, section, name, value), n + 1);
      case Bad(_) =>
    }
  }
}
