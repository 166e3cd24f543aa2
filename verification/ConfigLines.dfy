/** A configuration file as its lines: what each means, said without the parser. */
module ConfigLines {
  import opened Numerals
  import opened Config
  import opened ConfigRoundTrip
  import opened ConfigFile
  import O = Optional

  /** White space as `isspace` has it. */
  lemma SpaceTable(c: char)
    ensures IsSpace(c) <==> c as int in {9, 10, 11, 12, 13, 32}
  {
  }

  datatype Entry =
    | Comment(text: string)
    | Empty
    | Heading(name: string)
    | Setting(name: string, value: string)

  /** A line, with white space around what it says. */
  datatype Line = Line(before: string, entry: Entry, behind: string)

  function EntryText(e: Entry): string {
    match e
    case Comment(text) => "#" + text
    case Empty => ""
    case Heading(name) => "[" + name + "]"
    case Setting(name, value) => name + "=" + value
  }

  function LineText(l: Line): string {
    l.before + EntryText(l.entry) + l.behind
  }

  function Text(lines: seq<Line>, rest: string): string {
    if lines == [] then rest else LineText(lines[0]) + "\n" + Text(lines[1..], rest)
  }

  predicate Gap(s: string) {
    forall i :: 0 <= i < |s| ==> s[i] as int in {9, 11, 12, 13, 32}
  }

  predicate OnOneLine(s: string) {
    '\n' !in s && |s| < TWO_TO_THE_32
  }

  /** A heading has no brackets inside, and a setting has neither brackets that open nor blanks beside its first
      equals sign. A comment may say anything. */
  predicate GoodEntry(e: Entry) {
    OnOneLine(EntryText(e)) &&
    match e
    case Comment(_) => true
    case Empty => true
    case Heading(name) => '[' !in name && ']' !in name
    case Setting(name, value) =>
      && name != "" && value != "" && '=' !in name && '[' !in name && '[' !in value && name[0] != '#'
      && !IsSpace(name[0]) && name[|name| - 1] != ' ' && value[0] != ' ' && !IsSpace(value[|value| - 1])
  }

  predicate GoodLines(lines: seq<Line>) {
    forall i :: 0 <= i < |lines| ==> Gap(lines[i].before) && GoodEntry(lines[i].entry) && Gap(lines[i].behind)
  }

  /** The heading that stands above what follows these lines; its brackets belong to it. */
  function HeadingBehind(lines: seq<Line>, under: string): string {
    if lines == [] then under
    else HeadingBehind(lines[1..], if lines[0].entry.Heading? then EntryText(lines[0].entry) else under)
  }

  /** The last value that the lines give to a name under a heading. */
  function LastValue(lines: seq<Line>, under: string, section: string, name: string): O.Option<string> {
    if lines == [] then O.None
    else
      var e := lines[0].entry;
      var later := LastValue(lines[1..], if e.Heading? then EntryText(e) else under, section, name);
      if later.Some? then later
      else if e.Setting? && under == section && e.name == name then O.Some(e.value)
      else O.None
  }

  /** What a configuration has for a name under a heading. */
  function Lookup(confs: Conf, section: string, name: string): O.Option<string> {
    if section in confs && name in confs[section] then O.Some(confs[section][name]) else O.None
  }

  // ----- One line --------------------------------------------------------------------------

  lemma GapIsSpace(s: string)
    requires Gap(s)
    ensures AllSpace(s) && '\n' !in s
  {
  }

  /** A line without white space of its own at its ends is found again. */
  lemma LineIsFound(a: string, s: string, b: string, rest: string)
    requires Gap(a) && Gap(b) && Trimmed(s) && '\n' !in s
    ensures var text := a + s + b + "\n" + rest;
            Find(text, '\n') == |a + s + b| && Trim(text[..|a + s + b|]) == s && Rest(text, |a + s + b|) == rest
  {
    hide Find, Trim, Rest;
    GapIsSpace(a);
    GapIsSpace(b);
    OneLine(a + s + b, rest);
    TrimIsTheCore(a, s, b);
  }

  lemma {:induction false} FirstStays(s: string)
    requires s != "" && !IsSpace(s[0])
    ensures TrimBack(s) != "" && TrimBack(s)[0] == s[0]
    decreases |s|
  {
    if IsSpace(s[|s| - 1]) {
      FirstStays(s[..|s| - 1]);
    }
  }

  /** A comment may end with white space of its own. */
  lemma CommentIsFound(a: string, s: string, rest: string)
    requires Gap(a) && '\n' !in s
    ensures var text := a + ("#" + s) + "\n" + rest;
            var k := |a + ("#" + s)|;
            Find(text, '\n') == k && Trim(text[..k]) != "" && Trim(text[..k])[0] == '#' && Rest(text, k) == rest
  {
    hide Find, TrimFront, TrimBack, Rest;
    GapIsSpace(a);
    var l := a + ("#" + s);
    OneLine(l, rest);
    FrontGoes(a, "#" + s);
    FirstStays("#" + s);
  }

  lemma CommentRead(a: string, s: string, rest: string, section: string, confs: Conf, n: nat)
    requires Gap(a) && '\n' !in s
    ensures ParseText(a + ("#" + s) + "\n" + rest, section, confs, n) == ParseText(rest, section, confs, n + 1)
  {
    hide Find, Trim, Rest;
    CommentIsFound(a, s, rest);
  }

  lemma EntryIs(e: Entry, n: nat)
    requires GoodEntry(e) && !e.Comment?
    ensures var s := EntryText(e);
            && Trimmed(s) && '\n' !in s
            && Classify(s, n) == match e
                                 case Heading(_) => Section(s)
                                 case Setting(name, value) => Item(name, value)
                                 case _ => Blank
  {
    hide SectionOk, ItemOk, Find;
    var s := EntryText(e);
    match e
    case Heading(name) =>
      HeadingIs(name);
    case Setting(name, value) =>
      SettingIs(name, value);
    case _ =>
  }

  lemma HeadingIs(name: string)
    requires GoodEntry(Heading(name))
    ensures var s := "[" + name + "]";
            Trimmed(s) && '[' in s && SectionOk(s) && s[0] == '['
  {
    hide SectionOk;
    var s := "[" + name + "]";
    assert s[1..|s| - 1] == name && s[|s| - 1] == ']' && s[0] == '[';
    SectionShape(s);
  }

  lemma SettingIs(name: string, value: string)
    requires GoodEntry(Setting(name, value))
    ensures var s := name + "=" + value;
            && Trimmed(s) && '[' !in s && s[0] == name[0] && ItemOk(s)
            && s[..Find(s, '=')] == name && s[Find(s, '=') + 1..] == value
  {
    hide ItemOk, Find;
    var s := name + "=" + value;
    assert s[|s| - 1] == value[|value| - 1];
    assert IsItem(s, name, value);
    ItemIsFound(s, name, value);
  }

  function Given(e: Entry, under: string, confs: Conf): Conf {
    if e.Setting? then Put(confs, under, e.name, e.value) else confs
  }

  function Under(e: Entry, under: string): string {
    if e.Heading? then EntryText(e) else under
  }

  lemma LineIsRead(l: Line, rest: string, under: string, confs: Conf, n: nat)
    requires Gap(l.before) && GoodEntry(l.entry) && Gap(l.behind)
    ensures ParseText(LineText(l) + "\n" + rest, under, confs, n)
         == ParseText(rest, Under(l.entry, under), Given(l.entry, under, confs), n + 1)
  {
    hide Find, Trim, Rest, Classify, GoodEntry, Put;
    if l.entry.Comment? {
      CommentFits(l.entry, l.behind);
      assert LineText(l) == l.before + ("#" + (l.entry.text + l.behind));
      CommentRead(l.before, l.entry.text + l.behind, rest, under, confs, n);
    } else {
      EntryIs(l.entry, n);
      LineIsFound(l.before, EntryText(l.entry), l.behind, rest);
      Skipped(l, rest);
    }
  }

  lemma Skipped(l: Line, rest: string)
    ensures LineText(l) + "\n" + rest != ""
  {
  }

  lemma CommentFits(e: Entry, b: string)
    requires e.Comment? && GoodEntry(e) && Gap(b)
    ensures '\n' !in e.text + b
  {
    GapIsSpace(b);
    assert forall i :: 0 <= i < |e.text| ==> EntryText(e)[i + 1] == e.text[i];
  }

  /** The last line needs no line end. */
  lemma LastLineIsRead(l: Line, under: string, confs: Conf, n: nat)
    requires Gap(l.before) && GoodEntry(l.entry) && Gap(l.behind)
    ensures ParseText(LineText(l), under, confs, n) == Ok(Given(l.entry, under, confs))
  {
    hide Find, Trim, Classify, GoodEntry, Put;
    GapIsSpace(l.before);
    GapIsSpace(l.behind);
    var t := LineText(l);
    if l.entry.Comment? {
      CommentFits(l.entry, l.behind);
      var s := l.entry.text + l.behind;
      assert t == l.before + ("#" + s);
      CommentIsFound(l.before, s, "");
      var text := t + "\n" + "";
      assert text[..|t|] == t;
      assert Classify(Trim(t), n) == Blank by {
        CommentIsBlank(Trim(t), n);
      }
    } else {
      EntryIs(l.entry, n);
      TrimIsTheCore(l.before, EntryText(l.entry), l.behind);
    }
    assert t[..|t|] == t && Find(t, '\n') == |t|;
  }

  lemma CommentIsBlank(s: string, n: nat)
    requires s != "" && s[0] == '#'
    ensures Classify(s, n) == Blank
  {
  }

  // ----- Whole files -----------------------------------------------------------------------

  /** The configuration behind these lines. */
  function After(lines: seq<Line>, under: string, confs: Conf): Conf
    decreases |lines|
  {
    if lines == [] then confs
    else After(lines[1..], Under(lines[0].entry, under), Given(lines[0].entry, under, confs))
  }

  lemma {:induction false} LinesAreRead(lines: seq<Line>, rest: string, under: string, confs: Conf, n: nat)
    requires GoodLines(lines)
    ensures ParseText(Text(lines, rest), under, confs, n)
         == ParseText(rest, HeadingBehind(lines, under), After(lines, under, confs), n + |lines|)
    decreases |lines|
  {
    hide ParseText, GoodEntry, Gap, LineText, Given;
    if lines != [] {
      var e := lines[0].entry;
      LineIsRead(lines[0], Text(lines[1..], rest), under, confs, n);
      LinesAreRead(lines[1..], rest, Under(e, under), Given(e, under, confs), n + 1);
    }
  }

  lemma {:induction false} AfterIs(lines: seq<Line>, under: string, confs: Conf, section: string, name: string)
    ensures Lookup(After(lines, under, confs), section, name) ==
              var v := LastValue(lines, under, section, name);
              if v.Some? then v else Lookup(confs, section, name)
    decreases |lines|
  {
    hide Lookup, EntryText;
    if lines != [] {
      var e := lines[0].entry;
      AfterIs(lines[1..], Under(e, under), Given(e, under, confs), section, name);
      GivenIs(e, under, confs, section, name);
    }
  }

  lemma GivenIs(e: Entry, under: string, confs: Conf, section: string, name: string)
    ensures Lookup(Given(e, under, confs), section, name) ==
              if e.Setting? && under == section && e.name == name then O.Some(e.value)
              else Lookup(confs, section, name)
  {
  }

  /** Main result: a file of good lines, with comments, empty lines and white space anywhere, gives each name under
      each heading its last value, and nothing else. */
  lemma FileIsRead(lines: seq<Line>, section: string, name: string)
    requires GoodLines(lines)
    ensures var r := Parse(Text(lines, ""));
            r.Ok? && Lookup(r.confs, section, name) == LastValue(lines, "", section, name)
  {
    hide Lookup, LastValue, GoodLines, After, HeadingBehind;
    LinesAreRead(lines, "", "", map[], 1);
    AfterIs(lines, "", map[], section, name);
    assert Lookup(map[], section, name) == O.None by {
      NothingGiven(section, name);
    }
  }

  lemma NothingGiven(section: string, name: string)
    ensures Lookup(map[], section, name) == O.None
  {
  }

  /** What is neither a comment nor a heading nor a setting. */
  ghost predicate IsDefect(s: string) {
    && s != "" && s[0] != '#' && Trimmed(s) && OnOneLine(s)
    && if '[' in s then
         !(|s| >= 2 && s[0] == '[' && s[|s| - 1] == ']' && '[' !in s[1..|s| - 1] && ']' !in s[1..|s| - 1])
       else !exists name, value :: IsItem(s, name, value)
  }

  /** It is reported with its number and its text, and the settings above it stay. */
  lemma DefectIsReported(lines: seq<Line>, a: string, s: string, b: string, rest: string)
    requires GoodLines(lines) && Gap(a) && IsDefect(s) && Gap(b) && |lines| + 1 < TWO_TO_THE_32
    ensures var word := if '[' in s then "lineNum" else "line";
            Parse(Text(lines, a + s + b + "\n" + rest))
            == Error("config format error at " + word + "=" + Decimal(|lines| + 1) + ": " + s,
                     After(lines, "", map[]))
  {
    hide GoodLines, After, HeadingBehind, IsDefect, ParseText, Decimal;
    LinesAreRead(lines, a + s + b + "\n" + rest, "", map[], 1);
    DefectIsRead(a, s, b, rest, HeadingBehind(lines, ""), After(lines, "", map[]), |lines| + 1);
  }

  lemma DefectIsRead(a: string, s: string, b: string, rest: string, under: string, confs: Conf, n: nat)
    requires Gap(a) && IsDefect(s) && Gap(b) && n < TWO_TO_THE_32
    ensures var word := if '[' in s then "lineNum" else "line";
            ParseText(a + s + b + "\n" + rest, under, confs, n)
            == Error("config format error at " + word + "=" + Decimal(n) + ": " + s, confs)
  {
    hide Find, Trim, Rest, Decimal, SectionOk, ItemOk;
    LineIsFound(a, s, b, rest);
    DefectIsBad(s);
  }

  lemma DefectIsBad(s: string)
    requires IsDefect(s)
    ensures if '[' in s then !SectionOk(s) else !ItemOk(s)
  {
    hide ItemOk, SectionOk;
    if '[' in s {
      SectionShape(s);
    } else {
      ItemShape(s);
    }
  }
}
