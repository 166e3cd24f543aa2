/** The loops of the configuration parser and printer, against the functions that specify them. */
module ConfigFile {
  import opened Config
  import opened ConfigRoundTrip
  import O = Optional

  // ----- The format checks -----------------------------------------------------------------

  lemma {:induction false} CountZero(s: string, c: char)
    ensures Count(s, c) == 0 <==> c !in s
    ensures Count(s, c) <= |s|
  {
    if s != "" {
      CountZero(s[..|s| - 1], c);
      assert s == s[..|s| - 1] + [s[|s| - 1]];
    }
  }

  lemma {:induction false} CountConcat(s: string, t: string, c: char)
    ensures Count(s + t, c) == Count(s, c) + Count(t, c)
    decreases |t|
  {
    if t == "" {
      assert s + t == s;
    } else {
      assert (s + t)[..|s + t| - 1] == s + t[..|t| - 1];
      CountConcat(s, t[..|t| - 1], c);
    }
  }

  lemma CountOne(c: char, d: char)
    ensures Count([c], d) == if c == d then 1 else 0
  {
    assert [c][..0] == "";
  }

  /** What passes as a section is a name without brackets between two brackets. */
  lemma SectionShape(s: string)
    requires 0 < |s| < TWO_TO_THE_32
    ensures SectionOk(s) <==>
      |s| >= 2 && s[0] == '[' && s[|s| - 1] == ']' && '[' !in s[1..|s| - 1] && ']' !in s[1..|s| - 1]
  {
    CountZero(s, '[');
    CountZero(s, ']');
    if |s| >= 2 {
      var body := s[1..|s| - 1];
      InsideOut(s, '[');
      InsideOut(s, ']');
      CountZero(body, '[');
      CountZero(body, ']');
    }
  }

  lemma InsideOut(s: string, c: char)
    requires |s| >= 2
    ensures Count(s, c) == (if s[0] == c then 1 else 0) + Count(s[1..|s| - 1], c) + if s[|s| - 1] == c then 1 else 0
  {
    var body := s[1..|s| - 1];
    assert s == ([s[0]] + body) + [s[|s| - 1]];
    CountConcat([s[0]] + body, [s[|s| - 1]], c);
    CountConcat([s[0]], body, c);
    CountOne(s[0], c);
    CountOne(s[|s| - 1], c);
    hide Count;
  }

  lemma ItemParts(s: string, name: string, value: string)
    requires s == ItemLine(name, value) && '=' !in name
    ensures Find(s, '=') == |name| && s[..|name|] == name && s[|name| + 1..] == value
  {
    assert s == name + ['='] + value;
    FindAt(name, '=', value);
    hide Find;
  }

  lemma ItemIsFound(s: string, name: string, value: string)
    requires |s| < TWO_TO_THE_32 && IsItem(s, name, value)
    ensures ItemOk(s) && s[..Find(s, '=')] == name && s[Find(s, '=') + 1..] == value
  {
    hide Find, ItemLine;
    ItemParts(s, name, value);
    assert |s| == |name| + 1 + |value| by {
      ItemLength(name, value);
    }
    assert s[|name| - 1] == name[|name| - 1] && s[|name| + 1] == value[0];
  }

  lemma ItemLength(name: string, value: string)
    ensures |ItemLine(name, value)| == |name| + 1 + |value|
  {
  }

  /** What passes as an item is a name and a value, neither empty, with no blank on either side of the first `=`. */
  lemma ItemShape(s: string)
    requires |s| < TWO_TO_THE_32
    ensures ItemOk(s) <==> exists name, value :: IsItem(s, name, value)
  {
    hide Find;
    if ItemOk(s) {
      var p := Find(s, '=');
      assert IsItem(s, s[..p], s[p + 1..]);
    }
    if name, value :| IsItem(s, name, value) {
      ItemIsFound(s, name, value);
    }
  }

  predicate IsItem(s: string, name: string, value: string) {
    s == ItemLine(name, value) && name != "" && value != "" && '=' !in name &&
    name[|name| - 1] != ' ' && value[0] != ' '
  }

  /** Counting as `count_if` does, in 32 bits. */
  method CountIf(s: string, c: char) returns (count: nat)
    ensures count == Count(s, c) % TWO_TO_THE_32
  {
    count := 0;
    for i := 0 to |s|
      invariant count == Count(s[..i], c) % TWO_TO_THE_32
    {
      assert s[..i + 1][..i] == s[..i];
      if s[i] == c {
        count := (count + 1) % TWO_TO_THE_32;
      }
    }
    assert s[..|s|] == s;
  }

  method CheckSectionNameFormat(s: string, n: nat) returns (error: O.Option<string>)
    requires s != ""
    ensures error == if SectionOk(s) then O.None else O.Some(FormatError("lineNum", n, s))
  {
    if s[0] != '[' || s[|s| - 1] != ']' {
      return O.Some(FormatError("lineNum", n, s));
    }
    var left := CountIf(s, '[');
    var right := CountIf(s, ']');
    if 1 != left || 1 != right {
      return O.Some(FormatError("lineNum", n, s));
    }
    error := O.None;
  }

  method FindFirst(s: string, c: char) returns (k: nat)
    ensures k == Find(s, c)
  {
    k := 0;
    while k < |s| && s[k] != c
      invariant k <= |s| && Find(s, c) == k + Find(s[k..], c)
    {
      assert s[k..][1..] == s[k + 1..];
      k := k + 1;
    }
  }

  method CheckConfItemFormat(s: string, n: nat) returns (error: O.Option<string>)
    ensures error == if ItemOk(s) then O.None else O.Some(FormatError("line", n, s))
  {
    var length := |s| % TWO_TO_THE_32;
    var pos := FindFirst(s, '=');
    if pos == |s| || !(1 <= pos <= (length - 2) % TWO_TO_THE_32) {
      return O.Some(FormatError("line", n, s));
    }
    if pos + 1 == |s| || s[pos - 1] == ' ' || s[pos + 1] == ' ' {
      return O.Some(FormatError("line", n, s));
    }
    error := O.None;
  }

  // ----- The parser and the printer ------------------------------------------------------------

  class ParseConfig {
    var confs: Conf

    constructor ()
      ensures confs == map[]
    {
      confs := map[];
    }

    /** The file is read line by line into the map; a line in error ends it, with what came before in the map. */
    method ParseConfFileIntoMap(path: string, file: O.Option<string>) returns (error: O.Option<string>)
      modifies this
      ensures file.None? ==> confs == map[] && error == O.Some(path + " open failed")
      ensures file.Some? ==> confs == Parse(file.value).confs
      ensures file.Some? ==> error == match Parse(file.value) case Ok(_) => O.None case Error(what, _) => O.Some(what)
    {
      confs := map[];
      if file.None? {
        return O.Some(path + " open failed");
      }
      error := O.None;
      var text, section, n := file.value, "", 1;
      while text != "" && error.None?
        invariant error.None? ==> ParseText(text, section, confs, n) == Parse(file.value)
        invariant error.Some? ==> Parse(file.value) == Error(error.value, confs)
        decreases |text|, error.None?
      {
        var k := FindFirst(text, '\n');
        var line := RmSpaceInBegAndEnd(text[..k]);
        text := Rest(text, k);
        section, error := ReadLine(line, section, n);
        n := n + 1;
      }
    }

    /** One line, the `n`th, under `section`. */
    method ReadLine(line: string, section: string, n: nat) returns (next: string, error: O.Option<string>)
      modifies this
      ensures match Classify(line, n)
        case Blank => next == section && confs == old(confs) && error.None?
        case Section(name) => next == name && confs == old(confs) && error.None?
        case Item(name, value) => next == section && confs == Put(old(confs), section, name, value) && error.None?
        case Bad(what) => confs == old(confs) && error == O.Some(what)
    {
      next, error := section, O.None;
      if line != "" {
        if '#' != line[0] {
          if '[' in line {
            error := CheckSectionNameFormat(line, n);
            if error.None? {
              next := line;
            }
          } else {
            error := CheckConfItemFormat(line, n);
            if error.None? {
              var pos := FindFirst(line, '=');
              confs := Put(confs, section, line[..pos], line[pos + 1..]);
            }
          }
        }
      }
    }

    /** The map in its order. */
    method PrintConfInMap() returns (out: string)
      ensures out == Print(confs)
    {
      hide PrintItems, PrintSections, Least, Less;
      out := "";
      var sections := confs.Keys;
      while sections != {}
        invariant sections <= confs.Keys && out + PrintSections(sections, confs) == Print(confs)
        decreases |sections|
      {
        PrintSectionsStep(sections, confs);
        var section := TakeLeast(sections);
        sections := sections - {section};
        out := PrintOneSection(out, section, confs[section], PrintSections(sections, confs));
      }
      NothingPrinted(confs);
    }
  }

  lemma NothingPrinted(confs: Conf)
    ensures PrintSections({}, confs) == ""
  {
  }

  /** A section's name on a line, then its items. */
  method PrintOneSection(before: string, section: string, items: Items, ghost rest: string) returns (out: string)
    ensures out + rest == before + (section + "\n" + PrintItems(items.Keys, items, rest))
  {
    hide PrintItems, Least, Less;
    ghost var all := before + (section + "\n" + PrintItems(items.Keys, items, rest));
    out := before + section + "\n";
    var names := items.Keys;
    assert out + PrintItems(names, items, rest) == all;
    while names != {}
      invariant names <= items.Keys && out + PrintItems(names, items, rest) == all
      decreases |names|
    {
      PrintItemsStep(names, items, rest);
      var name := TakeLeast(names);
      names := names - {name};
      ghost var was, tail := out, PrintItems(names, items, rest);
      out := out + name + "=" + items[name] + "\n";
      Associates(was, name, items[name], tail);
    }
    NoItems(items, rest, section, map[]);
  }

  lemma Associates(was: string, name: string, value: string, tail: string)
    ensures (was + name + "=" + value + "\n") + tail == was + (ItemLine(name, value) + "\n" + tail)
  {
  }

  /** The first key in the order of the map. */
  method TakeLeast(keys: set<string>) returns (x: string)
    requires keys != {}
    ensures x in keys && x == Least(keys)
  {
    LeastIsThere(keys);
    x :| x in keys && forall y :: y in keys ==> !Less(y, x);
    LeastIsUnique(x, Least(keys), keys);
  }
}
