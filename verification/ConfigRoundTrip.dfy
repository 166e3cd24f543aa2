/** Printing a configuration in the order of `std::map`, and reading it back. */
module ConfigRoundTrip {
  import opened Config

  // ----- The order of the keys --------------------------------------------------------------

  predicate Less(a: string, b: string) {
    if b == "" then false
    else if a == "" then true
    else a[0] < b[0] || (a[0] == b[0] && Less(a[1..], b[1..]))
  }

  /** `std::less` on strings: the first difference decides, and a beginning comes before the whole. */
  lemma {:induction false} LessIsLexicographic(a: string, b: string)
    ensures Less(a, b) <==> exists k :: 0 <= k <= |a| && k < |b| && a[..k] == b[..k] && (k == |a| || a[k] < b[k])
  {
    if a != "" && b != "" && a[0] == b[0] {
      LessIsLexicographic(a[1..], b[1..]);
      if k :| 0 <= k <= |a[1..]| && k < |b[1..]| && a[1..][..k] == b[1..][..k] &&
              (k == |a[1..]| || a[1..][k] < b[1..][k]) {
        assert a[..k + 1] == [a[0]] + a[1..][..k] && b[..k + 1] == [b[0]] + b[1..][..k];
      }
      if k :| 0 <= k <= |a| && k < |b| && a[..k] == b[..k] && (k == |a| || a[k] < b[k]) {
        assert k > 0;
        assert a[1..][..k - 1] == a[..k][1..] && b[1..][..k - 1] == b[..k][1..];
        assert k == |a| || a[1..][k - 1] < b[1..][k - 1];
      }
    } else {
      assert a[..0] == b[..0];
    }
  }

  lemma {:induction false} LessIsTotal(a: string, b: string)
    ensures a == b || Less(a, b) || Less(b, a)
    ensures !(Less(a, b) && Less(b, a)) && !Less(a, a)
  {
    if a != "" && b != "" {
      LessIsTotal(a[1..], b[1..]);
      LessIsTotal(a[1..], a[1..]);
      if a[0] == b[0] && a[1..] == b[1..] {
        assert a == [a[0]] + a[1..] && b == [b[0]] + b[1..];
      }
    } else if a != "" {
      LessIsTotal(a[1..], a[1..]);
    }
  }

  lemma {:induction false} LessIsTransitive(a: string, b: string, c: string)
    requires Less(a, b) && Less(b, c)
    ensures Less(a, c)
  {
    if a != "" {
      if a[0] == b[0] && b[0] == c[0] {
        LessIsTransitive(a[1..], b[1..], c[1..]);
      }
    }
  }

  ghost predicate IsLeast(x: string, keys: set<string>) {
    x in keys && forall y :: y in keys ==> !Less(y, x)
  }

  lemma {:induction false} LeastExists(keys: set<string>) returns (x: string)
    requires keys != {}
    ensures IsLeast(x, keys)
  {
    var k :| k in keys;
    LessIsTotal(k, k);
    if keys == {k} {
      x := k;
    } else {
      var rest := keys - {k};
      assert rest != {};
      x := LeastExists(rest);
      if Less(k, x) {
        forall y | y in keys ensures !Less(y, k) {
          if y in rest && Less(y, k) {
            LessIsTransitive(y, k, x);
          }
        }
        x := k;
      }
    }
  }

  lemma LeastIsThere(keys: set<string>)
    requires keys != {}
    ensures exists x :: IsLeast(x, keys)
  {
    var x := LeastExists(keys);
  }

  lemma LeastIsUnique(x: string, y: string, keys: set<string>)
    requires IsLeast(x, keys) && IsLeast(y, keys)
    ensures x == y
  {
    LessIsTotal(x, y);
  }

  ghost function Least(keys: set<string>): (x: string)
    requires keys != {}
    ensures x in keys && IsLeast(x, keys)
  {
    LeastIsThere(keys);
    var x :| IsLeast(x, keys);
    x
  }

  // ----- Printing -----------------------------------------------------------------------------------

  /** The items whose names are in `names`, least first, and then `rest`. */
  ghost function PrintItems(names: set<string>, items: Items, rest: string): string
    requires names <= items.Keys
  {
    if names == {} then rest
    else
      var name := Least(names);
      ItemLine(name, items[name]) + "\n" + PrintItems(names - {name}, items, rest)
  }

  ghost function PrintSections(sections: set<string>, confs: Conf): string
    requires sections <= confs.Keys
  {
    if sections == {} then ""
    else
      var section := Least(sections);
      section + "\n" + PrintItems(confs[section].Keys, confs[section], PrintSections(sections - {section}, confs))
  }

  ghost function Print(confs: Conf): string {
    PrintSections(confs.Keys, confs)
  }

  // ----- Reading back ----------------------------------------------------------------------------------

  lemma {:induction false} FindAt(l: string, c: char, rest: string)
    requires c !in l
    ensures Find(l + [c] + rest, c) == |l|
  {
    var text := l + [c] + rest;
    if l == "" {
      assert text[0] == c;
    } else {
      assert text[0] == l[0] && text[1..] == l[1..] + [c] + rest;
      FindAt(l[1..], c, rest);
    }
  }

  lemma OneLine(l: string, rest: string)
    requires '\n' !in l
    ensures var text := l + "\n" + rest;
      Find(text, '\n') == |l| && text[..|l|] == l && Rest(text, |l|) == rest
  {
    FindAt(l, '\n', rest);
    var text := l + "\n" + rest;
    assert text[..|l|] == l;
    assert text[|l| + 1..] == rest;
  }

  lemma AnyNumber(s: string, n: nat)
    ensures Classify(s, 0).Section? || Classify(s, 0).Item? || Classify(s, 0).Blank? ==>
                Classify(s, n) == Classify(s, 0)
  {
  }

  lemma ItemRead(name: string, value: string, rest: string, section: string, confs: Conf, n: nat)
    requires GoodItem(name, value)
    ensures ParseText(ItemLine(name, value) + "\n" + rest, section, confs, n) ==
      ParseText(rest, section, Put(confs, section, name, value), n + 1)
  {
    var s := ItemLine(name, value);
    OneLine(s, rest);
    TrimmedStays(s);
    AnyNumber(s, n);
    hide Classify, Trim, Find, Trimmed, Put, ItemLine, Rest;
  }

  lemma SectionRead(section: string, rest: string, under: string, confs: Conf, n: nat)
    requires GoodSection(section) && (section == "" ==> under == "")
    ensures ParseText(section + "\n" + rest, under, confs, n) == ParseText(rest, section, confs, n + 1)
  {
    OneLine(section, rest);
    TrimmedStays(section);
    AnyNumber(section, n);
    assert Classify("", n) == Blank;
    hide Classify, Trim, Find, Trimmed, Rest;
  }

  ghost function Chosen(names: set<string>, items: Items): Items
    requires names <= items.Keys
  {
    map k | k in names :: items[k]
  }

  ghost function WithItems(confs: Conf, section: string, names: set<string>, items: Items): Conf
    requires names <= items.Keys
  {
    if names == {} then confs else confs[section := Of(confs, section) + Chosen(names, items)]
  }

  lemma OneMoreItem(confs: Conf, section: string, names: set<string>, items: Items, name: string)
    requires names <= items.Keys && name in names
    ensures WithItems(Put(confs, section, name, items[name]), section, names - {name}, items) ==
      WithItems(confs, section, names, items)
  {
    if names == {name} {
      assert names - {name} == {};
      assert Of(confs, section)[name := items[name]] == Of(confs, section) + Chosen(names, items);
    } else {
      assert names - {name} != {};
      assert Of(confs, section)[name := items[name]] + Chosen(names - {name}, items) ==
        Of(confs, section) + Chosen(names, items);
    }
  }

  lemma NoItems(items: Items, rest: string, section: string, confs: Conf)
    ensures PrintItems({}, items, rest) == rest && WithItems(confs, section, {}, items) == confs
  {
  }

  lemma PrintItemsStep(names: set<string>, items: Items, rest: string)
    requires names <= items.Keys && names != {}
    ensures var name := Least(names);
      PrintItems(names, items, rest) == ItemLine(name, items[name]) + "\n" + PrintItems(names - {name}, items, rest)
  {
    hide ItemLine;
  }

  lemma {:induction false} ItemsRead(names: set<string>, items: Items, rest: string, section: string, confs: Conf,
                                     n: nat)
    requires names <= items.Keys && GoodItems(items)
    ensures ParseText(PrintItems(names, items, rest), section, confs, n) ==
      ParseText(rest, section, WithItems(confs, section, names, items), n + |names|)
    decreases names
  {
    hide ParseText, Put, WithItems, GoodItem, ItemLine, PrintItems, IsLeast;
    if names == {} {
      NoItems(items, rest, section, confs);
    } else {
      PrintItemsStep(names, items, rest);
      var name := Least(names);
      ItemRead(name, items[name], PrintItems(names - {name}, items, rest), section, confs, n);
      ItemsRead(names - {name}, items, rest, section, Put(confs, section, name, items[name]), n + 1);
      OneMoreItem(confs, section, names, items, name);
    }
  }

  ghost function SomeSections(sections: set<string>, confs: Conf): Conf
    requires sections <= confs.Keys
  {
    map s | s in sections :: confs[s]
  }

  lemma WholeSection(sofar: Conf, section: string, confs: Conf)
    requires section in confs && section !in sofar && confs[section] != map[]
    ensures WithItems(sofar, section, confs[section].Keys, confs[section]) == sofar[section := confs[section]]
  {
    var items := confs[section];
    assert items.Keys != {} by {
      var k :| k in items;
    }
    assert map[] + Chosen(items.Keys, items) == items;
  }

  lemma NoSections(confs: Conf, sofar: Conf, under: string, n: nat)
    ensures ParseText(PrintSections({}, confs), under, sofar, n) == Ok(sofar)
    ensures sofar + SomeSections({}, confs) == sofar
  {
  }

  lemma PrintSectionsStep(sections: set<string>, confs: Conf)
    requires sections <= confs.Keys && sections != {}
    ensures var section := Least(sections);
      PrintSections(sections, confs) == section + "\n" +
        PrintItems(confs[section].Keys, confs[section], PrintSections(sections - {section}, confs))
  {
    hide PrintItems;
  }

  lemma {:induction false} SectionsRead(sections: set<string>, confs: Conf, sofar: Conf, under: string, n: nat)
    requires GoodConf(confs) && sections <= confs.Keys && sections !! sofar.Keys && ("" in sections ==> under == "")
    ensures ParseText(PrintSections(sections, confs), under, sofar, n) == Ok(sofar + SomeSections(sections, confs))
    decreases sections
  {
    hide ParseText, PrintItems, PrintSections, WithItems, GoodSection, GoodItems, IsLeast;
    if sections == {} {
      NoSections(confs, sofar, under, n);
    } else {
      PrintSectionsStep(sections, confs);
      var section := Least(sections);
      EmptyIsFirst(section, sections);
      var items, others := confs[section], sections - {section};
      var rest := PrintSections(others, confs);
      SectionRead(section, PrintItems(items.Keys, items, rest), under, sofar, n);
      ItemsRead(items.Keys, items, rest, section, sofar, n + 1);
      WholeSection(sofar, section, confs);
      SectionsRead(others, confs, sofar[section := items], section, n + 1 + |items.Keys|);
      assert sofar[section := items] + SomeSections(others, confs) == sofar + SomeSections(sections, confs);
    }
  }

  /** The empty section is the first of the map. */
  lemma EmptyIsFirst(section: string, sections: set<string>)
    requires IsLeast(section, sections)
    ensures "" in sections ==> section == ""
  {
    if section != "" {
      assert Less("", section);
    }
  }

  lemma ParseIsGood(text: string)
    ensures GoodConf(Parse(text).confs)
  {
    ParsedIsGood(text, "", map[], 1);
    hide ParseText;
  }

  /** For every file that parses, printing the map and parsing what was printed gives the map again. */
  lemma ParseUndoesPrint(text: string)
    requires Parse(text).Ok?
    ensures Parse(Print(Parse(text).confs)) == Parse(text)
  {
    hide ParseText, GoodConf, PrintSections;
    var confs := Parse(text).confs;
    ParseIsGood(text);
    SectionsRead(confs.Keys, confs, map[], "", 1);
    assert map[] + SomeSections(confs.Keys, confs) == confs;
  }
}
