/** What some concrete lines are, for the examples. */
module SampleLines {
  import opened Wrappers
  import opened Lines

  predicate Solid(t: string) {
    t != "" && forall k :: 0 <= k < |t| ==> !IsSpace(t[k])
  }

  lemma {:induction false} TokenEnds(t: string, rest: string)
    requires (forall k :: 0 <= k < |t| ==> !IsSpace(t[k])) && (rest != "" ==> IsSpace(rest[0]))
    ensures TokenLength(t + rest) == |t|
  {
    if t == "" {
      assert t + rest == rest;
    } else {
      assert (t + rest)[1..] == t[1..] + rest;
      TokenEnds(t[1..], rest);
    }
  }

  lemma OneToken(t: string)
    requires Solid(t)
    ensures Fields(t) == [t]
  {
    TokenEnds(t, "");
    assert t + "" == t && t[..|t|] == t && t[|t|..] == "";
  }

  lemma MoreTokens(t: string, rest: string)
    requires Solid(t)
    ensures Fields(t + " " + rest) == [t] + Fields(rest)
  {
    var all := t + " " + rest;
    assert all == t + (" " + rest);
    TokenEnds(t, " " + rest);
    assert all[..|t|] == t && all[|t|..] == " " + rest && (" " + rest)[1..] == rest;
  }

  /** A line whose first token is not one of the keywords is content. */
  lemma ContentLine(raw: string, first: string)
    requires Fields(raw) != [] && Fields(raw)[0] == first && first != "" && Lower(first[0]) != '%'
    ensures Classify(raw) == Content(first[0] != '#')
  {
    hide SectionTypeByName;
    var k := ToLower(first);
    assert k[0] == Lower(first[0]);
    KeywordsExclusive(k);
  }

  lemma TextLine()
    ensures Classify("text") == Content(true)
  {
    hide Classify;
    OneToken("text");
    ContentLine("text", "text");
  }

  lemma TagLine(name: string, value: string)
    requires Solid(name) && Solid(value) && Lower(name[0]) != '%' && name[0] != '#'
    ensures Classify(name + " " + value) == Content(true)
  {
    hide Classify;
    MoreTokens(name, value);
    OneToken(value);
    ContentLine(name + " " + value, name);
  }

  lemma IfKind(raw: string)
    requires Fields(raw) != [] && ToLower(Fields(raw)[0]) in IF_KEYWORDS
    ensures Classify(raw) == IfDirective
  {
    hide Fields, ToLower, SectionTypeByName;
  }

  lemma IfTokens()
    ensures Fields("%if A") == ["%if"] + Fields("A") && ToLower("%if") == "%if"
  {
    hide Fields;
    MoreTokens("%if", "A");
    assert "%if A" == "%if" + " " + "A";
  }

  lemma IfLine()
    ensures Classify("%if A") == IfDirective
  {
    hide Classify, Fields, ToLower;
    IfTokens();
    IfKind("%if A");
  }

  lemma EndifLine()
    ensures Classify("%endif") == EndifDirective
  {
    hide Fields;
    OneToken("%endif");
    assert ToLower("%endif") == "%endif";
    KeywordsExclusive("%endif");
  }

  lemma HeaderKind(raw: string, keyword: string, pkg: string, sectType: SectionType)
    requires Fields(raw) == [keyword, pkg] && ToLower(keyword) == keyword
             && SectionTypeByName(keyword) == Some(sectType)
    requires pkg != "" && pkg[0] != '-' && (sectType.PackageSection? || sectType.RawSection?)
    ensures Classify(raw) == SectionHeader(keyword, pkg, sectType)
  {
    hide Fields, ToLower, SectionTypeByName;
    KeywordsExclusive(keyword);
    OneName(pkg);
    assert [keyword, pkg][1..] == [pkg];
  }

  lemma TwoTokens(keyword: string, pkg: string)
    requires Solid(keyword) && Solid(pkg)
    ensures Fields(keyword + " " + pkg) == [keyword, pkg]
  {
    MoreTokens(keyword, pkg);
    OneToken(pkg);
  }

  lemma PackageLine(pkg: string)
    requires Solid(pkg) && pkg[0] != '-'
    ensures Classify("%package " + pkg) == SectionHeader("%package", pkg, PackageSection)
  {
    hide Classify, Fields, ToLower, SectionTypeByName;
    PackageKeyword();
    TwoTokens("%package", pkg);
    assert "%package " + pkg == "%package" + " " + pkg;
    HeaderKind("%package " + pkg, "%package", pkg, PackageSection);
  }

  lemma OneName(pkg: string)
    requires pkg != "" && pkg[0] != '-'
    ensures PackageFrom([pkg], "", "") == pkg
  {
    assert [pkg][1..] == [];
  }

  lemma PackageKeyword()
    ensures SectionTypeByName("%package") == Some(PackageSection) && ToLower("%package") == "%package"
  {
  }

  lemma DescriptionKeyword()
    ensures SectionTypeByName("%description") == Some(RawSection) && ToLower("%description") == "%description"
  {
    var k := "%description";
    assert k[1] == 'd';
    assert forall s <- SCRIPT_SECTIONS :: s[1] != 'd';
  }

  lemma DescriptionLine(pkg: string)
    requires Solid(pkg) && pkg[0] != '-'
    ensures Classify("%description " + pkg) == SectionHeader("%description", pkg, RawSection)
  {
    hide Classify, Fields, ToLower, SectionTypeByName;
    DescriptionKeyword();
    TwoTokens("%description", pkg);
    assert "%description " + pkg == "%description" + " " + pkg;
    HeaderKind("%description " + pkg, "%description", pkg, RawSection);
  }

  lemma HeaderAlone(keyword: string, sectType: SectionType)
    requires Solid(keyword) && ToLower(keyword) == keyword && SectionTypeByName(keyword) == Some(sectType)
    requires sectType.PackageSection? || sectType.RawSection?
    ensures Classify(keyword) == SectionHeader(keyword, "", sectType)
  {
    hide Fields, ToLower, SectionTypeByName;
    OneToken(keyword);
    KeywordsExclusive(keyword);
    assert [keyword][1..] == [];
  }

  lemma BareDescriptionLine()
    ensures Classify("%description") == SectionHeader("%description", "", RawSection)
  {
    hide Classify, ToLower, SectionTypeByName;
    DescriptionKeyword();
    HeaderAlone("%description", RawSection);
  }
}
