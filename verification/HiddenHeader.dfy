/** A file on which the two engines disagree: a macro body holds what looks like a header. */
module HiddenHeader {
  import opened Wrappers
  import opened Lines
  import opened MacroLexer
  import opened Scanning
  import opened Conditionals
  import opened Tree
  import opened Grammar
  import opened Parser
  import opened Ranges
  import opened MacroBodies
  import opened EnginesAgree
  import opened SectionRemoval
  import opened SampleLines

  const HIDDEN := ["%global m \\", "%package foo"]

  const DEFINITION := Line(0, HIDDEN[0], MacroDefinition("m"), false)
  const HEADER := Line(1, HIDDEN[1], SectionHeader("%package", "foo", PackageSection), false)

  lemma HiddenKinds()
    ensures Label(HIDDEN) == [DEFINITION, HEADER]
  {
    hide Classify;
    DefinitionLine();
    PackageLine("foo");
    assert "%package " + "foo" == "%package foo";
  }

  lemma DefinitionLine()
    ensures Classify("%global m \\") == MacroDefinition("m")
  {
    hide Fields, Classify;
    DefinitionTokens();
    DefinitionKind("%global m \\", ["%global", "m", "\\"]);
  }

  lemma DefinitionTokens()
    ensures Fields("%global m \\") == ["%global", "m", "\\"]
  {
    hide Fields;
    MoreTokens("%global", "m \\");
    NameTokens();
    assert "%global" + " " + "m \\" == "%global m \\";
  }

  lemma NameTokens()
    ensures Fields("m \\") == ["m", "\\"]
  {
    hide Fields;
    TwoTokens("m", "\\");
    assert "m" + " " + "\\" == "m \\";
  }

  lemma DefinitionKind(raw: string, tokens: seq<string>)
    requires Fields(raw) == tokens && |tokens| == 3 && tokens[0] == "%global" && tokens[1] == "m"
    ensures Classify(raw) == MacroDefinition("m")
  {
    hide Fields, SectionTypeByName;
    assert ToLower("%global") == "%global";
    assert BeforeParenthesis("m") == "m" by {
      assert "m"[1..] == "";
    }
  }

  /** The definition continues on the second line, which is its body, and ends there. */
  lemma HiddenMasked()
    ensures Masked(HIDDEN) == [DEFINITION, HEADER.(inBody := true)] && !EndsInMacro(HIDDEN)
  {
    hide MacroScan, Classify;
    HiddenKinds();
    BraceFreeLine(HIDDEN[0], START);
    BraceFreeLine(HIDDEN[1], START);
    var ls := [DEFINITION, HEADER];
    assert ls[1..] == [HEADER] && [HEADER][1..] == [];
    assert ModeAfter(DEFINITION, Outside) == Inside(START);
    assert ModeAfter(HEADER, Inside(START)) == Outside;
    assert Mask([HEADER], Inside(START)) == [HEADER.(inBody := true)] + Mask([], Outside);
    assert ModeEnd([HEADER], Inside(START)) == ModeEnd([], Outside);
  }

  lemma HiddenParses()
    ensures Parse(HIDDEN).Success?
    ensures forall s <- SectionsOf(Parse(HIDDEN).value) :: s.Section? && s.header.None?
  {
    hide Masked, EndsInMacro, Label, Classify, Build, SectionsOf, WrapPreamble, HeadersOf;
    HiddenMasked();
    var ms := [DEFINITION, HEADER.(inBody := true)];
    assert ms[1..] == [HEADER.(inBody := true)] && ms[1..][1..] == [];
    assert RunFrames(ms[1..], []) == RunFrames(ms[1..][1..], []);
    assert HeadsOf(ms[1..]) == [] + HeadsOf(ms[1..][1..]);
    ParsedSections(HIDDEN);
    ParsedExtents(HIDDEN);
    forall s | s in SectionsOf(Parse(HIDDEN).value) ensures s.Section? && s.header.None? {
      if s.header.Some? {
        HeadersHave(SectionsOf(Parse(HIDDEN).value), s);
        assert false;
      }
    }
  }

  lemma {:induction false} HeadersHave(ss: seq<Block>, s: Block)
    requires s in ss && s.Section? && s.header.Some?
    ensures HeadersOf(ss) != []
  {
    if s != ss[0] {
      HeadersHave(ss[1..], s);
    }
  }

  lemma HiddenRange()
    ensures CollectedRanges([DEFINITION, HEADER], ByName("%package", "foo")) == Success([Range(1, 2)])
  {
    var ls, select := [DEFINITION, HEADER], ByName("%package", "foo");
    assert SectionRanges(ls, 2, select) == [];
    assert SectionRanges(ls, 1, select) == [Range(1, 2)];
    assert ls[1..] == [HEADER] && ls[1..][1..] == [];
    assert RunPairs(ls[1..], []) == RunPairs(ls[1..][1..], []) == Ran([], []);
    assert ConditionalPairs(ls) == Success([]);
    assert Balance(Range(1, 2), ls, []) == Success(Range(1, 2));
    assert [Range(1, 2)][1..] == [] && BalanceAll([], ls, []) == Success([]) && [Range(1, 2)] + [] == [Range(1, 2)];
    assert SectionRanges(ls, 0, select) == [] + [Range(1, 2)] == [Range(1, 2)];
    assert BalanceAll([Range(1, 2)], ls, []) == Success([Range(1, 2)]);
  }

  /** The structural engine sees no section; the line-oriented one removes half of the macro. */
  lemma EnginesDisagree()
    ensures Parse(HIDDEN).Success? && !InertBodies(HIDDEN)
    ensures forall s <- SectionsOf(Parse(HIDDEN).value) :: s.Section? && s.header.None?
    ensures CollectedRanges(Label(HIDDEN), ByName("%package", "foo")) == Success([Range(1, 2)])
  {
    hide Parse, Masked, EndsInMacro, Label, Classify, SectionsOf, CollectedRanges;
    HiddenKinds();
    HiddenMasked();
    HiddenParses();
    HiddenRange();
    assert HEADER.(inBody := true) in Masked(HIDDEN);
  }
}
