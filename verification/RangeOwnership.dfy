/** When the line-oriented removal hands a line to another section. */
module RangeOwnership {
  import opened Wrappers
  import opened Lines
  import opened Scanning
  import opened Tree
  import opened Grammar
  import opened Parser
  import opened Removal
  import opened Reparse
  import opened Ranges
  import opened StructureKept
  import opened EnginesAgree
  import opened Ownership
  import opened OwnershipCheck
  import opened NormalForm
  import opened SampleLines
  import opened SectionRemoval

  /** For every choice of conditions, the lines outside the ranges that matter keep their owner. */
  ghost predicate RangesKeepOwners(ls: seq<Line>, ranges: seq<Range>)
    requires Ascending(ranges, |ls|)
  {
    forall taken: set<nat> ::
      OwnedOf(WithoutRanges(ls, ranges), taken) == Surviving(OwnedOf(ls, taken), DroppedBy(ranges))
  }

  /** The line-oriented engine does not look at owners. A removal it accepts keeps them exactly
      when the check of the structural engine would pass for the same sections. */
  lemma AcceptedKeepsOwners(raw: seq<string>, select: (string, string) -> bool)
    requires Parse(raw).Success? && InertBodies(raw) && CollectedRanges(Label(raw), select).Success?
    ensures var root := Parse(raw).value;
            var ranges := CollectedRanges(Label(raw), select).value;
            && Ascending(ranges, |Masked(raw)|)
            && (RangesKeepOwners(Masked(raw), ranges)
               <==> Validate(root, SelectedLabels(SectionsOf(root), select), false).Success?)
  {
    hide Parse, Masked, Label, SectionsOf, CollectedRanges, Serialize, RemoveFrom, Dropped, DroppedBy, DistinctLabels,
      Ascending, InertBodies, SelectedLabels, WithoutRanges, WellFormedRoot, Closed, Classified, Validate, OwnedOf,
      Surviving, LabelledInOrder;
    var root := Parse(raw).value;
    SameRanges(raw, select);
    SameLabelledLinesRemain(raw, select);
    DroppedAgree(raw, select);
    ParsedFacts(raw);
    CheckIsExact(root, SelectedLabels(SectionsOf(root), select));
  }

  // ---------------------------------------------------------------- an accepted removal that does not

  const SPANNING := ["text", "%package foo", "text", "%if A", "%package bar", "text", "%endif", "text"]

  function SpanningLine(i: nat): Line
    requires i < 8
  {
    Line(i, SPANNING[i],
         if i == 1 then SectionHeader("%package", "foo", PackageSection)
         else if i == 3 then IfDirective
         else if i == 4 then SectionHeader("%package", "bar", PackageSection)
         else if i == 6 then EndifDirective
         else Content(true),
         false)
  }

  function SpanningLines(): (ls: seq<Line>)
    ensures |ls| == 8 && forall i :: 0 <= i < 8 ==> ls[i] == SpanningLine(i)
  {
    seq(8, i requires 0 <= i < 8 => SpanningLine(i))
  }

  /** The last line is below the conditional that holds the second section. */
  function SpanningTree(): seq<Block> {
    var ls := SpanningLines();
    [Section(None, [Text([ls[0]])]),
     Section(Some(ls[1]), [Text([ls[2]])]),
     Cond(ls[3], [Section(Some(ls[4]), [Text([ls[5]])])], None, [], Some(ls[6])),
     Text([ls[7]])]
  }

  lemma SpanningKinds()
    ensures Label(SPANNING) == SpanningLines()
  {
    hide Classify;
    TextLine();
    PackageLine("foo");
    PackageLine("bar");
    assert "%package " + "foo" == "%package foo" && "%package " + "bar" == "%package bar";
    IfLine();
    EndifLine();
    forall i | 0 <= i < 8 ensures Label(SPANNING)[i] == SpanningLine(i) {
    }
  }

  lemma {:induction false} NoMacroNoMask(ls: seq<Line>)
    requires forall l <- ls :: !l.inBody && !l.kind.MacroDefinition?
    ensures Mask(ls, Outside) == ls && ModeEnd(ls, Outside) == Outside
  {
    if ls != [] {
      assert ls[0] in ls && forall l <- ls[1..] :: l in ls;
      NoMacroNoMask(ls[1..]);
    }
  }

  lemma SpanningPlain()
    ensures forall l <- SpanningLines() :: !l.inBody && !l.kind.MacroDefinition?
  {
    forall l | l in SpanningLines() ensures !l.inBody && !l.kind.MacroDefinition? {
      var i :| 0 <= i < 8 && SpanningLines()[i] == l;
      assert l == SpanningLine(i);
    }
  }

  lemma SpanningMasked()
    ensures Masked(SPANNING) == SpanningLines() && !EndsInMacro(SPANNING) && InertBodies(SPANNING)
  {
    hide Mask, ModeEnd, Label, SpanningLines;
    SpanningKinds();
    SpanningPlain();
    NoMacroNoMask(SpanningLines());
  }

  lemma SpanningParses()
    ensures Parse(SPANNING) == Success(SpanningTree())
  {
    hide Parse, Masked, EndsInMacro, WellFormedRoot, NormalRoot, Serialize, SpanningLines, SpanningTree;
    SpanningMasked();
    SpanningSerialized();
    SpanningNormal();
    ParsesExactly(SPANNING, SpanningTree());
  }

  lemma OneText(l: Line)
    requires l.Plain()
    ensures var t := [Text([l])];
            WellFormed(t) && Normal(t) && Serialize(t) == [l] && SectionsOf(t) == []
  {
    SerializeOne(Text([l]));
    NormalNone();
    NormalCons(Text([l]), []);
    assert [Text([l])][1..] == [] && [Text([l])] + [] == [Text([l])];
  }

  lemma OneSection(h: Line, l: Line)
    requires h.Heads() && l.Plain()
    ensures var s := Section(Some(h), [Text([l])]);
            && WellFormedBlock(s) && NormalBlock(s) && SerializeBlock(s) == [h, l] && SectionsIn(s) == [s]
            && WellFormed([s]) && Normal([s]) && Serialize([s]) == [h, l] && SectionsOf([s]) == [s]
  {
    hide Serialize;
    OneText(l);
    var s := Section(Some(h), [Text([l])]);
    SerializeOne(s);
    assert [s][1..] == [];
  }

  lemma OneCond(o: Line, s: Block, e: Line)
    requires o.Opens() && e.Closes() && WellFormed([s]) && Normal([s]) && SectionsOf([s]) == [s]
    ensures var c := Cond(o, [s], None, [], Some(e));
            && WellFormedBlock(c) && NormalBlock(c) && SerializeBlock(c) == [o] + Serialize([s]) + [e]
               && SectionsIn(c) == [s]
  {
    hide WellFormed, Serialize;
    WellFormedNone();
    NormalNone();
    SerializeNone();
  }

  lemma SpanningParts()
    ensures var t := SpanningTree();
            && WellFormed(t[0].children) && Normal(t[0].children) && SectionsOf(t[0].children) == []
            && WellFormed(t[1..]) && Normal(t[1..]) && WrapsSections(t[1])
            && SectionsOf(t[1..]) == [t[1], t[2].thn[0]]
    ensures Serialize(SpanningTree()[0].children) == SpanningLines()[..1]
            && Serialize(SpanningTree()[1..]) == SpanningLines()[1..]
  {
    hide WellFormed, Normal, Serialize, SectionsOf, SectionsIn, WellFormedBlock, NormalBlock, SerializeBlock;
    var ls, t := SpanningLines(), SpanningTree();
    OneText(ls[0]);
    OneSection(ls[1], ls[2]);
    OneSection(ls[4], ls[5]);
    OneCond(ls[3], t[2].thn[0], ls[6]);
    OneText(ls[7]);
    var last := [t[3]];
    WellFormedCons(t[2], last);
    NormalCons(t[2], last);
    SerializeCons(t[2], last);
    SectionsOfCons(t[2], last);
    var lasts := [t[2]] + last;
    WellFormedCons(t[1], lasts);
    NormalCons(t[1], lasts);
    SerializeCons(t[1], lasts);
    SectionsOfCons(t[1], lasts);
    assert t[1..] == [t[1]] + lasts;
    assert ls[..1] == [ls[0]];
    assert ls[1..] == [ls[1], ls[2]] + (([ls[3]] + [ls[4], ls[5]] + [ls[6]]) + [ls[7]]);
  }

  lemma SpanningSerialized()
    ensures Serialize(SpanningTree()) == SpanningLines()
  {
    hide Serialize, SpanningTree, SpanningLines;
    SpanningParts();
    SpanningNormal();
    RootHeads(SpanningTree());
    assert SpanningLines()[..1] + SpanningLines()[1..] == SpanningLines();
  }

  lemma SpanningNormal()
    ensures WellFormedRoot(SpanningTree()) && NormalRoot(SpanningTree())
  {
    hide WellFormed, Normal, SectionsOf, WrapsSections;
    SpanningParts();
  }

  /** The removal of the first section is accepted, and would hand the last line to the preamble
      whenever the condition is false. */
  lemma AcceptedLosesOwner()
    ensures Parse(SPANNING).Success? && InertBodies(SPANNING)
    ensures Label(SPANNING) == SpanningLines()
    ensures CollectedRanges(SpanningLines(), ByName("%package", "foo")) == Success([Range(1, 3)])
    ensures Ascending([Range(1, 3)], |SpanningLines()|) && !RangesKeepOwners(SpanningLines(), [Range(1, 3)])
  {
    hide Parse, Label, Masked, EndsInMacro, CollectedRanges, SectionsOf, SpanningTree, SpanningLines, Validate,
      InertBodies, RangesKeepOwners, SelectedLabels, Ascending;
    var select := ByName("%package", "foo");
    SpanningParses();
    SpanningMasked();
    SpanningKinds();
    SpanningRange();
    SpanningChecked();
    AcceptedKeepsOwners(SPANNING, select);
  }

  lemma SpanningChecked()
    ensures var doomed := SelectedLabels(SectionsOf(SpanningTree()), ByName("%package", "foo"));
            Validate(SpanningTree(), doomed, false).Failure?
  {
    hide SectionsOf;
    var ls, t := SpanningLines(), SpanningTree();
    SpanningParts();
    assert t == [t[0]] + t[1..];
    SectionsOfCons(t[0], t[1..]);
    assert SectionsIn(t[0]) == [t[0]] + [] == [t[0]];
    var doomed := SelectedLabels(SectionsOf(t), ByName("%package", "foo"));
    assert doomed == {1};
    assert t[1..] == [t[1], t[2], t[3]] && t[1..][1..] == [t[2], t[3]] && t[1..][1..][1..] == [t[3]];
    assert ls[7] in [ls[7]] && HasMeaningfulText([ls[7]]);
    assert Validate([t[3]], doomed, true).Failure?;
    assert Validate(t[2].thn, doomed, true) == Success(false);
  }

  lemma SpanningRange()
    ensures CollectedRanges(SpanningLines(), ByName("%package", "foo")) == Success([Range(1, 3)])
  {
    hide Balance, SectionRanges, ConditionalPairs, SpanningLines;
    SpanningFound();
    SpanningPair();
    SpanningBalanced();
    assert [Range(1, 4)][1..] == [];
    assert BalanceAll([], SpanningLines(), [Pair(3, 6)]) == Success([]);
    assert [Range(1, 3)] + [] == [Range(1, 3)];
  }

  lemma SpanningFound()
    ensures SectionRanges(SpanningLines(), 0, ByName("%package", "foo")) == [Range(1, 4)]
  {
    var ls, select := SpanningLines(), ByName("%package", "foo");
    assert NextHeader(ls, 2) == 4;
    assert SectionRanges(ls, 5, select) == [];
    assert SectionRanges(ls, 2, select) == [];
  }

  lemma SpanningPair()
    ensures ConditionalPairs(SpanningLines()) == Success([Pair(3, 6)])
  {
    var ls := SpanningLines();
    assert forall k :: 0 <= k < 8 ==> ls[k..][0] == ls[k] && ls[k..][1..] == ls[k + 1..];
    assert RunPairs(ls[8..], []) == Ran([], []);
    assert RunPairs(ls[7..], []) == Ran([], []);
    assert [3][..0] == [] && [Pair(3, 6)] + [] == [Pair(3, 6)];
    assert RunPairs(ls[6..], [3]) == Ran([Pair(3, 6)], []);
    assert RunPairs(ls[5..], [3]) == Ran([Pair(3, 6)], []);
    assert RunPairs(ls[4..], [3]) == Ran([Pair(3, 6)], []);
    assert [] + [3] == [3];
    assert RunPairs(ls[3..], []) == Ran([Pair(3, 6)], []);
    assert RunPairs(ls[2..], []) == Ran([Pair(3, 6)], []);
    assert RunPairs(ls[1..], []) == Ran([Pair(3, 6)], []);
    assert ls[0..] == ls;
  }

  lemma SpanningBalanced()
    ensures Balance(Range(1, 4), SpanningLines(), [Pair(3, 6)]) == Success(Range(1, 3))
  {
    var ls, r, pairs := SpanningLines(), Range(1, 4), [Pair(3, 6)];
    assert pairs[..0] == [] && Trimmed(r, []) == 4 && Trimmed(r, pairs) == 3;
    assert NoContentAfter(ls, 3, 4) && NoContentAfter(ls, 2, 4) && NoOuterBranch(r, ls, pairs);
  }
}
