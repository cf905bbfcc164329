/** The line-oriented removal of a section or of all sections of a sub-package. */
module SectionRemoval {
  import opened Wrappers
  import opened Lines
  import opened Scanning
  import opened SpecFile
  import opened Ranges
  import opened StructureKept
  import opened Tree
  import opened Grammar
  import opened Parser
  import opened Removal
  import opened EnginesAgree
  import opened LineAcceptance
  import opened SpecLines
  import opened SpecWalk
  import opened Reading

  /** The ranges found so far, and the header of the current section if it is selected. */
  datatype Found = Found(ranges: seq<Range>, start: Option<nat>)

  function Collector(select: (string, string) -> bool): Reader<Found> {
    (found: Found, e: Event) => Collected(found, e, select(e.section.name, e.section.pkg))
  }

  function Collected(found: Found, e: Event, matched: bool): Found {
    if e.target.SectionStart? && matched then found.(start := Some(e.lineNum))
    else if e.target.SectionEnd? && matched && found.start.Some? then
      Found(found.ranges + [Range(found.start.value, e.lineNum)], None)
    else found
  }

  predicate SelectsSection(section: Section, select: (string, string) -> bool) {
    select(section.name, section.pkg)
  }

  lemma HeaderAgrees(raw: seq<string>, p: nat, select: (string, string) -> bool)
    requires p < |raw|
    ensures Label(raw)[p].Heads() <==> SectionOfHeader(raw[p]).Some?
    ensures Selected(Label(raw)[p], select)
            <==> SectionOfHeader(raw[p]).Some? && SelectsSection(SectionOfHeader(raw[p]).value, select)
    ensures SectionOfHeader(raw[p]).Some? ==> SectionBefore(raw, p + 1) == SectionOfHeader(raw[p]).value
    ensures SectionOfHeader(raw[p]).None? ==> SectionBefore(raw, p + 1) == SectionBefore(raw, p)
  {
    hide Classify, SectionBefore;
    OneMore(raw, p);
  }

  /** What a header does to what was found. */
  function AtHeaderLine(found: Found, p: nat, selected: bool): Found {
    var closed := if found.start.Some? then Found(found.ranges + [Range(found.start.value, p)], None) else found;
    if selected then closed.(start := Some(p)) else closed
  }

  lemma CollectorStep(raw: seq<string>, p: nat, found: Found, select: (string, string) -> bool)
    requires p < |raw| && (found.start.Some? <==> SelectsSection(SectionBefore(raw, p), select))
    ensures var l := Label(raw)[p];
            var next := ReadLine(raw, p, found, Collector(select));
            && next == (if l.Heads() then AtHeaderLine(found, p, Selected(l, select)) else found)
            && (next.start.Some? <==> SelectsSection(SectionBefore(raw, p + 1), select))
  {
    hide SectionBefore, SectionOfHeader, Selected, Label, Collector;
    HeaderAgrees(raw, p, select);
    LineCollects(raw, p, found, select);
  }

  /** What reading one line adds to what was found. */
  lemma LineCollects(raw: seq<string>, p: nat, found: Found, select: (string, string) -> bool)
    requires p < |raw| && (found.start.Some? <==> SelectsSection(SectionBefore(raw, p), select))
    ensures ReadLine(raw, p, found, Collector(select))
         == if SectionOfHeader(raw[p]).None? then found
            else AtHeaderLine(found, p, SelectsSection(SectionBefore(raw, p + 1), select))
  {
    hide SectionBefore, SectionOfHeader, ParseLine;
  }

  /** The ranges found by the end of the file. */
  function Finally(ls: seq<Line>, p: nat, found: Found, select: (string, string) -> bool): seq<Range>
    requires p <= |ls|
  {
    found.ranges + ((if found.start.Some? then [Range(found.start.value, NextHeader(ls, p))] else [])
      + SectionRanges(ls, p, select))
  }

  lemma FinallyStep(ls: seq<Line>, p: nat, found: Found, select: (string, string) -> bool)
    requires p < |ls|
    ensures var next := if ls[p].Heads() then AtHeaderLine(found, p, Selected(ls[p], select)) else found;
            Finally(ls, p, found, select) == Finally(ls, p + 1, next, select)
  {
    hide Selected, NextHeader, SectionRanges;
    RangesStep(ls, p, select);
    var open := if found.start.Some? then [Range(found.start.value, NextHeader(ls, p))] else [];
    var more := if Selected(ls[p], select) then [Range(p, NextHeader(ls, p + 1))] else [];
    var rest := SectionRanges(ls, p + 1, select);
    assert found.ranges + (open + (more + rest)) == (found.ranges + open) + (more + rest);
    assert [] + rest == rest && found.ranges + [] == found.ranges;
  }

  lemma RangesStep(ls: seq<Line>, p: nat, select: (string, string) -> bool)
    requires p < |ls|
    ensures SectionRanges(ls, p, select)
         == (if Selected(ls[p], select) then [Range(p, NextHeader(ls, p + 1))] else [])
            + SectionRanges(ls, p + 1, select)
    ensures NextHeader(ls, p) == if ls[p].Heads() then p else NextHeader(ls, p + 1)
    ensures Selected(ls[p], select) ==> ls[p].Heads()
  {
  }

  /** Walking collects each selected section from its header to the next header. */
  lemma {:induction false} CollectorCollects(raw: seq<string>, p: nat, found: Found, select: (string, string) -> bool)
    requires p <= |raw| && (found.start.Some? <==> SelectsSection(SectionBefore(raw, p), select))
    ensures ReadFrom(raw, p, found, Collector(select)) == Found(Finally(Label(raw), p, found, select), None)
    decreases |raw| - p
  {
    hide SectionBefore, Selected, SelectsSection, Label, Finally, ReadLine, ReadEnd, Collector, AtHeaderLine;
    if p == |raw| {
      CollectorEnds(raw, found, select);
    } else {
      CollectorStep(raw, p, found, select);
      FinallyStep(Label(raw), p, found, select);
      CollectorCollects(raw, p + 1, ReadLine(raw, p, found, Collector(select)), select);
    }
  }

  lemma CollectorEnds(raw: seq<string>, found: Found, select: (string, string) -> bool)
    requires found.start.Some? <==> SelectsSection(SectionBefore(raw, |raw|), select)
    ensures ReadEnd(raw, found, Collector(select)) == Found(Finally(Label(raw), |raw|, found, select), None)
  {
    hide SectionBefore, Label, Selected;
    assert found.ranges + [] == found.ranges;
  }

  method CollectRanges(spec: Spec, select: (string, string) -> bool) returns (r: Result<seq<Range>, RangeError>)
    requires !select("", "")
    modifies spec
    ensures spec.rawLines == old(spec.rawLines) && r == CollectedRanges(Label(spec.rawLines), select)
  {
    hide ReadFrom, CollectedRanges, SectionRanges;
    var found := Read(spec, Collector(select), Found([], None));
    ghost var raw := spec.rawLines;
    assert SectionBefore(raw, 0) == SectionAt([], PREAMBLE) == PREAMBLE by {
      assert raw[..0] == [];
    }
    CollectorCollects(raw, 0, Found([], None), select);
    assert [] + SectionRanges(Label(raw), 0, select) == SectionRanges(Label(raw), 0, select);
    assert [] + ([] + SectionRanges(Label(raw), 0, select)) == SectionRanges(Label(raw), 0, select);
    r := BalanceRanges(Label(spec.rawLines), found.ranges, select);
  }

  datatype RemovalError = EmptyName | NotFound | NotRemovable(e: RangeError)

  /** Removes the ranges from the last to the first. */
  method RemoveRanges(spec: Spec, ranges: seq<Range>)
    requires Ascending(ranges, |spec.rawLines|)
    modifies spec
    ensures spec.rawLines == WithoutRanges(old(spec.rawLines), ranges)
  {
    hide Ascending;
    var i := |ranges|;
    assert ranges[..|ranges|] == ranges;
    while i > 0
      invariant 0 <= i <= |ranges| && Ascending(ranges[..i], |spec.rawLines|)
      invariant WithoutRanges(spec.rawLines, ranges[..i]) == WithoutRanges(old(spec.rawLines), ranges)
    {
      LastRemoved(spec.rawLines, ranges[..i]);
      assert ranges[..i][..i - 1] == ranges[..i - 1] && ranges[..i][i - 1] == ranges[i - 1];
      i := i - 1;
      spec.rawLines := spec.rawLines[..ranges[i].start] + spec.rawLines[ranges[i].end..];
    }
    assert ranges[..0] == [];
  }

  lemma LastRemoved<T>(xs: seq<T>, ranges: seq<Range>)
    requires ranges != [] && Ascending(ranges, |xs|)
    ensures var front, last := ranges[..|ranges| - 1], ranges[|ranges| - 1];
            && last.start <= last.end <= |xs|
            && var rest := xs[..last.start] + xs[last.end..];
               Ascending(front, |rest|) && WithoutRanges(rest, front) == WithoutRanges(xs, ranges)
  {
    AscendingFront(ranges, |xs|);
  }

  /** What a removal does to a spec that parses and whose macro bodies look like no directive and
      no header: it succeeds if there is a section to remove and all are clear behind them, and
      leaves the lines that removing them from the tree leaves. */
  ghost predicate RemovesFromTree(raw: seq<string>, select: (string, string) -> bool, r: Result<(), RemovalError>,
    after: seq<string>)
  {
    Parse(raw).Success? && InertBodies(raw) ==>
      var root := Parse(raw).value;
      && (r.Success? <==> AnySelected(root, select) && AllClear(raw, root, select))
      && (r == Failure(NotFound) <==> !AnySelected(root, select))
      && (r.Success? ==> after == LinesWithout(root, select))
  }

  predicate AnySelected(root: seq<Block>, select: (string, string) -> bool) {
    exists s <- SectionsOf(root) :: SelectedSection(s, select)
  }

  function LinesWithout(root: seq<Block>, select: (string, string) -> bool): seq<string> {
    Texts(Serialize(RemoveFrom(root, SelectedLabels(SectionsOf(root), select))))
  }

  lemma RemovalFromTree(raw: seq<string>, select: (string, string) -> bool, r: Result<(), RemovalError>,
    after: seq<string>)
    requires var ranges := CollectedRanges(Label(raw), select);
             if ranges.Failure? then r == Failure(NotRemovable(ranges.error))
             else if ranges.value == [] then r == Failure(NotFound)
             else r == Success(()) && Ascending(ranges.value, |raw|) && after == WithoutRanges(raw, ranges.value)
    ensures RemovesFromTree(raw, select, r, after)
  {
    hide Parse, Label, Classify, InertBodies, CollectedRanges, AllClear, AnySelected, LinesWithout, WithoutRanges,
      Ascending;
    if Parse(raw).Success? && InertBodies(raw) {
      AcceptsOnText(raw, select);
      if CollectedRanges(Label(raw), select).Success? {
        RangesWhenFound(raw, select);
      } else {
        NoneIsClear(raw, Parse(raw).value, select);
      }
    }
  }

  lemma NoneIsClear(raw: seq<string>, root: seq<Block>, select: (string, string) -> bool)
    ensures !AnySelected(root, select) ==> AllClear(raw, root, select)
  {
    hide SelectedSection, ClearOnText;
  }

  /** There are ranges exactly when there are sections to remove. */
  lemma RangesWhenFound(raw: seq<string>, select: (string, string) -> bool)
    requires Parse(raw).Success? && InertBodies(raw) && CollectedRanges(Label(raw), select).Success?
    ensures CollectedRanges(Label(raw), select).value != [] <==> AnySelected(Parse(raw).value, select)
    ensures Ascending(CollectedRanges(Label(raw), select).value, |raw|)
    ensures WithoutRanges(raw, CollectedRanges(Label(raw), select).value) == LinesWithout(Parse(raw).value, select)
  {
    hide Parse, Label, InertBodies, SectionsOf, CollectedRanges, StandsOn, Serialize, RemoveFrom, Texts,
      WithoutRanges, Ascending, SelectedLabels, SelectedSection;
    TheEnginesAgree(raw, select);
    var ranges := CollectedRanges(Label(raw), select).value;
    assert ranges != [] ==> ranges[0] in ranges;
  }

  method RemoveSelected(spec: Spec, select: (string, string) -> bool) returns (r: Result<(), RemovalError>)
    requires !select("", "")
    modifies spec
    ensures match CollectedRanges(Label(old(spec.rawLines)), select)
            case Failure(e) => r == Failure(NotRemovable(e)) && spec.rawLines == old(spec.rawLines)
            case Success(ranges) =>
              && Ascending(ranges, |old(spec.rawLines)|)
              && spec.rawLines == WithoutRanges(old(spec.rawLines), ranges)
              && r == if ranges == [] then Failure(NotFound) else Success(())
    ensures RemovesFromTree(old(spec.rawLines), select, r, spec.rawLines)
  {
    hide CollectedRanges, Ascending, RemovesFromTree;
    ghost var raw := spec.rawLines;
    var ranges := CollectRanges(spec, select);
    if ranges.Failure? {
      r := Failure(NotRemovable(ranges.error));
      RemovalFromTree(raw, select, r, spec.rawLines);
      return;
    }
    CollectedAscend(Label(spec.rawLines), select);
    if |ranges.value| == 0 {
      r := Failure(NotFound);
      RemovalFromTree(raw, select, r, spec.rawLines);
      return;
    }
    RemoveRanges(spec, ranges.value);
    r := Success(());
    RemovalFromTree(raw, select, r, spec.rawLines);
  }

  /** The sections of one name and package. */
  function ByName(name: string, pkg: string): (string, string) -> bool {
    (n: string, p: string) => n == name && p == pkg
  }

  /** The sections of one package. */
  function ByPackage(pkg: string): (string, string) -> bool {
    (n: string, p: string) => p == pkg
  }

  lemma SelectedBy(s: Block, name: string, pkg: string)
    ensures SelectedSection(s, ByName(name, pkg)) <==>
              && s.Section? && s.header.Some? && s.header.value.Heads()
              && s.header.value.kind.name == name && s.header.value.kind.pkg == pkg
    ensures SelectedSection(s, ByPackage(pkg)) <==>
              s.Section? && s.header.Some? && s.header.value.Heads() && s.header.value.kind.pkg == pkg
  {
  }

  method RemoveSection(spec: Spec, name: string, pkg: string) returns (r: Result<(), RemovalError>)
    modifies spec
    ensures name == "" ==> r == Failure(EmptyName)
    ensures r.Failure? ==> spec.rawLines == old(spec.rawLines)
    ensures r.Success? ==>
              var ranges := CollectedRanges(Label(old(spec.rawLines)), ByName(name, pkg));
              && ranges.Success? && ranges.value != [] && Ascending(ranges.value, |old(spec.rawLines)|)
              && spec.rawLines == WithoutRanges(old(spec.rawLines), ranges.value)
    ensures name != "" ==> (r.Success? <==>
              var ranges := CollectedRanges(Label(old(spec.rawLines)), ByName(name, pkg));
              ranges.Success? && ranges.value != [])
    ensures name != "" ==> RemovesFromTree(old(spec.rawLines), ByName(name, pkg), r, spec.rawLines)
  {
    hide CollectedRanges, Ascending, RemovesFromTree;
    if name == "" {
      return Failure(EmptyName);
    }
    r := RemoveSelected(spec, ByName(name, pkg));
  }

  method RemoveSubpackage(spec: Spec, pkg: string) returns (r: Result<(), RemovalError>)
    modifies spec
    ensures pkg == "" ==> r == Failure(EmptyName)
    ensures r.Failure? ==> spec.rawLines == old(spec.rawLines)
    ensures r.Success? ==>
              var ranges := CollectedRanges(Label(old(spec.rawLines)), ByPackage(pkg));
              && ranges.Success? && ranges.value != [] && Ascending(ranges.value, |old(spec.rawLines)|)
              && spec.rawLines == WithoutRanges(old(spec.rawLines), ranges.value)
    ensures pkg != "" ==> (r.Success? <==>
              var ranges := CollectedRanges(Label(old(spec.rawLines)), ByPackage(pkg));
              ranges.Success? && ranges.value != [])
    ensures pkg != "" ==> RemovesFromTree(old(spec.rawLines), ByPackage(pkg), r, spec.rawLines)
  {
    hide CollectedRanges, Ascending, RemovesFromTree;
    if pkg == "" {
      return Failure(EmptyName);
    }
    r := RemoveSelected(spec, ByPackage(pkg));
  }
}
