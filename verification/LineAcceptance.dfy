/** Which removals the line-oriented engine accepts on a spec that parses. */
module LineAcceptance {
  import opened Wrappers
  import opened Lines
  import opened Scanning
  import opened Conditionals
  import opened Tree
  import opened Grammar
  import opened Parser
  import opened TreeParser
  import opened TreeBuilder
  import opened Ranges
  import opened RangeSoundness
  import opened EnginesAgree

  // ---------------------------------------------------------------- one section

  /** A branch in balanced lines belongs to a conditional opened and closed in them. */
  lemma {:induction false} BranchEnclosed(m: seq<Line>, a: nat, b: nat, k: nat) returns (i: nat)
    requires a <= k < b <= |m| && Balanced(m[a..b]) && m[k].Branches()
    ensures a <= i < k < CloseOf(m, i) < b && m[i].Opens()
    decreases k - a
  {
    hide Balanced, CloseOf;
    FirstOfBalanced(m, a, b);
    if m[a].Opens() {
      BalancedOpener(m, a, b);
      if k < CloseOf(m, a) {
        i := a;
      } else {
        CloserLine(m, Pair(a, CloseOf(m, a)));
        i := BranchEnclosed(m, CloseOf(m, a) + 1, b, k);
      }
    } else {
      BalancedRest(m, a, b);
      i := BranchEnclosed(m, a + 1, b, k);
    }
  }

  lemma BalancedOpener(m: seq<Line>, a: nat, b: nat)
    requires a < b <= |m| && Balanced(m[a..b]) && m[a].Opens()
    ensures CloseOf(m, a) < b && Balanced(m[CloseOf(m, a) + 1..b])
  {
    hide CloseAt, CloseOf, BranchBody, Balanced;
    CloseInRange(m, a, b);
  }

  lemma BalancedRest(m: seq<Line>, a: nat, b: nat)
    requires a < b <= |m| && Balanced(m[a..b]) && !m[a].Opens() && !m[a].Closes() && !m[a].Branches()
    ensures Balanced(m[a + 1..b])
  {
    assert m[a..b][0] == m[a] && m[a..b][1..] == m[a + 1..b];
  }

  /** No branch before the end of the extent belongs to a conditional around the section. */
  lemma BranchesStay(m: seq<Line>, pairs: seq<Pair>, h: nat, x: nat, k: nat)
    requires IsExtent(m, h, x) && ExactPairs(m, pairs) && h <= k < x && m[k].Branches()
    ensures BranchStays(Range(h, NextHeader(m, h + 1)), pairs, k)
  {
    hide ExtentFrom, StopsAt, Balanced, CloseOf, NextHeader, HasHeader;
    ExtentBeforeNextHeader(m, h, x);
    var i := BranchEnclosed(m, h + 1, x, k);
    OpenerPair(m, pairs, i);
    FirstEnclosingFacts(pairs, k);
    FirstEnclosingIsInnermost(m, pairs, k);
  }

  /** Balancing the range of a section succeeds exactly when nothing but blanks, comments and
      conditional directives lies between the section's extent and the next header; the balanced
      range is then the extent. */
  lemma BalancesExactly(m: seq<Line>, pairs: seq<Pair>, h: nat, x: nat)
    requires IsExtent(m, h, x) && ExactPairs(m, pairs)
    ensures var e := NextHeader(m, h + 1);
            Balance(Range(h, e), m, pairs) ==
            if NoContentAfter(m, x - 1, e) then Success(Range(h, x)) else Failure(ConditionalSpansSections(Range(h, e)))
  {
    hide IsExtent, ExactPairs, NextHeader, Trimmed, NoOuterBranch;
    SectionBounds(m, h, x);
    var e := NextHeader(m, h + 1);
    NextHeaderFacts(m, h + 1);
    TrimmedFacts(Range(h, e), pairs);
    if Balance(Range(h, e), m, pairs).Success? {
      BalancedIsExtent(m, pairs, h, x);
      ExtentBeforeNextHeader(m, h, x);
    } else if NoContentAfter(m, x - 1, e) {
      NothingRefuses(m, pairs, h, x);
      assert false;
    }
  }

  lemma NothingRefuses(m: seq<Line>, pairs: seq<Pair>, h: nat, x: nat)
    requires IsExtent(m, h, x) && ExactPairs(m, pairs) && NoContentAfter(m, x - 1, NextHeader(m, h + 1))
    ensures Balance(Range(h, NextHeader(m, h + 1)), m, pairs).Success?
  {
    hide IsExtent, ExactPairs, NextHeader, Trimmed;
    var r := Range(h, NextHeader(m, h + 1));
    SectionBounds(m, h, x);
    ExtentBeforeNextHeader(m, h, x);
    TrimmedFacts(r, pairs);
    forall p | p in pairs && Straddles(p, r) ensures InsideLine(p, r) >= x {
      NothingCutBefore(m, pairs, h, x, p);
    }
    forall k | r.start <= k < r.end && m[k].Branches() ensures BranchStays(r, pairs, k) {
      if k < x {
        BranchesStay(m, pairs, h, x, k);
      }
    }
  }

  // ---------------------------------------------------------------- all sections

  /** Matched conditionals are paired. */
  lemma {:induction false} MatchedArePaired(ls: seq<Line>, frames: seq<Frame>, stack: seq<nat>)
    requires RunFrames(ls, frames).Success? && |frames| == |stack|
    ensures RunPairs(ls, stack).Ran? && |RunPairs(ls, stack).stack| == |RunFrames(ls, frames).value|
  {
    if ls != [] {
      var frames' := StepFrames(ls[0], frames).value;
      MatchedArePaired(ls[1..], frames',
                       if ls[0].Opens() then stack + [ls[0].no]
                       else if ls[0].Closes() then stack[..|stack| - 1] else stack);
    }
  }

  lemma ParsedArePaired(raw: seq<string>)
    requires Parse(raw).Success?
    ensures ConditionalPairs(Masked(raw)).Success? && ExactPairs(Masked(raw), ConditionalPairs(Masked(raw)).value)
  {
    hide Masked, RunFrames, RunPairs, ExactPairs, Build;
    MatchingIsBalanced(Masked(raw));
    MatchedArePaired(Masked(raw), [], []);
    MaskedInOrder(raw);
    PairsAreExact(Masked(raw));
  }

  lemma {:induction false} BalancesAll(ranges: seq<Range>, ls: seq<Line>, pairs: seq<Pair>)
    requires forall r <- ranges :: r.end <= |ls|
    ensures BalanceAll(ranges, ls, pairs).Success? <==> forall r <- ranges :: Balance(r, ls, pairs).Success?
  {
    hide Balance;
    if ranges != [] {
      assert ranges[0].end <= |ls|;
      BalancesAll(ranges[1..], ls, pairs);
      assert ranges == [ranges[0]] + ranges[1..];
    }
  }

  /** Nothing but blanks, comments and conditional directives lies between the end of a section
      and the next header. */
  ghost predicate ClearBehind(m: seq<Line>, s: Block)
  {
    s.Section? && s.header.Some? &&
    var h := s.header.value.no;
    h < |m| && NoContentAfter(m, StandsOn(s).end - 1, NextHeader(m, h + 1))
  }

  /** A section of a parsed tree: its range can be balanced exactly when it is clear behind it. */
  lemma SectionBalances(raw: seq<string>, pairs: seq<Pair>, s: Block)
    requires Parse(raw).Success? && ExactPairs(Masked(raw), pairs)
    requires s in SectionsOf(Parse(raw).value) && s.Section? && s.header.Some?
    ensures var m, h := Masked(raw), s.header.value.no;
            && h < |m| && m[h] == s.header.value && m[h].Heads()
            && (Balance(Range(h, NextHeader(m, h + 1)), m, pairs).Success? <==> ClearBehind(m, s))
  {
    hide Parse, Masked, SectionsOf, Balance, ExactPairs, IsExtent, ExtentOk, StandsOn, NoContentAfter, ExtentFrom;
    var m, h := Masked(raw), s.header.value.no;
    ParsedExtents(raw);
    StandsOnExtent(m, s, h);
    ExtentOkHeader(m, s);
    HeaderHeads(m, s);
    BalancesExactly(m, pairs, h, ExtentFrom(m, h + 1));
  }

  lemma HeaderHeads(m: seq<Line>, s: Block)
    requires s.Section? && s.header.Some? && ExtentOk(m, 0, |m|, s)
    ensures s.header.value.Heads()
  {
  }

  /** The range found at the header of a selected section. */
  lemma SectionIsFound(raw: seq<string>, select: (string, string) -> bool, pairs: seq<Pair>, s: Block)
    returns (r: Range)
    requires Parse(raw).Success? && ExactPairs(Masked(raw), pairs)
    requires s in SectionsOf(Parse(raw).value) && SelectedSection(s, select)
    ensures r in SectionRanges(Masked(raw), 0, select) && r.end <= |Masked(raw)|
    ensures Balance(r, Masked(raw), pairs).Success? <==> ClearBehind(Masked(raw), s)
  {
    hide Parse, Masked, SectionsOf, SectionRanges, Balance, ExactPairs, ClearBehind, Selected;
    SectionBalances(raw, pairs, s);
    RangeOfHeader(Masked(raw), 0, s.header.value.no, select);
    r := Range(s.header.value.no, NextHeader(Masked(raw), s.header.value.no + 1));
  }

  /** The selected section at the start of a range found. */
  lemma FoundIsSection(raw: seq<string>, select: (string, string) -> bool, pairs: seq<Pair>, r: Range)
    returns (s: Block)
    requires Parse(raw).Success? && ExactPairs(Masked(raw), pairs)
    requires r in SectionRanges(Masked(raw), 0, select) && r.end <= |Masked(raw)|
    ensures s in SectionsOf(Parse(raw).value) && SelectedSection(s, select)
    ensures Balance(r, Masked(raw), pairs).Success? <==> ClearBehind(Masked(raw), s)
  {
    hide Parse, Masked, SectionsOf, SectionRanges, Balance, ExactPairs, ClearBehind, Selected, NextHeader;
    SectionRangesBounds(Masked(raw), 0, select);
    SelectedHeads(Masked(raw)[r.start], select);
    s := SectionStartingAt(raw, r.start);
    MaskedInOrder(raw);
    SectionBalances(raw, pairs, s);
  }

  /** On a spec that parses and whose macro bodies hold nothing that looks like a directive or a
      header, the line-oriented engine accepts a removal exactly when nothing but blanks, comments
      and conditional directives lies between the end of each selected section of the tree and the
      next header. */
  lemma AcceptsRemoval(raw: seq<string>, select: (string, string) -> bool)
    requires Parse(raw).Success? && InertBodies(raw)
    ensures CollectedRanges(Label(raw), select).Success? <==>
              forall s <- SectionsOf(Parse(raw).value) :: SelectedSection(s, select) ==> ClearBehind(Masked(raw), s)
  {
    hide Parse, Masked, Label, SectionsOf, SectionRanges, Balance, ExactPairs, InertBodies, ClearBehind, RunPairs,
      SelectedSection;
    SameRanges(raw, select);
    ParsedArePaired(raw);
    var pairs := ConditionalPairs(Masked(raw)).value;
    SectionRangesBounds(Masked(raw), 0, select);
    BalancesAll(SectionRanges(Masked(raw), 0, select), Masked(raw), pairs);
    forall s | s in SectionsOf(Parse(raw).value) && SelectedSection(s, select)
      ensures CollectedRanges(Masked(raw), select).Success? ==> ClearBehind(Masked(raw), s)
    {
      var r := SectionIsFound(raw, select, pairs, s);
    }
    if forall s <- SectionsOf(Parse(raw).value) :: SelectedSection(s, select) ==> ClearBehind(Masked(raw), s) {
      forall r | r in SectionRanges(Masked(raw), 0, select) ensures Balance(r, Masked(raw), pairs).Success? {
        var s := FoundIsSection(raw, select, pairs, r);
      }
    }
  }

  // ---------------------------------------------------------------- on the text of the lines

  /** No header lies between two lines, the second one included. */
  predicate Headerless(raw: seq<string>, from: nat, to: nat) {
    forall j :: from <= j <= to && j < |raw| ==> !IsSectionHeaderLine(raw[j])
  }

  /** From a line up to the next header, there is nothing but blank lines, comments and lines that
      open or close a conditional. */
  predicate ClearOnText(raw: seq<string>, end: nat) {
    forall k: nat :: end <= k < |raw| && Headerless(raw, end, k) ==>
                       IsBlankOrComment(raw[k]) || ConditionalDepthChange(raw[k]) != 0
  }

  lemma LineOnText(raw: seq<string>, k: nat)
    requires InertBodies(raw) && k < |raw|
    ensures Masked(raw)[k].Heads() <==> IsSectionHeaderLine(raw[k])
    ensures !IsRealContent(Masked(raw)[k]) <==> IsBlankOrComment(raw[k]) || ConditionalDepthChange(raw[k]) != 0
  {
    hide Mask, Classify, IsSectionHeaderLine, IsBlankOrComment, ConditionalDepthChange, MacroDefLine,
      IsConditionalBranchDirective, IsElifDirective;
    ClassifyAgrees(raw[k]);
    var ls, ms := Label(raw), Masked(raw);
    assert ms[k] in ms && ms[k] == ls[k].(inBody := ms[k].inBody);
  }

  lemma ClearIsClearOnText(raw: seq<string>, s: Block)
    requires InertBodies(raw) && s.Section? && s.header.Some? && s.header.value.no < |raw|
    requires |Masked(raw)| == |raw|
             && s.header.value.no < StandsOn(s).end <= NextHeader(Masked(raw), s.header.value.no + 1)
    ensures ClearBehind(Masked(raw), s) <==> ClearOnText(raw, StandsOn(s).end)
  {
    hide Masked, InertBodies, IsSectionHeaderLine, IsBlankOrComment, ConditionalDepthChange, IsRealContent, StandsOn,
      NextHeader;
    var m, h, end := Masked(raw), s.header.value.no, StandsOn(s).end;
    NextHeaderFacts(m, h + 1);
    NextHeaderHeads(m, h + 1);
    var e := NextHeader(m, h + 1);
    forall k: nat | k < |raw|
      ensures m[k].Heads() <==> IsSectionHeaderLine(raw[k])
      ensures !IsRealContent(m[k]) <==> IsBlankOrComment(raw[k]) || ConditionalDepthChange(raw[k]) != 0
    {
      LineOnText(raw, k);
    }
    forall k: nat | end <= k < |raw| ensures Headerless(raw, end, k) <==> k < e {
      if k >= e {
        assert IsSectionHeaderLine(raw[e]);
      }
    }
  }

  lemma NextHeaderHeads(m: seq<Line>, k: nat)
    requires k <= |m|
    ensures NextHeader(m, k) < |m| ==> m[NextHeader(m, k)].Heads()
  {
  }

  /** Every selected section of the tree is clear behind its end. */
  ghost predicate AllClear(raw: seq<string>, root: seq<Block>, select: (string, string) -> bool) {
    forall s <- SectionsOf(root) :: SelectedSection(s, select) ==> ClearOnText(raw, StandsOn(s).end)
  }

  /** What the acceptance of a removal comes down to on the text. */
  lemma AcceptsOnText(raw: seq<string>, select: (string, string) -> bool)
    requires Parse(raw).Success? && InertBodies(raw)
    ensures CollectedRanges(Label(raw), select).Success? <==> AllClear(raw, Parse(raw).value, select)
  {
    hide Parse, Masked, Label, SectionsOf, InertBodies, ClearBehind, ClearOnText, Selected, CollectedRanges, StandsOn;
    AcceptsRemoval(raw, select);
    forall s | s in SectionsOf(Parse(raw).value) && SelectedSection(s, select)
      ensures ClearBehind(Masked(raw), s) <==> ClearOnText(raw, StandsOn(s).end)
    {
      SectionBeforeHeader(raw, s);
      ClearIsClearOnText(raw, s);
    }
  }

  lemma SectionBeforeHeader(raw: seq<string>, s: Block)
    requires Parse(raw).Success? && s in SectionsOf(Parse(raw).value) && s.Section? && s.header.Some?
    ensures var m, h := Masked(raw), s.header.value.no;
            |m| == |raw| && h < |raw| && h < StandsOn(s).end <= NextHeader(m, h + 1)
  {
    hide Parse, Masked, SectionsOf, ExtentFrom, ExtentOk, IsExtent, NextHeader;
    var m, h := Masked(raw), s.header.value.no;
    MaskedInOrder(raw);
    ParsedExtents(raw);
    StandsOnExtent(m, s, h);
    ExtentOkHeader(m, s);
    SectionBounds(m, h, ExtentFrom(m, h + 1));
    ExtentBeforeNextHeader(m, h, ExtentFrom(m, h + 1));
  }
}
