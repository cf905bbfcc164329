/** The line-oriented engine and the tree engine remove the same lines. */
module EnginesAgree {
  import opened Wrappers
  import opened Lines
  import opened Scanning
  import opened Conditionals
  import opened Tree
  import opened Grammar
  import opened Parser
  import opened TreeParser
  import opened TreeBuilder
  import opened Removal
  import opened Reparse
  import opened Ranges
  import opened RangeSoundness
  import opened StructureKept

  // ---------------------------------------------------------------- extents, on lines

  /** Where a section that runs through line k ends, read off the file alone: at a header, at
      the end of the branch it is in, or at a conditional that wraps sections. */
  function ExtentFrom(m: seq<Line>, k: nat): (x: nat)
    requires k <= |m|
    ensures k <= x <= |m|
    decreases |m| - k
  {
    if k == |m| || m[k].Heads() || m[k].Closes() || m[k].Branches() then k
    else if m[k].Opens() then
      var c := CloseOf(m, k);
      if c == |m| then |m| else if HasHeader(m[k + 1..c]) then k else ExtentFrom(m, c + 1)
    else ExtentFrom(m, k + 1)
  }

  /** Line b ends a branch of the conditional opened at some line before a, or is the end. */
  ghost predicate EndsBranch(m: seq<Line>, a: nat, b: nat) {
    b == |m| || (b < |m| && exists i: nat :: i < a && BranchEnd(m, i, b))
  }

  ghost predicate BranchEnd(m: seq<Line>, i: nat, b: nat)
    requires b < |m|
  {
    i < b && m[i].Opens() && b <= CloseOf(m, i) < |m| && (m[b].Branches() || (m[b].Closes() && CloseOf(m, i) == b))
  }

  ghost predicate StopsAt(m: seq<Line>, h: nat, x: nat) {
    || EndsBranch(m, h, x)
    || (x < |m| && m[x].Heads())
    || (x < |m| && m[x].Opens() && CloseOf(m, x) < |m| && HasHeader(m[x + 1..CloseOf(m, x)]))
  }

  /** In a balanced range that ends a branch, the section scan stops where the file says. */
  lemma {:induction false} ExtentIsSectionEnd(m: seq<Line>, a: nat, k: nat, b: nat)
    requires k <= b <= |m| && Balanced(m[k..b]) && (b < |m| ==> m[b].Closes() || m[b].Branches())
    requires a <= k && EndsBranch(m, a, b)
    ensures var x := k + SectionEnd(m[k..b]);
            && x == ExtentFrom(m, k) && x <= b && StopsAt(m, a, x)
    decreases b - k
  {
    hide Balanced, CloseOf, HasHeader, SectionEnd, EndsBranch;
    if k == b {
      SectionEndNone(m[k..b]);
    } else {
      SectionEndStep(m, k, b);
      FirstOfBalanced(m, k, b);
      if m[k].Opens() {
        if !HasHeader(m[k + 1..CloseOf(m, k)]) {
          ExtentIsSectionEnd(m, a, CloseOf(m, k) + 1, b);
        }
      } else if !m[k].Heads() {
        ExtentIsSectionEnd(m, a, k + 1, b);
      }
    }
  }

  lemma SectionEndNone(ls: seq<Line>)
    requires ls == []
    ensures SectionEnd(ls) == 0
  {
  }

  // ---------------------------------------------------------------- extents of tree sections

  /** A tree section between lines a and b: exactly the lines of its extent. */
  ghost predicate ExtentOk(m: seq<Line>, a: nat, b: nat, s: Block) {
    && s.Section? && s.header.Some?
    && var h := s.header.value.no;
       && a <= h < b <= |m| && m[h] == s.header.value && m[h].Heads()
       && var x := ExtentFrom(m, h + 1);
          && x <= b && SerializeBlock(s) == m[h..x] && StopsAt(m, h, x)
          && Balanced(m[h + 1..x]) && !HasHeader(m[h + 1..x])
  }

  ghost predicate AllExtentsOk(m: seq<Line>, a: nat, b: nat, ss: seq<Block>) {
    forall s <- ss :: ExtentOk(m, a, b, s)
  }

  lemma ExtentsConcat(m: seq<Line>, a: nat, b: nat, a1: nat, b1: nat, xs: seq<Block>, a2: nat, b2: nat, ys: seq<Block>)
    requires a <= a1 && b1 <= b <= |m| && a <= a2 && b2 <= b
    requires AllExtentsOk(m, a1, b1, xs) && AllExtentsOk(m, a2, b2, ys)
    ensures AllExtentsOk(m, a, b, xs + ys)
  {
    hide ExtentFrom, StopsAt, Balanced, HasHeader, SerializeBlock;
    forall s | s in xs + ys ensures ExtentOk(m, a, b, s) {
      assert s in xs || s in ys;
    }
  }

  lemma NoExtents(m: seq<Line>, a: nat, b: nat)
    ensures AllExtentsOk(m, a, b, [])
  {
  }

  lemma EndsLater(m: seq<Line>, a: nat, e: nat, b: nat)
    requires a <= e && EndsBranch(m, a, b)
    ensures EndsBranch(m, e, b)
  {
    hide CloseOf;
  }

  lemma SectionsOfCons(b: Block, bs: seq<Block>)
    ensures SectionsOf([b] + bs) == SectionsIn(b) + SectionsOf(bs)
  {
    assert ([b] + bs)[1..] == bs;
  }

  lemma {:induction false} SectionExtents(m: seq<Line>, a: nat, b: nat)
    requires Shaped(m) && LabelledInOrder(m) && Buildable(m, a, b) && EndsBranch(m, a, b)
    ensures AllExtentsOk(m, a, b, SectionsOf(Build(m[a..b])))
    decreases b - a, 1
  {
    hide Shaped, Balanced, Build, EndsBranch, SectionEnd, CloseOf, BuildCond, AllExtentsOk, Buildable, SectionsOf,
      SectionsIn, BranchBody;
    BuildableBounds(m, a, b);
    if a == b {
      BuildNothing(m, b);
      NoSectionsInNothing();
      NoExtents(m, a, b);
    } else if m[a].Heads() {
      var e := HeaderExtent(m, a, b);
      EndsLater(m, a, e, b);
      SectionExtents(m, e, b);
      var s := Section(Some(m[a]), Build(m[a + 1..e]));
      SectionsOfCons(s, Build(m[e..b]));
      ExtentsConcat(m, a, b, a, b, SectionsIn(s), e, b, SectionsOf(Build(m[e..b])));
    } else if m[a].Opens() {
      OpenerRange(m, a, b);
      BuildableBalanced(m, a, b);
      BuildAtOpener(m, a, b);
      var c := CloseOf(m, a);
      CondExtents(m, a, m[a], a + 1, c, Some(m[c]));
      EndsLater(m, a, c + 1, b);
      SectionExtents(m, c + 1, b);
      var cond := BuildCond(m[a], m[a + 1..c], Some(m[c]));
      SectionsOfCons(cond, Build(m[c + 1..b]));
      ExtentsConcat(m, a, b, a + 1, c, SectionsIn(cond), c + 1, b, SectionsOf(Build(m[c + 1..b])));
    } else {
      var e := LeafEnd(m, a, b);
      EndsLater(m, a, e, b);
      SectionExtents(m, e, b);
      NoExtents(m, a, b);
      ExtentsConcat(m, a, b, a, b, [], e, b, SectionsOf(Build(m[e..b])));
      assert [] + SectionsOf(Build(m[e..b])) == SectionsOf(Build(m[e..b]));
    }
  }

  lemma BuildNothing(m: seq<Line>, b: nat)
    requires b <= |m|
    ensures Build(m[b..b]) == []
  {
  }

  lemma NoSectionsInNothing()
    ensures SectionsOf([]) == []
  {
  }

  /** A section in a range: its block, and where the rest starts. */
  lemma HeaderExtent(m: seq<Line>, a: nat, b: nat) returns (e: nat)
    requires Shaped(m) && LabelledInOrder(m) && a < b && Buildable(m, a, b) && EndsBranch(m, a, b) && m[a].Heads()
    ensures a < e <= b && Buildable(m, e, b)
    ensures var s := Section(Some(m[a]), Build(m[a + 1..e]));
            Build(m[a..b]) == [s] + Build(m[e..b]) && AllExtentsOk(m, a, b, SectionsIn(s))
  {
    hide Shaped, Balanced, Build, EndsBranch, SectionEnd, CloseOf, Buildable, StopsAt, ExtentFrom, HasHeader;
    BuildableBounds(m, a, b);
    HeaderRange(m, a, b);
    e := a + 1 + SectionEnd(m[a + 1..b]);
    BuildAtHeader(m, a, b);
    BranchEnds(m, a, b);
    ExtentIsSectionEnd(m, a, a + 1, b);
    BuildableBalanced(m, a + 1, e);
    var content := m[a + 1..e];
    ContentShaped(m, a + 1, e);
    BuildWellFormed(content);
    NoHeaderNoSection(content);
    SerializeBuild(content);
    var s := Section(Some(m[a]), Build(content));
    assert SerializeBlock(s) == [m[a]] + content == m[a..e];
    assert SectionsIn(s) == [s] + [] == [s];
    assert ExtentOk(m, a, b, s);
  }

  lemma BranchEnds(m: seq<Line>, a: nat, b: nat)
    requires EndsBranch(m, a, b)
    ensures b < |m| ==> m[b].Closes() || m[b].Branches()
  {
    hide CloseOf;
  }

  lemma ContentShaped(m: seq<Line>, a: nat, b: nat)
    requires Shaped(m) && Buildable(m, a, b)
    ensures Shaped(m[a..b])
  {
    hide Shaped, Balanced;
    ShapedSlice(m, a, b);
  }

  /** A macro or text block holds no section. */
  lemma LeafEnd(m: seq<Line>, a: nat, b: nat) returns (e: nat)
    requires Shaped(m) && a < b && Buildable(m, a, b) && !m[a].Heads() && !m[a].Opens()
    ensures a < e <= b && Buildable(m, e, b) && SectionsOf(Build(m[a..b])) == SectionsOf(Build(m[e..b]))
  {
    hide Shaped, Balanced, Build, Buildable, TextRun, BodyRun, SectionsOf;
    BuildableBounds(m, a, b);
    var leaf: Block;
    if m[a].Defines() {
      e := MacroEnd(m, a, b);
      leaf := Macro(m[a..e]);
    } else {
      e := TextEnd(m, a, b);
      leaf := Text(m[a..e]);
    }
    SectionsOfCons(leaf, Build(m[e..b]));
    assert [] + SectionsOf(Build(m[e..b])) == SectionsOf(Build(m[e..b]));
  }

  lemma MacroEnd(m: seq<Line>, a: nat, b: nat) returns (e: nat)
    requires a < b && Buildable(m, a, b) && m[a].Defines()
    ensures a < e <= b && Buildable(m, e, b) && Build(m[a..b]) == [Macro(m[a..e])] + Build(m[e..b])
  {
    hide Balanced, Build;
    var n := BodyRun(m[a + 1..b]);
    e := a + 1 + n;
    forall k | a < k < e ensures m[k].inBody {
      assert m[a + 1..b][k - a - 1] == m[k];
    }
    if e < b {
      assert m[a + 1..b][n] == m[e];
    }
    InertRange(m, a, e, b);
    BuildAtMacro(m, a, b, e);
  }

  lemma TextEnd(m: seq<Line>, a: nat, b: nat) returns (e: nat)
    requires Shaped(m) && a < b && Buildable(m, a, b) && IsText(m[a])
    ensures a < e <= b && Buildable(m, e, b) && Build(m[a..b]) == [Text(m[a..e])] + Build(m[e..b])
  {
    hide Shaped, Balanced, Build, BodyRun;
    var r := m[a..b];
    assert r[0] == m[a];
    e := a + TextRun(r);
    ContentShaped(m, a, b);
    TextRunPlain(r);
    TextRunStops(r);
    assert r[..e - a] == m[a..e];
    forall k | a <= k < e ensures m[k].Plain() {
      assert m[a..e][k - a] == m[k];
    }
    if e < b {
      assert r[e - a] == m[e];
    }
    ShapedNext(m, e - 1);
    InertRange(m, a, e, b);
    BuildAtText(m, a, b, e);
  }

  lemma {:induction false} CondExtents(m: seq<Line>, i: nat, opener: Line, start: nat, end: nat, endif: Option<Line>)
    requires Shaped(m) && LabelledInOrder(m)
    requires i < start <= end < |m| && m[i].Opens() && CloseOf(m, i) == end && m[end].Closes() && !m[start].inBody
    requires BranchBody(m[start..end], Frame(opener.no, None))
    ensures AllExtentsOk(m, start, end, SectionsIn(BuildCond(opener, m[start..end], endif)))
    decreases end - start, 2
  {
    hide Shaped, Balanced, Build, EndsBranch, CloseOf, BuildCond, BranchAt, AllExtentsOk, Buildable, SectionsOf,
      BranchBody;
    BranchRanges(m, Frame(opener.no, None), start, end);
    BuildCondCases(m, opener, endif, start, end);
    var n := start + BranchAt(m[start..end], 0);
    BranchEndsAt(m, i, start, n);
    SectionExtents(m, start, n);
    NoSectionsInNothing();
    NoExtents(m, start, end);
    if n == end {
      ExtentsConcat(m, start, end, start, n, SectionsOf(Build(m[start..n])), start, end, []);
    } else if m[n].IsElif() {
      CondExtents(m, i, m[n], n + 1, end, None);
      var inner := BuildCond(m[n], m[n + 1..end], None);
      SectionsOne(inner);
      ExtentsConcat(m, start, end, start, n, SectionsOf(Build(m[start..n])), n + 1, end, SectionsIn(inner));
    } else {
      BranchEndsAt(m, i, n + 1, end);
      SectionExtents(m, n + 1, end);
      ExtentsConcat(m, start, end, start, n, SectionsOf(Build(m[start..n])), n + 1, end,
        SectionsOf(Build(m[n + 1..end])));
    }
  }

  lemma BranchEndsAt(m: seq<Line>, i: nat, a: nat, b: nat)
    requires i < a <= b < |m| && m[i].Opens() && b <= CloseOf(m, i) < |m|
    requires m[b].Branches() || (m[b].Closes() && CloseOf(m, i) == b)
    ensures EndsBranch(m, a, b)
  {
    assert BranchEnd(m, i, b);
  }

  // ---------------------------------------------------------------- balanced lines and pairs

  /** A conditional opened in balanced lines is closed in them. */
  lemma ClosedInBalanced(m: seq<Line>, a: nat, b: nat, x: nat)
    requires a <= x < b <= |m| && Balanced(m[a..b]) && m[x].Opens()
    ensures CloseOf(m, x) < b
  {
    hide CloseAt, CloseOf;
    var before, after := m[a..x], m[x + 1..b];
    assert m[a..b] == before + ([m[x]] + after);
    RunConcat(before, [m[x]] + after, []);
    var t := RunFrames(before, []).value;
    assert ([m[x]] + after)[1..] == after;
    var t' := t + [Frame(m[x].no, None)];
    assert RunFrames(after, t') == Success([]);
    RunToClose(after, t');
    CloseAtGrows(after, 1, |t'|);
    CloseSameInRange(m, x, b);
  }

  /** A conditional still open before balanced lines is not closed in them. */
  lemma NotClosedInBalanced(m: seq<Line>, a: nat, b: nat, i: nat)
    requires i < a <= b <= |m| && Balanced(m[a..b]) && a <= CloseOf(m, i)
    ensures b <= CloseOf(m, i)
  {
    hide CloseAt, CloseOf;
    var d := StillOpen(m, i, a);
    assert m[a..] == m[a..b] + m[b..];
    CloseOverRun(m[a..b], m[b..], [], d);
  }

  // ---------------------------------------------------------------- the balanced range is the extent

  /** A section header, the next header, and the section's extent in between. */
  ghost predicate IsExtent(m: seq<Line>, h: nat, x: nat) {
    && h < x <= |m| && m[h].Heads() && x == ExtentFrom(m, h + 1) && StopsAt(m, h, x)
    && Balanced(m[h + 1..x]) && !HasHeader(m[h + 1..x])
  }

  lemma ExtentBeforeNextHeader(m: seq<Line>, h: nat, x: nat)
    requires IsExtent(m, h, x)
    ensures x <= NextHeader(m, h + 1)
  {
    hide ExtentFrom, StopsAt, Balanced;
    forall k | h + 1 <= k < x
      ensures !m[k].Heads()
    {
      assert m[h + 1..x][k - h - 1] == m[k];
    }
  }

  /** No half of a cut conditional lies before the end of the extent. */
  lemma NothingCutBefore(m: seq<Line>, pairs: seq<Pair>, h: nat, x: nat, p: Pair)
    requires IsExtent(m, h, x) && ExactPairs(m, pairs) && p in pairs
    requires Straddles(p, Range(h, NextHeader(m, h + 1)))
    ensures InsideLine(p, Range(h, NextHeader(m, h + 1))) >= x
  {
    hide ExtentFrom, StopsAt, Balanced, CloseOf, NextHeader, HasHeader;
    ExtentBeforeNextHeader(m, h, x);
    CloserLine(m, p);
    if h < p.ifLine < x {
      ClosedInBalanced(m, h + 1, x, p.ifLine);
    }
    if p.ifLine < h < p.endifLine {
      NotClosedInBalanced(m, h + 1, x, p.ifLine);
    }
  }

  /** The line that ends an extent early is half of a cut conditional. */
  lemma CutAtExtent(m: seq<Line>, pairs: seq<Pair>, h: nat, x: nat)
    requires IsExtent(m, h, x) && ExactPairs(m, pairs) && x < NextHeader(m, h + 1)
    requires NoOuterBranch(Range(h, NextHeader(m, h + 1)), m, pairs)
    ensures exists p <- pairs ::
              Straddles(p, Range(h, NextHeader(m, h + 1))) && InsideLine(p, Range(h, NextHeader(m, h + 1))) == x
  {
    hide ExtentFrom, Balanced, CloseOf, HasHeader, NextHeader, ExactPairs, NoOuterBranch;
    var e := NextHeader(m, h + 1);
    NextHeaderFacts(m, h + 1);
    if m[x].Opens() {
      StopsAtOpener(m, h, x);
      HeaderInside(m, x, e, h);
      OpenerPair(m, pairs, x);
      var p := Pair(x, CloseOf(m, x));
      assert Straddles(p, Range(h, e)) && InsideLine(p, Range(h, e)) == x;
    } else {
      var i: nat :| i < h && BranchEnd(m, i, x);
      OpenerPair(m, pairs, i);
      var p := Pair(i, CloseOf(m, i));
      if m[x].Branches() {
        BranchHeldOutside(m, pairs, h, x, p);
      }
      assert Straddles(p, Range(h, e)) && InsideLine(p, Range(h, e)) == x;
    }
  }

  lemma NextHeaderFacts(m: seq<Line>, k: nat)
    requires k <= |m|
    ensures var e := NextHeader(m, k);
            k <= e <= |m| && (forall j :: k <= j < e ==> !m[j].Heads())
  {
  }

  lemma StopsAtOpener(m: seq<Line>, h: nat, x: nat)
    requires x < |m| && m[x].Opens() && StopsAt(m, h, x)
    ensures CloseOf(m, x) < |m| && HasHeader(m[x + 1..CloseOf(m, x)])
  {
    hide CloseOf, HasHeader;
  }

  lemma OpenerPair(m: seq<Line>, pairs: seq<Pair>, i: nat)
    requires ExactPairs(m, pairs) && i < |m| && m[i].Opens()
    ensures Pair(i, CloseOf(m, i)) in pairs
  {
    hide CloseOf;
  }

  /** A header inside a conditional that starts before the next header lies behind it. */
  lemma HeaderInside(m: seq<Line>, x: nat, e: nat, h: nat)
    requires h < x < e <= |m| && CloseOf(m, x) < |m| && HasHeader(m[x + 1..CloseOf(m, x)])
    requires forall k :: h + 1 <= k < e ==> !m[k].Heads()
    ensures e < CloseOf(m, x)
  {
    hide CloseOf;
    var c := CloseOf(m, x);
    var l :| l in m[x + 1..c] && l.Heads();
    var i :| 0 <= i < c - x - 1 && m[x + 1..c][i] == l;
    assert m[x + 1 + i].Heads();
  }

  /** A branch at the end of an extent would belong to a conditional around the section. */
  lemma BranchHeldOutside(m: seq<Line>, pairs: seq<Pair>, h: nat, x: nat, p: Pair)
    requires IsExtent(m, h, x) && ExactPairs(m, pairs) && x < NextHeader(m, h + 1) && m[x].Branches()
    requires p in pairs && p.ifLine < h && x <= p.endifLine
    ensures !NoOuterBranch(Range(h, NextHeader(m, h + 1)), m, pairs)
  {
    hide ExtentFrom, StopsAt, Balanced, CloseOf, NextHeader, HasHeader;
    var r := Range(h, NextHeader(m, h + 1));
    FirstEnclosingFacts(pairs, x);
    var q := FirstEnclosing(pairs, x).value;
    if h < q.ifLine < x {
      ClosedInBalanced(m, h + 1, x, q.ifLine);
    }
    assert !BranchStays(r, pairs, x);
  }

  lemma BalancedIsExtent(m: seq<Line>, pairs: seq<Pair>, h: nat, x: nat)
    requires IsExtent(m, h, x) && ExactPairs(m, pairs)
    requires NextHeader(m, h + 1) <= |m| && Balance(Range(h, NextHeader(m, h + 1)), m, pairs).Success?
    ensures Balance(Range(h, NextHeader(m, h + 1)), m, pairs).value == Range(h, x)
  {
    hide IsExtent, ExactPairs, NextHeader, Trimmed, NoContentAfter, NoOuterBranch;
    var r := Range(h, NextHeader(m, h + 1));
    ExtentBeforeNextHeader(m, h, x);
    SectionBounds(m, h, x);
    TrimmedFacts(r, pairs);
    if x < r.end {
      CutAtExtent(m, pairs, h, x);
    }
    if Trimmed(r, pairs) < r.end {
      var p :| p in pairs && Straddles(p, r) && InsideLine(p, r) == Trimmed(r, pairs);
      NothingCutBefore(m, pairs, h, x, p);
    }
  }

  lemma SectionBounds(m: seq<Line>, h: nat, x: nat)
    requires IsExtent(m, h, x)
    ensures h < x <= |m|
  {
  }

  // ---------------------------------------------------------------- the theorem

  /** No line of a macro body looks like a conditional directive or a section header. */
  predicate InertBodies(raw: seq<string>) {
    forall l <- Masked(raw) :: l.inBody ==> l.kind.Content? || l.kind.MacroDefinition?
  }

  /** Lines that read the same for the line-oriented engine. */
  predicate ReadsAlike(ls: seq<Line>, ms: seq<Line>) {
    && |ls| == |ms|
    && forall i :: 0 <= i < |ls| ==>
         && ls[i].no == ms[i].no && ls[i].kind == ms[i].kind && ls[i].Opens() == ms[i].Opens()
            && ls[i].Closes() == ms[i].Closes()
         && ls[i].Branches() == ms[i].Branches() && ls[i].Heads() == ms[i].Heads()
  }

  lemma InertReadsAlike(raw: seq<string>)
    requires InertBodies(raw)
    ensures ReadsAlike(Label(raw), Masked(raw))
  {
    hide Mask, Classify;
    var ls, ms := Label(raw), Masked(raw);
    forall i | 0 <= i < |ls|
      ensures ls[i].no == ms[i].no && ls[i].kind == ms[i].kind && ls[i].Opens() == ms[i].Opens()
              && ls[i].Closes() == ms[i].Closes()
      ensures ls[i].Branches() == ms[i].Branches() && ls[i].Heads() == ms[i].Heads()
    {
      assert ms[i] in ms && ms[i] == ls[i].(inBody := ms[i].inBody);
    }
  }

  lemma {:induction false} SamePairs(ls: seq<Line>, ms: seq<Line>, stack: seq<nat>)
    requires ReadsAlike(ls, ms)
    ensures RunPairs(ls, stack) == RunPairs(ms, stack)
  {
    if ls != [] {
      SamePairs(ls[1..], ms[1..],
                if ls[0].Opens() then stack + [ls[0].no]
                else if ls[0].Closes() && stack != [] then stack[..|stack| - 1] else stack);
    }
  }

  lemma {:induction false} SameNextHeader(ls: seq<Line>, ms: seq<Line>, i: nat)
    requires ReadsAlike(ls, ms) && i <= |ls|
    ensures NextHeader(ls, i) == NextHeader(ms, i)
    decreases |ls| - i
  {
    if i < |ls| {
      SameNextHeader(ls, ms, i + 1);
    }
  }

  lemma {:induction false} SameSectionRanges(ls: seq<Line>, ms: seq<Line>, i: nat, select: (string, string) -> bool)
    requires ReadsAlike(ls, ms) && i <= |ls|
    ensures SectionRanges(ls, i, select) == SectionRanges(ms, i, select)
    decreases |ls| - i
  {
    if i < |ls| {
      SameNextHeader(ls, ms, i + 1);
      SameSectionRanges(ls, ms, i + 1, select);
    }
  }

  lemma SameBalance(ls: seq<Line>, ms: seq<Line>, pairs: seq<Pair>, r: Range)
    requires ReadsAlike(ls, ms) && r.end <= |ls|
    ensures Balance(r, ls, pairs) == Balance(r, ms, pairs)
  {
    forall k | -1 <= k ensures NoContentAfter(ls, k, r.end) == NoContentAfter(ms, k, r.end) {
    }
    assert NoOuterBranch(r, ls, pairs) == NoOuterBranch(r, ms, pairs);
  }

  lemma {:induction false} SameBalances(ls: seq<Line>, ms: seq<Line>, pairs: seq<Pair>, ranges: seq<Range>)
    requires ReadsAlike(ls, ms) && forall r <- ranges :: r.end <= |ls|
    ensures BalanceAll(ranges, ls, pairs) == BalanceAll(ranges, ms, pairs)
  {
    hide Balance, ReadsAlike;
    if ranges != [] {
      assert ranges[0].end <= |ls|;
      SameBalance(ls, ms, pairs, ranges[0]);
      SameBalances(ls, ms, pairs, ranges[1..]);
    }
  }

  /** The line-oriented engine, which does not look for macro bodies, collects the same ranges as
      if it did. */
  lemma SameRanges(raw: seq<string>, select: (string, string) -> bool)
    requires InertBodies(raw)
    ensures CollectedRanges(Label(raw), select) == CollectedRanges(Masked(raw), select)
  {
    hide Masked, RunPairs, SectionRanges, Balance, ReadsAlike, InertBodies;
    var ls, ms := Label(raw), Masked(raw);
    InertReadsAlike(raw);
    SameSectionRanges(ls, ms, 0, select);
    SamePairs(ls, ms, []);
    SectionRangesBounds(ls, 0, select);
    if ConditionalPairs(ls).Success? {
      SameBalances(ls, ms, ConditionalPairs(ls).value, SectionRanges(ls, 0, select));
    }
  }

  predicate SelectedSection(s: Block, select: (string, string) -> bool) {
    s.Section? && s.header.Some? && Selected(s.header.value, select)
  }

  function SelectedLabels(ss: seq<Block>, select: (string, string) -> bool): set<nat> {
    set s | s in ss && SelectedSection(s, select) :: s.header.value.no
  }

  /** The lines a section of the tree stands on. */
  function StandsOn(s: Block): Range
    requires s.Section? && s.header.Some?
  {
    Range(s.header.value.no, s.header.value.no + |SerializeBlock(s)|)
  }

  lemma MaskedInOrder(raw: seq<string>)
    ensures LabelledInOrder(Masked(raw)) && |Masked(raw)| == |raw|
  {
    hide Masked, ModeEnd, Lexed, Shaped;
    MaskedFacts(raw);
    MaskedSize(raw);
  }

  /** Every section of a parsed tree stands exactly on its extent. */
  lemma ParsedExtents(raw: seq<string>)
    requires Parse(raw).Success?
    ensures var m := Masked(raw);
            forall s <- SectionsOf(Parse(raw).value) :: s.Section? && (s.header.Some? ==> ExtentOk(m, 0, |m|, s))
  {
    hide Masked, Build, SectionsOf, ExtentOk, WrapPreamble;
    var m := Masked(raw);
    FileExtents(raw);
    var bs := Build(m);
    WrapSections(bs);
    forall s | s in SectionsOf(WrapPreamble(bs)) ensures s.Section? && (s.header.Some? ==> ExtentOk(m, 0, |m|, s)) {
      if s in SectionsOf(bs) {
        ExtentOkSection(m, s);
      }
    }
  }

  lemma ExtentOkSection(m: seq<Line>, s: Block)
    requires ExtentOk(m, 0, |m|, s)
    ensures s.Section?
  {
  }

  lemma FileExtents(raw: seq<string>)
    requires Matching(Masked(raw)).Success?
    ensures var m := Masked(raw);
            forall s <- SectionsOf(Build(m)) :: ExtentOk(m, 0, |m|, s)
  {
    hide Masked, Build, SectionsOf, ExtentOk, Matching, Shaped, Buildable, LeftOpen, EndsInMacro, Lexed, ModeEnd;
    var m := Masked(raw);
    MaskedFacts(raw);
    MaskedSize(raw);
    WholeFile(raw);
    assert m[0..|m|] == m;
    SectionExtents(m, 0, |m|);
  }

  lemma MaskedSize(raw: seq<string>)
    ensures |Masked(raw)| == |raw|
  {
  }

  lemma WrapSections(bs: seq<Block>)
    ensures SectionsOf(WrapPreamble(bs)) == [Section(None, bs[..PreambleEnd(bs)])] + SectionsOf(bs)
  {
    hide SectionsOf;
    var n := PreambleEnd(bs);
    var pre := Section(None, bs[..n]);
    NoSectionsPrefix(bs, n);
    assert bs == bs[..n] + bs[n..];
    SectionsOfConcat(bs[..n], bs[n..]);
    SectionsOfCons(pre, bs[n..]);
    assert SectionsIn(pre) == [pre] + [] == [pre];
    assert [] + SectionsOf(bs[n..]) == SectionsOf(bs[n..]);
  }

  /** Each header of the lines has its section in the tree. */
  lemma {:induction false} HeaderHasSection(ss: seq<Block>, l: Line)
    requires l in HeadersOf(ss)
    ensures exists s <- ss :: s.Section? && s.header == Some(l)
  {
    if ss[0].Section? && ss[0].header == Some(l) {
      assert ss[0] in ss;
    } else {
      HeaderHasSection(ss[1..], l);
      var s :| s in ss[1..] && s.Section? && s.header == Some(l);
      assert s in ss;
    }
  }

  lemma {:induction false} HeadIsIn(ls: seq<Line>, i: nat)
    requires i < |ls| && ls[i].Heads()
    ensures ls[i] in HeadsOf(ls)
  {
    if i > 0 {
      HeadIsIn(ls[1..], i - 1);
    }
  }

  /** The section of the tree that starts at a header line. */
  lemma SectionStartingAt(raw: seq<string>, h: nat) returns (s: Block)
    requires Parse(raw).Success? && h < |Masked(raw)| && Masked(raw)[h].Heads()
    ensures s in SectionsOf(Parse(raw).value) && s.Section? && s.header == Some(Masked(raw)[h])
  {
    hide Masked, Parse, SectionsOf, HeadersOf, HeadsOf;
    HeadIsIn(Masked(raw), h);
    ParsedSections(raw);
    HeaderHasSection(SectionsOf(Parse(raw).value), Masked(raw)[h]);
    s :| s in SectionsOf(Parse(raw).value) && s.Section? && s.header == Some(Masked(raw)[h]);
  }

  lemma {:induction false} RangeOfHeader(ls: seq<Line>, i: nat, h: nat, select: (string, string) -> bool)
    requires i <= h < |ls| && Selected(ls[h], select)
    ensures Range(h, NextHeader(ls, h + 1)) in SectionRanges(ls, i, select)
    decreases h - i
  {
    if i < h {
      RangeOfHeader(ls, i + 1, h, select);
    }
  }

  /** Balanced one by one, in the same places. */
  lemma {:induction false} BalanceAllAt(ranges: seq<Range>, ls: seq<Line>, pairs: seq<Pair>)
    requires (forall r <- ranges :: r.end <= |ls|) && BalanceAll(ranges, ls, pairs).Success?
    ensures var bs := BalanceAll(ranges, ls, pairs).value;
            && |bs| == |ranges|
            && forall i :: 0 <= i < |bs| ==> Balance(ranges[i], ls, pairs) == Success(bs[i])
  {
    hide Balance;
    if ranges != [] {
      assert ranges[0].end <= |ls|;
      BalanceAllAt(ranges[1..], ls, pairs);
    }
  }

  /** What each collected range comes from: the balanced range of a selected header. */
  lemma CollectedOrigins(m: seq<Line>, select: (string, string) -> bool) returns (found: seq<Range>, pairs: seq<Pair>)
    requires LabelledInOrder(m) && CollectedRanges(m, select).Success?
    ensures found == SectionRanges(m, 0, select) && |CollectedRanges(m, select).value| == |found|
    ensures found != [] ==> ExactPairs(m, pairs)
    ensures forall i :: 0 <= i < |found| ==>
              var r := found[i];
              && r.start < r.end <= |m| && Selected(m[r.start], select)
                 && r == Range(r.start, NextHeader(m, r.start + 1))
              && Balance(r, m, pairs) == Success(CollectedRanges(m, select).value[i])
  {
    hide RunPairs, Balance, NextHeader, ExactPairs, SectionRanges, Selected;
    found := SectionRanges(m, 0, select);
    SectionRangesBounds(m, 0, select);
    forall i | 0 <= i < |found| ensures found[i] == Range(found[i].start, NextHeader(m, found[i].start + 1)) {
      assert found[i] in found;
    }
    if found != [] {
      pairs := ConditionalPairs(m).value;
      PairsAreExact(m);
      BalanceAllAt(found, m, pairs);
    } else {
      pairs := [];
    }
  }

  /** The section of the tree at a header stands on the header's range, once balanced. */
  lemma BalancedIsSection(raw: seq<string>, pairs: seq<Pair>, h: nat, s: Block)
    requires Parse(raw).Success? && h < |raw|
    requires ExactPairs(Masked(raw), pairs)
             && Balance(Range(h, NextHeader(Masked(raw), h + 1)), Masked(raw), pairs).Success?
    requires s in SectionsOf(Parse(raw).value) && s.Section? && s.header.Some? && s.header.value.no == h
    ensures Balance(Range(h, NextHeader(Masked(raw), h + 1)), Masked(raw), pairs).value == StandsOn(s)
  {
    hide Parse, Masked, SectionsOf, Balance, SerializeBlock, ExtentFrom, NextHeader, ExactPairs, IsExtent, ExtentOk;
    MaskedInOrder(raw);
    var m := Masked(raw);
    ParsedExtents(raw);
    StandsOnExtent(m, s, h);
    BalancedIsExtent(m, pairs, h, ExtentFrom(m, h + 1));
  }

  /** Each range collected is where a selected section of the tree stands. */
  lemma RangeIsSection(raw: seq<string>, select: (string, string) -> bool, r: Range)
    requires Parse(raw).Success?
    requires CollectedRanges(Masked(raw), select).Success? && r in CollectedRanges(Masked(raw), select).value
    ensures exists s <- SectionsOf(Parse(raw).value) :: SelectedSection(s, select) && StandsOn(s) == r
  {
    hide Parse, Masked, SectionsOf, SectionRanges, Balance, SerializeBlock, NextHeader, ExactPairs, CollectedRanges,
      StandsOn, Selected;
    MaskedInOrder(raw);
    var m := Masked(raw);
    var found, pairs := CollectedOrigins(m, select);
    var i :| 0 <= i < |found| && CollectedRanges(m, select).value[i] == r;
    HeaderStands(raw, pairs, found[i].start, select);
  }

  lemma HeaderStands(raw: seq<string>, pairs: seq<Pair>, h: nat, select: (string, string) -> bool)
    requires Parse(raw).Success? && h < |raw| && Selected(Masked(raw)[h], select)
    requires ExactPairs(Masked(raw), pairs)
             && Balance(Range(h, NextHeader(Masked(raw), h + 1)), Masked(raw), pairs).Success?
    ensures exists s <- SectionsOf(Parse(raw).value) ::
              SelectedSection(s, select) && StandsOn(s)
                == Balance(Range(h, NextHeader(Masked(raw), h + 1)), Masked(raw), pairs).value
  {
    hide Parse, Masked, SectionsOf, Balance, SerializeBlock, NextHeader, ExactPairs, StandsOn, Selected;
    MaskedInOrder(raw);
    SelectedHeads(Masked(raw)[h], select);
    var s := SectionStartingAt(raw, h);
    BalancedIsSection(raw, pairs, h, s);
    assert SelectedSection(s, select);
  }

  lemma SelectedHeads(l: Line, select: (string, string) -> bool)
    requires Selected(l, select)
    ensures l.Heads()
  {
  }

  lemma StandsOnExtent(m: seq<Line>, s: Block, h: nat)
    requires ExtentOk(m, 0, |m|, s) && s.header.value.no == h
    ensures IsExtent(m, h, ExtentFrom(m, h + 1)) && StandsOn(s) == Range(h, ExtentFrom(m, h + 1))
  {
    hide ExtentFrom, StopsAt, Balanced, HasHeader;
  }

  /** Each selected section of the tree stands on a range collected. */
  lemma SectionIsRange(raw: seq<string>, select: (string, string) -> bool, s: Block)
    requires Parse(raw).Success?
    requires CollectedRanges(Masked(raw), select).Success?
    requires s in SectionsOf(Parse(raw).value) && SelectedSection(s, select)
    ensures StandsOn(s) in CollectedRanges(Masked(raw), select).value
  {
    hide Parse, Masked, SectionsOf, SectionRanges, Balance, SerializeBlock, NextHeader, ExactPairs, CollectedRanges,
      StandsOn, Selected, ExtentOk;
    MaskedInOrder(raw);
    var m := Masked(raw);
    ParsedExtents(raw);
    var h := s.header.value.no;
    ExtentOkHeader(m, s);
    RangeOfHeader(m, 0, h, select);
    var found, pairs := CollectedOrigins(m, select);
    var i :| 0 <= i < |found| && found[i] == Range(h, NextHeader(m, h + 1));
    MaskedSize(raw);
    BalancedIsSection(raw, pairs, h, s);
    assert CollectedRanges(m, select).value[i] == StandsOn(s);
  }

  lemma ExtentOkHeader(m: seq<Line>, s: Block)
    requires s.Section? && s.header.Some? && ExtentOk(m, 0, |m|, s)
    ensures s.header.value.no < |m| && m[s.header.value.no] == s.header.value
  {
  }

  lemma {:induction false} KeptIsKeep(ls: seq<Line>, k: nat, ranges: seq<Range>, dropped: set<nat>)
    requires LabelledInOrder(ls) && k <= |ls| && Ascending(ranges, |ls|) && (forall r <- ranges :: k <= r.start)
    requires Covers(dropped, k, ranges)
    ensures KeptFrom(ls, k, ranges) == Keep(ls[k..], dropped)
    decreases |ranges|
  {
    hide Ascending, Covers, Keep, KeptFrom;
    KeptUnfold(ls, k, ranges);
    if ranges == [] {
      NothingCovered(dropped, k);
      KeepAll(ls[k..], dropped);
    } else {
      var r := ranges[0];
      CoversRest(dropped, k, ranges, |ls|);
      KeptIsKeep(ls, r.end, ranges[1..], dropped);
      assert ls[k..] == ls[k..r.start] + (ls[r.start..r.end] + ls[r.end..]);
      KeepConcat(ls[k..r.start], ls[r.start..r.end] + ls[r.end..], dropped);
      KeepConcat(ls[r.start..r.end], ls[r.end..], dropped);
      KeepAll(ls[k..r.start], dropped);
      KeepNone(ls[r.start..r.end], dropped);
    }
  }

  lemma DroppedAgree(raw: seq<string>, select: (string, string) -> bool)
    requires Parse(raw).Success? && CollectedRanges(Masked(raw), select).Success?
    ensures var root := Parse(raw).value;
            DroppedBy(CollectedRanges(Masked(raw), select).value)
              == Dropped(root, SelectedLabels(SectionsOf(root), select))
  {
    hide Parse, Masked, SectionsOf, CollectedRanges, SerializeBlock, ExtentFrom, StopsAt, Balanced, HasHeader;
    var root := Parse(raw).value;
    var ss := SectionsOf(root);
    var doomed := SelectedLabels(ss, select);
    var ranges := CollectedRanges(Masked(raw), select).value;
    MaskedInOrder(raw);
    ParsedExtents(raw);
    forall n: nat
      ensures n in DroppedBy(ranges) <==> n in Dropped(root, doomed)
    {
      DroppedByHas(ranges, n);
      if n in DroppedBy(ranges) {
        var r :| r in ranges && r.Has(n);
        RangeIsSection(raw, select, r);
        var s :| s in ss && SelectedSection(s, select) && StandsOn(s) == r;
        LinesOfSection(Masked(raw), s, n);
        var l :| l in SerializeBlock(s) && l.no == n;
        assert IsRemoved(s, doomed);
      }
      if n in Dropped(root, doomed) {
        var s, l :| s in ss && IsRemoved(s, doomed) && l in SerializeBlock(s) && l.no == n;
        SameLabelSelected(Masked(raw), ss, s, select);
        SectionIsRange(raw, select, s);
        LinesOfSection(Masked(raw), s, n);
        assert StandsOn(s) in ranges && StandsOn(s).Has(n);
      }
    }
  }

  lemma LinesOfSection(m: seq<Line>, s: Block, n: nat)
    requires LabelledInOrder(m) && ExtentOk(m, 0, |m|, s)
    ensures StandsOn(s).Has(n) <==> exists l <- SerializeBlock(s) :: l.no == n
  {
    hide ExtentFrom, StopsAt, Balanced, HasHeader;
    var h := s.header.value.no;
    var lines := SerializeBlock(s);
    if StandsOn(s).Has(n) {
      assert lines[n - h] == m[n] && lines[n - h] in lines;
    }
    if l :| l in lines && l.no == n {
      var i :| 0 <= i < |lines| && lines[i] == l;
      assert lines[i] == m[h + i];
    }
  }

  lemma SameLabelSelected(m: seq<Line>, ss: seq<Block>, s: Block, select: (string, string) -> bool)
    requires forall t <- ss :: t.Section? && (t.header.Some? ==> ExtentOk(m, 0, |m|, t))
    requires s in ss && IsRemoved(s, SelectedLabels(ss, select))
    ensures SelectedSection(s, select)
  {
    hide ExtentFrom, StopsAt, Balanced, HasHeader, SerializeBlock;
    var t :| t in ss && SelectedSection(t, select) && t.header.value.no == s.header.value.no;
  }

  /** On a spec that parses and whose macro bodies hold nothing that looks like a directive or a
      header: if the line-oriented engine accepts a removal, its ranges are exactly where the
      selected sections of the tree stand, and it leaves exactly the lines that removing them from
      the tree leaves. */
  lemma TheEnginesAgree(raw: seq<string>, select: (string, string) -> bool)
    requires Parse(raw).Success? && InertBodies(raw) && CollectedRanges(Label(raw), select).Success?
    ensures var root := Parse(raw).value;
            var ss := SectionsOf(root);
            var ranges := CollectedRanges(Label(raw), select).value;
            && (forall r <- ranges :: exists s <- ss :: SelectedSection(s, select) && StandsOn(s) == r)
            && (forall s <- ss :: SelectedSection(s, select) ==> StandsOn(s) in ranges)
            && Ascending(ranges, |raw|)
            && WithoutRanges(raw, ranges) == Texts(Serialize(RemoveFrom(root, SelectedLabels(ss, select))))
  {
    hide Parse, Label, Masked, SectionsOf, CollectedRanges, Serialize, RemoveFrom, Ascending, Selected, StandsOn,
      SelectedLabels, WithoutRanges, Texts, InertBodies;
    SameRanges(raw, select);
    var root := Parse(raw).value;
    var ss := SectionsOf(root);
    var ranges := CollectedRanges(Masked(raw), select).value;
    forall r | r in ranges ensures exists s <- ss :: SelectedSection(s, select) && StandsOn(s) == r {
      RangeIsSection(raw, select, r);
    }
    forall s | s in ss && SelectedSection(s, select) ensures StandsOn(s) in ranges {
      SectionIsRange(raw, select, s);
    }
    SameLabelledLinesRemain(raw, select);
    MaskedTexts(raw);
    MaskedInOrder(raw);
    WithoutTexts(Masked(raw), raw, ranges);
  }

  /** The same lines with their labels, for the engine told of macro bodies. */
  lemma SameLabelledLinesRemain(raw: seq<string>, select: (string, string) -> bool)
    requires Parse(raw).Success? && CollectedRanges(Masked(raw), select).Success?
    ensures var root := Parse(raw).value;
            var ranges := CollectedRanges(Masked(raw), select).value;
            && Ascending(ranges, |Masked(raw)|)
            && WithoutRanges(Masked(raw), ranges)
               == Serialize(RemoveFrom(root, SelectedLabels(SectionsOf(root), select)))
  {
    hide Parse, Masked, SectionsOf, CollectedRanges, Serialize, RemoveFrom, Dropped, DroppedBy, DistinctLabels,
      Ascending, SelectedLabels, WithoutRanges, KeptFrom, Keep, LabelledInOrder, WellFormedRoot, Closed, Classified,
      Covers;
    var root := Parse(raw).value;
    var m := Masked(raw);
    var ranges := CollectedRanges(m, select).value;
    MaskedInOrder(raw);
    CollectedAscend(m, select);
    DroppedAgree(raw, select);
    ParsedFacts(raw);
    RemovalKeepsTheRest(root, SelectedLabels(SectionsOf(root), select));
    CoversDropped(ranges);
    assert m[0..] == m && m[..0] == [];
    KeptIsKeep(m, 0, ranges, DroppedBy(ranges));
    KeptIsWithout(m, 0, ranges);
    assert [] + KeptFrom(m, 0, ranges) == KeptFrom(m, 0, ranges);
  }

  lemma CollectedAscend(ls: seq<Line>, select: (string, string) -> bool)
    requires LabelledInOrder(ls) && CollectedRanges(ls, select).Success?
    ensures Ascending(CollectedRanges(ls, select).value, |ls|)
  {
    hide RunPairs, SectionRanges, Balance, ExactPairs, Clean;
    SectionRangesAscend(ls, 0, select);
    SectionRangesBounds(ls, 0, select);
    if SectionRanges(ls, 0, select) != [] {
      PairsAreExact(ls);
      BalancedRanges(SectionRanges(ls, 0, select), ls, ConditionalPairs(ls).value);
    }
  }

  lemma {:induction false} WithoutTexts(ls: seq<Line>, raw: seq<string>, ranges: seq<Range>)
    requires raw == Texts(ls) && Ascending(ranges, |ls|) && Ascending(ranges, |raw|)
    ensures WithoutRanges(raw, ranges) == Texts(WithoutRanges(ls, ranges))
    decreases |ranges|
  {
    if ranges != [] {
      AscendingFront(ranges, |ls|);
      var front, last := ranges[..|ranges| - 1], ranges[|ranges| - 1];
      var ls' := ls[..last.start] + ls[last.end..];
      var raw' := raw[..last.start] + raw[last.end..];
      assert raw' == Texts(ls');
      AscendingMore(front, last.start, |ls'|);
      WithoutTexts(ls', raw', front);
    }
  }
}
