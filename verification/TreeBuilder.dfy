/** The recursive builder: index ranges over the raw lines, one method per kind of block. */
module TreeBuilder {
  import opened Wrappers
  import opened Lines
  import opened MacroLexer
  import opened Scanning
  import opened Conditionals
  import opened Tree
  import opened Grammar
  import opened Parser
  import opened TreeParser

  // ------------------------------------------------------------ where a macro is left open

  /** The macro definition still open at the end of the file lies in [start, end). */
  ghost predicate LeftOpen(lines: seq<Line>, start: nat, end: nat) {
    && ModeEnd(lines, Outside).Inside?
    && start <= LastDefinition(Mask(lines, Outside)) < end
  }

  lemma {:induction false} LastDefinitionFacts(m: seq<Line>)
    requires forall i :: 0 <= i < |m| ==> m[i].no == i
    ensures forall i :: 0 <= i < |m| && m[i].Defines() ==> LastDefinition(m) >= i
    ensures (exists l <- m :: l.Defines()) ==> LastDefinition(m) < |m| && m[LastDefinition(m)].Defines()
  {
    if m != [] && !m[|m| - 1].Defines() {
      var front := m[..|m| - 1];
      LastDefinitionFacts(front);
      if l :| l in m && l.Defines() {
        var i :| 0 <= i < |m| && m[i] == l;
        assert front[i] == l;
      }
      forall i | 0 <= i < |m| && m[i].Defines()
        ensures LastDefinition(m) >= i
      {
        assert front[i] == m[i];
      }
    }
  }

  lemma {:induction false} NoDefinitionStaysOutside(ls: seq<Line>)
    requires forall l <- Mask(ls, Outside) :: !l.Defines()
    ensures ModeEnd(ls, Outside) == Outside
  {
    if ls != [] {
      assert !Mask(ls, Outside)[0].Defines();
      assert forall l <- Mask(ls[1..], Outside) :: l in Mask(ls, Outside);
      NoDefinitionStaysOutside(ls[1..]);
    }
  }

  lemma OpenAtDefinition(lines: seq<Line>)
    requires Numbered(lines) && ModeEnd(lines, Outside).Inside?
    ensures var m := Mask(lines, Outside); LastDefinition(m) < |m| && m[LastDefinition(m)].Defines()
  {
    hide Mask, ModeEnd, LastDefinition;
    LastDefinitionFacts(Mask(lines, Outside));
    if forall l <- Mask(lines, Outside) :: !l.Defines() {
      NoDefinitionStaysOutside(lines);
    }
  }

  /** After a macro that ended, an open macro must come later. */
  lemma ClosedMacroNotOpen(lines: seq<Line>, k: nat, next: nat)
    requires Numbered(lines) && k < next <= |lines|
    requires AtMode(lines, Mask(lines, Outside), next, Outside)
    requires forall i :: k < i < next ==> Mask(lines, Outside)[i].inBody
    ensures !LeftOpen(lines, k, next)
  {
    hide Mask, ModeEnd, LastDefinition;
    var m := Mask(lines, Outside);
    LastDefinitionFacts(m);
    if LeftOpen(lines, k, next) {
      OpenAtDefinition(lines);
      forall l | l in Mask(lines[next..], Outside)
        ensures !l.Defines()
      {
        var i :| 0 <= i < |m[next..]| && m[next..][i] == l;
        assert m[next + i] == l;
      }
      NoDefinitionStaysOutside(lines[next..]);
      assert false;
    }
  }

  // ---------------------------------------------------------------- one block at a time

  lemma BuildAtHeader(m: seq<Line>, i: nat, end: nat)
    requires i < end <= |m| && m[i].Heads()
    ensures var e := i + 1 + SectionEnd(m[i + 1..end]);
            Build(m[i..end]) == [Section(Some(m[i]), Build(m[i + 1..e]))] + Build(m[e..end])
  {
    hide SectionEnd, Build;
    var r := m[i..end];
    var n := SectionEnd(r[1..]);
    assert r[1..] == m[i + 1..end];
    assert r[1..][..n] == m[i + 1..i + 1 + n] && r[n + 1..] == m[i + 1 + n..end];
    BuildUnfolds(r);
  }

  lemma BuildAtOpener(m: seq<Line>, i: nat, end: nat)
    requires i < end <= |m| && m[i].Opens() && Balanced(m[i..end])
    ensures var j := CloseOf(m, i);
            j < end && Build(m[i..end]) == [BuildCond(m[i], m[i + 1..j], Some(m[j]))] + Build(m[j + 1..end])
  {
    hide CloseAt, Balanced, CloseOf, BranchBody, Build, BuildCond;
    CloseInRange(m, i, end);
    var r := m[i..end];
    assert r[1..] == m[i + 1..end];
    var n := CloseAt(r[1..], 1);
    assert r[1..][..n] == m[i + 1..i + 1 + n] && r[n + 2..] == m[i + 2 + n..end];
    assert r[n + 1] == m[i + 1 + n];
    BuildUnfoldsOpener(r);
  }

  lemma BuildAtMacro(m: seq<Line>, i: nat, end: nat, e: nat)
    requires i < e <= end <= |m| && m[i].Defines()
    requires (forall k :: i < k < e ==> m[k].inBody) && (e < end ==> !m[e].inBody)
    ensures Build(m[i..end]) == [Macro(m[i..e])] + Build(m[e..end])
  {
    hide Build, BodyRun;
    var r := m[i..end];
    assert r[1..] == m[i + 1..end];
    forall k | 0 <= k < e - i - 1 ensures r[1..][k].inBody {
      assert r[1..][k] == m[i + 1 + k];
    }
    assert e < end ==> r[1..][e - i - 1] == m[e];
    BodyRunIs(r[1..], e - i - 1);
    BuildUnfolds(r);
    assert BodyRun(r[1..]) + 1 == e - i;
    assert r[..e - i] == m[i..e] && r[e - i..] == m[e..end];
  }

  lemma BuildAtText(m: seq<Line>, i: nat, end: nat, e: nat)
    requires i < e <= end <= |m|
    requires (forall l <- m[i..e] :: IsText(l)) && (e < end ==> !IsText(m[e]))
    ensures Build(m[i..end]) == [Text(m[i..e])] + Build(m[e..end])
  {
    var r := m[i..end];
    assert r[..e - i] == m[i..e] && r[e - i..] == m[e..end];
    assert m[i..e][0] == m[i];
    TextRunIs(r, e - i);
  }

  // ---------------------------------------------------------------- balanced index ranges

  /** A range the builder may be called on: balanced and starting and ending outside macros. */
  ghost predicate Buildable(m: seq<Line>, start: nat, end: nat) {
    && start <= end <= |m|
    && Balanced(m[start..end])
    && (start < end ==> !m[start].inBody)
    && (end < |m| ==> !m[end].inBody)
  }

  lemma HeaderRange(m: seq<Line>, i: nat, end: nat)
    requires i < end && Buildable(m, i, end) && m[i].Heads() && Shaped(m)
    ensures var e := i + 1 + SectionEnd(m[i + 1..end]);
            && i < e <= end && Buildable(m, i + 1, e) && Buildable(m, e, end) && !HasHeader(m[i + 1..e])
            && Balanced(m[i + 1..end])
  {
    hide Balanced, SectionEnd, HasHeader;
    var r := m[i..end];
    assert !r[0].inBody && r[1..] == m[i + 1..end];
    BalancedFirstInert(r);
    SectionEndSplits(r[1..]);
    var n := SectionEnd(r[1..]);
    assert r[1..][..n] == m[i + 1..i + 1 + n] && r[1..][n..] == m[i + 1 + n..end];
  }

  lemma OpenerRange(m: seq<Line>, i: nat, end: nat)
    requires i < end && Buildable(m, i, end) && m[i].Opens() && Shaped(m)
    ensures var j := CloseOf(m, i);
            && i < j < end && m[j].Closes() && Buildable(m, j + 1, end)
            && BranchBody(m[i + 1..j], Frame(m[i].no, None)) && !m[i + 1].inBody
  {
    hide Balanced, BranchBody, CloseAt, CloseOf;
    CloseInRange(m, i, end);
  }

  lemma InertRange(m: seq<Line>, i: nat, e: nat, end: nat)
    requires i <= e <= end && Buildable(m, i, end) && (e < |m| ==> !m[e].inBody)
    requires forall k :: i <= k < e ==> Inert(m[k])
    ensures Buildable(m, e, end)
  {
    hide Balanced, Inert;
    var r := m[i..end];
    var front := r[..e - i];
    forall l | l in front
      ensures Inert(l)
    {
      var k :| 0 <= k < e - i && front[k] == l;
      assert front[k] == m[i + k];
    }
    assert r[e - i..] == m[e..end];
    BalancedDropInert(r, e - i);
  }

  /** The first line of a balanced range neither closes nor branches. */
  lemma FirstOfBalanced(m: seq<Line>, k: nat, b: nat)
    requires k < b <= |m| && Balanced(m[k..b])
    ensures !m[k].Closes() && !m[k].Branches()
  {
    assert m[k..b][0] == m[k];
  }

  // ---------------------------------------------------------------- the builder

  /** What every method below is given: the lines, their one mask, the pairs, the headers. */
  ghost predicate Context(lines: seq<Line>, pairs: map<nat, nat>, headers: set<nat>) {
    var m := Mask(lines, Outside);
    Numbered(lines) && Shaped(m) && PairsExact(m, pairs) && HeadersExact(m, headers)
  }

  lemma ContextFacts(lines: seq<Line>, pairs: map<nat, nat>, headers: set<nat>)
    requires Context(lines, pairs, headers)
    ensures Numbered(lines) && Shaped(Mask(lines, Outside))
  {
  }

  /** A result is the blocks of the range, or the one possible error: its open macro. */
  ghost predicate BuiltOr<T>(lines: seq<Line>, start: nat, end: nat, r: Result<T, ParseError>, expected: T) {
    if LeftOpen(lines, start, end) then r == Failure(UnterminatedMacro(LastDefinition(Mask(lines, Outside))))
    else r == Success(expected)
  }

  /** The block of the macro definition at line start, whole, and the index after its body. */
  ghost predicate MacroRead(lines: seq<Line>, start: nat, end: nat, b: Block, next: nat) {
    var m := Mask(lines, Outside);
    && start < next <= end && next <= |m| && b == Macro(m[start..next]) && !LeftOpen(lines, start, next)
    && (forall i :: start < i < next ==> m[i].inBody) && (next < |m| ==> !m[next].inBody)
  }

  /** Reads a macro definition with its body; returns the index after it. */
  method ParseMacroDefBlock(lines: seq<Line>, start: nat, end: nat) returns (r: Result<(Block, nat), ParseError>)
    requires Numbered(lines) && start < end <= |lines|
    requires var m := Mask(lines, Outside);
             AtMode(lines, m, start, Outside) && m[start].Defines() && (end < |m| ==> !m[end].inBody)
    ensures r.Success? ==> MacroRead(lines, start, end, r.value.0, r.value.1)
    ensures r.Failure? ==>
              LeftOpen(lines, start, end) && r.error == UnterminatedMacro(LastDefinition(Mask(lines, Outside)))
  {
    hide Mask, ModeEnd, ModeAfter, BodyAfter, LastDefinition, LeftOpen, View, AtMode;
    ghost var m := Mask(lines, Outside);
    var body := [lines[start]];
    NextMode(lines, m, start, Outside);
    var continues, state := StepMacroState(lines[start], false, LIVE_START);
    var lineIdx := start + 1;
    if !continues {
      MacroEnds(lines, start, lineIdx);
      return Success((Macro(body), lineIdx));
    }
    while lineIdx < end
      invariant start < lineIdx <= end && continues
      invariant state.lua == null || fresh(state.lua)
      invariant AtMode(lines, m, lineIdx, ModeOf(true, state))
      invariant body == m[start..lineIdx]
      invariant forall i :: start < i < lineIdx ==> m[i].inBody
    {
      NextMode(lines, m, lineIdx, ModeOf(true, state));
      body := body + [lines[lineIdx].(inBody := true)];
      continues, state := StepMacroState(lines[lineIdx], true, state);
      lineIdx := lineIdx + 1;
      if !continues {
        MacroEnds(lines, start, lineIdx);
        return Success((Macro(body), lineIdx));
      }
    }
    MacroNeverEnds(lines, start, end, ModeOf(true, state));
    return Failure(UnterminatedMacro(start));
  }

  lemma MacroEnds(lines: seq<Line>, start: nat, next: nat)
    requires Numbered(lines) && start < next <= |lines|
    requires AtMode(lines, Mask(lines, Outside), next, Outside)
    requires forall i :: start < i < next ==> Mask(lines, Outside)[i].inBody
    ensures !LeftOpen(lines, start, next)
    ensures next < |lines| ==> !Mask(lines, Outside)[next].inBody
  {
    ClosedMacroNotOpen(lines, start, next);
    if next < |lines| {
      NextMode(lines, Mask(lines, Outside), next, Outside);
    }
  }

  lemma MacroNeverEnds(lines: seq<Line>, start: nat, end: nat, mode: Mode)
    requires Numbered(lines) && start < end <= |lines| && mode.Inside?
    requires var m := Mask(lines, Outside);
             && AtMode(lines, m, end, mode) && m[start].Defines() && (end < |m| ==> !m[end].inBody)
             && forall i :: start < i < end ==> m[i].inBody
    ensures LeftOpen(lines, start, end) && LastDefinition(Mask(lines, Outside)) == start
  {
    hide Mask, ModeAfter, LastDefinition;
    var m := Mask(lines, Outside);
    if end < |m| {
      NextMode(lines, m, end, mode);
      assert false;
    }
    assert lines[end..] == [];
    OpenAtDefinition(lines);
    LastDefinitionFacts(m);
  }

  // ---------------------------------------------------------------- steps of the builder

  /** A block read at line i, and where the next one starts. */
  ghost predicate BlockRead(lines: seq<Line>, i: nat, end: nat, r: Result<(Block, nat), ParseError>) {
    var m := Mask(lines, Outside);
    match r
    case Success((b, next)) =>
      && i < next <= end <= |m| && Buildable(m, next, end) && !LeftOpen(lines, i, next)
      && Build(m[i..end]) == [b] + Build(m[next..end])
    case Failure(e) => LeftOpen(lines, i, end) && e == UnterminatedMacro(LastDefinition(m))
  }

  lemma LeftOpenSplit(lines: seq<Line>, a: nat, b: nat, c: nat)
    requires a <= b <= c
    ensures LeftOpen(lines, a, c) <==> LeftOpen(lines, a, b) || LeftOpen(lines, b, c)
    ensures !LeftOpen(lines, a, a)
  {
  }

  lemma LeftOpenSkip(lines: seq<Line>, i: nat, c: nat)
    requires Numbered(lines) && i < c && i < |lines| && !Mask(lines, Outside)[i].Defines()
    ensures LeftOpen(lines, i, c) <==> LeftOpen(lines, i + 1, c)
    ensures !LeftOpen(lines, i, i + 1)
  {
    hide Mask, ModeEnd, LastDefinition;
    if ModeEnd(lines, Outside).Inside? {
      OpenAtDefinition(lines);
    }
  }

  lemma LeftOpenInside(lines: seq<Line>, i: nat, j: nat)
    requires Numbered(lines) && i < j < |lines|
    requires !Mask(lines, Outside)[i].Defines() && !Mask(lines, Outside)[j].Defines()
    ensures LeftOpen(lines, i, j + 1) <==> LeftOpen(lines, i + 1, j)
  {
    hide LeftOpen, Mask;
    LeftOpenSkip(lines, i, j + 1);
    LeftOpenSplit(lines, i + 1, j, j + 1);
    LeftOpenSkip(lines, j, j + 1);
  }

  /** The builder's loop: blocks built so far, text not yet flushed, and the rest, make the range. */
  ghost predicate Progress(m: seq<Line>, start: nat, i: nat, end: nat, children: seq<Block>, textBuf: seq<Line>) {
    && start + |textBuf| <= i <= end <= |m|
    && textBuf == m[i - |textBuf|..i] && (forall l <- textBuf :: IsText(l))
    && Build(m[start..end]) == children + Build(m[i - |textBuf|..end])
  }

  lemma ProgressStarts(m: seq<Line>, start: nat, end: nat)
    requires start <= end <= |m|
    ensures Progress(m, start, start, end, [], [])
  {
    hide Build;
  }

  lemma ProgressText(m: seq<Line>, start: nat, i: nat, end: nat, children: seq<Block>, textBuf: seq<Line>)
    requires Progress(m, start, i, end, children, textBuf) && i < end && IsText(m[i])
    ensures Progress(m, start, i + 1, end, children, textBuf + [m[i]])
  {
    hide Build;
  }

  lemma ProgressBlock(m: seq<Line>, start: nat, i: nat, end: nat, children: seq<Block>, b: Block, next: nat)
    requires Progress(m, start, i, end, children, []) && i < next <= end
    requires Build(m[i..end]) == [b] + Build(m[next..end])
    ensures Progress(m, start, next, end, children + [b], [])
  {
    hide Build;
    assert m[i - 0..end] == m[i..end] && m[next - 0..end] == m[next..end];
    assert children + ([b] + Build(m[next..end])) == (children + [b]) + Build(m[next..end]);
  }

  lemma ProgressFlush(m: seq<Line>, start: nat, i: nat, end: nat, children: seq<Block>, textBuf: seq<Line>)
    requires Progress(m, start, i, end, children, textBuf) && (i < end ==> !IsText(m[i]))
    ensures Progress(m, start, i, end, AfterFlush(children, textBuf), [])
  {
    hide Build;
    if textBuf != [] {
      BuildAtText(m, i - |textBuf|, end, i);
    }
  }

  lemma ProgressEnds(m: seq<Line>, start: nat, end: nat, children: seq<Block>)
    requires Progress(m, start, end, end, children, [])
    ensures children == Build(m[start..end])
  {
    assert m[end - 0..end] == [];
  }

  function AfterFlush(children: seq<Block>, textBuf: seq<Line>): seq<Block> {
    if |textBuf| > 0 then children + [Text(textBuf)] else children
  }

  lemma HeaderOutside(m: seq<Line>, start: nat, end: nat, i: nat)
    requires start <= i < end <= |m| && !HasHeader(m[start..end])
    ensures !m[i].Heads()
  {
    assert m[start..end][i - start] == m[i];
  }

  lemma UnmaskedLine(lines: seq<Line>, i: nat)
    requires Numbered(lines) && i < |lines| && !Mask(lines, Outside)[i].inBody
    ensures lines[i] == Mask(lines, Outside)[i]
  {
    hide ModeAfter;
  }

  // ---------------------------------------------------------------- the builder

  method BuildBlockChildren(lines: seq<Line>, start: nat, end: nat, pairs: map<nat, nat>, headers: set<nat>,
                            topLevel: bool) returns (r: Result<seq<Block>, ParseError>)
    requires Context(lines, pairs, headers) && Buildable(Mask(lines, Outside), start, end)
    requires topLevel || !HasHeader(Mask(lines, Outside)[start..end])
    ensures BuiltOr(lines, start, end, r, Build(Mask(lines, Outside)[start..end]))
    decreases end - start, 3
  {
    hide Mask, ModeEnd, ModeAfter, Balanced, Build, HasHeader, Shaped, LeftOpen, LastDefinition;
    hide Progress, Buildable;
    ghost var m := Mask(lines, Outside);
    var children: seq<Block>, textBuf: seq<Line> := [], [];
    var lineIdx := start;
    BuildableBounds(m, start, end);
    ProgressStarts(m, start, end);
    LeftOpenSplit(lines, start, start, start);
    while lineIdx < end
      invariant start <= lineIdx <= end
      invariant Buildable(m, lineIdx, end)
      invariant !LeftOpen(lines, start, lineIdx)
      invariant Progress(m, start, lineIdx, end, children, textBuf)
    {
      var line := lines[lineIdx];
      BuildableBounds(m, lineIdx, end);
      UnmaskedLine(lines, lineIdx);
      if !(topLevel && lineIdx in headers) && !line.kind.IfDirective? && !line.kind.MacroDefinition? {
        TextLine(lines, pairs, headers, lineIdx, start, end, topLevel);
        LeftOpenSplit(lines, start, lineIdx, lineIdx + 1);
        ProgressText(m, start, lineIdx, end, children, textBuf);
        textBuf := textBuf + [line];
        lineIdx := lineIdx + 1;
        continue;
      }
      ProgressFlush(m, start, lineIdx, end, children, textBuf);
      children, textBuf := AfterFlush(children, textBuf), [];
      var step := BuildBlock(lines, lineIdx, end, pairs, headers);
      if step.Failure? {
        LeftOpenSplit(lines, start, lineIdx, end);
        return Failure(step.error);
      }
      LeftOpenSplit(lines, start, lineIdx, step.value.1);
      ProgressBlock(m, start, lineIdx, end, children, step.value.0, step.value.1);
      children := children + [step.value.0];
      lineIdx := step.value.1;
    }
    ProgressFlush(m, start, lineIdx, end, children, textBuf);
    children := AfterFlush(children, textBuf);
    ProgressEnds(m, start, end, children);
    return Success(children);
  }

  lemma BuildableBounds(m: seq<Line>, start: nat, end: nat)
    requires Buildable(m, start, end)
    ensures start <= end <= |m| && (start < end ==> !m[start].inBody)
  {
  }

  lemma BuildableBalanced(m: seq<Line>, start: nat, end: nat)
    requires Buildable(m, start, end)
    ensures start <= end <= |m| && Balanced(m[start..end])
  {
  }

  /** A section, a conditional or a macro definition, whichever starts at line i. */
  method BuildBlock(lines: seq<Line>, i: nat, end: nat, pairs: map<nat, nat>, headers: set<nat>)
    returns (r: Result<(Block, nat), ParseError>)
    requires Context(lines, pairs, headers) && i < end && Buildable(Mask(lines, Outside), i, end)
    requires !IsText(Mask(lines, Outside)[i])
    ensures BlockRead(lines, i, end, r)
    decreases end - i, 2
  {
    hide Mask, BlockRead, Shaped, Balanced;
    UnmaskedLine(lines, i);
    if i in headers {
      r := BuildSection(lines, i, end, pairs, headers);
    } else if lines[i].kind.IfDirective? {
      r := BuildConditional(lines, i, end, pairs, headers);
    } else {
      r := ReadMacro(lines, i, end);
    }
  }

  lemma TextLine(lines: seq<Line>, pairs: map<nat, nat>, headers: set<nat>, i: nat, start: nat, end: nat,
    topLevel: bool)
    requires Context(lines, pairs, headers) && start <= i < end && Buildable(Mask(lines, Outside), i, end)
    requires topLevel || !HasHeader(Mask(lines, Outside)[start..end])
    requires !(topLevel && i in headers)
    requires !Mask(lines, Outside)[i].Opens() && !Mask(lines, Outside)[i].Defines()
    ensures IsText(Mask(lines, Outside)[i]) && !LeftOpen(lines, i, i + 1)
    ensures Buildable(Mask(lines, Outside), i + 1, end)
  {
    hide Mask, Balanced, HasHeader, LeftOpen, Shaped, PairsExact, Numbered;
    var m := Mask(lines, Outside);
    if !topLevel {
      HeaderOutside(m, start, end, i);
    }
    FirstOfBalanced(m, i, end);
    ShapedNext(m, i);
    InertRange(m, i, i + 1, end);
    LeftOpenSkip(lines, i, i + 1);
  }

  lemma ShapedNext(m: seq<Line>, i: nat)
    requires Shaped(m) && i < |m| && !m[i].inBody && !m[i].Defines()
    ensures i + 1 < |m| ==> !m[i + 1].inBody
  {
  }

  method ReadMacro(lines: seq<Line>, i: nat, end: nat) returns (r: Result<(Block, nat), ParseError>)
    requires Numbered(lines) && i < end && Buildable(Mask(lines, Outside), i, end)
    requires Mask(lines, Outside)[i].Defines()
    ensures BlockRead(lines, i, end, r)
  {
    hide Mask, ModeEnd, Balanced, Build, LeftOpen, LastDefinition;
    StartMode(lines, Mask(lines, Outside), i);
    r := ParseMacroDefBlock(lines, i, end);
    if r.Success? {
      BuildAtMacro(Mask(lines, Outside), i, end, r.value.1);
      InertRange(Mask(lines, Outside), i, r.value.1, end);
    }
  }

  method BuildSection(lines: seq<Line>, i: nat, end: nat, pairs: map<nat, nat>, headers: set<nat>)
    returns (r: Result<(Block, nat), ParseError>)
    requires Context(lines, pairs, headers) && i < end && Buildable(Mask(lines, Outside), i, end)
    requires Mask(lines, Outside)[i].Heads()
    ensures BlockRead(lines, i, end, r)
    decreases end - i, 1
  {
    hide Mask, ModeEnd, ModeAfter, Balanced, Build, HasHeader, Shaped, LeftOpen, LastDefinition, SectionEnd;
    ghost var m := Mask(lines, Outside);
    HeaderRange(m, i, end);
    BuildAtHeader(m, i, end);
    UnmaskedLine(lines, i);
    var sectionEnd := FindTreeSectionEnd(i + 1, end, pairs, headers, m);
    LeftOpenSkip(lines, i, sectionEnd);
    LeftOpenSplit(lines, i, sectionEnd, end);
    var content := BuildBlockChildren(lines, i + 1, sectionEnd, pairs, headers, false);
    if content.Failure? {
      return Failure(content.error);
    }
    return Success((Section(Some(lines[i]), content.value), sectionEnd));
  }

  method BuildConditional(lines: seq<Line>, i: nat, end: nat, pairs: map<nat, nat>, headers: set<nat>)
    returns (r: Result<(Block, nat), ParseError>)
    requires Context(lines, pairs, headers) && i < end && Buildable(Mask(lines, Outside), i, end)
    requires Mask(lines, Outside)[i].Opens()
    ensures BlockRead(lines, i, end, r)
    decreases end - i, 1
  {
    hide Mask, ModeEnd, ModeAfter, Balanced, Build, HasHeader, Shaped, LeftOpen, LastDefinition, CloseOf, CloseAt,
      BranchBody;
    hide BuildCond, BranchAt, Buildable, HeadersExact;
    ghost var m := Mask(lines, Outside);
    BuildableBounds(m, i, end);
    OpenerRange(m, i, end);
    BuildableBalanced(m, i, end);
    BuildAtOpener(m, i, end);
    if i !in pairs {
      assert false;  // every %if of a matched file has its pair
    }
    var bodyStart, bodyEnd := i + 1, pairs[i];
    UnmaskedLine(lines, i);
    UnmaskedLine(lines, bodyEnd);
    LeftOpenInside(lines, i, bodyEnd);
    LeftOpenSplit(lines, i, bodyEnd + 1, end);
    var elseLine := FindElseDirectiveLine(lines, bodyStart, bodyEnd, m);
    var thenEnd := if elseLine >= 0 then elseLine else bodyEnd;
    HeaderInRange(m, headers, bodyStart, bodyEnd);
    var isWrapper := HasSectionHeaderInRange(bodyStart, bodyEnd, headers);
    var cond := BuildConditionalBranches(lines, lines[i], bodyStart, thenEnd, elseLine, bodyEnd, pairs, headers,
                                         isWrapper, Some(lines[bodyEnd]));
    if cond.Failure? {
      return Failure(cond.error);
    }
    return Success((cond.value, bodyEnd + 1));
  }

  /** What the branch directive found in a conditional's body splits. */
  lemma BranchRanges(m: seq<Line>, f: Frame, bodyStart: nat, bodyEnd: nat)
    requires Shaped(m) && bodyStart <= bodyEnd < |m| && !m[bodyStart].inBody && !m[bodyEnd].inBody
    requires BranchBody(m[bodyStart..bodyEnd], f) && f.elseLine.None?
    ensures var n := bodyStart + BranchAt(m[bodyStart..bodyEnd], 0);
            && Buildable(m, bodyStart, n)
            && (n < bodyEnd ==>
                  && m[n].Branches() && !m[n + 1].inBody
                  && (m[n].IsElif() ==> BranchBody(m[n + 1..bodyEnd], Frame(m[n].no, None)))
                  && (m[n].IsElse() ==> Buildable(m, n + 1, bodyEnd)))
  {
    hide Balanced, BranchBody, BranchAt, Shaped;
    var body := m[bodyStart..bodyEnd];
    var n := BranchAt(body, 0);
    BranchBodySplit(body, f);
    assert body[..n] == m[bodyStart..bodyStart + n];
    if n < |body| {
      assert body[n] == m[bodyStart + n] && body[n + 1..] == m[bodyStart + n + 1..bodyEnd];
      ShapedNext(m, bodyStart + n);
      if body[n].IsElif() {
        BranchBodyAnyLabel(body[n + 1..], f, Frame(body[n].no, None));
      }
    }
  }

  lemma BuildCondCases(m: seq<Line>, opener: Line, endif: Option<Line>, bodyStart: nat, bodyEnd: nat)
    requires bodyStart <= bodyEnd <= |m|
    ensures var n := bodyStart + BranchAt(m[bodyStart..bodyEnd], 0);
            BuildCond(opener, m[bodyStart..bodyEnd], endif) ==
            if n == bodyEnd then Cond(opener, Build(m[bodyStart..bodyEnd]), None, [], endif)
            else if m[n].IsElif() then
              Cond(opener, Build(m[bodyStart..n]), None, [BuildCond(m[n], m[n + 1..bodyEnd], None)], endif)
            else Cond(opener, Build(m[bodyStart..n]), Some(m[n]), Build(m[n + 1..bodyEnd]), endif)
  {
    hide Build, BranchAt;
    var body := m[bodyStart..bodyEnd];
    var n := BranchAt(body, 0);
    assert body[..n] == m[bodyStart..bodyStart + n];
    if n < |body| {
      assert body[n + 1..] == m[bodyStart + n + 1..bodyEnd];
    }
  }

  /** The then branch, and the %else or the chain of %elif conditionals after it. */
  method BuildConditionalBranches(lines: seq<Line>, opener: Line, bodyStart: nat, thenEnd: nat, elseLine: int,
    bodyEnd: nat,
                                  pairs: map<nat, nat>, headers: set<nat>, isWrapper: bool, endif: Option<Line>)
    returns (r: Result<Block, ParseError>)
    requires Context(lines, pairs, headers)
    requires var m := Mask(lines, Outside);
             && bodyStart <= bodyEnd < |m| && !m[bodyStart].inBody && !m[bodyEnd].inBody
             && BranchBody(m[bodyStart..bodyEnd], Frame(opener.no, None))
             && thenEnd == bodyStart + BranchAt(m[bodyStart..bodyEnd], 0)
             && elseLine == (if thenEnd == bodyEnd then -1 else thenEnd)
             && (isWrapper || !HasHeader(m[bodyStart..bodyEnd]))
    ensures BuiltOr(lines, bodyStart, bodyEnd, r, BuildCond(opener, Mask(lines, Outside)[bodyStart..bodyEnd], endif))
    decreases bodyEnd - bodyStart, 4
  {
    hide Mask, Context, Buildable, Balanced, Build, BuildCond, HasHeader, Shaped, LeftOpen, LastDefinition, BranchAt,
      BranchBody, Numbered;
    ghost var m := Mask(lines, Outside);
    ContextFacts(lines, pairs, headers);
    BranchRanges(m, Frame(opener.no, None), bodyStart, bodyEnd);
    BuildCondCases(m, opener, endif, bodyStart, bodyEnd);
    LeftOpenSplit(lines, bodyStart, thenEnd, bodyEnd);
    NoHeaderWithin(m, bodyStart, bodyEnd, bodyStart, thenEnd);
    var thn := BuildBlockChildren(lines, bodyStart, thenEnd, pairs, headers, isWrapper);
    if thn.Failure? {
      return Failure(thn.error);
    }
    if elseLine < 0 {
      LeftOpenSplit(lines, bodyEnd, bodyEnd, bodyEnd);
      return Success(Cond(opener, thn.value, None, [], endif));
    }
    LeftOpenSkip(lines, elseLine, bodyEnd);
    UnmaskedLine(lines, elseLine);
    NoHeaderWithin(m, bodyStart, bodyEnd, elseLine + 1, bodyEnd);
    if lines[elseLine].kind.ElifDirective? {
      var nextElse := FindElseDirectiveLine(lines, elseLine + 1, bodyEnd, m);
      var nextThenEnd := if nextElse >= 0 then nextElse else bodyEnd;
      var inner := BuildConditionalBranches(lines, lines[elseLine], elseLine + 1, nextThenEnd, nextElse, bodyEnd,
                                            pairs, headers, isWrapper, None);
      if inner.Failure? {
        return Failure(inner.error);
      }
      return Success(Cond(opener, thn.value, None, [inner.value], endif));
    }
    var els := BuildBlockChildren(lines, elseLine + 1, bodyEnd, pairs, headers, isWrapper);
    if els.Failure? {
      return Failure(els.error);
    }
    return Success(Cond(opener, thn.value, Some(lines[elseLine]), els.value, endif));
  }

  lemma NoHeaderWithin(m: seq<Line>, start: nat, end: nat, a: nat, b: nat)
    requires start <= a <= b <= end <= |m|
    ensures HasHeader(m[a..b]) ==> HasHeader(m[start..end])
  {
    if HasHeader(m[a..b]) {
      var l :| l in m[a..b] && l.Heads();
      var i :| 0 <= i < b - a && m[a..b][i] == l;
      assert m[start..end][a + i - start] == l;
    }
  }

  // ---------------------------------------------------------------- parseTree

  method WrapPreambleBlocks(children: seq<Block>) returns (root: seq<Block>)
    ensures root == WrapPreamble(children)
  {
    var firstSection := 0;
    while firstSection < |children| && !WrapsSections(children[firstSection])
      invariant 0 <= firstSection <= |children|
      invariant PreambleEnd(children) == firstSection + PreambleEnd(children[firstSection..])
    {
      assert children[firstSection..][1..] == children[firstSection + 1..];
      firstSection := firstSection + 1;
    }
    return [Section(None, children[..firstSection])] + children[firstSection..];
  }

  method ParseTree(raw: seq<string>) returns (r: Result<seq<Block>, ParseError>)
    ensures r == Parse(raw)
  {
    hide Mask, ModeEnd, Build, Shaped, HasHeader, Label, RunFrames, LastDefinition, PairsExact, HeadersExact;
    var lines := Label(raw);
    WholeFile(raw);
    var pairs := CollectTreeConditionalPairs(lines);
    if pairs.Failure? {
      return Failure(pairs.error);
    }
    var headers := FindSectionHeaderLines(lines);
    var children := BuildBlockChildren(lines, 0, |lines|, pairs.value, headers, true);
    if children.Failure? {
      return Failure(children.error);
    }
    var root := WrapPreambleBlocks(children.value);
    return Success(root);
  }

  lemma WholeFile(raw: seq<string>)
    ensures var lines := Label(raw);
            && Numbered(lines) && Shaped(Masked(raw)) && Masked(raw)[0..|lines|] == Masked(raw)
            && (EndsInMacro(raw) <==> LeftOpen(lines, 0, |lines|))
            && (Matching(Masked(raw)).Success? ==> Buildable(Masked(raw), 0, |lines|))
  {
    hide Mask, ModeEnd, Shaped, LastDefinition, Balanced, Matching, Numbered, LeftOpen, EndsInMacro;
    var lines := Label(raw);
    MaskedFacts(raw);
    MatchingIsBalanced(Masked(raw));
    StartsOutside(lines);
    WholeSlice(Masked(raw));
    LabelNumbered(raw);
    WholeLeftOpen(raw);
  }

  lemma LabelNumbered(raw: seq<string>)
    ensures Numbered(Label(raw))
  {
  }

  lemma WholeLeftOpen(raw: seq<string>)
    ensures EndsInMacro(raw) <==> LeftOpen(Label(raw), 0, |raw|)
  {
    hide Mask, ModeEnd, LastDefinition, Numbered, Label;
    LabelNumbered(raw);
    if EndsInMacro(raw) {
      OpenAtDefinition(Label(raw));
    }
  }

  lemma WholeSlice(m: seq<Line>)
    ensures m[0..|m|] == m
  {
  }

  lemma StartsOutside(lines: seq<Line>)
    ensures lines != [] ==> !Mask(lines, Outside)[0].inBody
  {
  }
}
