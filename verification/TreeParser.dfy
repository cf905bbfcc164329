/** The parser as the code runs it: scans with a macro-lexer state, a stack of open
    conditionals, and a recursive builder over index ranges. Each scan starts its own lexer,
    and each is proved to see the one mask of the whole file. */
module TreeParser {
  import opened Wrappers
  import opened Lines
  import opened MacroLexer
  import opened Scanning
  import opened Conditionals
  import opened Tree
  import opened Grammar
  import opened Parser

  // ---------------------------------------------------------------- macro state of a scan

  function ModeOf(inMacroBody: bool, state: LiveState): Mode
    reads state.lua
  {
    if inMacroBody then Inside(View(state)) else Outside
  }

  /** A scan that has reached line k in `mode` sees the rest of the mask `m`. */
  ghost predicate AtMode(lines: seq<Line>, m: seq<Line>, k: nat, mode: Mode) {
    && k <= |lines| == |m|
    && m[k..] == Mask(lines[k..], mode)
    && ModeEnd(lines, Outside) == ModeEnd(lines[k..], mode)
  }

  lemma NextMode(lines: seq<Line>, m: seq<Line>, k: nat, mode: Mode)
    requires AtMode(lines, m, k, mode) && k < |lines|
    ensures m[k] == lines[k].(inBody := mode.Inside?)
    ensures AtMode(lines, m, k + 1, ModeAfter(lines[k], mode))
  {
    hide ModeAfter;
    assert lines[k..][1..] == lines[k + 1..] && m[k..][1..] == m[k + 1..];
    assert m[k] == m[k..][0] && lines[k] == lines[k..][0];
  }

  lemma StartMode(lines: seq<Line>, m: seq<Line>, k: nat)
    requires m == Mask(lines, Outside) && k <= |m| && (k < |m| ==> !m[k].inBody)
    requires k == |m| ==> ModeEnd(lines, Outside) == Outside
    ensures AtMode(lines, m, k, Outside)
  {
    hide ModeAfter;
    ScanAfresh(lines, k);
  }

  /** Carries the macro state over one line. */
  method StepMacroState(l: Line, inMacroBody: bool, state: LiveState) returns (inBody: bool, s: LiveState)
    modifies state.lua
    ensures ModeOf(inBody, s) == ModeAfter(l, old(ModeOf(inMacroBody, state)))
    ensures s.lua == null || s.lua == state.lua || fresh(s.lua)
  {
    hide BodyAfter;
    if inMacroBody {
      s, inBody := MacroBodyStateAfter(l.text, state);
    } else if l.kind.MacroDefinition? {
      assert View(LIVE_START) == START;
      s, inBody := MacroBodyStateAfter(l.text, LIVE_START);
    } else {
      s, inBody := state, false;
    }
  }

  // ---------------------------------------------------------------- conditional pairs

  /** The %endif of the %if at line i. */
  function CloseOf(m: seq<Line>, i: nat): nat
    requires i < |m|
    ensures i < CloseOf(m, i) <= |m|
  {
    i + 1 + CloseAt(m[i + 1..], 1)
  }

  predicate Numbered(lines: seq<Line>) {
    forall i :: 0 <= i < |lines| ==> lines[i].no == i && !lines[i].inBody
  }

  ghost predicate StackTracks(m: seq<Line>, k: nat, stack: seq<Frame>)
    requires k <= |m|
  {
    forall q :: 0 <= q < |stack| ==>
      && stack[q].ifLine < k
      && CloseOf(m, stack[q].ifLine) == k + CloseAt(m[k..], |stack| - q)
  }

  ghost predicate PairsKnown(m: seq<Line>, k: nat, stack: seq<Frame>, pairs: map<nat, nat>)
    requires k <= |m|
  {
    && (forall i <- pairs :: i < |m| && m[i].Opens() && pairs[i] == CloseOf(m, i))
    && (forall i :: 0 <= i < k && m[i].Opens() ==> i in pairs || exists q :: 0 <= q < |stack| && stack[q].ifLine == i)
    && (forall q :: 0 <= q < |stack| ==> stack[q].ifLine < |m| && m[stack[q].ifLine].Opens())
  }

  lemma CloseAtStep(m: seq<Line>, k: nat, d: nat)
    requires k < |m| && d > 0
    ensures k + CloseAt(m[k..], d) ==
            if m[k].Closes() && d == 1 then k
            else k + 1 + CloseAt(m[k + 1..], if m[k].Closes() then d - 1 else if m[k].Opens() then d + 1 else d)
  {
    assert m[k..][1..] == m[k + 1..] && m[k..][0] == m[k];
  }

  lemma StepKeepsIfLines(l: Line, s: seq<Frame>)
    requires StepFrames(l, s).Success?
    ensures var s' := StepFrames(l, s).value;
            && |s'| == (if l.Opens() then |s| + 1 else if l.Closes() then |s| - 1 else |s|)
            && (forall q :: 0 <= q < |s| && q < |s'| ==> s'[q].ifLine == s[q].ifLine)
            && (l.Opens() ==> s'[|s|].ifLine == l.no)
  {
  }

  lemma TrackStep(m: seq<Line>, k: nat, stack: seq<Frame>)
    requires k < |m| && m[k].no == k && StackTracks(m, k, stack)
    requires StepFrames(m[k], stack).Success?
    ensures StackTracks(m, k + 1, StepFrames(m[k], stack).value)
    ensures m[k].Closes() ==> stack != [] && CloseOf(m, stack[|stack| - 1].ifLine) == k
  {
    hide CloseAt, StepFrames, CloseOf;
    var stack' := StepFrames(m[k], stack).value;
    StepKeepsIfLines(m[k], stack);
    forall q | 0 <= q < |stack'|
      ensures stack'[q].ifLine < k + 1
      ensures CloseOf(m, stack'[q].ifLine) == k + 1 + CloseAt(m[k + 1..], |stack'| - q)
    {
      if q < |stack| {
        CloseAtStep(m, k, |stack| - q);
      } else {
        CloseOfNew(m, k);
      }
    }
    if m[k].Closes() {
      CloseAtStep(m, k, 1);
    }
  }

  lemma CloseOfNew(m: seq<Line>, k: nat)
    requires k < |m|
    ensures CloseOf(m, k) == k + 1 + CloseAt(m[k + 1..], 1)
  {
  }

  lemma PairsStep(m: seq<Line>, k: nat, stack: seq<Frame>, pairs: map<nat, nat>)
    requires k < |m| && m[k].no == k && PairsKnown(m, k, stack, pairs)
    requires StepFrames(m[k], stack).Success?
    requires m[k].Closes() ==> stack != [] && CloseOf(m, stack[|stack| - 1].ifLine) == k
    ensures PairsKnown(m, k + 1, StepFrames(m[k], stack).value, PairsAfter(m[k], k, stack, pairs))
  {
    hide CloseAt, StepFrames, CloseOf;
    var stack' := StepFrames(m[k], stack).value;
    StepKeepsIfLines(m[k], stack);
    var pairs' := PairsAfter(m[k], k, stack, pairs);
    forall i | 0 <= i < k + 1 && m[i].Opens()
      ensures i in pairs' || exists q :: 0 <= q < |stack'| && stack'[q].ifLine == i
    {
      if i == k {
        assert stack'[|stack|].ifLine == i;
      } else if i !in pairs' {
        var q :| 0 <= q < |stack| && stack[q].ifLine == i;
        assert stack'[q].ifLine == i;
      }
    }
  }

  ghost function PairsAfter(l: Line, k: nat, stack: seq<Frame>, pairs: map<nat, nat>): map<nat, nat> {
    if l.Closes() && stack != [] then pairs[stack[|stack| - 1].ifLine := k] else pairs
  }

  ghost predicate PairsExact(m: seq<Line>, pairs: map<nat, nat>) {
    && (forall i <- pairs :: i < |m| && m[i].Opens() && pairs[i] == CloseOf(m, i))
    && (forall i :: 0 <= i < |m| && m[i].Opens() ==> i in pairs)
  }

  lemma AllPairsKnown(m: seq<Line>, pairs: map<nat, nat>)
    requires PairsKnown(m, |m|, [], pairs)
    ensures PairsExact(m, pairs)
  {
  }

  lemma CollectStart(lines: seq<Line>, m: seq<Line>)
    requires m == Mask(lines, Outside)
    ensures m[0..] == m && AtMode(lines, m, 0, Outside) && StackTracks(m, 0, []) && PairsKnown(m, 0, [], map[])
  {
    hide Mask, ModeEnd;
    assert lines[0..] == lines;
  }

  /** Matches conditionals, treating macro bodies as opaque. The pairs are indexed by %if line. */
  method CollectTreeConditionalPairs(lines: seq<Line>) returns (r: Result<map<nat, nat>, ParseError>)
    requires Numbered(lines)
    ensures match Matching(Mask(lines, Outside))
            case Failure(e) => r == Failure(e)
            case Success(_) => r.Success? && PairsExact(Mask(lines, Outside), r.value)
  {
    hide ModeAfter, Mask, ModeEnd, CloseAt, CloseOf, StackTracks, PairsKnown, AtMode;
    ghost var m := Mask(lines, Outside);
    var pairs: map<nat, nat>, stack: seq<Frame> := map[], [];
    var inMacroBody, state := false, LIVE_START;
    var k := 0;
    CollectStart(lines, m);
    while k < |lines|
      invariant 0 <= k <= |lines| == |m|
      invariant state.lua == null || fresh(state.lua)
      invariant AtMode(lines, m, k, ModeOf(inMacroBody, state))
      invariant RunFrames(m, []) == RunFrames(m[k..], stack)
      invariant StackTracks(m, k, stack) && PairsKnown(m, k, stack, pairs)
    {
      var line := lines[k];
      ghost var mode := ModeOf(inMacroBody, state);
      NextMode(lines, m, k, mode);
      assert m[k..][0] == m[k] && m[k..][1..] == m[k + 1..];
      if StepFrames(m[k], stack).Success? {
        TrackStep(m, k, stack);
        PairsStep(m, k, stack, pairs);
      }
      var wasInBody := inMacroBody;
      inMacroBody, state := StepMacroState(line, inMacroBody, state);
      if wasInBody || line.kind.MacroDefinition? {
        k := k + 1;
        continue;
      }
      match line.kind {
        case IfDirective =>
          stack := stack + [Frame(k, None)];
        case EndifDirective =>
          if |stack| == 0 {
            return Failure(UnmatchedEndif(k));
          }
          var frame := stack[|stack| - 1];
          stack := stack[..|stack| - 1];
          pairs := pairs[frame.ifLine := k];
        case ElseDirective | ElifDirective =>
          if |stack| == 0 {
            return Failure(BranchOutside(k));
          }
          var frame := stack[|stack| - 1];
          if frame.elseLine.Some? {
            return Failure(BranchAfterElse(k, frame.elseLine.value));
          }
          if line.kind.ElseDirective? {
            stack := stack[..|stack| - 1] + [frame.(elseLine := Some(k))];
          }
        case _ =>
      }
      k := k + 1;
    }
    if |stack| > 0 {
      return Failure(UnmatchedIf(stack[0].ifLine));
    }
    AllPairsKnown(m, pairs);
    return Success(pairs);
  }

  // ---------------------------------------------------------------- section headers

  ghost predicate HeadersExact(m: seq<Line>, headers: set<nat>) {
    forall i :: i in headers <==> 0 <= i < |m| && m[i].Heads()
  }

  method FindSectionHeaderLines(lines: seq<Line>) returns (headers: set<nat>)
    requires Numbered(lines)
    ensures HeadersExact(Mask(lines, Outside), headers)
  {
    hide ModeAfter, Mask, ModeEnd;
    ghost var m := Mask(lines, Outside);
    headers := {};
    var inMacroBody, state := false, LIVE_START;
    assert lines[0..] == lines && m[0..] == m;
    for k := 0 to |lines|
      invariant state.lua == null || fresh(state.lua)
      invariant AtMode(lines, m, k, ModeOf(inMacroBody, state))
      invariant forall i :: i in headers <==> 0 <= i < k && m[i].Heads()
    {
      NextMode(lines, m, k, ModeOf(inMacroBody, state));
      if !inMacroBody && lines[k].kind.SectionHeader? {
        headers := headers + {k};
      }
      inMacroBody, state := StepMacroState(lines[k], inMacroBody, state);
    }
  }

  method HasSectionHeaderInRange(start: nat, end: nat, headers: set<nat>) returns (found: bool)
    ensures found <==> exists i :: start <= i < end && i in headers
  {
    var lineNum := start;
    while lineNum < end
      invariant start <= lineNum
      invariant forall i :: start <= i < lineNum && i < end ==> i !in headers
    {
      if lineNum in headers {
        return true;
      }
      lineNum := lineNum + 1;
    }
    return false;
  }

  lemma HeaderInRange(m: seq<Line>, headers: set<nat>, start: nat, end: nat)
    requires HeadersExact(m, headers) && start <= end <= |m|
    ensures HasHeader(m[start..end]) <==> exists i :: start <= i < end && i in headers
  {
    if HasHeader(m[start..end]) {
      var l :| l in m[start..end] && l.Heads();
      var i :| 0 <= i < end - start && m[start..end][i] == l;
      assert start + i in headers;
    }
    forall i | start <= i < end && i in headers
      ensures HasHeader(m[start..end])
    {
      assert m[start..end][i - start] == m[i];
    }
  }

  // ---------------------------------------------------------------- section extents

  /** In a balanced range the %endif of an opener lies in the range. */
  lemma CloseInRange(m: seq<Line>, i: nat, end: nat)
    requires i < end <= |m| && Balanced(m[i..end]) && m[i].Opens()
    ensures CloseOf(m, i) < end && CloseOf(m, i) == i + 1 + CloseAt(m[i + 1..end], 1)
    ensures m[CloseOf(m, i)].Closes()
    ensures Balanced(m[CloseOf(m, i) + 1..end])
    ensures BranchBody(m[i + 1..CloseOf(m, i)], Frame(m[i].no, None))
  {
    hide Balanced, BranchBody, CloseAt;
    var r := m[i..end];
    BalancedOpener(r);
    assert r[1..] == m[i + 1..end];
    CloseSameInRange(m, i, end);
    var n := CloseAt(m[i + 1..end], 1);
    assert r[n + 2..] == m[i + n + 2..end] && r[1..][..n] == m[i + 1..i + 1 + n];
    assert r[1..][n] == m[i + 1 + n];
  }

  lemma CloseSameInRange(m: seq<Line>, i: nat, end: nat)
    requires i < end <= |m| && CloseAt(m[i + 1..end], 1) < end - i - 1
    ensures CloseOf(m, i) == i + 1 + CloseAt(m[i + 1..end], 1)
  {
    hide CloseAt;
    assert m[i + 1..] == m[i + 1..end] + m[end..];
    CloseAtPrefix(m[i + 1..end], m[end..], 1);
  }

  /** What a section scan finds at line k of a balanced range. */
  lemma SectionEndStep(m: seq<Line>, k: nat, end: nat)
    requires k < end <= |m| && Balanced(m[k..end])
    ensures m[k].Heads() ==> SectionEnd(m[k..end]) == 0
    ensures m[k].Opens() ==>
              && CloseOf(m, k) < end && Balanced(m[CloseOf(m, k) + 1..end])
              && SectionEnd(m[k..end]) == if HasHeader(m[k + 1..CloseOf(m, k)]) then 0
                                          else CloseOf(m, k) + 1 - k + SectionEnd(m[CloseOf(m, k) + 1..end])
    ensures !m[k].Heads() && !m[k].Opens() ==>
              Balanced(m[k + 1..end]) && SectionEnd(m[k..end]) == 1 + SectionEnd(m[k + 1..end])
  {
    hide CloseAt, Balanced, BranchBody, HasHeader, CloseOf;
    var rest := m[k..end];
    assert rest[0] == m[k] && rest[1..] == m[k + 1..end];
    if m[k].Opens() {
      CloseInRange(m, k, end);
      var n := CloseAt(rest[1..], 1);
      assert rest[1..][..n] == m[k + 1..k + 1 + n] && rest[n + 2..] == m[k + n + 2..end];
    } else {
      BalancedFirstInert(rest);
    }
  }

  method FindTreeSectionEnd(start: nat, end: nat, pairs: map<nat, nat>, headers: set<nat>, ghost m: seq<Line>)
    returns (e: nat)
    requires start <= end <= |m| && Balanced(m[start..end])
    requires PairsExact(m, pairs) && HeadersExact(m, headers)
    ensures e == start + SectionEnd(m[start..end])
  {
    hide CloseAt, Balanced, HasHeader, SectionEnd, CloseOf;
    var lineIdx := start;
    while lineIdx < end
      invariant start <= lineIdx <= end && Balanced(m[lineIdx..end])
      invariant SectionEnd(m[start..end]) == lineIdx - start + SectionEnd(m[lineIdx..end])
    {
      SectionEndStep(m, lineIdx, end);
      if lineIdx in headers {
        return lineIdx;
      }
      if lineIdx in pairs {
        HeaderInRange(m, headers, lineIdx + 1, pairs[lineIdx]);
        var wraps := HasSectionHeaderInRange(lineIdx + 1, pairs[lineIdx], headers);
        if wraps {
          return lineIdx;
        }
        lineIdx := pairs[lineIdx] + 1;
        continue;
      }
      lineIdx := lineIdx + 1;
    }
    return end;
  }

  // ---------------------------------------------------------------- branch directives

  lemma BranchScanStep(m: seq<Line>, k: nat, end: nat, d: int)
    requires k < end <= |m|
    ensures BranchAt(m[k..end], d) ==
            if d == 0 && m[k].Branches() then 0
            else 1 + BranchAt(m[k + 1..end], if m[k].Opens() then d + 1 else if m[k].Closes() then d - 1 else d)
  {
    assert m[k..end][0] == m[k] && m[k..end][1..] == m[k + 1..end];
  }

  /** The next branch directive of the conditional whose body is [start, end), or -1. */
  method FindElseDirectiveLine(lines: seq<Line>, start: nat, end: nat, ghost m: seq<Line>) returns (elseLine: int)
    requires Numbered(lines) && m == Mask(lines, Outside) && start <= end <= |lines|
    requires start < |m| && !m[start].inBody
    ensures var n := BranchAt(m[start..end], 0); elseLine == if n == end - start then -1 else start + n
  {
    hide ModeAfter, Mask, ModeEnd, AtMode, BranchAt;
    var depth, inMacroBody, state := 0, false, LIVE_START;
    StartMode(lines, m, start);
    var lineIdx := start;
    while lineIdx < end
      invariant start <= lineIdx <= end
      invariant state.lua == null || fresh(state.lua)
      invariant AtMode(lines, m, lineIdx, ModeOf(inMacroBody, state))
      invariant BranchAt(m[start..end], 0) == lineIdx - start + BranchAt(m[lineIdx..end], depth)
    {
      var line := lines[lineIdx];
      NextMode(lines, m, lineIdx, ModeOf(inMacroBody, state));
      BranchScanStep(m, lineIdx, end, depth);
      var wasInBody := inMacroBody;
      inMacroBody, state := StepMacroState(line, inMacroBody, state);
      if !wasInBody && !line.kind.MacroDefinition? {
        if line.kind.IfDirective? {
          depth := depth + 1;
        } else if line.kind.EndifDirective? {
          depth := depth - 1;
        } else if depth == 0 && (line.kind.ElseDirective? || line.kind.ElifDirective?) {
          return lineIdx;
        }
      }
      lineIdx := lineIdx + 1;
    }
    return -1;
  }
}
