/** Why conditionals do not match: what each error names. */
module MatchingErrors {
  import opened Wrappers
  import opened Lines
  import opened Conditionals
  import opened Scanning
  import opened Parser
  import opened TreeParser
  import opened Ranges
  import opened RangeSoundness
  import opened MacroBodies
  import opened EnginesAgree

  /** Every conditional opened before line k and closed behind it is on the stack, in order. */
  ghost predicate OpenOnes(m: seq<Line>, k: nat, s: seq<Frame>)
    requires k <= |m|
  {
    && StackTracks(m, k, s)
    && (forall q :: 0 <= q < |s| ==> s[q].ifLine < |m| && m[s[q].ifLine].Opens())
    && (forall p, q :: 0 <= p < q < |s| ==> s[p].ifLine < s[q].ifLine)
    && (forall i :: 0 <= i < k && m[i].Opens() ==> CloseOf(m, i) < k || exists q :: 0 <= q < |s| && s[q].ifLine == i)
  }

  /** The conditional opened at line i is the innermost one around line k. */
  ghost predicate Innermost(m: seq<Line>, k: nat, i: nat) {
    && i < k < |m| && m[i].Opens() && k <= CloseOf(m, i)
    && forall h :: i < h < k && m[h].Opens() ==> CloseOf(m, h) < k
  }

  /** The %else of each conditional on the stack. */
  ghost predicate ElsesKnown(m: seq<Line>, k: nat, s: seq<Frame>) {
    forall q :: 0 <= q < |s| && s[q].elseLine.Some? ==>
                  s[q].elseLine.value < k <= |m| && m[s[q].elseLine.value].IsElse()
                    && Innermost(m, s[q].elseLine.value, s[q].ifLine)
  }

  lemma OpenOnesStep(m: seq<Line>, k: nat, s: seq<Frame>)
    requires k < |m| && m[k].no == k && OpenOnes(m, k, s) && StepFrames(m[k], s).Success?
    ensures OpenOnes(m, k + 1, StepFrames(m[k], s).value)
  {
    hide CloseAt, StepFrames, CloseOf, StackTracks;
    var s' := StepFrames(m[k], s).value;
    StepKeepsIfLines(m[k], s);
    TracksBefore(m, k, s);
    TrackStep(m, k, s);
    forall i | 0 <= i < k + 1 && m[i].Opens()
      ensures CloseOf(m, i) < k + 1 || exists q :: 0 <= q < |s'| && s'[q].ifLine == i
    {
      if i == k {
        assert s'[|s|].ifLine == i;
      } else if q :| 0 <= q < |s| && s[q].ifLine == i {
        if q < |s'| {
          assert s'[q].ifLine == i;
        }
      }
    }
  }

  lemma TracksBefore(m: seq<Line>, k: nat, s: seq<Frame>)
    requires k <= |m| && StackTracks(m, k, s)
    ensures forall q :: 0 <= q < |s| ==> s[q].ifLine < k
  {
  }

  /** One more line of a run. */
  lemma RunOneMore(m: seq<Line>, a: nat, k: nat)
    requires a <= k < |m| && RunFrames(m[a..k], []).Success?
    ensures RunFrames(m[a..k + 1], []) == StepFrames(m[k], RunFrames(m[a..k], []).value)
  {
    hide StepFrames;
    assert m[a..k + 1] == m[a..k] + [m[k]];
    RunConcat(m[a..k], [m[k]], []);
    RunOne(m[k], RunFrames(m[a..k], []).value);
  }

  lemma RunOne(l: Line, s: seq<Frame>)
    ensures RunFrames([l], s) == StepFrames(l, s)
  {
    hide StepFrames;
    assert [l][1..] == [];
  }

  lemma TopIsInnermost(m: seq<Line>, k: nat, s: seq<Frame>)
    requires k < |m| && OpenOnes(m, k, s) && s != []
    ensures Innermost(m, k, s[|s| - 1].ifLine)
  {
    hide CloseAt, CloseOf, StackTracks;
    TracksBefore(m, k, s);
    TopStillOpen(m, k, s);
    forall h | s[|s| - 1].ifLine < h < k && m[h].Opens() ensures CloseOf(m, h) < k {
      if q :| 0 <= q < |s| && s[q].ifLine == h {
        assert false;
      }
    }
  }

  lemma TopStillOpen(m: seq<Line>, k: nat, s: seq<Frame>)
    requires k < |m| && StackTracks(m, k, s) && s != []
    ensures s[|s| - 1].ifLine < k <= CloseOf(m, s[|s| - 1].ifLine)
  {
    hide CloseAt, CloseOf;
  }

  lemma ElsesStep(m: seq<Line>, k: nat, s: seq<Frame>)
    requires k < |m| && m[k].no == k && OpenOnes(m, k, s) && ElsesKnown(m, k, s) && StepFrames(m[k], s).Success?
    ensures ElsesKnown(m, k + 1, StepFrames(m[k], s).value)
  {
    hide CloseAt, CloseOf, OpenOnes, Innermost;
    if s != [] {
      TopIsInnermost(m, k, s);
    }
  }

  /** The conditionals open before line k, when the lines up to it match so far. */
  lemma {:induction false} RunsTo(m: seq<Line>, k: nat)
    requires LabelledInOrder(m) && k <= |m| && RunFrames(m[..k], []).Success?
    ensures OpenOnes(m, k, RunFrames(m[..k], []).value) && ElsesKnown(m, k, RunFrames(m[..k], []).value)
  {
    hide StepFrames, RunFrames, OpenOnes, ElsesKnown, CloseOf, CloseAt;
    if k == 0 {
      RunNothing(m);
    } else {
      assert m[..k] == m[..k - 1] + [m[k - 1]];
      RunConcat(m[..k - 1], [m[k - 1]], []);
      var s := RunFrames(m[..k - 1], []).value;
      RunsTo(m, k - 1);
      RunOne(m[k - 1], s);
      OpenOnesStep(m, k - 1, s);
      ElsesStep(m, k - 1, s);
    }
  }

  lemma RunNothing(m: seq<Line>)
    ensures RunFrames(m[..0], []) == Success([]) && OpenOnes(m, 0, []) && ElsesKnown(m, 0, [])
  {
  }

  /** The line a run fails at. */
  lemma {:induction false} FailsAt(m: seq<Line>, k: nat) returns (at: nat)
    requires k <= |m| && RunFrames(m[..k], []).Failure?
    ensures at < k && RunFrames(m[..at], []).Success?
    ensures StepFrames(m[at], RunFrames(m[..at], []).value) == Failure(RunFrames(m[..k], []).error)
  {
    hide StepFrames;
    assert k > 0 by {
      assert m[..0] == [];
    }
    assert m[..k] == m[..k - 1] + [m[k - 1]];
    RunConcat(m[..k - 1], [m[k - 1]], []);
    if RunFrames(m[..k - 1], []).Failure? {
      at := FailsAt(m, k - 1);
    } else {
      at := k - 1;
      RunOne(m[at], RunFrames(m[..at], []).value);
    }
  }

  /** What the line, or lines, of an error are. */
  ghost predicate Names(m: seq<Line>, e: ParseError) {
    match e
    case UnmatchedEndif(k) => k < |m| && m[k].Closes() && Balanced(m[..k])
    case BranchOutside(k) => k < |m| && m[k].Branches() && Balanced(m[..k])
    case BranchAfterElse(k, j) =>
      && k < |m| && m[k].Branches() && j < k && m[j].IsElse()
      && exists i :: Innermost(m, j, i) && Innermost(m, k, i)
    case UnmatchedIf(i) =>
      && i < |m| && m[i].Opens() && CloseOf(m, i) == |m|
      && forall h :: 0 <= h < i && m[h].Opens() ==> CloseOf(m, h) < |m|
    case UnterminatedMacro(_) => false
  }

  /** Why matching fails: an %endif or a branch behind lines that match up, so that it has no
      conditional; a branch behind the %else of the innermost conditional around both; or the
      first %if that no %endif closes. */
  lemma MatchingNames(m: seq<Line>)
    requires LabelledInOrder(m) && Matching(m).Failure?
    ensures Names(m, Matching(m).error)
  {
    hide RunFrames, OpenOnes, ElsesKnown, CloseOf, CloseAt, Innermost;
    assert m[..|m|] == m;
    if RunFrames(m, []).Failure? {
      var at := FailsAt(m, |m|);
      var s := RunFrames(m[..at], []).value;
      RunsTo(m, at);
      if s != [] {
        TopIsInnermost(m, at, s);
        ElseOfTop(m, at, s);
      }
    } else {
      RunsTo(m, |m|);
      FirstOpenOne(m, RunFrames(m, []).value);
    }
  }

  lemma ElseOfTop(m: seq<Line>, k: nat, s: seq<Frame>)
    requires ElsesKnown(m, k, s) && s != []
    ensures var top := s[|s| - 1];
            top.elseLine.Some? ==>
              top.elseLine.value < k <= |m| && m[top.elseLine.value].IsElse()
                && Innermost(m, top.elseLine.value, top.ifLine)
  {
    hide Innermost;
  }

  lemma FirstOpenOne(m: seq<Line>, s: seq<Frame>)
    requires OpenOnes(m, |m|, s) && s != []
    ensures var i := s[0].ifLine;
            && i < |m| && m[i].Opens() && CloseOf(m, i) == |m|
            && forall h :: 0 <= h < i && m[h].Opens() ==> CloseOf(m, h) < |m|
  {
    hide CloseAt, CloseOf;
    forall h | 0 <= h < s[0].ifLine && m[h].Opens() ensures CloseOf(m, h) < |m| {
      if q :| 0 <= q < |s| && s[q].ifLine == h {
        assert false;
      }
    }
    assert m[|m|..] == [];
  }

  // ---------------------------------------------------------------- the open macro

  lemma {:induction false} NoneDefinesBehind(ls: seq<Line>)
    ensures var n := LastDefinition(ls);
            (exists k :: 0 <= k < |ls| && ls[k].Defines())
            ==> exists k :: 0 <= k < |ls| && ls[k].no == n && ls[k].Defines() && forall j :: k < j < |ls| ==>
               !ls[j].Defines()
  {
    if ls != [] && !ls[|ls| - 1].Defines() {
      var front := ls[..|ls| - 1];
      NoneDefinesBehind(front);
      if k :| 0 <= k < |ls| && ls[k].Defines() {
        assert front[k].Defines();
        var i :| 0 <= i < |front| && front[i].no == LastDefinition(front) && front[i].Defines()
                 && forall j :: i < j < |front| ==> !front[j].Defines();
        assert ls[i].no == LastDefinition(ls) && ls[i].Defines();
        assert forall j :: i < j < |front| ==> ls[j] == front[j];
      }
    }
  }

  /** Outside of bodies, only a definition starts one. */
  lemma {:induction false} StaysOutside(raw: seq<string>, k: nat)
    requires k <= |raw| == |Masked(raw)| && ModeEnd(Label(raw)[..k], Outside) == Outside
    requires forall j :: k <= j < |raw| ==> !Masked(raw)[j].Defines()
    ensures ModeEnd(Label(raw), Outside) == Outside
    decreases |raw| - k
  {
    hide ModeEnd, Mask, Classify;
    if k == |raw| {
      assert Label(raw)[..k] == Label(raw);
    } else {
      MaskNext(raw, k);
      StaysOutside(raw, k + 1);
    }
  }

  /** The macro that an error names is the last one defined, and its body runs to the end. */
  lemma OpenMacroNamed(raw: seq<string>)
    requires EndsInMacro(raw)
    ensures var m, n := Masked(raw), LastDefinition(Masked(raw));
            n < |m| && m[n].Defines() && forall k :: n < k < |m| ==> m[k].inBody
  {
    hide ModeEnd, Mask, Classify, Label, LastDefinition;
    var m := Masked(raw);
    MaskedInOrder(raw);
    NoneDefinesBehind(m);
    if forall k :: 0 <= k < |m| ==> !m[k].Defines() {
      StartsOutsideAll(raw);
      StaysOutside(raw, 0);
    }
    var n := LastDefinition(m);
    forall k | n < k < |m| ensures m[k].inBody {
      if !m[k].inBody {
        MaskNext(raw, k);
        NotDefined(raw, k);
        StaysOutside(raw, k + 1);
        assert false;
      }
    }
  }

  lemma StartsOutsideAll(raw: seq<string>)
    ensures ModeEnd(Label(raw)[..0], Outside) == Outside
  {
  }

  lemma NotDefined(raw: seq<string>, k: nat)
    requires k < |raw| == |Masked(raw)| && !Masked(raw)[k].inBody && !Masked(raw)[k].Defines()
    ensures ModeAfter(Label(raw)[k], Outside) == Outside
  {
    hide Mask, Classify;
  }

  /** What each error of the parser names. */
  lemma ParseNames(raw: seq<string>)
    requires Parse(raw).Failure?
    ensures var m, e := Masked(raw), Parse(raw).error;
            if e.UnterminatedMacro? then e.line < |m| && m[e.line].Defines() && forall k :: e.line < k < |m| ==>
              m[k].inBody
            else Names(m, e)
  {
    hide Masked, EndsInMacro, Names, Matching, LastDefinition;
    MaskedInOrder(raw);
    if Matching(Masked(raw)).Failure? {
      MatchingNames(Masked(raw));
      MatchingKinds(Masked(raw));
    } else {
      OpenMacroNamed(raw);
    }
  }

  lemma MatchingKinds(m: seq<Line>)
    ensures Matching(m).Failure? && Names(m, Matching(m).error) ==> !Matching(m).error.UnterminatedMacro?
  {
    hide Matching;
  }

  // ---------------------------------------------------------------- the line-oriented engine

  /** The openers before line k are closed before it, or on the stack. */
  ghost predicate Unclosed(m: seq<Line>, k: nat, stack: seq<nat>)
    requires k <= |m|
  {
    && Tracks(m, k, stack)
    && (forall p, q :: 0 <= p < q < |stack| ==> stack[p] < stack[q])
    && forall i :: 0 <= i < k && m[i].Opens() ==> CloseOf(m, i) < k || i in stack
  }

  /** The same without branches: what the pairing of the line-oriented engine fails on. */
  ghost predicate NamesUnpaired(m: seq<Line>, e: ParseError) {
    match e
    case UnmatchedEndif(k) =>
      k < |m| && m[k].Closes() && forall i :: 0 <= i < k && m[i].Opens() ==> CloseOf(m, i) < k
    case UnmatchedIf(i) =>
      && i < |m| && m[i].Opens() && CloseOf(m, i) == |m|
      && forall h :: 0 <= h < i && m[h].Opens() ==> CloseOf(m, h) < |m|
    case _ => false
  }

  lemma UnclosedStep(m: seq<Line>, k: nat, stack: seq<nat>, stack': seq<nat>)
    requires k < |m| && Unclosed(m, k, stack) && (m[k].Closes() ==> stack != [])
    requires stack' == if m[k].Opens() then stack + [k] else if m[k].Closes() then stack[..|stack| - 1] else stack
    ensures Unclosed(m, k + 1, stack')
  {
    hide CloseAt, CloseOf, Tracks;
    TracksStep(m, k, stack, stack');
    StackBelowLine(m, k, stack);
    if m[k].Closes() {
      var top := stack[|stack| - 1];
      assert forall i <- stack :: i == top || i in stack';
    }
  }

  lemma StackBelowLine(m: seq<Line>, k: nat, stack: seq<nat>)
    requires k <= |m| && Tracks(m, k, stack)
    ensures forall q :: 0 <= q < |stack| ==> stack[q] < k
  {
  }

  lemma {:induction false} PairingRuns(m: seq<Line>, k: nat, stack: seq<nat>)
    requires LabelledInOrder(m) && k <= |m| && Unclosed(m, k, stack)
    ensures var r := RunPairs(m[k..], stack);
            && (r.Stuck? ==> NamesUnpaired(m, UnmatchedEndif(r.line)))
            && (r.Ran? && r.stack != [] ==> NamesUnpaired(m, UnmatchedIf(r.stack[0])))
    decreases |m| - k
  {
    hide CloseAt, CloseOf, Tracks;
    if k == |m| {
      assert m[k..] == [];
      if stack != [] {
        LastUnclosed(m, stack);
      }
    } else {
      assert m[k..][0] == m[k] && m[k..][1..] == m[k + 1..];
      if !(m[k].Closes() && stack == []) {
        var stack' := if m[k].Opens() then stack + [k] else if m[k].Closes() then stack[..|stack| - 1] else stack;
        UnclosedStep(m, k, stack, stack');
        PairingRuns(m, k + 1, stack');
      }
    }
  }

  lemma LastUnclosed(m: seq<Line>, stack: seq<nat>)
    requires Unclosed(m, |m|, stack) && stack != []
    ensures NamesUnpaired(m, UnmatchedIf(stack[0]))
  {
    hide CloseOf;
    assert m[|m|..] == [];
    assert forall i <- stack :: stack[0] <= i;
  }

  /** An %endif before which every conditional is closed, or the first %if that none closes. */
  lemma PairingNames(m: seq<Line>)
    requires LabelledInOrder(m) && ConditionalPairs(m).Failure?
    ensures NamesUnpaired(m, ConditionalPairs(m).error)
  {
    hide NamesUnpaired, RunPairs, CloseOf;
    assert m[0..] == m;
    PairingRuns(m, 0, []);
  }
}
