/** Matching of %if ... %endif, as a stack automaton over labelled lines. */
module Conditionals {
  import opened Wrappers
  import opened Lines

  datatype ParseError =
    | UnmatchedEndif(line: nat)
    | BranchOutside(line: nat)
    | BranchAfterElse(line: nat, elseLine: nat)
    | UnmatchedIf(line: nat)
    | UnterminatedMacro(line: nat)

  /** An open conditional and, once seen, its terminal %else. */
  datatype Frame = Frame(ifLine: nat, elseLine: Option<nat>)

  function StepFrames(l: Line, s: seq<Frame>): Result<seq<Frame>, ParseError> {
    if l.Opens() then Success(s + [Frame(l.no, None)])
    else if l.Closes() then
      if s == [] then Failure(UnmatchedEndif(l.no)) else Success(s[..|s| - 1])
    else if l.Branches() then
      if s == [] then Failure(BranchOutside(l.no))
      else
        var top := s[|s| - 1];
        if top.elseLine.Some? then Failure(BranchAfterElse(l.no, top.elseLine.value))
        else if l.IsElse() then Success(s[..|s| - 1] + [top.(elseLine := Some(l.no))])
        else Success(s)
    else Success(s)
  }

  function RunFrames(ls: seq<Line>, s: seq<Frame>): Result<seq<Frame>, ParseError> {
    if ls == [] then Success(s)
    else match StepFrames(ls[0], s)
      case Failure(e) => Failure(e)
      case Success(s') => RunFrames(ls[1..], s')
  }

  /** Every conditional opened is closed, with its branch directives in order. */
  predicate Balanced(ls: seq<Line>) {
    RunFrames(ls, []) == Success([])
  }

  /** The first position that closes `d` open conditionals, or |ls|. */
  function CloseAt(ls: seq<Line>, d: nat): (n: nat)
    requires d > 0
    ensures n <= |ls|
    ensures n < |ls| ==> ls[n].Closes()
  {
    if ls == [] then 0
    else if ls[0].Closes() then if d == 1 then 0 else 1 + CloseAt(ls[1..], d - 1)
    else 1 + CloseAt(ls[1..], if ls[0].Opens() then d + 1 else d)
  }

  /** The first branch directive at relative depth zero, or |ls|. */
  function BranchAt(ls: seq<Line>, d: int): (n: nat)
    ensures n <= |ls|
    ensures n < |ls| ==> ls[n].Branches()
  {
    if ls == [] then 0
    else if ls[0].Opens() then 1 + BranchAt(ls[1..], d + 1)
    else if ls[0].Closes() then 1 + BranchAt(ls[1..], d - 1)
    else if d == 0 && ls[0].Branches() then 0
    else 1 + BranchAt(ls[1..], d)
  }

  // ---------------------------------------------------------------- composition

  lemma {:induction false} RunConcat(a: seq<Line>, b: seq<Line>, s: seq<Frame>)
    ensures RunFrames(a + b, s)
         == match RunFrames(a, s) case Failure(e) => Failure(e) case Success(s') => RunFrames(b, s')
  {
    if a == [] {
      assert a + b == b;
    } else {
      assert (a + b)[1..] == a[1..] + b;
      match StepFrames(a[0], s)
      case Failure(_) =>
      case Success(s') => RunConcat(a[1..], b, s');
    }
  }

  lemma StepAbove(l: Line, below: seq<Frame>, s: seq<Frame>)
    requires StepFrames(l, s).Success?
    ensures StepFrames(l, below + s) == Success(below + StepFrames(l, s).value)
  {
    if l.Opens() {
      assert (below + s) + [Frame(l.no, None)] == below + (s + [Frame(l.no, None)]);
    } else if s != [] {
      var most := s[..|s| - 1];
      assert (below + s)[..|below + s| - 1] == below + most && (below + s)[|below + s| - 1] == s[|s| - 1];
      assert forall top :: (below + most) + [top] == below + (most + [top]);
    }
  }

  /** A run that succeeds on a stack does the same above any other stack. */
  lemma {:induction false} RunAbove(ls: seq<Line>, below: seq<Frame>, s: seq<Frame>)
    requires RunFrames(ls, s).Success?
    ensures RunFrames(ls, below + s) == Success(below + RunFrames(ls, s).value)
  {
    if ls != [] {
      var s' := StepFrames(ls[0], s).value;
      StepAbove(ls[0], below, s);
      RunAbove(ls[1..], below, s');
    }
  }

  lemma BalancedConcat(a: seq<Line>, b: seq<Line>)
    requires Balanced(a)
    ensures Balanced(a + b) <==> Balanced(b)
  {
    RunConcat(a, b, []);
  }

  lemma BalancedAnywhere(a: seq<Line>, s: seq<Frame>)
    requires Balanced(a)
    ensures RunFrames(a, s) == Success(s)
  {
    RunAbove(a, s, []);
    assert s + [] == s;
  }

  // ---------------------------------------------------------------- taking apart

  /** What the first close of the outermost of |s| open conditionals splits. */
  lemma {:induction false} RunToClose(ls: seq<Line>, s: seq<Frame>)
    requires s != [] && RunFrames(ls, s) == Success([])
    ensures var n := CloseAt(ls, |s|);
            && n < |ls|
            && Balanced(ls[n + 1..])
            && CloseAt(ls[..n], |s|) == n
            && RunFrames(ls[..n], s).Success? && |RunFrames(ls[..n], s).value| == 1
  {
    var n := CloseAt(ls, |s|);
    var s' := StepFrames(ls[0], s).value;
    StepSize(ls[0], s);
    hide StepFrames;
    if ls[0].Closes() && |s| == 1 {
      assert ls[..0] == [];
    } else {
      RunToClose(ls[1..], s');
      assert ls[1..][..n - 1] == ls[..n][1..] && ls[1..][n..] == ls[n + 1..];
    }
  }

  lemma StepSize(l: Line, s: seq<Frame>)
    requires StepFrames(l, s).Success?
    ensures |StepFrames(l, s).value| == if l.Opens() then |s| + 1 else if l.Closes() then |s| - 1 else |s|
  {
  }

  /** A step above a frame that neither closes nor branches it happens in the upper stack. */
  lemma StepWithin(l: Line, f: Frame, s: seq<Frame>) returns (s': seq<Frame>)
    requires StepFrames(l, [f] + s).Success?
    requires !(l.Closes() && s == []) && !(l.Branches() && s == [])
    ensures StepFrames(l, s) == Success(s') && StepFrames(l, [f] + s) == Success([f] + s')
    ensures |s'| == if l.Opens() then |s| + 1 else if l.Closes() then |s| - 1 else |s|
  {
    assert s != [] ==> ([f] + s)[|s|] == s[|s| - 1];
    s' := StepFrames(l, s).value;
    StepAbove(l, [f], s);
  }

  /** Position n splits lines run above `f`: balanced before, then the frame's own branch. */
  ghost predicate SplitAt(ls: seq<Line>, f: Frame, s: seq<Frame>, n: nat) {
    && n <= |ls| && RunFrames(ls[..n], s) == Success([])
    && (n < |ls| ==>
          && f.elseLine.None? && CloseAt(ls[n + 1..], 1) == |ls| - n - 1
          && StepFrames(ls[n], [f]).Success?
          && RunFrames(ls[n + 1..], StepFrames(ls[n], [f]).value) == RunFrames(ls, [f] + s))
  }

  lemma SplitStep(ls: seq<Line>, f: Frame, s: seq<Frame>, s': seq<Frame>, n: nat)
    requires ls != [] && SplitAt(ls[1..], f, s', n)
    requires StepFrames(ls[0], s) == Success(s') && StepFrames(ls[0], [f] + s) == Success([f] + s')
    ensures SplitAt(ls, f, s, n + 1)
  {
    hide StepFrames, CloseAt;
    assert ls[1..][..n] == ls[..n + 1][1..];
    if n + 1 < |ls| {
      assert ls[1..][n + 1..] == ls[n + 2..] && ls[1..][n] == ls[n + 1];
    }
  }

  lemma BranchAtStep(l: Line, rest: seq<Line>, d: nat, d': nat)
    requires d' == (if l.Opens() then d + 1 else if l.Closes() then d - 1 else d) && !(l.Branches() && d == 0)
    ensures BranchAt([l] + rest, d) == 1 + BranchAt(rest, d')
    ensures CloseAt([l] + rest, d + 1) == 1 + |rest| ==> CloseAt(rest, d' + 1) == |rest|
  {
    assert ([l] + rest)[1..] == rest;
  }

  /** Above a frame that is never closed, lines up to the frame's next branch are balanced. */
  lemma {:induction false} RunToBranch(ls: seq<Line>, f: Frame, s: seq<Frame>)
    requires CloseAt(ls, |s| + 1) == |ls|
    requires RunFrames(ls, [f] + s).Success? && |RunFrames(ls, [f] + s).value| == 1
    ensures SplitAt(ls, f, s, BranchAt(ls, |s|))
  {
    hide StepFrames, SplitAt, BranchAt, CloseAt;
    var n := BranchAt(ls, |s|);
    if ls == [] {
      RunToBranchNow(ls, f, s);
    } else if ls[0].Branches() && s == [] {
      RunToBranchNow(ls, f, s);
    } else {
      if s == [] {
        NotClosedFirst(ls);
      }
      var s' := StepWithin(ls[0], f, s);
      assert ls == [ls[0]] + ls[1..];
      BranchAtStep(ls[0], ls[1..], |s|, |s'|);
      RunToBranch(ls[1..], f, s');
      SplitStep(ls, f, s, s', n - 1);
    }
  }

  lemma NotClosedFirst(ls: seq<Line>)
    requires ls != [] && CloseAt(ls, 1) == |ls|
    ensures !ls[0].Closes()
  {
  }

  lemma RunToBranchNow(ls: seq<Line>, f: Frame, s: seq<Frame>)
    requires CloseAt(ls, |s| + 1) == |ls|
    requires RunFrames(ls, [f] + s).Success? && |RunFrames(ls, [f] + s).value| == 1
    requires ls == [] || (ls[0].Branches() && s == [])
    ensures BranchAt(ls, |s|) == 0 && SplitAt(ls, f, s, 0)
  {
    hide StepFrames;
    if ls != [] {
      assert [f] + s == [f];
      BranchOnce(ls[0], f);
      assert ls[..0] == [] && ls[0 + 1..] == ls[1..];
    }
  }

  lemma BranchOnce(l: Line, f: Frame)
    requires l.Branches() && StepFrames(l, [f]).Success?
    ensures f.elseLine.None?
  {
  }

  /** The lines between an open directive and its %endif. */
  predicate BranchBody(ls: seq<Line>, f: Frame) {
    CloseAt(ls, 1) == |ls| && RunFrames(ls, [f]).Success? && |RunFrames(ls, [f]).value| == 1
  }

  /** %if body %endif at the front of balanced lines. */
  lemma BalancedOpener(ls: seq<Line>)
    requires Balanced(ls) && ls != [] && ls[0].Opens()
    ensures var n := CloseAt(ls[1..], 1);
            && n < |ls| - 1
            && Balanced(ls[n + 2..])
            && BranchBody(ls[1..][..n], Frame(ls[0].no, None))
  {
    var f := Frame(ls[0].no, None);
    assert [] + [f] == [f];
    RunToClose(ls[1..], [f]);
    assert ls[1..][CloseAt(ls[1..], 1) + 1..] == ls[CloseAt(ls[1..], 1) + 2..];
  }

  /** Lines run above an open conditional, between its directives, are balanced as a whole. */
  lemma BalancedAround(opener: Line, body: seq<Line>, closer: Line)
    requires opener.Opens() && closer.Closes()
    requires var run := RunFrames(body, [Frame(opener.no, None)]); run.Success? && |run.value| == 1
    ensures Balanced([opener] + body + [closer])
  {
    var f := Frame(opener.no, None);
    var all := [opener] + body + [closer];
    assert all[1..] == body + [closer] && [] + [f] == [f];
    RunConcat(body, [closer], [f]);
    var end := RunFrames(body, [f]).value;
    assert end[..0] == [];
    assert [closer][1..] == [];
  }

  /** A branch body between its directives is balanced as a whole. */
  lemma BalancedWhole(opener: Line, body: seq<Line>, closer: Line)
    requires opener.Opens() && closer.Closes() && BranchBody(body, Frame(opener.no, None))
    ensures Balanced([opener] + body + [closer])
  {
    hide RunFrames, Balanced;
    BalancedAround(opener, body, closer);
  }

  lemma BranchBodySplit(ls: seq<Line>, f: Frame)
    requires BranchBody(ls, f)
    ensures var n := BranchAt(ls, 0);
            && Balanced(ls[..n])
            && (f.elseLine.Some? ==> n == |ls|)
            && (n < |ls| && ls[n].IsElif() ==> BranchBody(ls[n + 1..], f))
            && (n < |ls| && ls[n].IsElse() ==> Balanced(ls[n + 1..]))
  {
    assert [f] + [] == [f];
    RunToBranch(ls, f, []);
    var n := BranchAt(ls, 0);
    if n < |ls| {
      BranchStep(ls[n], f);
      hide StepFrames, BranchAt, CloseAt, RunFrames;
      assert |ls[n + 1..]| == |ls| - n - 1;
      if ls[n].IsElse() {
        NoMoreBranches(ls[n + 1..], f.(elseLine := Some(ls[n].no)));
      }
    }
  }

  lemma BranchStep(l: Line, f: Frame)
    requires l.Branches() && f.elseLine.None?
    ensures StepFrames(l, [f]) == Success([if l.IsElse() then f.(elseLine := Some(l.no)) else f])
  {
    assert forall f' :: [f][..0] + [f'] == [f'];
  }

  lemma NoMoreBranches(ls: seq<Line>, f: Frame)
    requires BranchBody(ls, f) && f.elseLine.Some?
    ensures Balanced(ls)
  {
    assert [f] + [] == [f];
    RunToBranch(ls, f, []);
    assert ls[..|ls|] == ls;
  }

  /** Closing looks past lines run on a stack. */
  lemma {:induction false} CloseOverRun(seg: seq<Line>, rest: seq<Line>, s: seq<Frame>, d: nat)
    requires d > 0 && RunFrames(seg, s).Success?
    ensures CloseAt(seg + rest, d + |s|) == |seg| + CloseAt(rest, d + |RunFrames(seg, s).value|)
  {
    hide StepFrames, CloseAt;
    if seg == [] {
      assert seg + rest == rest;
    } else {
      var s' := StepFrames(seg[0], s).value;
      StepSize(seg[0], s);
      NothingToClose(seg[0], s);
      assert seg + rest == [seg[0]] + (seg[1..] + rest);
      CloseAtCons(seg[0], seg[1..] + rest, d + |s|);
      CloseOverRun(seg[1..], rest, s', d);
    }
  }

  lemma NothingToClose(l: Line, s: seq<Frame>)
    requires StepFrames(l, s).Success?
    ensures l.Closes() ==> s != []
  {
  }

  lemma CloseAtCons(l: Line, rest: seq<Line>, d: nat)
    requires d > 0
    ensures CloseAt([l] + rest, d) ==
            if l.Closes() && d == 1 then 0
            else 1 + CloseAt(rest, if l.Closes() then d - 1 else if l.Opens() then d + 1 else d)
  {
    assert ([l] + rest)[1..] == rest;
  }

  lemma {:induction false} CloseAtPrefix(a: seq<Line>, b: seq<Line>, d: nat)
    requires d > 0
    ensures CloseAt(a, d) < |a| ==> CloseAt(a + b, d) == CloseAt(a, d)
  {
    if a != [] && !(a[0].Closes() && d == 1) {
      assert (a + b)[1..] == a[1..] + b;
      CloseAtPrefix(a[1..], b, if a[0].Closes() then d - 1 else if a[0].Opens() then d + 1 else d);
    }
  }
}
