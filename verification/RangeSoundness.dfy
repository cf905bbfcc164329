/** Removing balanced ranges breaks no conditional: every surviving %if keeps its %endif and
    exactly its own %else and %elif directives. */
module RangeSoundness {
  import opened Lines
  import opened Conditionals
  import opened TreeParser
  import opened Ranges

  // ---------------------------------------------------------------- closing positions

  lemma {:induction false} CloseAtGrows(ls: seq<Line>, d: nat, e: nat)
    requires 0 < d <= e
    ensures CloseAt(ls, d) <= CloseAt(ls, e)
    ensures d < e && CloseAt(ls, d) < |ls| ==> CloseAt(ls, d) < CloseAt(ls, e)
  {
    if ls != [] && !(ls[0].Closes() && d == 1) {
      var step := if ls[0].Closes() then -1 else if ls[0].Opens() then 1 else 0;
      CloseAtGrows(ls[1..], d + step, e + step);
    }
  }

  /** Before its %endif, an opener is still open at some depth. */
  lemma {:induction false} StillOpen(ls: seq<Line>, i: nat, j: nat) returns (d: nat)
    requires i < |ls| && i < j <= CloseOf(ls, i)
    ensures d > 0 && CloseOf(ls, i) == j + CloseAt(ls[j..], d)
    decreases j
  {
    hide CloseAt;
    if j == i + 1 {
      d := 1;
    } else {
      var c := StillOpen(ls, i, j - 1);
      CloseAtStep(ls, j - 1, c);
      d := if ls[j - 1].Closes() then c - 1 else if ls[j - 1].Opens() then c + 1 else c;
    }
  }

  /** Conditionals nest: one opened inside another is closed before it. */
  lemma ClosesNest(ls: seq<Line>, i: nat, j: nat)
    requires i < |ls| && i < j < CloseOf(ls, i) && ls[j].Opens() && CloseOf(ls, j) < |ls|
    ensures CloseOf(ls, j) < CloseOf(ls, i)
  {
    var d := StillOpen(ls, i, j);
    hide CloseAt;
    CloseAtStep(ls, j, d);
    CloseAtGrows(ls[j + 1..], 1, d + 1);
  }

  // ---------------------------------------------------------------- what the pairs are

  ghost predicate Tracks(ls: seq<Line>, k: nat, stack: seq<nat>)
    requires k <= |ls|
  {
    forall q :: 0 <= q < |stack| ==>
      && stack[q] < k && ls[stack[q]].Opens()
      && CloseOf(ls, stack[q]) == k + CloseAt(ls[k..], |stack| - q)
  }

  lemma TracksStep(ls: seq<Line>, k: nat, stack: seq<nat>, stack': seq<nat>)
    requires k < |ls| && Tracks(ls, k, stack)
    requires stack' == if ls[k].Opens() then stack + [k]
                       else if ls[k].Closes() && stack != [] then stack[..|stack| - 1] else stack
    requires ls[k].Closes() ==> stack != []
    ensures Tracks(ls, k + 1, stack')
    ensures ls[k].Closes() ==> CloseOf(ls, stack[|stack| - 1]) == k
  {
    hide CloseAt, CloseOf;
    forall q | 0 <= q < |stack'|
      ensures stack'[q] < k + 1 && ls[stack'[q]].Opens()
      ensures CloseOf(ls, stack'[q]) == k + 1 + CloseAt(ls[k + 1..], |stack'| - q)
    {
      if q < |stack| {
        CloseAtStep(ls, k, |stack| - q);
      } else {
        CloseOfNew(ls, k);
      }
    }
    if ls[k].Closes() {
      CloseAtStep(ls, k, 1);
    }
  }

  predicate SortedByEndif(pairs: seq<Pair>) {
    forall i, j :: 0 <= i < j < |pairs| ==> pairs[i].endifLine < pairs[j].endifLine
  }

  /** Each %if is paired once with its own %endif, each %endif is used, and the pairs come
      innermost first: in the order of their %endif. */
  ghost predicate ExactPairs(ls: seq<Line>, pairs: seq<Pair>) {
    && SortedByEndif(pairs)
    && (forall p <- pairs ::
          p.ifLine < p.endifLine < |ls| && ls[p.ifLine].Opens() && p.endifLine == CloseOf(ls, p.ifLine))
    && (forall i :: 0 <= i < |ls| && ls[i].Opens() ==> Pair(i, CloseOf(ls, i)) in pairs)
    && (forall k :: 0 <= k < |ls| && ls[k].Closes() ==> exists p <- pairs :: p.endifLine == k)
  }

  ghost predicate ExactFrom(ls: seq<Line>, k: nat, stack: seq<nat>, pairs: seq<Pair>)
    requires k <= |ls|
  {
    && SortedByEndif(pairs)
    && (forall p <- pairs :: p.ifLine < p.endifLine < |ls| && k <= p.endifLine
                             && ls[p.ifLine].Opens() && p.endifLine == CloseOf(ls, p.ifLine))
    && (forall i :: k <= i < |ls| && ls[i].Opens() ==> Pair(i, CloseOf(ls, i)) in pairs)
    && (forall i <- stack :: i < |ls| ==> Pair(i, CloseOf(ls, i)) in pairs)
    && (forall c :: k <= c < |ls| && ls[c].Closes() ==> exists p <- pairs :: p.endifLine == c)
  }

  lemma {:induction false} RunPairsExact(ls: seq<Line>, k: nat, stack: seq<nat>)
    requires LabelledInOrder(ls) && k <= |ls| && Tracks(ls, k, stack)
    requires RunPairs(ls[k..], stack).Ran? && RunPairs(ls[k..], stack).stack == []
    ensures ExactFrom(ls, k, stack, RunPairs(ls[k..], stack).pairs)
    decreases |ls| - k
  {
    hide Tracks, CloseOf, CloseAt;
    if k < |ls| {
      assert ls[k..][0] == ls[k] && ls[k..][1..] == ls[k + 1..];
      var stack' := if ls[k].Opens() then stack + [k] else if ls[k].Closes() then stack[..|stack| - 1] else stack;
      TracksStep(ls, k, stack, stack');
      RunPairsExact(ls, k + 1, stack');
      var rest := RunPairs(ls[k + 1..], stack').pairs;
      if ls[k].Closes() {
        var top := stack[|stack| - 1];
        StackTop(ls, k, stack);
        ExactAfterClose(ls, k, stack, rest);
      } else if ls[k].Opens() {
        ExactAfterOpen(ls, k, stack, rest);
      }
    }
  }

  lemma StackTop(ls: seq<Line>, k: nat, stack: seq<nat>)
    requires k < |ls| && Tracks(ls, k, stack) && stack != []
    ensures stack[|stack| - 1] < k && ls[stack[|stack| - 1]].Opens()
  {
  }

  lemma ExactAfterOpen(ls: seq<Line>, k: nat, stack: seq<nat>, rest: seq<Pair>)
    requires k < |ls| && ls[k].Opens() && ExactFrom(ls, k + 1, stack + [k], rest)
    ensures ExactFrom(ls, k, stack, rest)
  {
    hide CloseOf;
    assert (stack + [k])[|stack|] == k;
    assert forall i <- stack :: i in stack + [k];
  }

  lemma ExactAfterClose(ls: seq<Line>, k: nat, stack: seq<nat>, rest: seq<Pair>)
    requires k < |ls| && ls[k].Closes() && stack != []
    requires var top := stack[|stack| - 1]; top < k && ls[top].Opens() && CloseOf(ls, top) == k
    requires ExactFrom(ls, k + 1, stack[..|stack| - 1], rest)
    ensures ExactFrom(ls, k, stack, [Pair(stack[|stack| - 1], k)] + rest)
  {
    hide CloseOf;
    var top := stack[|stack| - 1];
    var pairs := [Pair(top, k)] + rest;
    assert pairs[0] == Pair(top, k) && forall p <- rest :: p in pairs;
    forall i, j | 0 <= i < j < |pairs| ensures pairs[i].endifLine < pairs[j].endifLine {
      assert pairs[j] in rest;
    }
    forall i | i in stack && i < |ls| ensures Pair(i, CloseOf(ls, i)) in pairs {
      var q :| 0 <= q < |stack| && stack[q] == i;
      if q < |stack| - 1 {
        assert stack[..|stack| - 1][q] == i;
      }
    }
    forall c | k <= c < |ls| && ls[c].Closes() ensures exists p <- pairs :: p.endifLine == c {
      if c == k {
        assert pairs[0].endifLine == c;
      } else {
        var p :| p in rest && p.endifLine == c;
        assert p in pairs;
      }
    }
  }

  /** The pairs returned are exactly the matching %if/%endif of the file. */
  lemma PairsAreExact(ls: seq<Line>)
    requires LabelledInOrder(ls) && ConditionalPairs(ls).Success?
    ensures ExactPairs(ls, ConditionalPairs(ls).value)
  {
    assert ls[0..] == ls;
    RunPairsExact(ls, 0, []);
  }

  /** Two pairs never cross. */
  lemma PairsDoNotCross(ls: seq<Line>, pairs: seq<Pair>, p: Pair, q: Pair)
    requires ExactPairs(ls, pairs) && p in pairs && q in pairs && p.ifLine < q.ifLine < p.endifLine
    ensures q.endifLine < p.endifLine
  {
    ClosesNest(ls, p.ifLine, q.ifLine);
  }

  lemma {:induction false} FirstEnclosingFacts(pairs: seq<Pair>, k: nat)
    ensures match FirstEnclosing(pairs, k)
            case None => forall p <- pairs :: !(p.ifLine <= k <= p.endifLine)
            case Some(p) =>
              && p in pairs && p.ifLine <= k <= p.endifLine
              && (SortedByEndif(pairs) ==> forall q <- pairs :: q.ifLine <= k <= q.endifLine ==>
                 p.endifLine <= q.endifLine)
  {
    if pairs != [] && !(pairs[0].ifLine <= k <= pairs[0].endifLine) {
      FirstEnclosingFacts(pairs[1..], k);
    }
  }

  /** Because the pairs come in the order of their %endif, the first pair found around a line
      is the innermost one. */
  lemma FirstEnclosingIsInnermost(ls: seq<Line>, pairs: seq<Pair>, k: nat)
    requires ExactPairs(ls, pairs) && FirstEnclosing(pairs, k).Some?
    ensures var p := FirstEnclosing(pairs, k).value;
            forall q <- pairs :: q.ifLine <= k <= q.endifLine ==> q.ifLine <= p.ifLine && p.endifLine <= q.endifLine
  {
    hide ExactPairs, CloseOf;
    FirstEnclosingFacts(pairs, k);
    var p := FirstEnclosing(pairs, k).value;
    ExactPairsSorted(ls, pairs);
    forall q | q in pairs && q.ifLine <= k <= q.endifLine
      ensures q.ifLine <= p.ifLine
    {
      if p.ifLine < q.ifLine {
        EndsDiffer(ls, pairs, p, q);
        PairsDoNotCross(ls, pairs, p, q);
      }
    }
  }

  lemma ExactPairsSorted(ls: seq<Line>, pairs: seq<Pair>)
    requires ExactPairs(ls, pairs)
    ensures SortedByEndif(pairs)
  {
  }

  lemma EndsDiffer(ls: seq<Line>, pairs: seq<Pair>, p: Pair, q: Pair)
    requires ExactPairs(ls, pairs) && p in pairs && q in pairs
    ensures p.endifLine != q.ifLine
  {
    CloserLine(ls, p);
  }

  // ---------------------------------------------------------------- accepted ranges are clean

  /** No conditional is cut by the range, and no branch in it belongs to one outside. */
  ghost predicate Clean(r: Range, ls: seq<Line>, pairs: seq<Pair>) {
    && r.start <= r.end <= |ls|
    && (forall p <- pairs :: !Straddles(p, r))
    && NoOuterBranch(r, ls, pairs)
  }

  lemma {:induction false} TrimmedFacts(r: Range, pairs: seq<Pair>)
    requires r.start <= r.end
    ensures r.start <= Trimmed(r, pairs) <= r.end
    ensures forall p <- pairs :: Straddles(p, r) ==> Trimmed(r, pairs) <= InsideLine(p, r)
    ensures Trimmed(r, pairs) < r.end ==> exists p <- pairs :: Straddles(p, r) && InsideLine(p, r) == Trimmed(r, pairs)
  {
    if pairs != [] {
      var front, last := pairs[..|pairs| - 1], pairs[|pairs| - 1];
      TrimmedFacts(r, front);
      assert last in pairs && forall p <- front :: p in pairs;
      assert pairs == front + [last];
    }
  }

  lemma TrimmedCutsNothing(r: Range, ls: seq<Line>, pairs: seq<Pair>, p: Pair)
    requires r.start <= r.end <= |ls| && ExactPairs(ls, pairs) && p in pairs
    ensures !Straddles(p, Range(r.start, Trimmed(r, pairs)))
  {
    hide Trimmed, CloseOf;
    TrimmedFacts(r, pairs);
    var t := Trimmed(r, pairs);
    if Straddles(p, Range(r.start, t)) && !Straddles(p, r) {
      var q :| q in pairs && Straddles(q, r) && InsideLine(q, r) == t;
      assert r.start <= p.ifLine < t <= p.endifLine < r.end;
      if p.endifLine == t {
        SameEndif(ls, pairs, p, q, t);
      } else if q.ifLine == t {
        PairsDoNotCross(ls, pairs, p, q);
      } else {
        PairsDoNotCross(ls, pairs, q, p);
      }
    }
  }

  lemma CloserLine(ls: seq<Line>, p: Pair)
    requires p.ifLine < |ls| && p.endifLine == CloseOf(ls, p.ifLine) < |ls|
    ensures ls[p.endifLine].Closes()
  {
  }

  lemma SameEndif(ls: seq<Line>, pairs: seq<Pair>, p: Pair, q: Pair, t: nat)
    requires ExactPairs(ls, pairs) && p in pairs && q in pairs && p.endifLine == t
             && (q.ifLine == t || q.endifLine == t)
    ensures p == q
  {
    hide CloseOf;
    CloserLine(ls, p);
    var i :| 0 <= i < |pairs| && pairs[i] == p;
    var j :| 0 <= j < |pairs| && pairs[j] == q;
  }

  /** A range that balancing accepts is clean after trimming. */
  lemma BalancedIsClean(r: Range, ls: seq<Line>, pairs: seq<Pair>)
    requires r.start <= r.end <= |ls| && ExactPairs(ls, pairs) && Balance(r, ls, pairs).Success?
    ensures var b := Balance(r, ls, pairs).value;
            b.start == r.start && b.end <= r.end && Clean(b, ls, pairs)
  {
    hide Trimmed, ExactPairs;
    var b := Balance(r, ls, pairs).value;
    TrimmedFacts(r, pairs);
    forall p | p in pairs ensures !Straddles(p, b) {
      TrimmedCutsNothing(r, ls, pairs, p);
    }
    forall k | b.start <= k < b.end && ls[k].Branches()
      ensures BranchStays(b, pairs, k)
    {
      FirstEnclosingFacts(pairs, k);
      assert BranchStays(r, pairs, k);
    }
  }
}
