/** The conditional structure of a file - which %endif and which branch directives belong to
    which %if - and that removing balanced section ranges only drops whole conditionals. */
module StructureKept {
  import opened Lines
  import opened Conditionals
  import opened TreeParser
  import opened Ranges
  import opened RangeSoundness

  /** One directive and the %if it belongs to, by labels. */
  datatype Belonging = Paired(opener: nat, line: nat) | Branched(opener: nat, line: nat)

  datatype Structure = Broken | Events(events: seq<Belonging>, open: seq<nat>)

  /** Reads the conditional structure; a branch belongs to the innermost open %if. */
  function RunEvents(ls: seq<Line>, stack: seq<nat>): Structure {
    if ls == [] then Events([], stack)
    else if ls[0].Opens() then RunEvents(ls[1..], stack + [ls[0].no])
    else if ls[0].Closes() && stack == [] then Broken
    else if ls[0].Closes() then Emit(Paired(stack[|stack| - 1], ls[0].no), RunEvents(ls[1..], stack[..|stack| - 1]))
    else if ls[0].Branches() && stack != [] then Emit(Branched(stack[|stack| - 1], ls[0].no), RunEvents(ls[1..], stack))
    else RunEvents(ls[1..], stack)
  }

  function Emit(e: Belonging, s: Structure): Structure {
    if s.Broken? then Broken else Events([e] + s.events, s.open)
  }

  function Then(a: seq<Belonging>, s: Structure): Structure {
    if s.Broken? then Broken else Events(a + s.events, s.open)
  }

  lemma {:induction false} RunEventsConcat(a: seq<Line>, b: seq<Line>, stack: seq<nat>)
    ensures RunEvents(a + b, stack) ==
            match RunEvents(a, stack) case Broken => Broken case Events(es, open) => Then(es, RunEvents(b, open))
  {
    if a == [] {
      assert a + b == b;
      var r := RunEvents(b, stack);
      assert r.Events? ==> [] + r.events == r.events;
    } else {
      assert (a + b)[1..] == a[1..] + b;
      var stack' := if a[0].Opens() then stack + [a[0].no]
                    else if a[0].Closes() && stack != [] then stack[..|stack| - 1] else stack;
      RunEventsConcat(a[1..], b, stack');
      if RunEvents(a[1..], stack').Events? {
        EmitThen(a[1..], b, stack');
      }
    }
  }

  lemma EmitThen(a: seq<Line>, b: seq<Line>, stack: seq<nat>)
    requires RunEvents(a, stack).Events?
    ensures var r := RunEvents(a, stack);
            var s := RunEvents(b, r.open);
            forall e: Belonging :: Emit(e, Then(r.events, s)) == Then([e] + r.events, s)
  {
    hide RunEvents;
    var r := RunEvents(a, stack);
    var s := RunEvents(b, r.open);
    if s.Events? {
      forall e: Belonging ensures Emit(e, Then(r.events, s)) == Then([e] + r.events, s) {
        assert [e] + (r.events + s.events) == ([e] + r.events) + s.events;
      }
    }
  }

  // ---------------------------------------------------------------- one part of a file

  /** Reading lines [k, j): which labels the events and the open stack can have. */
  lemma {:induction false} RunTracks(ls: seq<Line>, k: nat, j: nat, s: seq<nat>)
    requires LabelledInOrder(ls) && k <= j <= |ls| && Tracks(ls, k, s) && RunEvents(ls[k..j], s).Events?
    ensures Tracks(ls, j, RunEvents(ls[k..j], s).open)
    ensures forall x <- RunEvents(ls[k..j], s).open :: x in s || k <= x < j
    ensures forall e <- RunEvents(ls[k..j], s).events :: k <= e.line < j && (e.opener in s || k <= e.opener < j)
    decreases j - k
  {
    hide Tracks;
    if k < j {
      assert ls[k..j][0] == ls[k] && ls[k..j][1..] == ls[k + 1..j];
      var s' := if ls[k].Opens() then s + [k] else if ls[k].Closes() && s != [] then s[..|s| - 1] else s;
      assert forall x <- s' :: x in s || x == k;
      TracksStep(ls, k, s, s');
      RunTracks(ls, k + 1, j, s');
    }
  }

  /** Openers of [start, k) are still on the range's part of the stack, or closed. */
  ghost predicate OpenOrClosed(ls: seq<Line>, start: nat, k: nat, t: seq<nat>)
    requires k <= |ls|
  {
    forall x :: start <= x < k && ls[x].Opens() ==> x in t || CloseOf(ls, x) < k
  }

  /** Reading a clean range leaves the stack as it was and emits only directives of its own. */
  lemma {:induction false} RunClean(ls: seq<Line>, pairs: seq<Pair>, r: Range, k: nat, s: seq<nat>, t: seq<nat>)
    requires LabelledInOrder(ls) && ExactPairs(ls, pairs) && Clean(r, ls, pairs) && r.start <= k <= r.end
    requires Tracks(ls, k, s + t) && (forall x <- s :: x < r.start) && (forall x <- t :: r.start <= x)
    requires OpenOrClosed(ls, r.start, k, t)
    ensures var run := RunEvents(ls[k..r.end], s + t);
            run.Events? && run.open == s && forall e <- run.events :: r.Has(e.opener) && r.Has(e.line)
    decreases r.end - k
  {
    hide Tracks, CloseOf, ExactPairs, Clean, OpenOrClosed, RunEvents;
    CleanBounds(r, ls, pairs);
    if k == r.end {
      NothingLeftOpen(ls, pairs, r, s, t);
      assert s + t == s;
      RunEventsNone(ls[k..r.end], s);
    } else {
      assert ls[k..r.end][0] == ls[k] && ls[k..r.end][1..] == ls[k + 1..r.end];
      var all := s + t;
      CleanStep(ls, pairs, r, k, s, t);
      RunEventsStep(ls[k..r.end], all);
      var t' := PartAfter(ls[k], k, t);
      var all' := if ls[k].Opens() then all + [k] else if ls[k].Closes() then all[..|all| - 1] else all;
      assert all' == s + t';
      TracksStep(ls, k, all, all');
      assert forall x <- t' :: x in t || x == k;
      OpenedInside(ls, k, t, r.start);
      RunClean(ls, pairs, r, k + 1, s, t');
    }
  }

  lemma RunEventsNone(ls: seq<Line>, stack: seq<nat>)
    requires ls == []
    ensures RunEvents(ls, stack) == Events([], stack)
  {
  }

  lemma RunEventsStep(ls: seq<Line>, stack: seq<nat>)
    requires ls != [] && (ls[0].Closes() ==> stack != [])
    ensures var stack' := if ls[0].Opens() then stack + [ls[0].no]
                          else if ls[0].Closes() then stack[..|stack| - 1] else stack;
            var run, next := RunEvents(ls, stack), RunEvents(ls[1..], stack');
            && (next.Events? ==> run.Events? && run.open == next.open)
            && (next.Events? ==>
                  forall e <- run.events ::
                    || e in next.events
                    || (stack != [] && (ls[0].Closes() || ls[0].Branches()) && e.opener == stack[|stack| - 1]
                       && e.line == ls[0].no))
  {
  }

  lemma CleanBounds(r: Range, ls: seq<Line>, pairs: seq<Pair>)
    requires Clean(r, ls, pairs)
    ensures r.start <= r.end <= |ls|
  {
  }

  /** The part of the stack opened in the range, after one more line. */
  function PartAfter(l: Line, k: nat, t: seq<nat>): seq<nat> {
    if l.Opens() then t + [k] else if l.Closes() && t != [] then t[..|t| - 1] else t
  }

  lemma OpenedInside(ls: seq<Line>, k: nat, t: seq<nat>, start: nat)
    requires start <= k < |ls| && OpenOrClosed(ls, start, k, t)
    requires ls[k].Closes() ==> t != [] && t[|t| - 1] < |ls| && CloseOf(ls, t[|t| - 1]) == k
    ensures OpenOrClosed(ls, start, k + 1, PartAfter(ls[k], k, t))
  {
    hide CloseOf;
    var t' := PartAfter(ls[k], k, t);
    forall x | start <= x < k + 1 && ls[x].Opens()
      ensures x in t' || CloseOf(ls, x) < k + 1
    {
      if x == k {
        assert t'[|t|] == x;
      } else if x in t {
        var q :| 0 <= q < |t| && t[q] == x;
        if q < |t'| {
          assert t'[q] == x;
        }
      }
    }
  }

  /** A conditional opened in the range and still open at its end is cut by it. */
  lemma OpenAtEndStraddles(ls: seq<Line>, pairs: seq<Pair>, r: Range, s: seq<nat>, t: seq<nat>)
    requires ExactPairs(ls, pairs) && r.start <= r.end <= |ls|
    requires Tracks(ls, r.end, s + t) && forall x <- t :: r.start <= x
    ensures t != [] ==> exists p <- pairs :: Straddles(p, r)
  {
    hide CloseOf, CloseAt;
    if t != [] {
      var x := t[0];
      assert x in t && (s + t)[|s|] == x;
      var p := Pair(x, CloseOf(ls, x));
      assert p in pairs && Straddles(p, r);
    }
  }

  lemma NothingLeftOpen(ls: seq<Line>, pairs: seq<Pair>, r: Range, s: seq<nat>, t: seq<nat>)
    requires ExactPairs(ls, pairs) && Clean(r, ls, pairs)
    requires Tracks(ls, r.end, s + t) && forall x <- t :: r.start <= x
    ensures t == []
  {
    hide ExactPairs, Tracks;
    OpenAtEndStraddles(ls, pairs, r, s, t);
  }

  /** What the next line of a clean range can be. */
  lemma CleanStep(ls: seq<Line>, pairs: seq<Pair>, r: Range, k: nat, s: seq<nat>, t: seq<nat>)
    requires LabelledInOrder(ls) && ExactPairs(ls, pairs) && Clean(r, ls, pairs) && r.start <= k < r.end
    requires Tracks(ls, k, s + t) && (forall x <- s :: x < r.start) && (forall x <- t :: r.start <= x)
    requires OpenOrClosed(ls, r.start, k, t)
    ensures forall x <- t :: r.Has(x)
    ensures ls[k].Closes() ==> t != [] && t[|t| - 1] < |ls| && CloseOf(ls, t[|t| - 1]) == k
    ensures ls[k].Branches() ==> t != [] || s == []
  {
    hide CloseOf, CloseAt, ExactPairs, Clean, OpenOrClosed;
    CleanBounds(r, ls, pairs);
    forall x | x in t ensures r.Has(x) {
      var q :| 0 <= q < |t| && t[q] == x;
      assert (s + t)[|s| + q] == x;
    }
    if ls[k].Closes() {
      CloserInside(ls, pairs, r, k, t);
      assert (s + t)[|s + t| - 1] == t[|t| - 1];
      TopCloses(ls, k, s + t);
    } else if ls[k].Branches() && t == [] {
      assert s + t == s;
      BranchNotInside(ls, pairs, r, k, s);
    }
  }

  lemma CloserInside(ls: seq<Line>, pairs: seq<Pair>, r: Range, k: nat, t: seq<nat>)
    requires ExactPairs(ls, pairs) && Clean(r, ls, pairs) && r.start <= k < r.end && ls[k].Closes()
    requires OpenOrClosed(ls, r.start, k, t)
    ensures t != []
  {
    hide CloseOf;
    var p :| p in pairs && p.endifLine == k;
    assert !Straddles(p, r);
    assert p.ifLine in t;
  }

  lemma TopCloses(ls: seq<Line>, k: nat, stack: seq<nat>)
    requires k < |ls| && ls[k].Closes() && Tracks(ls, k, stack) && stack != []
    ensures stack[|stack| - 1] < |ls| && CloseOf(ls, stack[|stack| - 1]) == k
  {
    hide CloseAt;
    CloseAtStep(ls, k, 1);
  }

  lemma EnclosedByTop(ls: seq<Line>, pairs: seq<Pair>, k: nat, s: seq<nat>)
    requires ExactPairs(ls, pairs) && k < |ls| && Tracks(ls, k, s)
    ensures s != [] ==> FirstEnclosing(pairs, k).Some?
  {
    hide CloseOf, CloseAt;
    FirstEnclosingFacts(pairs, k);
    if s != [] {
      var top := s[|s| - 1];
      var q := Pair(top, CloseOf(ls, top));
      assert q in pairs && q.ifLine <= k <= q.endifLine;
    }
  }

  /** A branch of a clean range is not a branch of a conditional opened before it. */
  lemma BranchNotInside(ls: seq<Line>, pairs: seq<Pair>, r: Range, k: nat, s: seq<nat>)
    requires ExactPairs(ls, pairs) && Clean(r, ls, pairs) && r.start <= k < r.end && ls[k].Branches()
    requires Tracks(ls, k, s) && OpenOrClosed(ls, r.start, k, [])
    ensures s == []
  {
    hide CloseOf, CloseAt, Tracks;
    FirstEnclosingFacts(pairs, k);
    EnclosedByTop(ls, pairs, k, s);
  }

  // ---------------------------------------------------------------- the whole file

  /** The lines from k on that are in none of the ranges. */
  function KeptFrom(ls: seq<Line>, k: nat, ranges: seq<Range>): seq<Line>
    requires k <= |ls| && Ascending(ranges, |ls|) && forall r <- ranges :: k <= r.start
    decreases |ranges|
  {
    if ranges == [] then ls[k..]
    else
      AscendingRest(ranges, |ls|);
      ls[k..ranges[0].start] + KeptFrom(ls, ranges[0].end, ranges[1..])
  }

  lemma AscendingRest(ranges: seq<Range>, size: nat)
    requires Ascending(ranges, size) && ranges != []
    ensures ranges[0].start <= ranges[0].end <= size
    ensures Ascending(ranges[1..], size) && forall r <- ranges[1..] :: ranges[0].end <= r.start
  {
    assert ranges[0] in ranges;
    assert forall r <- ranges[1..] :: r in ranges;
    forall r | r in ranges[1..] ensures ranges[0].end <= r.start {
      var i :| 0 <= i < |ranges[1..]| && ranges[1..][i] == r;
      assert ranges[i + 1] == r;
    }
  }

  function KeepEvents(es: seq<Belonging>, dropped: set<nat>): seq<Belonging> {
    if es == [] then [] else (if es[0].line in dropped then [] else [es[0]]) + KeepEvents(es[1..], dropped)
  }

  /** The directive and its %if are both dropped or both kept. */
  predicate Together(e: Belonging, dropped: set<nat>) {
    e.opener in dropped <==> e.line in dropped
  }

  lemma {:induction false} KeepEventsConcat(a: seq<Belonging>, b: seq<Belonging>, dropped: set<nat>)
    ensures KeepEvents(a + b, dropped) == KeepEvents(a, dropped) + KeepEvents(b, dropped)
  {
    if a == [] {
      assert a + b == b;
    } else {
      assert (a + b)[1..] == a[1..] + b;
      KeepEventsConcat(a[1..], b, dropped);
      var head := if a[0].line in dropped then [] else [a[0]];
      assert KeepEvents(a + b, dropped) == head + (KeepEvents(a[1..], dropped) + KeepEvents(b, dropped));
    }
  }

  lemma {:induction false} KeepAllEvents(es: seq<Belonging>, dropped: set<nat>)
    requires forall e <- es :: e.line !in dropped
    ensures KeepEvents(es, dropped) == es
  {
    if es != [] {
      assert es[0] in es;
      KeepAllEvents(es[1..], dropped);
    }
  }

  lemma {:induction false} KeepNoEvents(es: seq<Belonging>, dropped: set<nat>)
    requires forall e <- es :: e.line in dropped
    ensures KeepEvents(es, dropped) == []
  {
    if es != [] {
      assert es[0] in es;
      KeepNoEvents(es[1..], dropped);
    }
  }

  /** `dropped` is, from line k on, exactly what the ranges cover. */
  ghost predicate Covers(dropped: set<nat>, k: nat, ranges: seq<Range>) {
    forall n :: k <= n ==> (n in dropped <==> exists r <- ranges :: r.Has(n))
  }

  lemma CoversRest(dropped: set<nat>, k: nat, ranges: seq<Range>, size: nat)
    requires Covers(dropped, k, ranges) && Ascending(ranges, size) && ranges != [] && forall r <- ranges :: k <= r.start
    ensures var r := ranges[0];
            && (forall n :: k <= n < r.start ==> n !in dropped)
            && (forall n :: r.Has(n) ==> n in dropped)
            && Covers(dropped, r.end, ranges[1..])
  {
    AscendingRest(ranges, size);
    var r := ranges[0];
    assert r in ranges && forall q <- ranges :: q == r || q in ranges[1..];
    assert forall q <- ranges[1..] :: q in ranges;
    forall n | k <= n < r.start ensures n !in dropped {
      forall q | q in ranges ensures !q.Has(n) {
        assert q == r || q in ranges[1..];
      }
    }
    forall n | r.Has(n) ensures n in dropped {
      assert ranges[0].Has(n);
    }
    forall n | r.end <= n
      ensures n in dropped <==> exists q <- ranges[1..] :: q.Has(n)
    {
      if q :| q in ranges && q.Has(n) {
        assert q in ranges[1..];
      }
    }
  }

  lemma {:induction false} KeptStructure(ls: seq<Line>, pairs: seq<Pair>, k: nat, s: seq<nat>, ranges: seq<Range>,
    dropped: set<nat>)
    requires LabelledInOrder(ls) && ExactPairs(ls, pairs) && k <= |ls| && Tracks(ls, k, s)
    requires Ascending(ranges, |ls|) && (forall r <- ranges :: k <= r.start && Clean(r, ls, pairs))
    requires Covers(dropped, k, ranges) && forall x <- s :: x !in dropped
    requires RunEvents(ls[k..], s).Events?
    ensures var run := RunEvents(ls[k..], s);
            && RunEvents(KeptFrom(ls, k, ranges), s) == Events(KeepEvents(run.events, dropped), run.open)
            && forall e <- run.events :: Together(e, dropped)
    decreases |ranges|
  {
    hide Tracks, ExactPairs, Clean, RunEvents, Covers, Ascending, KeepEvents, KeptFrom;
    KeptUnfold(ls, k, ranges);
    if ranges == [] {
      assert ls[k..|ls|] == ls[k..];
      RunTracks(ls, k, |ls|, s);
      NothingCovered(dropped, k);
      KeepAllEvents(RunEvents(ls[k..], s).events, dropped);
    } else {
      var r := ranges[0];
      AscendingRest(ranges, |ls|);
      CoversRest(dropped, k, ranges, |ls|);
      var one := RunTo(ls, k, r.start, s);
      StackBelow(ls, r.start, one.open);
      var two := RunOver(ls, pairs, r, one.open);
      KeptStructure(ls, pairs, r.end, one.open, ranges[1..], dropped);
      var three := RunEvents(ls[r.end..], one.open);
      KeepEventsConcat(one.events, two.events + three.events, dropped);
      KeepEventsConcat(two.events, three.events, dropped);
      KeepAllEvents(one.events, dropped);
      KeepNoEvents(two.events, dropped);
      RunEventsConcat(ls[k..r.start], KeptFrom(ls, r.end, ranges[1..]), s);
    }
  }

  /** Reading the lines before a range. */
  lemma RunTo(ls: seq<Line>, k: nat, j: nat, s: seq<nat>) returns (one: Structure)
    requires LabelledInOrder(ls) && k <= j <= |ls| && Tracks(ls, k, s) && RunEvents(ls[k..], s).Events?
    ensures one == RunEvents(ls[k..j], s) && one.Events? && Tracks(ls, j, one.open)
    ensures RunEvents(ls[k..], s) == Then(one.events, RunEvents(ls[j..], one.open))
    ensures forall x <- one.open :: x in s || k <= x < j
    ensures forall e <- one.events :: k <= e.line < j && (e.opener in s || k <= e.opener < j)
  {
    hide Tracks, RunEvents;
    one := RunEvents(ls[k..j], s);
    assert ls[k..] == ls[k..j] + ls[j..];
    RunEventsConcat(ls[k..j], ls[j..], s);
    RunTracks(ls, k, j, s);
  }

  /** Reading a clean range on the stack reached before it. */
  lemma RunOver(ls: seq<Line>, pairs: seq<Pair>, r: Range, s: seq<nat>) returns (two: Structure)
    requires LabelledInOrder(ls) && ExactPairs(ls, pairs) && Clean(r, ls, pairs)
    requires Tracks(ls, r.start, s) && forall x <- s :: x < r.start
    ensures two.Events? && two.open == s && Tracks(ls, r.end, s)
    ensures RunEvents(ls[r.start..], s) == Then(two.events, RunEvents(ls[r.end..], s))
    ensures forall e <- two.events :: r.Has(e.opener) && r.Has(e.line)
  {
    hide Tracks, RunEvents, ExactPairs, Clean;
    CleanBounds(r, ls, pairs);
    assert s + [] == s;
    RunClean(ls, pairs, r, r.start, s, []);
    two := RunEvents(ls[r.start..r.end], s);
    assert ls[r.start..] == ls[r.start..r.end] + ls[r.end..];
    RunEventsConcat(ls[r.start..r.end], ls[r.end..], s);
    RunTracks(ls, r.start, r.end, s);
  }

  lemma StackBelow(ls: seq<Line>, k: nat, s: seq<nat>)
    requires k <= |ls| && Tracks(ls, k, s)
    ensures forall x <- s :: x < k
  {
  }

  lemma NothingCovered(dropped: set<nat>, k: nat)
    requires Covers(dropped, k, [])
    ensures forall n :: k <= n ==> n !in dropped
  {
  }

  // ---------------------------------------------------------------- the removal

  function DroppedBy(ranges: seq<Range>): set<nat> {
    if ranges == [] then {} else LinesOf(ranges[0]) + DroppedBy(ranges[1..])
  }

  function LinesOf(r: Range): set<nat> {
    set n: nat | r.start <= n < r.end && r.Has(n)
  }

  lemma {:induction false} DroppedByHas(ranges: seq<Range>, n: nat)
    ensures n in DroppedBy(ranges) <==> exists r <- ranges :: r.Has(n)
  {
    if ranges != [] {
      DroppedByHas(ranges[1..], n);
      assert forall r <- ranges :: r == ranges[0] || r in ranges[1..];
      assert ranges[0] in ranges && forall r <- ranges[1..] :: r in ranges;
    }
  }

  lemma AscendingFront(ranges: seq<Range>, size: nat)
    requires Ascending(ranges, size) && ranges != []
    ensures var last := ranges[|ranges| - 1];
            last.start <= last.end <= size && Ascending(ranges[..|ranges| - 1], last.start)
    ensures forall r <- ranges[..|ranges| - 1] :: r in ranges
  {
    var front, last := ranges[..|ranges| - 1], ranges[|ranges| - 1];
    assert last in ranges;
    forall r | r in front ensures r in ranges && r.start <= r.end <= last.start {
      var i :| 0 <= i < |front| && front[i] == r;
      assert ranges[i] == r;
    }
  }

  /** Ranges of a prefix are removed from it alone. */
  lemma {:induction false} WithoutPrefix<T>(x: seq<T>, y: seq<T>, ranges: seq<Range>)
    requires Ascending(ranges, |x|) && Ascending(ranges, |x + y|)
    ensures WithoutRanges(x + y, ranges) == WithoutRanges(x, ranges) + y
    decreases |ranges|
  {
    hide Ascending;
    if ranges != [] {
      var front, last := ranges[..|ranges| - 1], ranges[|ranges| - 1];
      AscendingFront(ranges, |x|);
      var x' := x[..last.start] + x[last.end..];
      assert (x + y)[..last.start] + (x + y)[last.end..] == x' + y;
      AscendingMore(front, last.start, |x'|);
      AscendingMore(front, last.start, |x' + y|);
      WithoutPrefix(x', y, front);
    }
  }

  lemma AscendingMore(ranges: seq<Range>, size: nat, more: nat)
    requires Ascending(ranges, size) && size <= more
    ensures Ascending(ranges, more)
  {
  }

  lemma {:induction false} KeptOfPrefix(ls: seq<Line>, k: nat, front: seq<Range>, last: Range)
    requires Ascending(front + [last], |ls|) && Ascending(front, last.start)
    requires k <= last.start <= last.end <= |ls| && (forall r <- front + [last] :: k <= r.start)
             && forall r <- front :: k <= r.start
    ensures KeptFrom(ls, k, front + [last]) == KeptFrom(ls[..last.start], k, front) + ls[last.end..]
    decreases |front|
  {
    hide Ascending, KeptFrom;
    var all := front + [last];
    AscendingRest(all, |ls|);
    KeptUnfold(ls, k, all);
    var prefix := ls[..last.start];
    if front == [] {
      assert all[1..] == [] && all[0] == last;
      KeptUnfold(ls, last.end, []);
      KeptUnfold(prefix, k, []);
      assert prefix[k..] == ls[k..last.start];
    } else {
      var first := front[0];
      assert all[0] == first && all[1..] == front[1..] + [last];
      AscendingRest(front, last.start);
      KeptUnfold(prefix, k, front);
      assert last in front[1..] + [last];
      KeptOfPrefix(ls, first.end, front[1..], last);
      assert prefix[k..first.start] == ls[k..first.start];
    }
  }

  lemma KeptUnfold(ls: seq<Line>, k: nat, ranges: seq<Range>)
    requires k <= |ls| && Ascending(ranges, |ls|) && forall r <- ranges :: k <= r.start
    ensures ranges == [] ==> KeptFrom(ls, k, ranges) == ls[k..]
    ensures ranges != [] ==>
              && ranges[0].start <= ranges[0].end <= |ls| && k <= ranges[0].start
              && Ascending(ranges[1..], |ls|) && (forall r <- ranges[1..] :: ranges[0].end <= r.start)
              && KeptFrom(ls, k, ranges) == ls[k..ranges[0].start] + KeptFrom(ls, ranges[0].end, ranges[1..])
  {
    hide Ascending;
    if ranges != [] {
      AscendingRest(ranges, |ls|);
    }
  }

  lemma {:induction false} KeptIsWithout(ls: seq<Line>, k: nat, ranges: seq<Range>)
    requires k <= |ls| && Ascending(ranges, |ls|) && forall r <- ranges :: k <= r.start
    ensures ls[..k] + KeptFrom(ls, k, ranges) == WithoutRanges(ls, ranges)
    decreases |ranges|
  {
    hide Ascending, KeptFrom, WithoutRanges;
    if ranges == [] {
      KeptUnfold(ls, k, []);
      WithoutUnfold(ls, []);
    } else {
      var front, last := ranges[..|ranges| - 1], ranges[|ranges| - 1];
      assert front + [last] == ranges && last in ranges;
      AscendingFront(ranges, |ls|);
      var prefix, after := ls[..last.start], ls[last.end..];
      WithoutUnfold(ls, ranges);
      KeptOfPrefix(ls, k, front, last);
      KeptIsWithout(prefix, k, front);
      AscendingMore(front, last.start, |prefix + after|);
      WithoutPrefix(prefix, after, front);
      assert prefix[..k] == ls[..k];
    }
  }

  lemma WithoutUnfold(ls: seq<Line>, ranges: seq<Range>)
    requires Ascending(ranges, |ls|)
    ensures ranges == [] ==> WithoutRanges(ls, ranges) == ls
    ensures ranges != [] ==>
              var front, last := ranges[..|ranges| - 1], ranges[|ranges| - 1];
              && last.start <= last.end <= |ls|
              && var shorter := ls[..last.start] + ls[last.end..];
                 Ascending(front, |shorter|) && WithoutRanges(ls, ranges) == WithoutRanges(shorter, front)
  {
    hide Ascending;
    if ranges != [] {
      AscendingFront(ranges, |ls|);
      var front, last := ranges[..|ranges| - 1], ranges[|ranges| - 1];
      AscendingMore(front, last.start, |ls[..last.start] + ls[last.end..]|);
    }
  }

  /** Balanced ranges, one for each range found. */
  lemma {:induction false} BalancedRanges(ranges: seq<Range>, ls: seq<Line>, pairs: seq<Pair>)
    requires ExactPairs(ls, pairs) && Ascending(ranges, |ls|) && BalanceAll(ranges, ls, pairs).Success?
    ensures var bs := BalanceAll(ranges, ls, pairs).value;
            && |bs| == |ranges| && Ascending(bs, |ls|)
            && (forall b <- bs :: Clean(b, ls, pairs))
            && forall i :: 0 <= i < |bs| ==> bs[i].start == ranges[i].start && bs[i].end <= ranges[i].end
    decreases |ranges|
  {
    hide Balance, Clean, ExactPairs;
    if ranges != [] {
      assert ranges[0] in ranges;
      AscendingRest(ranges, |ls|);
      BalancedIsClean(ranges[0], ls, pairs);
      BalancedRanges(ranges[1..], ls, pairs);
      var first, rest := Balance(ranges[0], ls, pairs).value, BalanceAll(ranges[1..], ls, pairs).value;
      var bs := [first] + rest;
      CleanBounds(first, ls, pairs);
      forall i | 0 <= i < |bs|
        ensures bs[i].start == ranges[i].start && bs[i].end <= ranges[i].end
      {
        assert i > 0 ==> bs[i] == rest[i - 1] && ranges[1..][i - 1] == ranges[i];
      }
      forall b | b in bs ensures b.start <= b.end <= |ls| && Clean(b, ls, pairs) {
        assert b == first || b in rest;
      }
    }
  }

  lemma {:induction false} SectionRangesAscend(ls: seq<Line>, i: nat, select: (string, string) -> bool)
    requires i <= |ls|
    ensures Ascending(SectionRanges(ls, i, select), |ls|)
    decreases |ls| - i
  {
    hide Ascending, NextHeader, Selected;
    if i == |ls| {
      AscendingNone(|ls|);
    } else {
      SectionRangesAscend(ls, i + 1, select);
      SectionRangesBounds(ls, i + 1, select);
      if Selected(ls[i], select) {
        var rest := SectionRanges(ls, i + 1, select);
        forall r | r in rest ensures NextHeader(ls, i + 1) <= r.start {
          SelectedNotSkipped(ls, i + 1, r.start, select);
        }
        AscendingCons(Range(i, NextHeader(ls, i + 1)), rest, |ls|);
      } else {
        assert [] + SectionRanges(ls, i + 1, select) == SectionRanges(ls, i + 1, select);
      }
    }
  }

  lemma SelectedNotSkipped(ls: seq<Line>, i: nat, h: nat, select: (string, string) -> bool)
    requires i <= h < |ls| && Selected(ls[h], select)
    ensures NextHeader(ls, i) <= h
  {
    hide NextHeader;
  }

  lemma AscendingNone(size: nat)
    ensures Ascending([], size)
  {
  }

  lemma AscendingCons(r: Range, rest: seq<Range>, size: nat)
    requires r.start <= r.end <= size && Ascending(rest, size) && forall x <- rest :: r.end <= x.start
    ensures Ascending([r] + rest, size)
  {
    var all := [r] + rest;
    forall a, b | 0 <= a < b < |all|
      ensures all[a].end <= all[b].start
    {
      assert all[b] == rest[b - 1] && rest[b - 1] in rest;
    }
  }

  /** After removing the sections that were collected: the conditionals of the lines left are
      exactly the old ones without those that lay in a removed section. No directive that is
      left lost its %if, and no %if that is left lost its %endif or one of its branches. */
  lemma RemovalKeepsConditionals(ls: seq<Line>, select: (string, string) -> bool)
    requires LabelledInOrder(ls) && ConditionalPairs(ls).Success? && CollectedRanges(ls, select).Success?
    ensures var ranges := CollectedRanges(ls, select).value;
            var dropped := DroppedBy(ranges);
            && Ascending(ranges, |ls|)
            && RunEvents(ls, []).Events? && RunEvents(ls, []).open == []
            && RunEvents(WithoutRanges(ls, ranges), []) == Events(KeepEvents(RunEvents(ls, []).events, dropped), [])
            && forall e <- RunEvents(ls, []).events :: Together(e, dropped)
  {
    hide RunPairs, RunEvents, Tracks, ExactPairs, Clean, SectionRanges, Balance, KeepEvents, Covers;
    var pairs := ConditionalPairs(ls).value;
    PairsAreExact(ls);
    SectionRangesAscend(ls, 0, select);
    SectionRangesBounds(ls, 0, select);
    BalancedRanges(SectionRanges(ls, 0, select), ls, pairs);
    var ranges := CollectedRanges(ls, select).value;
    EventsOfPairs(ls, []);
    assert ls[0..] == ls;
    CoversDropped(ranges);
    NothingTracked(ls);
    KeptStructure(ls, pairs, 0, [], ranges, DroppedBy(ranges));
    KeptIsWithout(ls, 0, ranges);
    assert ls[..0] + KeptFrom(ls, 0, ranges) == KeptFrom(ls, 0, ranges);
  }

  lemma NothingTracked(ls: seq<Line>)
    ensures Tracks(ls, 0, [])
  {
  }

  lemma CoversDropped(ranges: seq<Range>)
    ensures Covers(DroppedBy(ranges), 0, ranges)
  {
    forall n: nat
      ensures n in DroppedBy(ranges) <==> exists r <- ranges :: r.Has(n)
    {
      DroppedByHas(ranges, n);
    }
  }

  function PairsOf(es: seq<Belonging>): seq<Pair> {
    if es == [] then []
    else (if es[0].Paired? then [Pair(es[0].opener, es[0].line)] else []) + PairsOf(es[1..])
  }

  /** The pairs collected are the %if/%endif of the structure. */
  lemma {:induction false} EventsOfPairs(ls: seq<Line>, stack: seq<nat>)
    ensures match RunPairs(ls, stack)
            case Stuck(_) => RunEvents(ls, stack).Broken?
            case Ran(pairs, open) =>
              RunEvents(ls, stack).Events? && RunEvents(ls, stack).open == open
                && PairsOf(RunEvents(ls, stack).events) == pairs
  {
    if ls != [] {
      var stack' := if ls[0].Opens() then stack + [ls[0].no]
                    else if ls[0].Closes() && stack != [] then stack[..|stack| - 1] else stack;
      EventsOfPairs(ls[1..], stack');
    }
  }
}
