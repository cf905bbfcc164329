/** The line-oriented removal of sections: ranges between headers, balanced against the
    conditionals of the file. Macro bodies get no special treatment here. */
module Ranges {
  import opened Wrappers
  import opened Lines
  import opened Conditionals

  datatype Pair = Pair(ifLine: nat, endifLine: nat)

  /** A half-open range of line numbers. */
  datatype Range = Range(start: nat, end: nat) {
    predicate Has(k: int) { start <= k < end }
  }

  /** The one failure of balancing a range. */
  datatype RangeError = Unmatched(e: ParseError) | ConditionalSpansSections(range: Range)

  predicate LabelledInOrder(ls: seq<Line>) {
    forall i :: 0 <= i < |ls| ==> ls[i].no == i
  }

  // ---------------------------------------------------------------- conditional pairs

  /** The pairs closed while reading, in the order of their %endif, and the openers left. */
  datatype PairRun = Stuck(line: nat) | Ran(pairs: seq<Pair>, stack: seq<nat>)

  function RunPairs(ls: seq<Line>, stack: seq<nat>): PairRun {
    if ls == [] then Ran([], stack)
    else if ls[0].Opens() then RunPairs(ls[1..], stack + [ls[0].no])
    else if ls[0].Closes() then
      if stack == [] then Stuck(ls[0].no)
      else match RunPairs(ls[1..], stack[..|stack| - 1])
        case Stuck(n) => Stuck(n)
        case Ran(pairs, s) => Ran([Pair(stack[|stack| - 1], ls[0].no)] + pairs, s)
    else RunPairs(ls[1..], stack)
  }

  function ConditionalPairs(ls: seq<Line>): Result<seq<Pair>, ParseError> {
    match RunPairs(ls, [])
    case Stuck(n) => Failure(UnmatchedEndif(n))
    case Ran(pairs, stack) => if stack == [] then Success(pairs) else Failure(UnmatchedIf(stack[0]))
  }

  method CollectConditionalPairs(ls: seq<Line>) returns (r: Result<seq<Pair>, ParseError>)
    requires LabelledInOrder(ls)
    ensures r == ConditionalPairs(ls)
  {
    var pairs: seq<Pair>, stack: seq<nat> := [], [];
    assert ls[0..] == ls;
    for lineNum := 0 to |ls|
      invariant match RunPairs(ls[lineNum..], stack)
                case Stuck(n) => RunPairs(ls, []) == Stuck(n)
                case Ran(more, s) => RunPairs(ls, []) == Ran(pairs + more, s)
    {
      assert ls[lineNum..][0] == ls[lineNum] && ls[lineNum..][1..] == ls[lineNum + 1..];
      if ls[lineNum].Opens() {
        stack := stack + [lineNum];
      } else if ls[lineNum].Closes() {
        if |stack| == 0 {
          return Failure(UnmatchedEndif(lineNum));
        }
        var ifLine := stack[|stack| - 1];
        stack := stack[..|stack| - 1];
        pairs := pairs + [Pair(ifLine, lineNum)];
      }
    }
    assert ls[|ls|..] == [] && pairs + [] == pairs;
    if |stack| > 0 {
      return Failure(UnmatchedIf(stack[0]));
    }
    return Success(pairs);
  }

  // ---------------------------------------------------------------- balancing one range

  predicate Straddles(p: Pair, r: Range) {
    r.Has(p.ifLine) != r.Has(p.endifLine)
  }

  /** The half of a straddling pair that is in the range. */
  function InsideLine(p: Pair, r: Range): nat {
    if r.Has(p.ifLine) then p.ifLine else p.endifLine
  }

  /** The first line of the range that is half of a straddling pair, or its end. */
  function Trimmed(r: Range, pairs: seq<Pair>): nat {
    if pairs == [] then r.end
    else
      var t := Trimmed(r, pairs[..|pairs| - 1]);
      var p := pairs[|pairs| - 1];
      if Straddles(p, r) && InsideLine(p, r) < t then InsideLine(p, r) else t
  }

  predicate IsRealContent(l: Line) {
    l.kind != Content(false) && !l.Opens() && !l.Closes()
  }

  /** No content other than blanks, comments and conditional directives between two lines. */
  predicate NoContentAfter(ls: seq<Line>, startLine: int, endLine: nat)
    requires -1 <= startLine && endLine <= |ls|
  {
    forall k :: startLine < k < endLine ==> !IsRealContent(ls[k])
  }

  /** The first pair found that encloses a line. */
  function FirstEnclosing(pairs: seq<Pair>, k: nat): Option<Pair> {
    if pairs == [] then None
    else if pairs[0].ifLine <= k <= pairs[0].endifLine then Some(pairs[0])
    else FirstEnclosing(pairs[1..], k)
  }

  predicate BranchStays(r: Range, pairs: seq<Pair>, k: nat) {
    var p := FirstEnclosing(pairs, k);
    p.Some? ==> r.Has(p.value.ifLine) && r.Has(p.value.endifLine)
  }

  predicate NoOuterBranch(r: Range, ls: seq<Line>, pairs: seq<Pair>)
    requires r.end <= |ls|
  {
    forall k :: r.start <= k < r.end && ls[k].Branches() ==> BranchStays(r, pairs, k)
  }

  /** The balanced range, when the conditionals around it allow one. */
  function Balance(r: Range, ls: seq<Line>, pairs: seq<Pair>): Result<Range, RangeError>
    requires r.end <= |ls|
  {
    var trimmed := Trimmed(r, pairs);
    if (exists p <- pairs :: Straddles(p, r) && r.Has(p.ifLine) && !NoContentAfter(ls, p.ifLine, r.end))
       || !NoOuterBranch(r, ls, pairs)
       || (trimmed != r.end && !NoContentAfter(ls, trimmed - 1, r.end))
    then Failure(ConditionalSpansSections(r))
    else Success(Range(r.start, trimmed))
  }

  method ValidateNoContentAfter(ls: seq<Line>, startLine: int, endLine: nat) returns (ok: bool)
    requires -1 <= startLine && endLine <= |ls|
    ensures ok <==> NoContentAfter(ls, startLine, endLine)
  {
    var lineNum := startLine + 1;
    while lineNum < endLine
      invariant startLine + 1 <= lineNum
      invariant forall k :: startLine < k < lineNum && k < endLine ==> !IsRealContent(ls[k])
    {
      if ls[lineNum].kind != Content(false) && !ls[lineNum].Opens() && !ls[lineNum].Closes() {
        return false;
      }
      lineNum := lineNum + 1;
    }
    return true;
  }

  method ValidateNoBranchDirectives(r: Range, ls: seq<Line>, pairs: seq<Pair>) returns (ok: bool)
    requires r.end <= |ls|
    ensures ok <==> NoOuterBranch(r, ls, pairs)
  {
    var lineNum := r.start;
    while lineNum < r.end
      invariant r.start <= lineNum
      invariant forall k :: r.start <= k < lineNum && k < r.end && ls[k].Branches() ==> BranchStays(r, pairs, k)
    {
      if ls[lineNum].Branches() {
        var i := 0;
        assert pairs[0..] == pairs;
        while i < |pairs| && !(pairs[i].ifLine <= lineNum && pairs[i].endifLine >= lineNum)
          invariant 0 <= i <= |pairs|
          invariant FirstEnclosing(pairs, lineNum) == FirstEnclosing(pairs[i..], lineNum)
        {
          assert pairs[i..][1..] == pairs[i + 1..];
          i := i + 1;
        }
        if i < |pairs| && !(pairs[i].ifLine >= r.start && pairs[i].endifLine < r.end) {
          assert FirstEnclosing(pairs[i..], lineNum) == Some(pairs[i]);
          assert !BranchStays(r, pairs, lineNum);
          return false;
        }
      }
      lineNum := lineNum + 1;
    }
    return true;
  }

  method BalanceRange(r: Range, ls: seq<Line>, pairs: seq<Pair>) returns (b: Result<Range, RangeError>)
    requires r.end <= |ls|
    ensures b == Balance(r, ls, pairs)
  {
    var trimmed := r.end;
    for i := 0 to |pairs|
      invariant trimmed == Trimmed(r, pairs[..i])
      invariant forall p <- pairs[..i] :: Straddles(p, r) && r.Has(p.ifLine) ==> NoContentAfter(ls, p.ifLine, r.end)
    {
      var pair := pairs[i];
      assert pairs[..i + 1][..i] == pairs[..i];
      assert pairs[..i + 1] == pairs[..i] + [pair];
      var ifInside := pair.ifLine >= r.start && pair.ifLine < r.end;
      var endifInside := pair.endifLine >= r.start && pair.endifLine < r.end;
      if ifInside != endifInside {
        var insideLine := if ifInside then pair.ifLine else pair.endifLine;
        if insideLine < trimmed {
          trimmed := insideLine;
        }
        if ifInside {
          var ok := ValidateNoContentAfter(ls, pair.ifLine, r.end);
          if !ok {
            assert pair in pairs;
            return Failure(ConditionalSpansSections(r));
          }
        }
      }
    }
    assert pairs[..|pairs|] == pairs;
    var ok := ValidateNoBranchDirectives(r, ls, pairs);
    if !ok {
      return Failure(ConditionalSpansSections(r));
    }
    if trimmed == r.end {
      return Success(r);
    }
    ok := ValidateNoContentAfter(ls, trimmed - 1, r.end);
    if !ok {
      return Failure(ConditionalSpansSections(r));
    }
    return Success(Range(r.start, trimmed));
  }

  // ---------------------------------------------------------------- all ranges

  /** The next section header at or after line i, or the end of the file. */
  function NextHeader(ls: seq<Line>, i: nat): (n: nat)
    requires i <= |ls|
    ensures i <= n <= |ls| && (forall k :: i <= k < n ==> !ls[k].Heads()) && (n < |ls| ==> ls[n].Heads())
    decreases |ls| - i
  {
    if i == |ls| || ls[i].Heads() then i else NextHeader(ls, i + 1)
  }

  predicate Selected(l: Line, select: (string, string) -> bool) {
    l.Heads() && l.kind.SectionHeader? && select(l.kind.name, l.kind.pkg)
  }

  /** One range for every selected section, from its header to the next header. */
  function SectionRanges(ls: seq<Line>, i: nat, select: (string, string) -> bool): seq<Range>
    requires i <= |ls|
    decreases |ls| - i
  {
    if i == |ls| then []
    else (if Selected(ls[i], select) then [Range(i, NextHeader(ls, i + 1))] else []) + SectionRanges(ls, i + 1, select)
  }

  function BalanceAll(ranges: seq<Range>, ls: seq<Line>, pairs: seq<Pair>): Result<seq<Range>, RangeError>
    requires forall r <- ranges :: r.end <= |ls|
  {
    if ranges == [] then Success([])
    else match Balance(ranges[0], ls, pairs)
      case Failure(e) => Failure(e)
      case Success(r) =>
        match BalanceAll(ranges[1..], ls, pairs)
        case Failure(e) => Failure(e)
        case Success(rs) => Success([r] + rs)
  }

  lemma {:induction false} SectionRangesBounds(ls: seq<Line>, i: nat, select: (string, string) -> bool)
    requires i <= |ls|
    ensures forall r <- SectionRanges(ls, i, select) ::
              i <= r.start < r.end <= |ls| && Selected(ls[r.start], select) && r.end == NextHeader(ls, r.start + 1)
    decreases |ls| - i
  {
    if i < |ls| {
      SectionRangesBounds(ls, i + 1, select);
    }
  }

  /** The balanced ranges of the selected sections; conditionals only matter when there are some. */
  function CollectedRanges(ls: seq<Line>, select: (string, string) -> bool): Result<seq<Range>, RangeError> {
    var ranges := SectionRanges(ls, 0, select);
    SectionRangesBounds(ls, 0, select);
    if ranges == [] then Success([])
    else match ConditionalPairs(ls)
      case Failure(e) => Failure(Unmatched(e))
      case Success(pairs) => BalanceAll(ranges, ls, pairs)
  }

  /** Balances the ranges that a walk over the sections recorded. */
  method BalanceRanges(ls: seq<Line>, found: seq<Range>, ghost select: (string, string) -> bool)
    returns (b: Result<seq<Range>, RangeError>)
    requires LabelledInOrder(ls) && found == SectionRanges(ls, 0, select)
    ensures b == CollectedRanges(ls, select)
  {
    hide Balance, SectionRanges, ConditionalPairs, NextHeader, Selected;
    SectionRangesBounds(ls, 0, select);
    if |found| == 0 {
      return Success([]);
    }
    var pairs := CollectConditionalPairs(ls);
    if pairs.Failure? {
      return Failure(Unmatched(pairs.error));
    }
    var ranges: seq<Range> := [];
    assert found[0..] == found;
    ghost var all := BalanceAll(found, ls, pairs.value);
    assert all.Success? ==> ranges + all.value == all.value;
    for idx := 0 to |found|
      invariant match BalanceAll(found[idx..], ls, pairs.value)
                case Failure(e) => BalanceAll(found, ls, pairs.value) == Failure(e)
                case Success(rs) => BalanceAll(found, ls, pairs.value) == Success(ranges + rs)
    {
      assert found[idx..][0] == found[idx] && found[idx..][1..] == found[idx + 1..];
      var balanced := BalanceRange(found[idx], ls, pairs.value);
      if balanced.Failure? {
        return Failure(balanced.error);
      }
      ghost var more := BalanceAll(found[idx + 1..], ls, pairs.value);
      if more.Success? {
        assert (ranges + [balanced.value]) + more.value == ranges + ([balanced.value] + more.value);
      }
      ranges := ranges + [balanced.value];
    }
    assert found[|found|..] == [] && ranges + [] == ranges;
    return Success(ranges);
  }

  // ---------------------------------------------------------------- removal

  /** Lines without those of the ranges, which are removed from the last to the first. */
  function WithoutRanges<T>(xs: seq<T>, ranges: seq<Range>): seq<T>
    requires Ascending(ranges, |xs|)
    decreases |ranges|
  {
    if ranges == [] then xs
    else
      var last := ranges[|ranges| - 1];
      assert last in ranges;
      WithoutRanges(xs[..last.start] + xs[last.end..], ranges[..|ranges| - 1])
  }

  /** Ranges in order, without overlap, within a number of lines. */
  predicate Ascending(ranges: seq<Range>, size: nat) {
    && (forall r <- ranges :: r.start <= r.end <= size)
    && (forall i, j :: 0 <= i < j < |ranges| ==> ranges[i].end <= ranges[j].start)
  }
}
