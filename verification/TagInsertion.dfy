/** Inserting a tag after the tags of its family, outside of every conditional. */
module TagInsertion {
  import opened Wrappers
  import opened Lines
  import opened SpecFile
  import opened SpecLines
  import opened SpecWalk
  import opened Reading
  import opened LineEdits
  import opened SectionEdits

  // ---------------------------------------------------------------- families

  /** A name without the digits at its end; nothing is left of a name that is all digits. */
  function WithoutNumber(tag: string): (stem: string)
    ensures stem <= tag
  {
    if tag != "" && '0' <= tag[|tag| - 1] <= '9' then WithoutNumber(tag[..|tag| - 1]) else tag
  }

  function Family(tag: string): string {
    var lower := ToLower(tag);
    if WithoutNumber(lower) == "" then lower else WithoutNumber(lower)
  }

  method TagFamily(tag: string) returns (family: string)
    ensures family == Family(tag)
  {
    var lower := ToLower(tag);
    var end := |lower|;
    assert lower[..|lower|] == lower;
    while end > 0 && '0' <= lower[end - 1] <= '9'
      invariant 0 <= end <= |lower| && WithoutNumber(lower[..end]) == WithoutNumber(lower)
    {
      assert lower[..end][..end - 1] == lower[..end - 1];
      end := end - 1;
    }
    return if end == 0 then lower else lower[..end];
  }

  // ---------------------------------------------------------------- conditional depth

  /** The conditionals open before line k: openers less closers. */
  function Depth(lines: seq<string>, k: nat): int
    requires k <= |lines|
  {
    if k == 0 then 0 else Depth(lines, k - 1) + ConditionalDepthChange(lines[k - 1])
  }

  /** Openers count one each, and closers take one away. */
  lemma {:induction false} DepthCounts(lines: seq<string>, k: nat)
    requires k <= |lines|
    ensures Depth(lines, k) == |LinesWith(lines, k, 1)| - |LinesWith(lines, k, -1)|
  {
    hide ConditionalDepthChange, LinesWith;
    if k > 0 {
      DepthCounts(lines, k - 1);
      ChangesByOne(lines[k - 1]);
      OneLineMore(lines, k - 1, 1);
      OneLineMore(lines, k - 1, -1);
    } else {
      NoLines(lines, 1);
      NoLines(lines, -1);
    }
  }

  lemma NoLines(lines: seq<string>, change: int)
    ensures LinesWith(lines, 0, change) == {}
  {
  }

  lemma OneLineMore(lines: seq<string>, k: nat, change: int)
    requires k < |lines|
    ensures |LinesWith(lines, k + 1, change)|
         == |LinesWith(lines, k, change)| + if ConditionalDepthChange(lines[k]) == change then 1 else 0
  {
    hide ConditionalDepthChange;
    var before := LinesWith(lines, k, change);
    assert LinesWith(lines, k + 1, change) == if ConditionalDepthChange(lines[k]) == change then before + {k}
      else before;
  }

  function LinesWith(lines: seq<string>, k: nat, change: int): set<nat>
    requires k <= |lines|
  {
    set i: nat | i < k && ConditionalDepthChange(lines[i]) == change
  }

  lemma ChangesByOne(line: string)
    ensures -1 <= ConditionalDepthChange(line) <= 1
  {
    hide Fields, TrimSpace, ToLower, IsComment;
  }

  /** No conditional is open after line i. */
  predicate Unconditional(lines: seq<string>, i: nat)
    requires i < |lines|
  {
    Depth(lines, i + 1) <= 0
  }

  predicate NoneUnconditional(lines: seq<string>, from: nat, to: nat)
    requires to <= |lines|
  {
    forall i :: from <= i < to ==> !Unconditional(lines, i)
  }

  /** Where the insertion goes: the line itself if no conditional is open after it, else the
      first line before the end of the section that closes them all, if there is one. */
  predicate Skips(lines: seq<string>, line: nat, sectionEnd: nat, at: nat)
    requires line < |lines| && sectionEnd <= |lines|
  {
    if Unconditional(lines, line) then at == line
    else if NoneUnconditional(lines, line + 1, sectionEnd) then at == line
    else line < at < sectionEnd && Unconditional(lines, at) && NoneUnconditional(lines, line + 1, at)
  }

  method SkipPastConditional(lines: seq<string>, line: nat, sectionEnd: nat) returns (at: nat)
    requires line < |lines| && sectionEnd <= |lines|
    ensures Skips(lines, line, sectionEnd, at)
  {
    hide ConditionalDepthChange;
    var depth := 0;
    for i := 0 to line + 1
      invariant depth == Depth(lines, i)
    {
      depth := depth + ConditionalDepthChange(lines[i]);
    }
    if depth <= 0 {
      return line;
    }
    var i := line + 1;
    while i < sectionEnd && i < |lines|
      invariant line + 1 <= i <= |lines| && depth == Depth(lines, i)
      invariant !Unconditional(lines, line) && NoneUnconditional(lines, line + 1, i)
      decreases sectionEnd - i
    {
      depth := depth + ConditionalDepthChange(lines[i]);
      if depth <= 0 {
        assert Unconditional(lines, i);
        return i;
      }
      i := i + 1;
    }
    return line;
  }

  /** There is one place. */
  lemma SkipsOnce(lines: seq<string>, line: nat, sectionEnd: nat, at: nat, other: nat)
    requires line < |lines| && sectionEnd <= |lines|
    requires Skips(lines, line, sectionEnd, at) && Skips(lines, line, sectionEnd, other)
    ensures at == other
  {
    hide Depth;
  }

  lemma DepthMovesByOne(lines: seq<string>, k: nat)
    requires k < |lines|
    ensures -1 <= Depth(lines, k + 1) - Depth(lines, k) <= 1
  {
    hide Fields, TrimSpace, ToLower, IsComment;
  }

  /** The insertion lands outside of every conditional exactly when some line from the chosen
      one to the end of the section is, and at depth zero when it had to move for that. */
  lemma SkipsToDepthZero(lines: seq<string>, line: nat, sectionEnd: nat, at: nat)
    requires line < sectionEnd <= |lines| && Skips(lines, line, sectionEnd, at)
    ensures line <= at < sectionEnd
    ensures Unconditional(lines, at) <==> exists i :: line <= i < sectionEnd && Unconditional(lines, i)
    ensures at != line ==> Depth(lines, at + 1) == 0
  {
    hide Depth;
    if at != line {
      DepthMovesByOne(lines, at);
      assert !Unconditional(lines, at - 1);
    }
  }

  /** An insertion leaves the depth before it alone. */
  lemma {:induction false} DepthBeforeInsertion(lines: seq<string>, more: seq<string>, p: nat, k: nat)
    requires k <= p <= |lines|
    ensures Depth(lines[..p] + more + lines[p..], k) == Depth(lines, k)
  {
    hide ConditionalDepthChange;
    if k > 0 {
      DepthBeforeInsertion(lines, more, p, k - 1);
    }
  }

  // ---------------------------------------------------------------- finding the place

  /** What the scan knows: the last tag of the family and of any kind (-1 for none), and the end
      of the last section of the name. */
  datatype Scan = Scan(found: bool, lastFamily: int, lastAny: int, sectionEnd: nat)

  function Scanner(name: string, pkg: string, family: string): Reader<Scan> {
    (scan: Scan, e: Event) => if Named(e.section, name, pkg) then Scanned(scan, e, family) else scan
  }

  function Scanned(scan: Scan, e: Event, family: string): Scan {
    match e.target
    case SectionStart(_) => scan.(found := true)
    case SectionEnd => scan.(sectionEnd := e.lineNum)
    case SectionLine(_, Tag(tag, _)) =>
      if Family(tag) == family then scan.(lastAny := e.lineNum, lastFamily := e.lineNum)
        else scan.(lastAny := e.lineNum)
    case _ => scan
  }

  /** A tag of the section, and of a family if one is given. */
  predicate TagAt(lines: seq<string>, i: nat, name: string, pkg: string, family: Option<string>)
    requires i < |lines|
  {
    var section := SectionBefore(lines, i);
    var parsed := ParseLine(lines[i], section);
    Named(section, name, pkg) && parsed.Tag? && (family.Some? ==> Family(parsed.tag) == family.value)
  }

  /** x is the last such tag among the first n lines, or -1. */
  predicate LastTag(lines: seq<string>, n: nat, x: int, name: string, pkg: string, family: Option<string>)
    requires n <= |lines|
  {
    && -1 <= x < n && (x >= 0 ==> TagAt(lines, x, name, pkg, family))
    && forall i: nat :: x < i < n ==> !TagAt(lines, i, name, pkg, family)
  }

  /** A header that ends the section. */
  predicate HeaderEnds(lines: seq<string>, q: nat, name: string, pkg: string)
    requires q < |lines|
  {
    SectionOfHeader(lines[q]).Some? && Named(SectionBefore(lines, q), name, pkg)
  }

  /** The last header among the first n lines that ends the section, or the end of the file. */
  predicate LastEnd(lines: seq<string>, n: nat, end: nat, name: string, pkg: string)
    requires n <= |lines|
  {
    && (end < n || end == |lines|) && (end < n ==> HeaderEnds(lines, end, name, pkg))
    && forall q: nat :: (if end < n then end else -1) < q < n ==> !HeaderEnds(lines, q, name, pkg)
  }

  predicate ScannedTo(lines: seq<string>, p: nat, scan: Scan, name: string, pkg: string, family: string)
    requires p <= |lines|
  {
    && (scan.found <==> Named(PREAMBLE, name, pkg) || HasMatch(lines[..p], name, pkg))
    && LastTag(lines, p, scan.lastAny, name, pkg, None)
    && LastTag(lines, p, scan.lastFamily, name, pkg, Some(family))
    && LastEnd(lines, p, scan.sectionEnd, name, pkg)
  }

  lemma MatchOneMore(lines: seq<string>, p: nat, name: string, pkg: string)
    requires p < |lines|
    ensures HasMatch(lines[..p + 1], name, pkg) <==> HasMatch(lines[..p], name, pkg) || Matches(lines[p], name, pkg)
  {
    hide Matches;
    assert lines[..p + 1] == lines[..p] + [lines[p]];
  }

  /** What one line adds to the scan. */
  lemma ScanLine(lines: seq<string>, p: nat, scan: Scan, name: string, pkg: string, family: string)
    requires p < |lines|
    ensures ReadLine(lines, p, scan, Scanner(name, pkg, family))
         == Scan(scan.found || Matches(lines[p], name, pkg),
                 if TagAt(lines, p, name, pkg, Some(family)) then p else scan.lastFamily,
                 if TagAt(lines, p, name, pkg, None) then p else scan.lastAny,
                 if HeaderEnds(lines, p, name, pkg) then p else scan.sectionEnd)
  {
    hide SectionOfHeader, Named, SectionBefore, Family;
    OneMore(lines, p);
  }

  lemma ScanStep(lines: seq<string>, p: nat, scan: Scan, name: string, pkg: string, family: string)
    requires p < |lines| && ScannedTo(lines, p, scan, name, pkg, family)
    ensures ScannedTo(lines, p + 1, ReadLine(lines, p, scan, Scanner(name, pkg, family)), name, pkg, family)
  {
    hide ReadLine, Scanner, TagAt, HeaderEnds, HasMatch, Matches, Named;
    ScanLine(lines, p, scan, name, pkg, family);
    MatchOneMore(lines, p, name, pkg);
  }

  /** What the whole scan finds: the end of the file ends the last section. */
  predicate ScanResult(lines: seq<string>, scan: Scan, name: string, pkg: string, family: string) {
    && (scan.found <==> AnyNamed(Segments(lines, PREAMBLE), name, pkg))
    && LastTag(lines, |lines|, scan.lastAny, name, pkg, None)
    && LastTag(lines, |lines|, scan.lastFamily, name, pkg, Some(family))
    && if Named(SectionBefore(lines, |lines|), name, pkg) then scan.sectionEnd == |lines|
       else LastEnd(lines, |lines|, scan.sectionEnd, name, pkg)
  }

  /** The scan finds one thing. */
  lemma ScansOnce(lines: seq<string>, scan: Scan, other: Scan, name: string, pkg: string, family: string)
    requires ScanResult(lines, scan, name, pkg, family) && ScanResult(lines, other, name, pkg, family)
    ensures scan == other
  {
    hide TagAt, HeaderEnds, SectionBefore, Named, Segments, AnyNamed;
    assert scan.lastAny == other.lastAny;
    assert scan.lastFamily == other.lastFamily;
    assert scan.sectionEnd == other.sectionEnd;
  }

  lemma ScanEnds(lines: seq<string>, scan: Scan, name: string, pkg: string, family: string)
    ensures ReadEnd(lines, scan, Scanner(name, pkg, family))
         == if Named(SectionBefore(lines, |lines|), name, pkg) then scan.(sectionEnd := |lines|) else scan
  {
    hide SectionBefore, Named;
  }

  lemma {:induction false} ScanFinds(lines: seq<string>, p: nat, scan: Scan, name: string, pkg: string, family: string)
    requires p <= |lines| && ScannedTo(lines, p, scan, name, pkg, family)
    ensures ScanResult(lines, ReadFrom(lines, p, scan, Scanner(name, pkg, family)), name, pkg, family)
    decreases |lines| - p
  {
    hide ReadLine, ReadEnd, Scanner, LastTag, LastEnd, HasMatch, Named, SectionBefore, Segments, AnyNamed;
    if p == |lines| {
      ScanEnds(lines, scan, name, pkg, family);
      assert lines[..p] == lines;
      FoundSegments(lines, name, pkg);
    } else {
      ScanStep(lines, p, scan, name, pkg, family);
      ScanFinds(lines, p + 1, ReadLine(lines, p, scan, Scanner(name, pkg, family)), name, pkg, family);
    }
  }

  lemma FoundSegments(lines: seq<string>, name: string, pkg: string)
    ensures AnyNamed(Segments(lines, PREAMBLE), name, pkg) <==> Named(PREAMBLE, name, pkg) || HasMatch(lines, name, pkg)
  {
    hide Segments, HasMatch;
    PrependedSegments(lines, name, pkg, []);
  }

  method FindInsertTagPosition(spec: Spec, name: string, pkg: string, family: string) returns (scan: Scan)
    modifies spec
    ensures spec.rawLines == old(spec.rawLines) && ScanResult(spec.rawLines, scan, name, pkg, family)
  {
    hide ReadFrom, ScanResult, SectionBefore;
    scan := Read(spec, Scanner(name, pkg, family), Scan(false, -1, -1, |spec.rawLines|));
    ghost var lines := spec.rawLines;
    ghost var start := ReadStart(Scan(false, -1, -1, |lines|), Scanner(name, pkg, family));
    assert start == Scan(Named(PREAMBLE, name, pkg), -1, -1, |lines|);
    assert lines[..0] == [];
    ScanFinds(lines, 0, start, name, pkg, family);
  }

  // ---------------------------------------------------------------- inserting

  /** The first header at or after a line, or the end of the file, ends the line's section. */
  lemma {:induction false} SectionEndsLater(lines: seq<string>, i: nat, name: string, pkg: string) returns (q: nat)
    requires i <= |lines| && Named(SectionBefore(lines, i), name, pkg)
    ensures i <= q <= |lines| && Named(SectionBefore(lines, q), name, pkg)
    ensures q < |lines| ==> HeaderEnds(lines, q, name, pkg)
    decreases |lines| - i
  {
    hide SectionOfHeader, SectionBefore, Named;
    if i == |lines| || SectionOfHeader(lines[i]).Some? {
      q := i;
    } else {
      OneMore(lines, i);
      q := SectionEndsLater(lines, i + 1, name, pkg);
    }
  }

  /** Every tag of the section is before the end of the section. */
  lemma TagBeforeEnd(lines: seq<string>, scan: Scan, name: string, pkg: string, family: string, i: nat)
    requires ScanResult(lines, scan, name, pkg, family) && i < |lines| && TagAt(lines, i, name, pkg, None)
    ensures i < scan.sectionEnd <= |lines|
  {
    hide SectionOfHeader, SectionBefore, Named, Segments, AnyNamed, LastTag;
    TagIsNoHeader(lines, i, name, pkg);
    var q := SectionEndsLater(lines, i, name, pkg);
  }

  lemma TagIsNoHeader(lines: seq<string>, i: nat, name: string, pkg: string)
    requires i < |lines| && TagAt(lines, i, name, pkg, None)
    ensures Named(SectionBefore(lines, i), name, pkg) && !HeaderEnds(lines, i, name, pkg)
  {
    hide SectionBefore, Named;
  }

  /** The tag to insert after: the last of the family, else the last of any kind. */
  function Chosen(scan: Scan): int {
    if scan.lastFamily >= 0 then scan.lastFamily else scan.lastAny
  }

  function TagSection(pkg: string): string {
    if pkg == "" then "" else "%package"
  }

  method AddTag(spec: Spec, pkg: string, tag: string, value: string) returns (r: Result<(), SectionError>)
    modifies spec
    ensures var segments, name := Segments(old(spec.rawLines), PREAMBLE), if pkg == "" then "" else "%package";
            && spec.rawLines == Joined(WithAppended(segments, name, pkg, [tag + ": " + value]))
            && r == (if AnyNamed(segments, name, pkg) then Success(()) else Failure(SectionNotFound))
    ensures r.Failure? ==> spec.rawLines == old(spec.rawLines)
  {
    r := AppendLinesToSection(spec, TagSection(pkg), pkg, [tag + ": " + value]);
  }

  /** Updates the tags of a name in a package, or adds one when there is none. */
  method SetTag(spec: Spec, pkg: string, tag: string, value: string) returns (r: Result<(), SectionError>)
    modifies spec
    ensures HasTag(old(spec.rawLines), pkg, tag) ==>
              r.Success? && TagsUpdated(spec.rawLines, old(spec.rawLines), pkg, tag, value)
    ensures !HasTag(old(spec.rawLines), pkg, tag) ==>
              var segments := Segments(old(spec.rawLines), PREAMBLE);
              && spec.rawLines == Joined(WithAppended(segments, TagSection(pkg), pkg, [tag + ": " + value]))
              && r == (if AnyNamed(segments, TagSection(pkg), pkg) then Success(()) else Failure(SectionNotFound))
    ensures r.Failure? ==> spec.rawLines == old(spec.rawLines)
  {
    hide HasTag, TagsUpdated, Segments, Joined, WithAppended, AnyNamed;
    var updated := UpdateExistingTag(spec, pkg, tag, value);
    if updated.Success? {
      return Success(());
    }
    r := AddTag(spec, pkg, tag, value);
  }

  /** Inserts a tag behind the last one of its family and outside of conditionals; without any
      tag, at the end of the section. */
  method InsertTag(spec: Spec, pkg: string, tag: string, value: string)
    returns (r: Result<(), SectionError>, ghost scan: Scan, ghost at: nat)
    modifies spec
    ensures ScanResult(old(spec.rawLines), scan, TagSection(pkg), pkg, Family(tag))
    ensures r == if scan.found then Success(()) else Failure(SectionNotFound)
    ensures !scan.found ==> spec.rawLines == old(spec.rawLines)
    ensures scan.found && Chosen(scan) < 0 ==>
              spec.rawLines == Joined(WithAppended(Segments(old(spec.rawLines), PREAMBLE), TagSection(pkg), pkg,
                [tag + ": " + value]))
    ensures scan.found && Chosen(scan) >= 0 ==>
              && 0 <= Chosen(scan) < scan.sectionEnd <= |old(spec.rawLines)|
              && Skips(old(spec.rawLines), Chosen(scan), scan.sectionEnd, at) && at < |old(spec.rawLines)|
              && spec.rawLines == old(spec.rawLines[..at + 1]) + [tag + ": " + value] + old(spec.rawLines[at + 1..])
  {
    hide Joined, WithAppended, Segments, Skips, AnyNamed, Family, ScanResult;
    at := 0;
    var family := TagFamily(tag);
    var found := FindInsertTagPosition(spec, TagSection(pkg), pkg, family);
    scan := found;
    FoundIsNamed(spec.rawLines, scan, TagSection(pkg), pkg, family);
    if !found.found {
      return Failure(SectionNotFound), scan, at;
    }
    var line := if found.lastFamily >= 0 then found.lastFamily else found.lastAny;
    if line < 0 {
      r := AddTag(spec, pkg, tag, value);
      return;
    }
    ChosenBeforeEnd(spec.rawLines, scan, TagSection(pkg), pkg, family);
    at := InsertBehind(spec, line, found.sectionEnd, tag + ": " + value);
    return Success(()), scan, at;
  }

  /** Inserts a line behind another one, once past the conditionals open there. */
  method InsertBehind(spec: Spec, line: nat, sectionEnd: nat, new_: string) returns (ghost at: nat)
    requires line < sectionEnd <= |spec.rawLines|
    modifies spec
    ensures at < |old(spec.rawLines)| && Skips(old(spec.rawLines), line, sectionEnd, at)
    ensures spec.rawLines == old(spec.rawLines[..at + 1]) + [new_] + old(spec.rawLines[at + 1..])
  {
    hide Skips;
    var to := SkipPastConditional(spec.rawLines, line, sectionEnd);
    SkipsToDepthZero(spec.rawLines, line, sectionEnd, to);
    spec.rawLines := spec.rawLines[..to + 1] + [new_] + spec.rawLines[to + 1..];
    at := to;
  }

  lemma FoundIsNamed(lines: seq<string>, scan: Scan, name: string, pkg: string, family: string)
    requires ScanResult(lines, scan, name, pkg, family)
    ensures scan.found <==> AnyNamed(Segments(lines, PREAMBLE), name, pkg)
  {
  }

  /** What a scan and a place must be for a tag to go there. */
  ghost predicate GoesBehind(lines: seq<string>, scan: Scan, at: nat, name: string, pkg: string, family: string) {
    && ScanResult(lines, scan, name, pkg, family)
    && 0 <= Chosen(scan) < scan.sectionEnd <= |lines| && Skips(lines, Chosen(scan), scan.sectionEnd, at)
  }

  lemma ChosenBeforeEnd(lines: seq<string>, scan: Scan, name: string, pkg: string, family: string)
    requires ScanResult(lines, scan, name, pkg, family) && Chosen(scan) >= 0
    ensures Chosen(scan) < scan.sectionEnd <= |lines|
  {
    hide TagAt, LastEnd, AnyNamed, Segments, Named, SectionBefore;
    FamilyTagIsTag(lines, Chosen(scan), name, pkg, family);
    TagBeforeEnd(lines, scan, name, pkg, family, Chosen(scan));
  }

  lemma FamilyTagIsTag(lines: seq<string>, i: nat, name: string, pkg: string, family: string)
    requires i < |lines|
    ensures TagAt(lines, i, name, pkg, Some(family)) ==> TagAt(lines, i, name, pkg, None)
  {
    hide SectionBefore, Named, Family, ParseLine;
  }

  /** The last header of a range of lines. */
  function LastHeader(lines: seq<string>, from: nat, to: nat): Option<nat>
    requires from <= to <= |lines|
  {
    if from == to then None
    else if SectionOfHeader(lines[to - 1]).Some? then Some(to - 1)
    else LastHeader(lines, from, to - 1)
  }

  lemma {:induction false} SectionByLastHeader(lines: seq<string>, i: nat, k: nat)
    requires i <= k <= |lines|
    ensures match LastHeader(lines, i, k)
            case None => SectionBefore(lines, k) == SectionBefore(lines, i)
            case Some(h) => i <= h < k && SectionOfHeader(lines[h]) == Some(SectionBefore(lines, k))
    decreases k - i
  {
    hide SectionOfHeader, SectionBefore;
    if i < k {
      SectionByLastHeader(lines, i, k - 1);
      OneMore(lines, k - 1);
    }
  }

  /** Where the new line stands: not before the tag it follows nor after the end of the last
      section of the name, and with no conditional open exactly when some line from that tag up
      to that end leaves none open. It belongs to the section of the last header passed on the
      way, which may be another section. */
  lemma InsertedTagStands(lines: seq<string>, line: nat, sectionEnd: nat, at: nat, new_: string)
    requires line < sectionEnd <= |lines| && Skips(lines, line, sectionEnd, at)
    ensures line <= at < sectionEnd
    ensures var result := lines[..at + 1] + [new_] + lines[at + 1..];
            && (Depth(result, at + 1) <= 0 <==> exists i :: line <= i < sectionEnd && Unconditional(lines, i))
            && (at != line ==> Depth(result, at + 1) == 0)
            && match LastHeader(lines, line, at + 1)
               case None => SectionBefore(result, at + 1) == SectionBefore(lines, line)
               case Some(h) => line <= h <= at && SectionOfHeader(lines[h]) == Some(SectionBefore(result, at + 1))
  {
    hide Depth, SectionOfHeader, SectionBefore, Skips, LastHeader;
    SkipsToDepthZero(lines, line, sectionEnd, at);
    DepthBeforeInsertion(lines, [new_], at + 1, at + 1);
    SamePrefix(lines, lines[..at + 1] + [new_] + lines[at + 1..], at + 1);
    SectionByLastHeader(lines, line, at + 1);
  }

  /** The new tag stays in a section of the name exactly when the last header between the tag it
      follows and its place, if there is any, is one of that name again. */
  lemma InsertedTagSection(lines: seq<string>, line: nat, sectionEnd: nat, at: nat, new_: string, name: string,
    pkg: string)
    requires line < sectionEnd <= |lines| && Skips(lines, line, sectionEnd, at) && TagAt(lines, line, name, pkg, None)
    ensures line <= at < sectionEnd
    ensures Named(SectionBefore(lines[..at + 1] + [new_] + lines[at + 1..], at + 1), name, pkg) <==>
              match LastHeader(lines, line + 1, at + 1)
              case None => true
              case Some(h) => h <= at && Matches(lines[h], name, pkg)
  {
    hide SectionOfHeader, SectionBefore, Skips, Named, TagAt, LastHeader, Matches;
    SkipsToDepthZero(lines, line, sectionEnd, at);
    var result := lines[..at + 1] + [new_] + lines[at + 1..];
    assert result[..at + 1] == lines[..at + 1];
    SamePrefix(lines, result, at + 1);
    SectionBehindTag(lines, line, at, name, pkg);
  }

  lemma SectionBehindTag(lines: seq<string>, line: nat, at: nat, name: string, pkg: string)
    requires line <= at < |lines| && TagAt(lines, line, name, pkg, None)
    ensures Named(SectionBefore(lines, at + 1), name, pkg) <==>
              match LastHeader(lines, line + 1, at + 1)
              case None => true
              case Some(h) => h <= at && Matches(lines[h], name, pkg)
  {
    hide SectionOfHeader, SectionBefore, Named, TagAt, LastHeader;
    TagKeepsSection(lines, line, name, pkg);
    SectionByLastHeader(lines, line + 1, at + 1);
  }

  lemma TagKeepsSection(lines: seq<string>, line: nat, name: string, pkg: string)
    requires line < |lines| && TagAt(lines, line, name, pkg, None)
    ensures Named(SectionBefore(lines, line + 1), name, pkg)
  {
    hide SectionBefore, Named;
    OneMore(lines, line);
  }

  /** The first header from a line on, or the end of the file. */
  function FirstHeader(lines: seq<string>, from: nat): (q: nat)
    requires from <= |lines|
    ensures from <= q <= |lines|
    decreases |lines| - from
  {
    if from == |lines| || SectionOfHeader(lines[from]).Some? then from else FirstHeader(lines, from + 1)
  }

  lemma {:induction false} FirstHeaderIsFirst(lines: seq<string>, from: nat, q: nat)
    requires from <= q < |lines| && SectionOfHeader(lines[q]).Some?
    ensures FirstHeader(lines, from) <= q
    decreases q - from
  {
    hide SectionOfHeader;
    if from < q && SectionOfHeader(lines[from]).None? {
      FirstHeaderIsFirst(lines, from + 1, q);
    }
  }

  /** Read off the file: the new tag stays before the header that ends the section of the tag it
      follows exactly when a line from that tag up to that header leaves no conditional open, or
      no line up to the end of the last section of the name does. */
  lemma InsertedTagStays(lines: seq<string>, scan: Scan, at: nat, name: string, pkg: string, family: string)
    requires ScanResult(lines, scan, name, pkg, family) && Chosen(scan) >= 0
    requires scan.sectionEnd <= |lines| && Chosen(scan) < |lines| && Skips(lines, Chosen(scan), scan.sectionEnd, at)
    ensures var line: nat := Chosen(scan);
            var q := FirstHeader(lines, line + 1);
            at < q <==>
              || (exists i :: line <= i < q && Unconditional(lines, i))
              || NoneUnconditional(lines, line, scan.sectionEnd)
  {
    hide ScanResult, Depth, SectionOfHeader;
    FirstHeaderBeforeEnd(lines, scan, name, pkg, family);
  }

  lemma ChosenIsTag(lines: seq<string>, scan: Scan, name: string, pkg: string, family: string)
    requires ScanResult(lines, scan, name, pkg, family) && Chosen(scan) >= 0
    ensures Chosen(scan) < |lines| && TagAt(lines, Chosen(scan), name, pkg, None)
  {
    hide TagAt, LastEnd, AnyNamed, Segments, Named, SectionBefore;
    FamilyTagIsTag(lines, Chosen(scan), name, pkg, family);
  }

  lemma FirstHeaderBeforeEnd(lines: seq<string>, scan: Scan, name: string, pkg: string, family: string)
    requires ScanResult(lines, scan, name, pkg, family) && 0 <= Chosen(scan) < |lines|
    ensures FirstHeader(lines, Chosen(scan) + 1) <= scan.sectionEnd
  {
    hide SectionOfHeader, SectionBefore, Named, TagAt, LastTag, Chosen, FirstHeader, Segments, AnyNamed;
    ChosenIsTag(lines, scan, name, pkg, family);
    TagKeepsSection(lines, Chosen(scan), name, pkg);
    var q := SectionEndsLater(lines, Chosen(scan) + 1, name, pkg);
    if q < |lines| {
      FirstHeaderIsFirst(lines, Chosen(scan) + 1, q);
    }
  }
}
