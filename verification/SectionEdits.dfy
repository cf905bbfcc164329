/** Edits that walk over a spec and insert lines at the ends or starts of sections. */
module SectionEdits {
  import opened Wrappers
  import opened Lines
  import opened SpecFile
  import opened SpecLines
  import opened SpecWalk

  // ---------------------------------------------------------------- segments

  /** The lines of one section, its header first; the preamble has none. */
  datatype Segment = Segment(section: Section, lines: seq<string>)

  /** A file split at its section headers. */
  function Segments(lines: seq<string>, section: Section): (segments: seq<Segment>)
    ensures segments != []
  {
    if lines == [] then [Segment(section, [])]
    else
      var rest := Segments(lines[1..], SectionAfter(lines[0], section));
      var first := Segment(rest[0].section, [lines[0]] + rest[0].lines);
      (if SectionOfHeader(lines[0]).Some? then [Segment(section, [])] else []) + [first] + rest[1..]
  }

  lemma {:induction false} FirstSegment(lines: seq<string>, section: Section)
    ensures Segments(lines, section)[0].section == section
  {
    hide SectionOfHeader;
    if lines != [] && SectionOfHeader(lines[0]).None? {
      FirstSegment(lines[1..], section);
    }
  }

  function Joined(segments: seq<Segment>): seq<string> {
    if segments == [] then [] else segments[0].lines + Joined(segments[1..])
  }

  lemma {:induction false} JoinedConcat(a: seq<Segment>, b: seq<Segment>)
    ensures Joined(a + b) == Joined(a) + Joined(b)
  {
    if a == [] {
      assert a + b == b;
    } else {
      assert (a + b)[1..] == a[1..] + b;
      JoinedConcat(a[1..], b);
    }
  }

  /** Splitting loses nothing. */
  lemma {:induction false} SegmentsJoin(lines: seq<string>, section: Section)
    ensures Joined(Segments(lines, section)) == lines
  {
    hide SectionOfHeader, SectionAfter, Joined;
    if lines == [] {
      NothingJoined(section);
    } else {
      var rest := Segments(lines[1..], SectionAfter(lines[0], section));
      SegmentsJoin(lines[1..], SectionAfter(lines[0], section));
      var moved := [Segment(rest[0].section, [lines[0]] + rest[0].lines)] + rest[1..];
      JoinedMoved(lines[0], rest);
      JoinedConcat([Segment(section, [])], moved);
      NothingJoined(section);
      assert Segments(lines, section) == moved || Segments(lines, section) == [Segment(section, [])] + moved;
    }
  }

  lemma JoinedMoved(line: string, rest: seq<Segment>)
    requires rest != []
    ensures Joined([Segment(rest[0].section, [line] + rest[0].lines)] + rest[1..]) == [line] + Joined(rest)
  {
    var first := Segment(rest[0].section, [line] + rest[0].lines);
    assert ([first] + rest[1..])[1..] == rest[1..];
  }

  lemma NothingJoined(section: Section)
    ensures Joined([Segment(section, [])]) == []
  {
    assert [Segment(section, [])][1..] == [];
  }

  /** A segment holds its own header first, unless it is the preamble, and no other header. */
  predicate WellCut(segment: Segment, headless: bool) {
    && (headless || (segment.lines != [] && SectionOfHeader(segment.lines[0]) == Some(segment.section)))
    && forall k :: (if headless then 0 else 1) <= k < |segment.lines| ==> SectionOfHeader(segment.lines[k]).None?
  }

  lemma {:induction false} SegmentsWellCut(lines: seq<string>, section: Section)
    ensures var segments := Segments(lines, section);
            WellCut(segments[0], true) && forall i :: 1 <= i < |segments| ==> WellCut(segments[i], false)
  {
    hide WellCut, SectionOfHeader, SectionAfter;
    CutNothing(section);
    if lines != [] {
      var next := SectionAfter(lines[0], section);
      var rest := Segments(lines[1..], next);
      SegmentsWellCut(lines[1..], next);
      FirstSegment(lines[1..], next);
      CutOneMore(lines[0], section, rest[0]);
    }
  }

  lemma CutNothing(section: Section)
    ensures WellCut(Segment(section, []), true)
  {
  }

  lemma CutOneMore(line: string, section: Section, segment: Segment)
    requires WellCut(segment, true) && segment.section == SectionAfter(line, section)
    ensures WellCut(Segment(segment.section, [line] + segment.lines), SectionOfHeader(line).None?)
  {
    hide SectionOfHeader;
  }

  // ---------------------------------------------------------------- appending

  predicate Named(section: Section, name: string, pkg: string) {
    section.name == name && section.pkg == pkg
  }

  function WithAppended(segments: seq<Segment>, name: string, pkg: string, more: seq<string>): seq<Segment> {
    if segments == [] then []
    else
      [if Named(segments[0].section, name, pkg) then segments[0].(lines := segments[0].lines + more) else segments[0]]
      + WithAppended(segments[1..], name, pkg, more)
  }

  predicate AnyNamed(segments: seq<Segment>, name: string, pkg: string) {
    exists s <- segments :: Named(s.section, name, pkg)
  }

  function Appender(name: string, pkg: string, more: seq<string>): Visitor<bool, ()> {
    (updated: bool, e: Event) =>
      if e.target.SectionEnd? && Named(e.section, name, pkg) then (true, InsertBefore(more)) else (updated, Keep)
  }

  /** What the walk makes of the lines still to visit. */
  function Appended(lines: seq<string>, section: Section, name: string, pkg: string, more: seq<string>): seq<string> {
    var tail := if Named(section, name, pkg) then more else [];
    if lines == [] then tail
    else (if SectionOfHeader(lines[0]).Some? then tail else []) + [lines[0]]
         + Appended(lines[1..], SectionAfter(lines[0], section), name, pkg, more)
  }

  /** Whether the walk over the lines still to visit finds the section. */
  predicate Finds(lines: seq<string>, section: Section, name: string, pkg: string) {
    if lines == [] then Named(section, name, pkg)
    else
      || (SectionOfHeader(lines[0]).Some? && Named(section, name, pkg))
      || Finds(lines[1..], SectionAfter(lines[0], section), name, pkg)
  }

  lemma {:induction false} AppendedSegments(lines: seq<string>, section: Section, name: string, pkg: string,
    more: seq<string>)
    ensures Appended(lines, section, name, pkg, more) == Joined(WithAppended(Segments(lines, section), name, pkg, more))
    ensures Finds(lines, section, name, pkg) <==> AnyNamed(Segments(lines, section), name, pkg)
  {
    hide SectionOfHeader, SectionAfter, Named, Joined, WithAppended, AnyNamed;
    if lines == [] {
      AppendToNothing(section, [], name, pkg, more);
      AppendedNone(name, pkg, more);
      assert [Segment(section, [])] + [] == [Segment(section, [])];
    } else {
      var next := SectionAfter(lines[0], section);
      var rest := Segments(lines[1..], next);
      AppendedSegments(lines[1..], next, name, pkg, more);
      var first := Segment(rest[0].section, [lines[0]] + rest[0].lines);
      AppendToFirst(lines[0], rest, name, pkg, more);
      var moved := [first] + rest[1..];
      if SectionOfHeader(lines[0]).Some? {
        var s := Segment(section, []);
        assert Segments(lines, section) == [s] + moved;
        AppendToNothing(section, moved, name, pkg, more);
      } else {
        assert Segments(lines, section) == moved;
      }
    }
  }

  lemma AppendedNone(name: string, pkg: string, more: seq<string>)
    ensures Joined(WithAppended([], name, pkg, more)) == [] && !AnyNamed([], name, pkg)
  {
  }

  lemma AppendToFirst(line: string, rest: seq<Segment>, name: string, pkg: string, more: seq<string>)
    requires rest != []
    ensures var moved := [Segment(rest[0].section, [line] + rest[0].lines)] + rest[1..];
            && Joined(WithAppended(moved, name, pkg, more)) == [line] + Joined(WithAppended(rest, name, pkg, more))
            && (AnyNamed(moved, name, pkg) <==> AnyNamed(rest, name, pkg))
  {
    hide Named;
    var first := Segment(rest[0].section, [line] + rest[0].lines);
    var moved := [first] + rest[1..];
    assert moved[1..] == rest[1..] && rest == [rest[0]] + rest[1..];
    assert moved[0] in moved && rest[0] in rest;
    var a, b := WithAppended(moved, name, pkg, more), WithAppended(rest, name, pkg, more);
    assert a[1..] == b[1..] && a[0].lines == [line] + b[0].lines;
  }

  lemma AppendToNothing(section: Section, moved: seq<Segment>, name: string, pkg: string, more: seq<string>)
    ensures var all := [Segment(section, [])] + moved;
            && Joined(WithAppended(all, name, pkg, more))
               == (if Named(section, name, pkg) then more else []) + Joined(WithAppended(moved, name, pkg, more))
            && (AnyNamed(all, name, pkg) <==> Named(section, name, pkg) || AnyNamed(moved, name, pkg))
  {
    hide Named;
    var all := [Segment(section, [])] + moved;
    assert all[1..] == moved && all[0] in all;
    var a := WithAppended(all, name, pkg, more);
    assert a[1..] == WithAppended(moved, name, pkg, more);
    assert [] + more == more;
  }

  /** One visit: at a header, the section before it may get its lines. */
  lemma AppenderMoves(done: seq<string>, rest: seq<string>, u: bool, name: string, pkg: string, more: seq<string>)
    requires rest != []
    ensures var hit := SectionOfHeader(rest[0]).Some? && Named(SectionAt(done, PREAMBLE), name, pkg);
            var done' := done + (if hit then more else []) + [rest[0]];
            && Move(Walking(done + rest, |done|, PLAIN, u), Appender(name, pkg, more))
               == Walking(done' + rest[1..], |done'|, PLAIN, u || hit)
            && SectionAt(done', PREAMBLE) == SectionAfter(rest[0], SectionAt(done, PREAMBLE))
  {
    hide SectionOfHeader, SectionAt, ParseLine, Named;
    var lines := done + rest;
    var s := SectionAt(done, PREAMBLE);
    var hit := SectionOfHeader(rest[0]).Some? && Named(s, name, pkg);
    var before := done + if hit then more else [];
    assert lines[..|done|] == done && lines[|done|] == rest[0] && lines[|done|..] == rest;
    assert rest == [rest[0]] + rest[1..];
    assert before + rest == before + [rest[0]] + rest[1..];
    SectionAtConcat(before, [rest[0]], PREAMBLE);
    SectionAtOne(rest[0], SectionAt(before, PREAMBLE));
    assert done + [] == done;
  }

  lemma AppenderEnds(lines: seq<string>, u: bool, name: string, pkg: string, more: seq<string>)
    ensures var hit := Named(SectionAt(lines, PREAMBLE), name, pkg);
            Move(Walking(lines, |lines|, PLAIN, u), Appender(name, pkg, more))
              == Done(lines + (if hit then more else []), u || hit)
  {
    hide SectionOfHeader, SectionAt, ParseLine, Named;
    assert lines[..|lines|] == lines && lines + [] == lines;
    assert lines + [] + more == lines + more;
  }

  lemma {:induction false} AppenderAppends(done: seq<string>, rest: seq<string>, u: bool, name: string, pkg: string,
    more: seq<string>)
    ensures var s := SectionAt(done, PREAMBLE);
            After(Walking(done + rest, |done|, PLAIN, u), |rest| + 1, Appender(name, pkg, more))
            == Done(done + Appended(rest, s, name, pkg, more), u || Finds(rest, s, name, pkg))
    decreases |rest|
  {
    hide Move, SectionAt, SectionAfter, SectionOfHeader, Named, Appender;
    var s := SectionAt(done, PREAMBLE);
    var visit := Appender(name, pkg, more);
    if rest == [] {
      assert done + rest == done;
      AppenderEnds(done, u, name, pkg, more);
      AfterNone(Move(Walking(done, |done|, PLAIN, u), visit), visit);
    } else {
      var hit := SectionOfHeader(rest[0]).Some? && Named(s, name, pkg);
      var done' := done + (if hit then more else []) + [rest[0]];
      AppenderMoves(done, rest, u, name, pkg, more);
      AppenderAppends(done', rest[1..], u || hit, name, pkg, more);
      var t := SectionAfter(rest[0], s);
      assert done' + Appended(rest[1..], t, name, pkg, more) == done + Appended(rest, s, name, pkg, more);
    }
  }

  datatype SectionError = SectionNotFound

  /** Appends lines to every section of a name and package, at its end. */
  method AppendLinesToSection(spec: Spec, name: string, pkg: string, more: seq<string>)
    returns (r: Result<(), SectionError>)
    modifies spec
    ensures var segments := Segments(old(spec.rawLines), PREAMBLE);
            && spec.rawLines == Joined(WithAppended(segments, name, pkg, more))
            && r == (if AnyNamed(segments, name, pkg) then Success(()) else Failure(SectionNotFound))
    ensures r.Failure? ==> spec.rawLines == old(spec.rawLines)
  {
    hide Move, After, Appended, Finds, Segments, Joined, WithAppended, AnyNamed;
    ghost var lines := spec.rawLines;
    var visit := Appender(name, pkg, more);
    assert [] + lines == lines && SectionAt([], PREAMBLE) == PREAMBLE;
    assert Start(lines, false, visit) == Walking(lines, 0, PLAIN, false);
    AppenderAppends([], lines, false, name, pkg, more);
    assert EndsBy(Start(lines, false, visit), |lines| + 1, visit);
    AppendedSegments(lines, PREAMBLE, name, pkg, more);
    assert [] + Appended(lines, PREAMBLE, name, pkg, more) == Appended(lines, PREAMBLE, name, pkg, more);
    var updated, walked;
    ghost var n;
    updated, walked, n := Visit(spec, visit, false);
    EndsOnce(Start(lines, false, visit), |lines| + 1, n, visit);
    if !updated {
      NoneAppended(Segments(lines, PREAMBLE), name, pkg, more);
      SegmentsJoin(lines, PREAMBLE);
      return Failure(SectionNotFound);
    }
    return Success(());
  }

  lemma {:induction false} NoneAppended(segments: seq<Segment>, name: string, pkg: string, more: seq<string>)
    requires !AnyNamed(segments, name, pkg)
    ensures WithAppended(segments, name, pkg, more) == segments
  {
    hide Named;
    if segments != [] {
      assert segments[0] in segments;
      assert forall s <- segments[1..] :: s in segments;
      NoneAppended(segments[1..], name, pkg, more);
    }
  }

  // ---------------------------------------------------------------- prepending

  /** A header of the section to prepend to. */
  predicate Matches(line: string, name: string, pkg: string) {
    SectionOfHeader(line).Some? && Named(SectionOfHeader(line).value, name, pkg)
  }

  predicate HasMatch(lines: seq<string>, name: string, pkg: string) {
    exists l <- lines :: Matches(l, name, pkg)
  }

  /** The lines inserted after a header end in a header of the same section. */
  predicate Renews(more: seq<string>, name: string, pkg: string) {
    more != [] && Matches(more[|more| - 1], name, pkg)
  }

  function PrependTo(s: Segment, name: string, pkg: string, more: seq<string>): seq<string> {
    if !Named(s.section, name, pkg) then s.lines
    else if (name == "" && pkg == "") || s.lines == [] then more + s.lines
    else s.lines[..1] + more + s.lines[1..]
  }

  function WithPrepended(segments: seq<Segment>, name: string, pkg: string, more: seq<string>): seq<Segment> {
    if segments == [] then []
    else
      [segments[0].(lines := PrependTo(segments[0], name, pkg, more))]
      + WithPrepended(segments[1..], name, pkg, more)
  }

  function Prepender(name: string, pkg: string, more: seq<string>): Visitor<bool, ()> {
    (updated: bool, e: Event) =>
      if e.target.SectionStart? && Named(e.section, name, pkg) then
        (true, if e.section.name == "" && e.section.pkg == "" then InsertBefore(more) else InsertAfter(more))
      else (updated, Keep)
  }

  /** The lines, with others after each header of a section. */
  function AfterHeaders(lines: seq<string>, name: string, pkg: string, more: seq<string>): seq<string> {
    if lines == [] then []
    else [lines[0]] + (if Matches(lines[0], name, pkg) then more else []) + AfterHeaders(lines[1..], name, pkg, more)
  }

  /** Headers name their section; only the preamble has no name. */
  lemma HeaderHasName(line: string)
    ensures SectionOfHeader(line).Some? ==> SectionOfHeader(line).value.name != ""
  {
    hide ToLower, SectionTypeByName, PackageOf, BeforeParenthesis;
    var tokens := Fields(line);
    if tokens != [] {
      assert tokens[0] in tokens;
    }
  }

  lemma {:induction false} PrependedTail(lines: seq<string>, section: Section, name: string, pkg: string,
    more: seq<string>)
    ensures var segments := Segments(lines, section);
            && AfterHeaders(lines, name, pkg, more)
               == segments[0].lines + Joined(WithPrepended(segments[1..], name, pkg, more))
            && (HasMatch(lines, name, pkg) <==> AnyNamed(segments[1..], name, pkg))
  {
    hide SectionOfHeader, SectionAfter, Named, Matches, HasMatch, AnyNamed, Joined, WithPrepended, PrependTo;
    var segments := Segments(lines, section);
    if lines == [] {
      assert segments[1..] == [];
      PrependedNothing(name, pkg, more);
    } else {
      var next := SectionAfter(lines[0], section);
      var rest := Segments(lines[1..], next);
      PrependedTail(lines[1..], next, name, pkg, more);
      MatchFirst(lines, name, pkg);
      var first := Segment(rest[0].section, [lines[0]] + rest[0].lines);
      var added := if Matches(lines[0], name, pkg) then more else [];
      var tail := Joined(WithPrepended(rest[1..], name, pkg, more));
      Regroup([lines[0]], added, rest[0].lines, tail);
      assert AfterHeaders(lines, name, pkg, more) == [lines[0]] + added + (rest[0].lines + tail);
      if SectionOfHeader(lines[0]).Some? {
        assert segments[1..] == [first] + rest[1..];
        FirstSegment(lines[1..], next);
        PrependToFirst(lines[0], section, rest, name, pkg, more);
      } else {
        NoHeaderNoMatch(lines[0], name, pkg);
        assert segments == [first] + rest[1..];
        assert segments[1..] == rest[1..];
      }
    }
  }

  lemma Regroup<T>(a: seq<T>, b: seq<T>, c: seq<T>, d: seq<T>)
    ensures a + b + (c + d) == a + b + c + d
    ensures b == [] ==> a + b + (c + d) == a + c + d
    ensures [] + (a + b + c + d) == a + b + c + d
  {
    assert a + [] == a;
  }

  lemma PrependedNothing(name: string, pkg: string, more: seq<string>)
    ensures Joined(WithPrepended([], name, pkg, more)) == [] && !AnyNamed([], name, pkg) && !HasMatch([], name, pkg)
  {
  }

  lemma NoHeaderNoMatch(line: string, name: string, pkg: string)
    ensures Matches(line, name, pkg) ==> SectionOfHeader(line).Some?
  {
  }

  lemma MatchFirst(lines: seq<string>, name: string, pkg: string)
    requires lines != []
    ensures HasMatch(lines, name, pkg) <==> Matches(lines[0], name, pkg) || HasMatch(lines[1..], name, pkg)
  {
    hide Matches;
    assert lines == [lines[0]] + lines[1..];
  }

  lemma PrependToFirst(header: string, section: Section, rest: seq<Segment>, name: string, pkg: string,
    more: seq<string>)
    requires rest != [] && SectionOfHeader(header).Some? && rest[0].section == SectionAfter(header, section)
    ensures var first := Segment(rest[0].section, [header] + rest[0].lines);
            && Joined(WithPrepended([first] + rest[1..], name, pkg, more))
               == [header] + (if Matches(header, name, pkg) then more else []) + rest[0].lines
                  + Joined(WithPrepended(rest[1..], name, pkg, more))
            && (AnyNamed([first] + rest[1..], name, pkg)
               <==> Matches(header, name, pkg) || AnyNamed(rest[1..], name, pkg))
  {
    hide SectionOfHeader;
    HeaderHasName(header);
    var first := Segment(rest[0].section, [header] + rest[0].lines);
    var all := [first] + rest[1..];
    assert all[1..] == rest[1..] && all[0] in all;
    var p := WithPrepended(all, name, pkg, more);
    assert p[1..] == WithPrepended(rest[1..], name, pkg, more);
    assert first.lines[..1] == [header] && first.lines[1..] == rest[0].lines;
    assert PrependTo(first, name, pkg, more)
      == [header] + (if Matches(header, name, pkg) then more else []) + rest[0].lines;
  }

  lemma PrependedSegments(lines: seq<string>, name: string, pkg: string, more: seq<string>)
    ensures var segments := Segments(lines, PREAMBLE);
            var global := name == "" && pkg == "";
            && Joined(WithPrepended(segments, name, pkg, more))
               == (if global then more else []) + AfterHeaders(lines, name, pkg, more)
            && (AnyNamed(segments, name, pkg) <==> global || HasMatch(lines, name, pkg))
  {
    hide SectionOfHeader, HasMatch, AfterHeaders, Segments;
    var segments := Segments(lines, PREAMBLE);
    FirstSegment(lines, PREAMBLE);
    PrependedTail(lines, PREAMBLE, name, pkg, more);
    var p := WithPrepended(segments, name, pkg, more);
    assert p[1..] == WithPrepended(segments[1..], name, pkg, more);
    assert segments == [segments[0]] + segments[1..];
    var head, tail := segments[0].lines, Joined(WithPrepended(segments[1..], name, pkg, more));
    assert more + head + tail == more + (head + tail) && [] + (head + tail) == head + tail;
  }

  lemma {:induction false} NothingAfterHeaders(lines: seq<string>, name: string, pkg: string, more: seq<string>)
    requires !HasMatch(lines, name, pkg)
    ensures AfterHeaders(lines, name, pkg, more) == lines
  {
    hide HasMatch, Matches;
    if lines != [] {
      MatchFirst(lines, name, pkg);
      NothingAfterHeaders(lines[1..], name, pkg, more);
    }
  }

  // ---------------------------------------------------------------- the walk that prepends

  /** One visit of a line: only after a matching header something is inserted. */
  lemma PrependerMoves(lines: seq<string>, p: nat, note: Note, u: bool, name: string, pkg: string, more: seq<string>)
    requires p < |lines| && note.stale.None? && note.reread.None? && !note.again
    ensures var line := lines[p];
            Move(Walking(lines, p, note, u), Prepender(name, pkg, more))
            == if !Matches(line, name, pkg) then Walking(lines, p + 1, NextNote(note, false, []), u)
               else if more == [] then Walking(lines, p + 1, NextNote(note, false, []), true)
               else Walking(lines[..p + 1] + more + lines[p + 1..], p + |more|, NextNote(note, true, []), true)
  {
    hide SectionOfHeader, SectionAt, ParseLine, Named;
    OneMore(lines, p);
    HeaderHasName(lines[p]);
    HeaderNotNamedEmpty(lines[p], name, pkg);
    assert lines[..p + 1] + [] + lines[p + 1..] == lines;
  }

  lemma HeaderNotNamedEmpty(line: string, name: string, pkg: string)
    ensures Matches(line, name, pkg) ==> name != ""
  {
    hide SectionOfHeader;
    HeaderHasName(line);
  }

  lemma PrependerEnds(lines: seq<string>, p: nat, note: Note, u: bool, name: string, pkg: string, more: seq<string>)
    requires |lines| <= p
    ensures Move(Walking(lines, p, note, u), Prepender(name, pkg, more)) == Done(lines, u)
  {
    hide SectionOfHeader, SectionAt, ParseLine, Named;
    assert lines + [] == lines;
  }

  /** The number of visits: one more after each insertion, for its last line, and the end. */
  function PrependVisits(lines: seq<string>, name: string, pkg: string, more: seq<string>): nat {
    if lines == [] then 1
    else (if more != [] && Matches(lines[0], name, pkg) then 2 else 1) + PrependVisits(lines[1..], name, pkg, more)
  }

  lemma {:induction false} PrependerPrepends(done: seq<string>, rest: seq<string>, u: bool, name: string, pkg: string,
    more: seq<string>)
    requires !Renews(more, name, pkg)
    ensures After(Walking(done + rest, |done|, PLAIN, u), PrependVisits(rest, name, pkg, more),
            Prepender(name, pkg, more))
         == Done(done + AfterHeaders(rest, name, pkg, more), u || HasMatch(rest, name, pkg))
    decreases |rest|
  {
    hide Move, Matches, HasMatch, Prepender;
    var visit := Prepender(name, pkg, more);
    var c := Walking(done + rest, |done|, PLAIN, u);
    if rest == [] {
      assert done + rest == done && done + [] == done;
      PrependerEnds(done, |done|, PLAIN, u, name, pkg, more);
      AfterNone(Move(c, visit), visit);
      PrependedNothing(name, pkg, more);
    } else {
      var lines := done + rest;
      MatchFirst(rest, name, pkg);
      PrependerMoves(lines, |done|, PLAIN, u, name, pkg, more);
      assert lines[|done|] == rest[0] && lines[..|done| + 1] == done + [rest[0]] && lines[|done| + 1..] == rest[1..];
      var added := if Matches(rest[0], name, pkg) then more else [];
      var done' := done + [rest[0]] + added;
      var u' := u || Matches(rest[0], name, pkg);
      assert done + AfterHeaders(rest, name, pkg, more) == done' + AfterHeaders(rest[1..], name, pkg, more);
      PrependerPrepends(done', rest[1..], u', name, pkg, more);
      if added != [] {
        var next := Walking(done' + rest[1..], |done| + |more|, Note(1, true, None, None, false), true);
        assert Move(c, visit) == next;
        assert next.lines[next.p] == more[|more| - 1];
        PrependerMoves(next.lines, next.p, next.note, true, name, pkg, more);
        assert |done'| == next.p + 1;
        TwoMoves(c, PrependVisits(rest[1..], name, pkg, more), visit);
      } else {
        assert done' + rest[1..] == lines && |done'| == |done| + 1;
      }
    }
  }

  lemma TwoMoves<V, E>(c: Config<V, E>, n: nat, visit: Visitor<V, E>)
    ensures After(c, n + 2, visit) == After(Move(Move(c, visit), visit), n, visit)
  {
    hide Move;
    assert After(c, n + 2, visit) == After(Move(c, visit), n + 1, visit);
  }

  /** Inserted at the very start, the lines of the preamble are passed over without an edit. */
  lemma {:induction false} PrependerPasses(lines: seq<string>, p: nat, u: bool, name: string, pkg: string,
    more: seq<string>)
    requires name == ""
    ensures After(Walking(lines, p, PLAIN, u), (if p < |lines| then |lines| - p else 0) + 1,
            Prepender(name, pkg, more)) == Done(lines, u)
    decreases |lines| - p
  {
    hide Move, Matches, Prepender;
    var c := Walking(lines, p, PLAIN, u);
    var visit := Prepender(name, pkg, more);
    if p < |lines| {
      HeaderNotNamedEmpty(lines[p], name, pkg);
      PrependerMoves(lines, p, PLAIN, u, name, pkg, more);
      PrependerPasses(lines, p + 1, u, name, pkg, more);
    } else {
      PrependerEnds(lines, p, PLAIN, u, name, pkg, more);
      AfterNone(Move(c, visit), visit);
    }
  }

  /** A matching header is still to be visited. */
  ghost predicate MatchAhead(c: Config<bool, ()>, name: string, pkg: string) {
    && c.Walking? && c.note.stale.None? && c.note.reread.None? && !c.note.again
    && exists q :: c.p <= q < |c.lines| && Matches(c.lines[q], name, pkg)
  }

  lemma MatchStaysAhead(c: Config<bool, ()>, name: string, pkg: string, more: seq<string>)
    requires Renews(more, name, pkg) && MatchAhead(c, name, pkg)
    ensures MatchAhead(Move(c, Prepender(name, pkg, more)), name, pkg)
  {
    hide Move, Matches;
    PrependerMoves(c.lines, c.p, c.note, c.v, name, pkg, more);
    var next := Move(c, Prepender(name, pkg, more));
    var q :| c.p <= q < |c.lines| && Matches(c.lines[q], name, pkg);
    if Matches(c.lines[c.p], name, pkg) {
      assert next.lines[next.p] == more[|more| - 1];
    } else {
      assert Matches(next.lines[q], name, pkg);
    }
  }

  lemma {:induction false} NeverEnds(c: Config<bool, ()>, n: nat, name: string, pkg: string, more: seq<string>)
    requires Renews(more, name, pkg) && MatchAhead(c, name, pkg)
    ensures After(c, n, Prepender(name, pkg, more)).Walking?
    decreases n
  {
    hide Move, Prepender, MatchAhead, Renews;
    AheadWalks(c, name, pkg);
    if n > 0 {
      MatchStaysAhead(c, name, pkg, more);
      NeverEnds(Move(c, Prepender(name, pkg, more)), n - 1, name, pkg, more);
    }
  }

  lemma AheadWalks(c: Config<bool, ()>, name: string, pkg: string)
    requires MatchAhead(c, name, pkg)
    ensures c.Walking?
  {
  }

  lemma PrependerStarts(lines: seq<string>, name: string, pkg: string, more: seq<string>)
    ensures Start(lines, false, Prepender(name, pkg, more))
         == if name == "" && pkg == "" then Walking(more + lines, |more| + 1, PLAIN, true)
            else Walking(lines, 0, PLAIN, false)
  {
  }

  /** How the walk ends, when it does. */
  lemma PrependResult(lines: seq<string>, name: string, pkg: string, more: seq<string>) returns (n: nat)
    requires !(Renews(more, name, pkg) && HasMatch(lines, name, pkg))
    ensures After(Start(lines, false, Prepender(name, pkg, more)), n, Prepender(name, pkg, more))
         == Done((if name == "" && pkg == "" then more else []) + AfterHeaders(lines, name, pkg, more),
                 (name == "" && pkg == "") || HasMatch(lines, name, pkg))
  {
    hide After, HasMatch, AfterHeaders, Prepender, Start, Matches;
    PrependerStarts(lines, name, pkg, more);
    assert [] + lines == lines;
    if name == "" && pkg == "" {
      n := if |more| + 1 < |more + lines| then |more + lines| - |more| - 1 + 1 else 1;
      PrependerPasses(more + lines, |more| + 1, true, name, pkg, more);
      NoMatchUnnamed(lines, name, pkg);
      NothingAfterHeaders(lines, name, pkg, more);
    } else if Renews(more, name, pkg) {
      n := |lines| + 1;
      PrependerSkips(lines, 0, name, pkg, more);
      NothingAfterHeaders(lines, name, pkg, more);
    } else {
      n := PrependVisits(lines, name, pkg, more);
      PrependerPrepends([], lines, false, name, pkg, more);
      assert [] + AfterHeaders(lines, name, pkg, more) == AfterHeaders(lines, name, pkg, more);
    }
  }

  lemma NoMatchUnnamed(lines: seq<string>, name: string, pkg: string)
    requires name == ""
    ensures !HasMatch(lines, name, pkg)
  {
    hide Matches;
    forall l | l in lines ensures !Matches(l, name, pkg) {
      HeaderNotNamedEmpty(l, name, pkg);
    }
  }

  lemma {:induction false} PrependerSkips(lines: seq<string>, p: nat, name: string, pkg: string, more: seq<string>)
    requires !HasMatch(lines, name, pkg) && p <= |lines|
    ensures After(Walking(lines, p, PLAIN, false), |lines| - p + 1, Prepender(name, pkg, more)) == Done(lines, false)
    decreases |lines| - p
  {
    hide Move, Matches, Prepender;
    var c := Walking(lines, p, PLAIN, false);
    var visit := Prepender(name, pkg, more);
    if p < |lines| {
      PrependerMoves(lines, p, PLAIN, false, name, pkg, more);
      PrependerSkips(lines, p + 1, name, pkg, more);
    } else {
      PrependerEnds(lines, p, PLAIN, false, name, pkg, more);
      AfterNone(Move(c, visit), visit);
    }
  }

  /** Prepending to a section ends, unless the section exists and the lines to prepend end in
      another header of it: then each insertion is followed by the next, without end. */
  lemma PrependingEnds(lines: seq<string>, name: string, pkg: string, more: seq<string>)
    ensures Ends(Start(lines, false, Prepender(name, pkg, more)), Prepender(name, pkg, more)) <==>
              !(Renews(more, name, pkg) && HasMatch(lines, name, pkg))
  {
    hide After, HasMatch, AfterHeaders, Prepender, Start, Matches, MatchAhead;
    var visit := Prepender(name, pkg, more);
    var start := Start(lines, false, visit);
    if Renews(more, name, pkg) && HasMatch(lines, name, pkg) {
      MatchIsAhead(lines, name, pkg, more);
      forall m: nat ensures !EndsBy(start, m, visit) {
        NeverEnds(start, m, name, pkg, more);
      }
    } else {
      var n := PrependResult(lines, name, pkg, more);
      assert EndsBy(start, n, visit);
    }
  }

  lemma MatchIsAhead(lines: seq<string>, name: string, pkg: string, more: seq<string>)
    requires HasMatch(lines, name, pkg)
    ensures MatchAhead(Start(lines, false, Prepender(name, pkg, more)), name, pkg)
  {
    hide Matches, Start;
    PrependerStarts(lines, name, pkg, more);
    var l :| l in lines && Matches(l, name, pkg);
    HeaderNotNamedEmpty(l, name, pkg);
    var q :| 0 <= q < |lines| && lines[q] == l;
  }

  /** Prepends lines to every section of a name and package, after its header; the section
      without name gets them at the top of the file. */
  method PrependLinesToSection(spec: Spec, name: string, pkg: string, more: seq<string>)
    returns (r: Result<(), SectionError>)
    requires !(Renews(more, name, pkg) && HasMatch(spec.rawLines, name, pkg))
    modifies spec
    ensures var segments := Segments(old(spec.rawLines), PREAMBLE);
            && spec.rawLines == Joined(WithPrepended(segments, name, pkg, more))
            && r == (if AnyNamed(segments, name, pkg) then Success(()) else Failure(SectionNotFound))
    ensures r.Failure? ==> spec.rawLines == old(spec.rawLines)
  {
    hide Move, After, Start, AfterHeaders, HasMatch, Segments, Joined, WithPrepended, AnyNamed, Prepender, Renews;
    ghost var lines := spec.rawLines;
    var visit := Prepender(name, pkg, more);
    ghost var m := PrependResult(lines, name, pkg, more);
    assert EndsBy(Start(lines, false, visit), m, visit);
    PrependedSegments(lines, name, pkg, more);
    var updated, walked;
    ghost var n;
    updated, walked, n := Visit(spec, visit, false);
    EndsOnce(Start(lines, false, visit), m, n, visit);
    if !updated {
      NothingAfterHeaders(lines, name, pkg, more);
      assert [] + lines == lines;
      return Failure(SectionNotFound);
    }
    return Success(());
  }
}
