/** Edits that walk over a spec and remove or rewrite single lines: each is one fold. */
module LineEdits {
  import opened Wrappers
  import opened Lines
  import opened SpecFile
  import opened SpecLines
  import opened SpecWalk

  datatype LineEdit = Leave | Drop | Rewrite(text: string)

  type Editor = (Section, string) -> LineEdit

  /** A visitor that edits body lines one by one and counts its edits. */
  function LineVisitor(edit: Editor): Visitor<nat, ()> {
    (count: nat, e: Event) => LineVisit(edit, count, e)
  }

  function LineVisit(edit: Editor, count: nat, e: Event): (nat, Action<()>) {
    if !e.target.SectionLine? then (count, Keep)
    else match edit(e.section, e.target.text)
      case Leave => (count, Keep)
      case Drop => (count + 1, Remove)
      case Rewrite(text) => (count + 1, Replace(text))
  }

  /** What an editor makes of a header or body line; headers stay. */
  function EditOf(edit: Editor, section: Section, line: string): LineEdit {
    if SectionOfHeader(line).Some? then Leave else edit(section, line)
  }

  function Outcome(line: string, e: LineEdit): seq<string> {
    match e
    case Leave => [line]
    case Drop => []
    case Rewrite(text) => [text]
  }

  /** The lines after the edits, from left to right: what a line becomes decides the section of
      the lines after it. */
  function Folded(lines: seq<string>, section: Section, edit: Editor): seq<string> {
    if lines == [] then []
    else
      var out := Outcome(lines[0], EditOf(edit, section, lines[0]));
      out + Folded(lines[1..], SectionAt(out, section), edit)
  }

  function EditCount(lines: seq<string>, section: Section, edit: Editor): nat {
    if lines == [] then 0
    else
      var e := EditOf(edit, section, lines[0]);
      (if e.Leave? then 0 else 1) + EditCount(lines[1..], SectionAt(Outcome(lines[0], e), section), edit)
  }

  /** One visit of a line editor. */
  lemma EditorMoves(done: seq<string>, rest: seq<string>, count: nat, edit: Editor)
    requires rest != []
    ensures var e := EditOf(edit, SectionAt(done, PREAMBLE), rest[0]);
            var done' := done + Outcome(rest[0], e);
            Move(Walking(done + rest, |done|, PLAIN, count), LineVisitor(edit))
            == Walking(done' + rest[1..], |done'|, PLAIN, count + if e.Leave? then 0 else 1)
  {
    hide SectionOfHeader, SectionAt, ParseLine;
    var lines := done + rest;
    assert lines[..|done|] == done && lines[|done|] == rest[0];
    assert lines[|done| + 1..] == rest[1..];
    var e := EditOf(edit, SectionAt(done, PREAMBLE), rest[0]);
    assert lines == (done + [rest[0]]) + rest[1..];
    if e.Rewrite? {
      assert lines[|done| := e.text] == (done + [e.text]) + rest[1..];
    }
    if e.Drop? {
      assert done + [] == done;
    }
  }

  lemma EditorEnds(lines: seq<string>, count: nat, edit: Editor)
    ensures Move(Walking(lines, |lines|, PLAIN, count), LineVisitor(edit)) == Done(lines, count)
  {
    hide SectionAt, ParseLine, SectionOfHeader;
    assert lines + [] == lines;
  }

  /** The walk of a line editor is the fold, and visits every line once and the end. */
  lemma {:induction false} EditorFolds(done: seq<string>, rest: seq<string>, count: nat, edit: Editor)
    ensures var s := SectionAt(done, PREAMBLE);
            After(Walking(done + rest, |done|, PLAIN, count), |rest| + 1, LineVisitor(edit))
            == Done(done + Folded(rest, s, edit), count + EditCount(rest, s, edit))
    decreases |rest|
  {
    hide Move, SectionAt, EditOf, Outcome, LineVisitor;
    if rest == [] {
      assert done + rest == done;
      EditorEnds(done, count, edit);
      AfterNone(Done(done, count), LineVisitor(edit));
    } else {
      var s := SectionAt(done, PREAMBLE);
      var e := EditOf(edit, s, rest[0]);
      var out := Outcome(rest[0], e);
      EditorMoves(done, rest, count, edit);
      SectionAtConcat(done, out, PREAMBLE);
      EditorFolds(done + out, rest[1..], count + if e.Leave? then 0 else 1, edit);
      assert (done + out) + Folded(rest[1..], SectionAt(out, s), edit) == done + Folded(rest, s, edit);
    }
  }

  method EditLines(spec: Spec, edit: Editor) returns (count: nat)
    modifies spec
    ensures spec.rawLines == Folded(old(spec.rawLines), PREAMBLE, edit)
    ensures count == EditCount(old(spec.rawLines), PREAMBLE, edit)
  {
    hide Move, Folded, EditCount, After;
    ghost var lines := spec.rawLines;
    ghost var start := Start(lines, 0, LineVisitor(edit));
    assert [] + lines == lines && SectionAt([], PREAMBLE) == PREAMBLE;
    EditorFolds([], lines, 0, edit);
    assert start == Walking(lines, 0, PLAIN, 0);
    assert EndsBy(start, |lines| + 1, LineVisitor(edit));
    var r;
    ghost var n;
    count, r, n := Visit(spec, LineVisitor(edit), 0);
    EndsOnce(start, |lines| + 1, n, LineVisitor(edit));
    assert [] + Folded(lines, PREAMBLE, edit) == Folded(lines, PREAMBLE, edit);
  }

  // ---------------------------------------------------------------- removing tags

  predicate IsMatchingTag(line: string, section: Section, pkg: string, matcher: (string, string) -> bool) {
    section.pkg == pkg && var parsed := ParseLine(line, section); parsed.Tag? && matcher(parsed.tag, parsed.value)
  }

  function TagRemover(pkg: string, matcher: (string, string) -> bool): Editor {
    (section: Section, line: string) => if IsMatchingTag(line, section, pkg, matcher) then Drop else Leave
  }

  /** The lines from line i on that are no matching tags, read in the sections of the file. */
  function WithoutTags(lines: seq<string>, i: nat, pkg: string, matcher: (string, string) -> bool): seq<string>
    requires i <= |lines|
    decreases |lines| - i
  {
    if i == |lines| then []
    else
      (if IsMatchingTag(lines[i], SectionBefore(lines, i), pkg, matcher) then [] else [lines[i]])
      + WithoutTags(lines, i + 1, pkg, matcher)
  }

  lemma HeaderIsNoTag(line: string, section: Section, pkg: string, matcher: (string, string) -> bool)
    ensures IsMatchingTag(line, section, pkg, matcher) ==> SectionOfHeader(line).None?
  {
  }

  lemma RemoverEdits(line: string, section: Section, pkg: string, matcher: (string, string) -> bool)
    ensures EditOf(TagRemover(pkg, matcher), section, line)
         == if IsMatchingTag(line, section, pkg, matcher) then Drop else Leave
  {
    hide IsMatchingTag, SectionOfHeader;
    HeaderIsNoTag(line, section, pkg, matcher);
  }

  /** Removing tags is a filter by the sections of the original file, and counts what it removes. */
  lemma {:induction false} RemovingTagsFilters(lines: seq<string>, i: nat, pkg: string,
    matcher: (string, string) -> bool)
    requires i <= |lines|
    ensures Folded(lines[i..], SectionBefore(lines, i), TagRemover(pkg, matcher)) == WithoutTags(lines, i, pkg, matcher)
    ensures EditCount(lines[i..], SectionBefore(lines, i), TagRemover(pkg, matcher))
            == |lines| - i - |WithoutTags(lines, i, pkg, matcher)|
    decreases |lines| - i
  {
    hide IsMatchingTag, SectionOfHeader, SectionBefore, EditOf;
    if i < |lines| {
      assert lines[i..][0] == lines[i] && lines[i..][1..] == lines[i + 1..];
      RemoverEdits(lines[i], SectionBefore(lines, i), pkg, matcher);
      HeaderIsNoTag(lines[i], SectionBefore(lines, i), pkg, matcher);
      OneMore(lines, i);
      SectionAtOne(lines[i], SectionBefore(lines, i));
      RemovingTagsFilters(lines, i + 1, pkg, matcher);
    }
  }

  predicate NoTagFrom(lines: seq<string>, i: nat, pkg: string, matcher: (string, string) -> bool) {
    forall k :: i <= k < |lines| ==> !IsMatchingTag(lines[k], SectionBefore(lines, k), pkg, matcher)
  }

  /** No matching tag is left: no tag is overlooked, and removing one exposes no other. */
  lemma {:induction false} NoTagLeft(done: seq<string>, lines: seq<string>, i: nat, pkg: string,
    matcher: (string, string) -> bool)
    requires i <= |lines| && SectionAt(done, PREAMBLE) == SectionBefore(lines, i)
    ensures NoTagFrom(done + WithoutTags(lines, i, pkg, matcher), |done|, pkg, matcher)
    decreases |lines| - i
  {
    hide IsMatchingTag, SectionOfHeader, SectionBefore, NoTagFrom;
    var rest := WithoutTags(lines, i, pkg, matcher);
    if i == |lines| {
      NoTagBehind(done + rest, |done|, pkg, matcher);
    } else {
      OneMore(lines, i);
      if IsMatchingTag(lines[i], SectionBefore(lines, i), pkg, matcher) {
        HeaderIsNoTag(lines[i], SectionBefore(lines, i), pkg, matcher);
        NotAHeader(lines[i], SectionBefore(lines, i));
        assert rest == WithoutTags(lines, i + 1, pkg, matcher);
        NoTagLeft(done, lines, i + 1, pkg, matcher);
      } else {
        SectionAtConcat(done, [lines[i]], PREAMBLE);
        SectionAtOne(lines[i], SectionBefore(lines, i));
        NoTagLeft(done + [lines[i]], lines, i + 1, pkg, matcher);
        assert done + rest == (done + [lines[i]]) + WithoutTags(lines, i + 1, pkg, matcher);
        SectionAtPrefix(done + rest, done);
        NoTagOneMore(done + rest, |done|, pkg, matcher);
      }
    }
  }

  lemma NoTagBehind(lines: seq<string>, i: nat, pkg: string, matcher: (string, string) -> bool)
    requires |lines| <= i
    ensures NoTagFrom(lines, i, pkg, matcher)
  {
  }

  lemma NoTagOneMore(lines: seq<string>, i: nat, pkg: string, matcher: (string, string) -> bool)
    requires i < |lines| && NoTagFrom(lines, i + 1, pkg, matcher)
    requires !IsMatchingTag(lines[i], SectionBefore(lines, i), pkg, matcher)
    ensures NoTagFrom(lines, i, pkg, matcher)
  {
    hide IsMatchingTag, SectionBefore;
  }

  lemma NotAHeader(line: string, section: Section)
    ensures SectionOfHeader(line).None? ==> SectionAfter(line, section) == section
  {
  }

  lemma SectionAtPrefix(lines: seq<string>, done: seq<string>)
    requires done <= lines
    ensures SectionBefore(lines, |done|) == SectionAt(done, PREAMBLE)
  {
    hide SectionAt;
    assert lines[..|done|] == done;
  }

  method RemoveTagsMatching(spec: Spec, pkg: string, matcher: (string, string) -> bool) returns (removed: nat)
    modifies spec
    ensures spec.rawLines == WithoutTags(old(spec.rawLines), 0, pkg, matcher)
    ensures removed == |old(spec.rawLines)| - |spec.rawLines|
    ensures NoTagFrom(spec.rawLines, 0, pkg, matcher)
  {
    hide Folded, EditCount, WithoutTags, IsMatchingTag, NoTagFrom;
    ghost var lines := spec.rawLines;
    removed := EditLines(spec, TagRemover(pkg, matcher));
    assert lines[0..] == lines && lines[..0] == [];
    RemovingTagsFilters(lines, 0, pkg, matcher);
    NoTagLeft([], lines, 0, pkg, matcher);
    assert [] + spec.rawLines == spec.rawLines;
  }

  datatype TagError = NoSuchTag

  /** Removes the tags of a name, or only those with a value as well; fails when there is none. */
  method RemoveTag(spec: Spec, pkg: string, tag: string, value: string, sameValue: (string, string) -> bool)
    returns (r: Result<(), TagError>)
    modifies spec
    ensures var matcher := NamedTag(tag, value, sameValue);
            && spec.rawLines == WithoutTags(old(spec.rawLines), 0, pkg, matcher)
            && NoTagFrom(spec.rawLines, 0, pkg, matcher)
    ensures r.Failure? <==> |spec.rawLines| == |old(spec.rawLines)|
  {
    var removed := RemoveTagsMatching(spec, pkg, NamedTag(tag, value, sameValue));
    return if removed == 0 then Failure(NoSuchTag) else Success(());
  }

  function NamedTag(tag: string, value: string, sameValue: (string, string) -> bool): (string, string) -> bool {
    (t: string, v: string) => ToLower(t) == ToLower(tag) && (value == "" || sameValue(v, value))
  }

  // ---------------------------------------------------------------- rewriting lines

  ghost predicate NeverDrops(edit: Editor) {
    forall section, line :: !edit(section, line).Drop?
  }

  /** Line by line, with the section that the rewritten lines before it put it in. */
  ghost predicate Rewritten(new_: seq<string>, lines: seq<string>, section: Section, edit: Editor) {
    && |new_| == |lines|
    && forall i :: 0 <= i < |lines| ==>
       [new_[i]] == Outcome(lines[i], EditOf(edit, SectionAt(new_[..i], section), lines[i]))
  }

  lemma {:induction false} FoldRewrites(lines: seq<string>, section: Section, edit: Editor)
    requires NeverDrops(edit)
    ensures Rewritten(Folded(lines, section, edit), lines, section, edit)
  {
    hide SectionAt, SectionOfHeader;
    if lines != [] {
      var out := Outcome(lines[0], EditOf(edit, section, lines[0]));
      var next := SectionAt(out, section);
      var rest := Folded(lines[1..], next, edit);
      var all := Folded(lines, section, edit);
      assert all == out + rest && |out| == 1;
      FoldRewrites(lines[1..], next, edit);
      NoSectionYet(section);
      forall i | 0 <= i < |lines|
        ensures [all[i]] == Outcome(lines[i], EditOf(edit, SectionAt(all[..i], section), lines[i]))
      {
        if i > 0 {
          assert all[..i] == out + rest[..i - 1] && lines[i] == lines[1..][i - 1];
          SectionAtConcat(out, rest[..i - 1], section);
        } else {
          assert all[..0] == [];
        }
      }
    }
  }

  lemma NoSectionYet(section: Section)
    ensures SectionAt([], section) == section
  {
  }

  /** Only one list of lines is the rewriting of another. */
  lemma {:induction false} RewrittenOnce(a: seq<string>, b: seq<string>, lines: seq<string>, section: Section,
    edit: Editor, n: nat)
    requires Rewritten(a, lines, section, edit) && Rewritten(b, lines, section, edit) && n <= |lines|
    ensures a[..n] == b[..n]
  {
    hide EditOf, SectionAt;
    if n > 0 {
      RewrittenOnce(a, b, lines, section, edit, n - 1);
      assert [a[n - 1]] == [b[n - 1]];
      assert a[..n] == a[..n - 1] + [a[n - 1]] && b[..n] == b[..n - 1] + [b[n - 1]];
    }
  }

  /** Something was edited exactly when some line is one to edit. */
  lemma {:induction false} CountsEdits(lines: seq<string>, section: Section, edit: Editor, all: seq<string>)
    requires NeverDrops(edit) && all == Folded(lines, section, edit) && |all| == |lines|
    ensures EditCount(lines, section, edit) > 0 <==>
              exists i :: 0 <= i < |lines| && !EditOf(edit, SectionAt(all[..i], section), lines[i]).Leave?
  {
    hide SectionAt, SectionOfHeader, EditOf, Outcome;
    if lines != [] {
      var out := Outcome(lines[0], EditOf(edit, section, lines[0]));
      OutcomeSize(lines[0], section, edit);
      var next := SectionAt(out, section);
      var rest := Folded(lines[1..], next, edit);
      CountsEdits(lines[1..], next, edit, rest);
      NoSectionYet(section);
      assert all[..0] == [];
      forall i | 0 < i < |lines|
        ensures SectionAt(all[..i], section) == SectionAt(rest[..i - 1], next) && lines[i] == lines[1..][i - 1]
      {
        assert all[..i] == out + rest[..i - 1];
        SectionAtConcat(out, rest[..i - 1], section);
      }
      if k :| 0 <= k < |lines| - 1 && !EditOf(edit, SectionAt(rest[..k], next), lines[1..][k]).Leave? {
        assert !EditOf(edit, SectionAt(all[..k + 1], section), lines[k + 1]).Leave?;
      }
    }
  }

  lemma OutcomeSize(line: string, section: Section, edit: Editor)
    requires NeverDrops(edit)
    ensures |Outcome(line, EditOf(edit, section, line))| == 1
  {
  }

  // ---------------------------------------------------------------- search and replace

  predicate InScope(section: Section, sectionName: string, pkg: string) {
    (sectionName == "" || section.name == sectionName) && (pkg == "" || section.pkg == pkg)
  }

  function Replacer(sectionName: string, pkg: string, replaceAll: string -> string): Editor {
    (section: Section, line: string) =>
      if InScope(section, sectionName, pkg) && replaceAll(line) != line then Rewrite(replaceAll(line)) else Leave
  }

  /** Every body line of the section and package is replaced, where an empty name stands for any;
      the section is that which the new lines before it make. */
  ghost predicate Replaced(new_: seq<string>, lines: seq<string>, sectionName: string, pkg: string,
    replaceAll: string -> string) {
    && |new_| == |lines|
    && forall i :: 0 <= i < |lines| ==>
         var s := SectionBefore(new_, i);
         new_[i] == if SectionOfHeader(lines[i]).None? && sectionName in {"", s.name} && pkg in {"", s.pkg}
                    then replaceAll(lines[i]) else lines[i]
  }

  datatype SearchError = BadPattern | PatternNotFound

  /** Replaces a compiled pattern, if it compiled. */
  method SearchAndReplace(spec: Spec, sectionName: string, pkg: string, replaceAll: Option<string -> string>)
    returns (r: Result<(), SearchError>)
    modifies spec
    ensures match replaceAll
            case None => r == Failure(BadPattern) && spec.rawLines == old(spec.rawLines)
            case Some(f) =>
              && Replaced(spec.rawLines, old(spec.rawLines), sectionName, pkg, f)
              && r == if spec.rawLines == old(spec.rawLines) then Failure(PatternNotFound) else Success(())
  {
    hide Folded, EditCount, SectionAt, SectionOfHeader;
    if replaceAll.None? {
      return Failure(BadPattern);
    }
    ghost var lines := spec.rawLines;
    var edit := Replacer(sectionName, pkg, replaceAll.value);
    var count := EditLines(spec, edit);
    FoldRewrites(lines, PREAMBLE, edit);
    CountsEdits(lines, PREAMBLE, edit, spec.rawLines);
    return if count == 0 then Failure(PatternNotFound) else Success(());
  }

  // ---------------------------------------------------------------- updating tags

  predicate IsTagNamed(line: string, section: Section, pkg: string, tag: string) {
    section.pkg == pkg && var parsed := ParseLine(line, section); parsed.Tag? && ToLower(parsed.tag) == ToLower(tag)
  }

  function TagUpdater(pkg: string, tag: string, value: string): Editor {
    (section: Section, line: string) => if IsTagNamed(line, section, pkg, tag) then Rewrite(tag + ": " + value)
      else Leave
  }

  /** Every tag of the name is updated, not only the first one. */
  ghost predicate TagsUpdated(new_: seq<string>, lines: seq<string>, pkg: string, tag: string, value: string) {
    && |new_| == |lines|
    && forall i :: 0 <= i < |lines| ==>
         new_[i] == if IsTagNamed(lines[i], SectionBefore(new_, i), pkg, tag) then tag + ": " + value else lines[i]
  }

  predicate HasTag(lines: seq<string>, pkg: string, tag: string) {
    exists i :: 0 <= i < |lines| && IsTagNamed(lines[i], SectionBefore(lines, i), pkg, tag)
  }

  /** Fails, and changes nothing, exactly when the package has no such tag. */
  method UpdateExistingTag(spec: Spec, pkg: string, tag: string, value: string) returns (r: Result<(), TagError>)
    modifies spec
    ensures TagsUpdated(spec.rawLines, old(spec.rawLines), pkg, tag, value)
    ensures r.Success? <==> HasTag(old(spec.rawLines), pkg, tag)
    ensures r.Failure? ==> spec.rawLines == old(spec.rawLines)
  {
    hide Folded, EditCount, SectionAt, SectionOfHeader, IsTagNamed;
    ghost var lines := spec.rawLines;
    var edit := TagUpdater(pkg, tag, value);
    var count := EditLines(spec, edit);
    FoldRewrites(lines, PREAMBLE, edit);
    CountsEdits(lines, PREAMBLE, edit, spec.rawLines);
    forall i | 0 <= i < |lines|
      ensures EditOf(edit, SectionBefore(spec.rawLines, i), lines[i])
           == if IsTagNamed(lines[i], SectionBefore(spec.rawLines, i), pkg, tag) then Rewrite(tag + ": " + value)
              else Leave
    {
      UpdaterEdits(lines[i], SectionBefore(spec.rawLines, i), pkg, tag, value);
    }
    if !HasTag(lines, pkg, tag) {
      NothingUpdated(lines, pkg, tag, value);
      RewrittenOnce(spec.rawLines, lines, lines, PREAMBLE, edit, |lines|);
      assert spec.rawLines[..|lines|] == spec.rawLines && lines[..|lines|] == lines;
    }
    if count == 0 {
      forall i | 0 <= i < |lines| ensures !IsTagNamed(lines[i], SectionBefore(spec.rawLines, i), pkg, tag) {
        assert EditOf(edit, SectionAt(spec.rawLines[..i], PREAMBLE), lines[i]).Leave?;
      }
      assert spec.rawLines == lines;
      return Failure(NoSuchTag);
    }
    return Success(());
  }

  /** Without such a tag the lines are their own update. */
  lemma NothingUpdated(lines: seq<string>, pkg: string, tag: string, value: string)
    requires !HasTag(lines, pkg, tag)
    ensures Rewritten(lines, lines, PREAMBLE, TagUpdater(pkg, tag, value))
  {
    hide IsTagNamed, SectionOfHeader, SectionAt;
    forall i | 0 <= i < |lines|
      ensures EditOf(TagUpdater(pkg, tag, value), SectionAt(lines[..i], PREAMBLE), lines[i]).Leave?
    {
      UpdaterEdits(lines[i], SectionBefore(lines, i), pkg, tag, value);
    }
  }

  lemma UpdaterEdits(line: string, section: Section, pkg: string, tag: string, value: string)
    ensures EditOf(TagUpdater(pkg, tag, value), section, line)
         == if IsTagNamed(line, section, pkg, tag) then Rewrite(tag + ": " + value) else Leave
  {
  }
}
