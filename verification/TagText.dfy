/** Tags, sections and the names of tags, read off the text of the lines. */
module TagText {
  import opened Wrappers
  import opened Lines
  import opened SpecLines
  import opened SpecWalk
  import opened LineEdits
  import opened SectionEdits
  import opened TagInsertion

  // ---------------------------------------------------------------- the section of a line

  /** The nearest section header above line i. */
  predicate LastHeaderAbove(lines: seq<string>, i: nat, h: nat) {
    h < i <= |lines| && IsSectionHeaderLine(lines[h]) && forall k :: h < k < i ==> !IsSectionHeaderLine(lines[k])
  }

  /** What a header says: the name as it is written, the type of the name in lower case, and the
      package; the change log and the lists of sources and patches have none. */
  ghost predicate HeaderSays(raw: string, s: Section) {
    var tokens := Fields(raw);
    && tokens != [] && s.name == tokens[0] && SectionTypeByName(ToLower(tokens[0])) == Some(s.sectType)
    && if s.sectType.ChangelogSection? || s.sectType.SourceFileListSection? then s.pkg == ""
       else NamesPackage(HeaderItems(tokens[1..]), s.pkg)
  }

  lemma HeaderIsRead(raw: string)
    ensures SectionOfHeader(raw).Some? <==> IsSectionHeaderLine(raw)
    ensures SectionOfHeader(raw).Some? ==> HeaderSays(raw, SectionOfHeader(raw).value)
  {
    hide IsSectionHeaderLine, ConditionalDepthChange, IsConditionalBranchDirective, IsElifDirective, MacroDefLine,
      IsBlankOrComment, NamesPackage, Fields, SectionTypeByName, ToLower, PackageFrom, HeaderItems, BeforeParenthesis;
    ClassifyAgrees(raw);
    var tokens := Fields(raw);
    if SectionOfHeader(raw).Some? {
      assert forall t <- tokens[1..] :: t in tokens;
      PackageIsNamed(tokens[1..]);
    }
  }

  /** The section of line i: that of the nearest header above it, or the preamble. */
  ghost predicate SectionOnText(lines: seq<string>, i: nat, section: Section) {
    || (section == PREAMBLE && forall h: nat :: h < i && h < |lines| ==> !IsSectionHeaderLine(lines[h]))
    || exists h: nat :: LastHeaderAbove(lines, i, h) && HeaderSays(lines[h], section)
  }

  lemma {:induction false} SectionIsOfLastHeader(lines: seq<string>, i: nat)
    requires i <= |lines|
    ensures SectionOnText(lines, i, SectionBefore(lines, i))
  {
    hide IsSectionHeaderLine, HeaderSays, SectionOfHeader, SectionBefore, SectionOnText;
    if i == 0 {
      NothingBefore(lines);
      NoHeaderAbove(lines);
    } else {
      SectionIsOfLastHeader(lines, i - 1);
      OneMore(lines, i - 1);
      HeaderIsRead(lines[i - 1]);
      OneLineLower(lines, i - 1, SectionBefore(lines, i - 1), SectionBefore(lines, i));
    }
  }

  lemma NoHeaderAbove(lines: seq<string>)
    ensures SectionOnText(lines, 0, PREAMBLE)
  {
  }

  lemma OneLineLower(lines: seq<string>, i: nat, section: Section, next: Section)
    requires i < |lines| && SectionOnText(lines, i, section)
    requires if IsSectionHeaderLine(lines[i]) then HeaderSays(lines[i], next) else next == section
    ensures SectionOnText(lines, i + 1, next)
  {
    hide IsSectionHeaderLine, HeaderSays;
    if IsSectionHeaderLine(lines[i]) {
      assert LastHeaderAbove(lines, i + 1, i);
    } else if h: nat :| LastHeaderAbove(lines, i, h) && HeaderSays(lines[h], section) {
      assert LastHeaderAbove(lines, i + 1, h);
    }
  }

  // ---------------------------------------------------------------- tags

  /** The text of a tag: no header, no '#' in the first column, and of the form of a tag. */
  ghost predicate TagOnText(raw: string, tag: string, value: string) {
    !IsSectionHeaderLine(raw) && (raw != "" ==> raw[0] != '#') && TagPattern(TrimSpace(raw), tag, value)
  }

  /** Line i is a tag: text of that form in a package section or in the preamble. */
  ghost predicate TagLine(lines: seq<string>, i: nat, tag: string, value: string)
    requires i < |lines|
  {
    SectionBefore(lines, i).sectType.PackageSection? && TagOnText(lines[i], tag, value)
  }

  lemma TagIsRead(raw: string, section: Section, tag: string, value: string)
    ensures ParseLine(raw, section) == Tag(tag, value) <==>
              section.sectType.PackageSection? && TagOnText(raw, tag, value)
  {
    hide SectionOfHeader, TagIn, TagPattern, IsSectionHeaderLine, Fields, TrimSpace, HeaderSays;
    HeaderIsRead(raw);
    TagMatchesPattern(TrimSpace(raw), tag, value);
    TagHasTokens(raw, tag, value);
    NothingTrimmed();
    NoTagInNothing();
  }

  lemma NothingTrimmed()
    ensures TrimSpace("") == ""
  {
  }

  lemma NoTagInNothing()
    ensures TagIn("") == None
  {
  }

  /** The text of a tag is not blank. */
  lemma TagHasTokens(raw: string, tag: string, value: string)
    ensures TagPattern(TrimSpace(raw), tag, value) ==> Fields(TrimSpace(raw)) != []
  {
    hide Fields, TrimSpace;
    FieldsTrimSpace(raw);
  }

  lemma TagLineIsRead(lines: seq<string>, i: nat, tag: string, value: string)
    requires i < |lines|
    ensures ParseLine(lines[i], SectionBefore(lines, i)) == Tag(tag, value) <==> TagLine(lines, i, tag, value)
  {
    hide ParseLine, SectionBefore, TagOnText;
    TagIsRead(lines[i], SectionBefore(lines, i), tag, value);
  }

  /** A line has one name and value. */
  lemma TagReadOnce(lines: seq<string>, i: nat, tag: string, value: string, t: string, v: string)
    requires i < |lines| && TagLine(lines, i, tag, value) && TagLine(lines, i, t, v)
    ensures tag == t && value == v
  {
    hide ParseLine, SectionBefore, TagLine;
    TagLineIsRead(lines, i, tag, value);
    TagLineIsRead(lines, i, t, v);
  }

  // ---------------------------------------------------------------- removing and updating

  /** A tag of a package that a matcher accepts. */
  ghost predicate TagToRemove(lines: seq<string>, i: nat, pkg: string, matcher: (string, string) -> bool)
    requires i < |lines|
  {
    SectionBefore(lines, i).pkg == pkg && exists tag, value :: TagLine(lines, i, tag, value) && matcher(tag, value)
  }

  lemma MatchingOnText(lines: seq<string>, i: nat, pkg: string, matcher: (string, string) -> bool)
    requires i < |lines|
    ensures IsMatchingTag(lines[i], SectionBefore(lines, i), pkg, matcher) <==> TagToRemove(lines, i, pkg, matcher)
  {
    hide ParseLine, SectionBefore, TagLine;
    var parsed := ParseLine(lines[i], SectionBefore(lines, i));
    if parsed.Tag? {
      TagLineIsRead(lines, i, parsed.tag, parsed.value);
    }
    forall tag, value ensures parsed == Tag(tag, value) <==> TagLine(lines, i, tag, value) {
      TagLineIsRead(lines, i, tag, value);
    }
  }

  /** The lines from line i on without some of them. */
  ghost function Except(lines: seq<string>, i: nat, gone: iset<nat>): seq<string>
    requires i <= |lines|
    decreases |lines| - i
  {
    if i == |lines| then [] else (if i in gone then [] else [lines[i]]) + Except(lines, i + 1, gone)
  }

  lemma {:induction false} WithoutTagsOnText(lines: seq<string>, i: nat, pkg: string, matcher: (string, string) -> bool)
    requires i <= |lines|
    ensures WithoutTags(lines, i, pkg, matcher)
         == Except(lines, i, iset k: nat | k < |lines| && TagToRemove(lines, k, pkg, matcher))
    decreases |lines| - i
  {
    hide IsMatchingTag, SectionBefore, TagToRemove;
    if i < |lines| {
      MatchingOnText(lines, i, pkg, matcher);
      WithoutTagsOnText(lines, i + 1, pkg, matcher);
    }
  }

  /** What removing a tag of a name, and of a value unless that is empty, takes out of a file. */
  lemma RemovedTags(lines: seq<string>, pkg: string, tag: string, value: string, sameValue: (string, string) -> bool)
    ensures WithoutTags(lines, 0, pkg, NamedTag(tag, value, sameValue))
         == Except(lines, 0, iset k: nat | k < |lines| && SectionBefore(lines, k).pkg == pkg && exists t, v ::
                     TagLine(lines, k, t, v) && ToLower(t) == ToLower(tag) && (value == "" || sameValue(v, value)))
  {
    hide SectionBefore, TagLine, ToLower;
    WithoutTagsOnText(lines, 0, pkg, NamedTag(tag, value, sameValue));
    var a := iset k: nat | k < |lines| && TagToRemove(lines, k, pkg, NamedTag(tag, value, sameValue));
    var b := iset k: nat | k < |lines| && SectionBefore(lines, k).pkg == pkg && exists t, v ::
               TagLine(lines, k, t, v) && ToLower(t) == ToLower(tag) && (value == "" || sameValue(v, value));
    assert a == b;
  }

  /** The tags that an update rewrites: those of the package whose names differ in case at most. */
  lemma UpdatedOnText(lines: seq<string>, i: nat, pkg: string, tag: string)
    requires i < |lines|
    ensures IsTagNamed(lines[i], SectionBefore(lines, i), pkg, tag) <==>
              SectionBefore(lines, i).pkg == pkg && exists t, v :: TagLine(lines, i, t, v) && ToLower(t) == ToLower(tag)
  {
    hide ParseLine, SectionBefore, TagLine, ToLower;
    var parsed := ParseLine(lines[i], SectionBefore(lines, i));
    if parsed.Tag? {
      TagLineIsRead(lines, i, parsed.tag, parsed.value);
    }
    forall t, v ensures parsed == Tag(t, v) <==> TagLine(lines, i, t, v) {
      TagLineIsRead(lines, i, t, v);
    }
  }

  // ---------------------------------------------------------------- families of names

  predicate IsDigit(c: char) {
    '0' <= c <= '9'
  }

  /** A name and its number. */
  predicate Numbered(name: string, stem: string, digits: string) {
    && name == stem + digits && stem != "" && !IsDigit(stem[|stem| - 1]) && forall c <- digits :: IsDigit(c)
  }

  /** The same name but for case and the number behind it; a name that is a number is its own. */
  ghost predicate SameFamily(a: string, b: string) {
    || a == b
    || exists s, d, t, e :: Numbered(a, s, d) && Numbered(b, t, e) && ToLower(s) == ToLower(t)
  }

  predicate AllDigits(name: string) {
    forall c <- name :: IsDigit(c)
  }

  lemma {:induction false} WithoutNumberIs(stem: string, digits: string)
    requires (stem != "" ==> !IsDigit(stem[|stem| - 1])) && AllDigits(digits)
    ensures WithoutNumber(stem + digits) == stem
  {
    if digits == "" {
      assert stem + digits == stem;
    } else {
      var n := |digits| - 1;
      assert digits[n] in digits && forall c <- digits[..n] :: c in digits;
      assert (stem + digits)[..|stem + digits| - 1] == stem + digits[..n];
      WithoutNumberIs(stem, digits[..n]);
    }
  }

  lemma LowerKeepsDigits(c: char)
    ensures IsDigit(Lower(c)) <==> IsDigit(c)
    ensures IsDigit(c) ==> Lower(c) == c
  {
  }

  lemma LowerNumber(stem: string, digits: string)
    requires AllDigits(digits)
    ensures ToLower(stem + digits) == ToLower(stem) + digits
  {
    forall k | 0 <= k < |digits| ensures Lower(digits[k]) == digits[k] {
      assert digits[k] in digits;
      LowerKeepsDigits(digits[k]);
    }
    assert forall k :: 0 <= k < |digits| ==> (stem + digits)[|stem| + k] == digits[k];
  }

  /** The family of a name with a number is the name in lower case; a number is its own family. */
  lemma FamilyIs(name: string, stem: string, digits: string)
    ensures Numbered(name, stem, digits) ==> Family(name) == ToLower(stem)
    ensures AllDigits(name) ==> Family(name) == name
  {
    hide WithoutNumber, ToLower;
    if Numbered(name, stem, digits) {
      LowerNumber(stem, digits);
      LowerKeepsDigits(stem[|stem| - 1]);
      LowerLast(stem);
      WithoutNumberIs(ToLower(stem), digits);
    }
    if AllDigits(name) {
      LowerNumber("", name);
      assert "" + name == name && ToLower("") + name == name;
      WithoutNumberIs("", name);
    }
  }

  lemma LowerLast(stem: string)
    requires stem != ""
    ensures ToLower(stem) != "" && ToLower(stem)[|stem| - 1] == Lower(stem[|stem| - 1])
  {
  }

  /** Every name is a number, or has a stem. */
  lemma {:induction false} SplitNumber(name: string) returns (stem: string, digits: string)
    ensures AllDigits(name) || Numbered(name, stem, digits)
  {
    if name == "" || !IsDigit(name[|name| - 1]) {
      stem, digits := name, "";
      assert name + "" == name;
    } else {
      var n := |name| - 1;
      stem, digits := SplitNumber(name[..n]);
      digits := digits + [name[n]];
      assert name == name[..n] + [name[n]];
      if !AllDigits(name[..n]) {
        assert name == stem + digits;
      }
    }
  }

  /** Two tags are of one family exactly when their names differ in case and number at most. */
  lemma FamiliesAgree(a: string, b: string)
    ensures Family(a) == Family(b) <==> SameFamily(a, b)
  {
    hide Family, ToLower, AllDigits, Numbered;
    var s, d := SplitNumber(a);
    var t, e := SplitNumber(b);
    FamilyIs(a, s, d);
    FamilyIs(b, t, e);
    if s', d', t', e' :| Numbered(a, s', d') && Numbered(b, t', e') && ToLower(s') == ToLower(t') {
      FamilyIs(a, s', d');
      FamilyIs(b, t', e');
    }
    if AllDigits(a) != AllDigits(b) {
      NumberNoStem(a, t, e, b);
      NumberNoStem(b, s, d, a);
    }
  }

  /** A number is not the lower case of a stem. */
  lemma NumberNoStem(number: string, stem: string, digits: string, name: string)
    ensures AllDigits(number) && Numbered(name, stem, digits) ==> number != ToLower(stem)
  {
    if AllDigits(number) && Numbered(name, stem, digits) {
      LowerKeepsDigits(stem[|stem| - 1]);
      LowerLast(stem);
      if number != "" {
        assert number[|number| - 1] in number;
      }
    }
  }

  // ---------------------------------------------------------------- the place of a new tag

  /** A tag of the section, and of the family of a name if one is given. */
  ghost predicate TagOfSection(lines: seq<string>, i: nat, name: string, pkg: string, like: Option<string>)
    requires i < |lines|
  {
    && SectionBefore(lines, i).name == name && SectionBefore(lines, i).pkg == pkg
    && exists tag, value :: TagLine(lines, i, tag, value) && (like.Some? ==> SameFamily(tag, like.value))
  }

  /** x is the last such line, or -1 if there is none. */
  ghost predicate LastSuch(lines: seq<string>, x: int, name: string, pkg: string, like: Option<string>) {
    && -1 <= x < |lines| && (x >= 0 ==> TagOfSection(lines, x, name, pkg, like))
    && forall i :: x < i < |lines| && 0 <= i ==> !TagOfSection(lines, i, name, pkg, like)
  }

  lemma TagAtOnText(lines: seq<string>, i: nat, name: string, pkg: string, like: Option<string>)
    requires i < |lines|
    ensures TagAt(lines, i, name, pkg, if like.Some? then Some(Family(like.value)) else None)
       <==> TagOfSection(lines, i, name, pkg, like)
  {
    hide ParseLine, SectionBefore, TagLine, Family, SameFamily;
    var parsed := ParseLine(lines[i], SectionBefore(lines, i));
    if parsed.Tag? {
      TagLineIsRead(lines, i, parsed.tag, parsed.value);
      if like.Some? {
        FamiliesAgree(parsed.tag, like.value);
      }
    }
    forall t, v ensures parsed == Tag(t, v) <==> TagLine(lines, i, t, v) {
      TagLineIsRead(lines, i, t, v);
    }
  }

  /** The line a new tag is put behind: the last tag of the section that has its name but for
      case and number; if there is none, the last tag of the section. */
  lemma ChosenOnText(lines: seq<string>, scan: Scan, name: string, pkg: string, tag: string)
    requires ScanResult(lines, scan, name, pkg, Family(tag))
    ensures exists family, any ::
              && LastSuch(lines, family, name, pkg, Some(tag)) && LastSuch(lines, any, name, pkg, None)
              && Chosen(scan) == if family >= 0 then family else any
  {
    hide TagAt, LastEnd, AnyNamed, Segments, SectionBefore, Family, TagOfSection;
    forall i: nat, like: Option<string> | i < |lines|
      ensures TagAt(lines, i, name, pkg, if like.Some? then Some(Family(like.value)) else None)
         <==> TagOfSection(lines, i, name, pkg, like)
    {
      TagAtOnText(lines, i, name, pkg, like);
    }
    assert LastTag(lines, |lines|, scan.lastFamily, name, pkg, Some(Family(tag)));
    assert LastSuch(lines, scan.lastFamily, name, pkg, Some(tag));
    assert LastSuch(lines, scan.lastAny, name, pkg, None);
  }

  // ---------------------------------------------------------------- edits of sections

  /** The segments of a section get the lines at their ends, the others stay. */
  lemma {:induction false} AppendedAt(segments: seq<Segment>, name: string, pkg: string, more: seq<string>, i: nat)
    requires i < |segments|
    ensures var s := segments[i];
            && |WithAppended(segments, name, pkg, more)| == |segments|
            && WithAppended(segments, name, pkg, more)[i]
               == Segment(s.section, s.lines + if s.section.name == name && s.section.pkg == pkg then more else [])
  {
    if i > 0 {
      AppendedAt(segments[1..], name, pkg, more, i - 1);
    } else if |segments| > 1 {
      AppendedAt(segments[1..], name, pkg, more, 0);
    }
    assert segments[i].lines + [] == segments[i].lines;
  }

  /** The segments of a section get the lines behind their headers, those of the preamble at
      their start, and the others stay. */
  lemma {:induction false} PrependedAt(segments: seq<Segment>, name: string, pkg: string, more: seq<string>, i: nat)
    requires i < |segments| && ((name != "" || pkg != "") ==> segments[i].lines != [])
    ensures var s := segments[i];
            var chosen := s.section.name == name && s.section.pkg == pkg;
            var k := if chosen && (name != "" || pkg != "") then 1 else 0;
            && |WithPrepended(segments, name, pkg, more)| == |segments|
            && WithPrepended(segments, name, pkg, more)[i]
               == Segment(s.section, s.lines[..k] + (if chosen then more else []) + s.lines[k..])
  {
    PrependedSize(segments, name, pkg, more);
    if i > 0 {
      PrependedAt(segments[1..], name, pkg, more, i - 1);
    } else {
      var lines := segments[0].lines;
      assert lines[..0] == [] && lines[0..] == lines && [] + [] + lines == lines && [] + more + lines == more + lines;
    }
  }

  lemma {:induction false} PrependedSize(segments: seq<Segment>, name: string, pkg: string, more: seq<string>)
    ensures |WithPrepended(segments, name, pkg, more)| == |segments|
  {
    if segments != [] {
      PrependedSize(segments[1..], name, pkg, more);
    }
  }

  /** Whether the section is there at all. */
  lemma FoundOnText(segments: seq<Segment>, name: string, pkg: string)
    ensures AnyNamed(segments, name, pkg) <==>
              exists i :: 0 <= i < |segments| && segments[i].section.name == name && segments[i].section.pkg == pkg
  {
    if AnyNamed(segments, name, pkg) {
      var s :| s in segments && Named(s.section, name, pkg);
      var i :| 0 <= i < |segments| && segments[i] == s;
    }
  }
}
