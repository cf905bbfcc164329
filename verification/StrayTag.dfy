/** A file in which inserting a tag leaves the section of the tag it follows. */
module StrayTag {
  import opened Wrappers
  import opened Lines
  import opened SpecFile
  import opened SpecLines
  import opened SpecWalk
  import opened SectionEdits
  import opened TagInsertion
  import opened SampleLines

  const STRAY := [
    "Name: x", "%if A", "%package foo", "Source0: a", "%description foo", "text", "%endif", "%package foo",
      "Summary: b", "%description"]

  const FOO := Section("%package", PackageSection, "foo")

  function StrayKind(i: nat): Kind {
    if i == 1 then IfDirective
    else if i == 6 then EndifDirective
    else if i == 2 || i == 7 then SectionHeader("%package", "foo", PackageSection)
    else if i == 4 then SectionHeader("%description", "foo", RawSection)
    else if i == 9 then SectionHeader("%description", "", RawSection)
    else Content(true)
  }

  lemma StrayKinds()
    ensures forall i :: 0 <= i < 10 ==> Classify(STRAY[i]) == StrayKind(i)
  {
    hide Classify;
    assert "Name: x" == "Name:" + " " + "x" && "Source0: a" == "Source0:" + " " + "a"
      && "Summary: b" == "Summary:" + " " + "b";
    TagLine("Name:", "x");
    TagLine("Source0:", "a");
    TagLine("Summary:", "b");
    IfLine();
    EndifLine();
    TextLine();
    assert "%package " + "foo" == "%package foo" && "%description " + "foo" == "%description foo";
    PackageLine("foo");
    DescriptionLine("foo");
    BareDescriptionLine();
  }

  /** The section in force before each line. */
  function StraySection(i: nat): Section {
    if i <= 2 then PREAMBLE
    else if i <= 4 then FOO
    else if i <= 7 then Section("%description", RawSection, "foo")
    else if i <= 9 then FOO
    else Section("%description", RawSection, "")
  }

  lemma StrayHeader(i: nat)
    requires i < 10
    ensures SectionOfHeader(STRAY[i]) == if i in {2, 4, 7, 9} then Some(StraySection(i + 1)) else None
    ensures ConditionalDepthChange(STRAY[i]) == if i == 1 then 1 else if i == 6 then -1 else 0
  {
    hide Classify, ConditionalDepthChange, IsConditionalBranchDirective, IsElifDirective, MacroDefLine,
      IsSectionHeaderLine, IsBlankOrComment;
    StrayKinds();
    ClassifyAgrees(STRAY[i]);
  }

  lemma {:induction false} StrayBefore(i: nat)
    requires i <= 10
    ensures SectionBefore(STRAY, i) == StraySection(i)
  {
    hide SectionOfHeader, SectionBefore;
    if i == 0 {
      NothingBefore(STRAY);
    } else {
      StrayBefore(i - 1);
      OneMore(STRAY, i - 1);
      StrayHeader(i - 1);
    }
  }

  lemma {:induction false} StrayDepth(k: nat)
    requires k <= 10
    ensures Depth(STRAY, k) == if 2 <= k <= 6 then 1 else 0
  {
    hide ConditionalDepthChange;
    if k > 0 {
      StrayDepth(k - 1);
      StrayHeader(k - 1);
    }
  }

  lemma Trimmed(s: string)
    requires s != "" && !IsSpace(s[0]) && !IsSpace(s[|s| - 1])
    ensures TrimSpace(s) == s
  {
  }

  lemma TagRead(name: string, value: string)
    requires Solid(name) && Solid(value) && (forall c <- name :: !IsBlankByte(c) && c != ':') && Lower(name[0]) != '%'
             && name[0] != '#'
    requires Bare(value)
    ensures ParseLine(name + ": " + value, FOO) == Tag(name, value)
  {
    hide Classify, Fields, TagIn;
    var raw := name + ": " + value;
    assert raw == (name + ":") + " " + value;
    TagLine(name + ":", value);
    MoreTokens(name + ":", value);
    Trimmed(raw);
    assert TagPattern(raw, name, value) by {
      assert AllBlank(" ") && AllBlank("");
      assert raw == name + ":" + " " + value + "";
    }
    TagMatchesPattern(raw, name, value);
  }

  lemma StrayTags()
    ensures ParseLine(STRAY[3], FOO) == Tag("Source0", "a") && ParseLine(STRAY[8], FOO) == Tag("Summary", "b")
  {
    hide ParseLine;
    TagRead("Source0", "a");
    TagRead("Summary", "b");
    assert "Source0" + ": " + "a" == "Source0: a" && "Summary" + ": " + "b" == "Summary: b";
  }

  lemma StrayFamilies()
    ensures Family("Source0") == Family("Source1") == "source" && Family("Summary") == "summary"
  {
    assert ToLower("Source0") == "source0" && ToLower("Source1") == "source1" && ToLower("Summary") == "summary";
    assert "source0"[..6] == "source" && "source1"[..6] == "source";
    assert WithoutNumber("source") == "source";
    assert WithoutNumber("source0") == "source" && WithoutNumber("source1") == "source";
  }

  /** Only two lines are tags of the section, the first one of the family. */
  lemma StrayTagAt(i: nat)
    requires i < 10
    ensures TagAt(STRAY, i, "%package", "foo", None) <==> i == 3 || i == 8
    ensures TagAt(STRAY, i, "%package", "foo", Some(Family("Source1"))) <==> i == 3
    ensures HeaderEnds(STRAY, i, "%package", "foo") <==> i == 4 || i == 9
  {
    hide SectionBefore, ParseLine, SectionOfHeader, Family;
    StrayBefore(i);
    StrayHeader(i);
    StrayTags();
    StrayFamilies();
    HeaderStarts(STRAY[i], FOO);
  }

  lemma HeaderStarts(line: string, s: Section)
    ensures SectionOfHeader(line).Some? ==> !ParseLine(line, s).Tag?
  {
    hide SectionOfHeader;
  }

  lemma StrayLasts()
    ensures LastTag(STRAY, 10, 8, "%package", "foo", None)
    ensures LastTag(STRAY, 10, 3, "%package", "foo", Some(Family("Source1")))
    ensures LastEnd(STRAY, 10, 9, "%package", "foo")
  {
    hide TagAt, HeaderEnds, Family;
    forall i | 0 <= i < 10
      ensures TagAt(STRAY, i, "%package", "foo", None) <==> i == 3 || i == 8
      ensures TagAt(STRAY, i, "%package", "foo", Some(Family("Source1"))) <==> i == 3
      ensures HeaderEnds(STRAY, i, "%package", "foo") <==> i == 4 || i == 9
    {
      StrayTagAt(i);
    }
  }

  lemma StrayFound()
    ensures AnyNamed(Segments(STRAY, PREAMBLE), "%package", "foo")
  {
    hide SectionOfHeader, Segments, AnyNamed;
    StrayHeader(2);
    assert STRAY[2] in STRAY && Matches(STRAY[2], "%package", "foo");
    FoundSegments(STRAY, "%package", "foo");
  }

  /** What the scan for the tag "Source1" of the package "foo" finds. */
  lemma StrayScan()
    ensures ScanResult(STRAY, Scan(true, 3, 8, 9), "%package", "foo", Family("Source1"))
  {
    hide LastTag, LastEnd, SectionBefore, Segments, AnyNamed, Family;
    StrayLasts();
    StrayBefore(10);
    StrayFound();
  }

  lemma StrayPlace()
    ensures Skips(STRAY, 3, 9, 6)
  {
    hide Depth;
    StrayDepth(4);
    StrayDepth(5);
    StrayDepth(6);
    StrayDepth(7);
    assert Unconditional(STRAY, 6) && !Unconditional(STRAY, 5) && !Unconditional(STRAY, 4) && !Unconditional(STRAY, 3);
  }

  /** A line inserted there is outside of the package. */
  predicate OutsidePackage(new_: string) {
    !Named(SectionBefore(STRAY[..7] + [new_] + STRAY[7..], 7), "%package", "foo")
  }

  ghost predicate StrayOutcome(scan: Scan, at: nat) {
    GoesBehind(STRAY, scan, at, "%package", "foo", Family("Source1"))
  }

  /** The tag inserted behind "Source0" of the package lands in the description, whatever scan
      and place meet their specifications: the end of the last section of the name lies behind
      the first one's. */
  lemma TagStrays(scan: Scan, at: nat, new_: string)
    requires StrayOutcome(scan, at)
    ensures scan == Scan(true, 3, 8, 9) && at == 6 && OutsidePackage(new_)
  {
    hide SectionBefore, Family, ScanResult, Skips;
    StrayScan();
    ScansOnce(STRAY, scan, Scan(true, 3, 8, 9), "%package", "foo", Family("Source1"));
    StrayPlace();
    SkipsOnce(STRAY, 3, 9, at, 6);
    StrayBefore(7);
    SamePrefix(STRAY, STRAY[..7] + [new_] + STRAY[7..], 7);
  }

  /** What inserting the tag does to the file. */
  method InsertStray(spec: Spec, value: string) returns (r: Result<(), SectionError>)
    requires spec.rawLines == STRAY
    modifies spec
    ensures r.Success? && spec.rawLines == STRAY[..7] + ["Source1: " + value] + STRAY[7..]
    ensures !Named(SectionBefore(spec.rawLines, 7), "%package", "foo")
  {
    hide SectionBefore, Family, ScanResult, Skips, Named, Joined, WithAppended, Segments;
    StrayScan();
    ghost var scan, at;
    r, scan, at := InsertTag(spec, "foo", "Source1", value);
    assert TagSection("foo") == "%package";
    ScansOnce(STRAY, scan, Scan(true, 3, 8, 9), "%package", "foo", Family("Source1"));
    TagStrays(scan, at, "Source1: " + value);
    assert "Source1" + ": " + value == "Source1: " + value;
  }
}
