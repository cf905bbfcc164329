/** Reading the lines of a spec one by one: sections and tags, as the walk sees them. */
module SpecLines {
  import opened Wrappers
  import opened Lines

  // ---------------------------------------------------------------- reading one line

  datatype Section = Section(name: string, sectType: SectionType, pkg: string)

  /** The section before the first header. */
  const PREAMBLE := Section("", PackageSection, "")

  datatype Parsed = Starts(section: Section) | Tag(tag: string, value: string) | Raw

  /** White space of regular expressions: ASCII only, without the vertical tab. */
  predicate IsBlankByte(c: char) {
    c as int in {9, 10, 12, 13, 32}
  }

  function StripLeft(s: string): string {
    if s != "" && IsBlankByte(s[0]) then StripLeft(s[1..]) else s
  }

  function StripRight(s: string): string {
    if s != "" && IsBlankByte(s[|s| - 1]) then StripRight(s[..|s| - 1]) else s
  }

  /** The length of the leading run without blanks and colons. */
  function TagLength(s: string): (n: nat)
    ensures n <= |s|
  {
    if s == "" || IsBlankByte(s[0]) || s[0] == ':' then 0 else 1 + TagLength(s[1..])
  }

  /** A name, a colon right after it, and a value on one line. */
  function TagIn(logical: string): Option<(string, string)> {
    var n := TagLength(logical);
    if n == 0 || n == |logical| || logical[n] != ':' then None
    else
      var value := StripRight(StripLeft(logical[n + 1..]));
      if '\n' in value then None else Some((logical[..n], value))
  }

  function SectionOfHeader(raw: string): Option<Section> {
    var kind := Classify(raw);
    if kind.SectionHeader? then Some(Section(kind.name, kind.sectType, kind.pkg)) else None
  }

  /** What a line is to the walk: tags exist only in package sections, and a '#' in the first
      column empties the line. */
  function ParseLine(raw: string, current: Section): Parsed {
    var logical := TrimSpace(if raw != "" && raw[0] == '#' then "" else raw);
    if SectionOfHeader(raw).Some? then Starts(SectionOfHeader(raw).value)
    else if Fields(logical) != [] && current.sectType.PackageSection? && TagIn(logical).Some? then
      Tag(TagIn(logical).value.0, TagIn(logical).value.1)
    else Raw
  }

  function SectionAfter(raw: string, current: Section): Section {
    if SectionOfHeader(raw).Some? then SectionOfHeader(raw).value else current
  }

  /** The section in force after some lines. */
  function SectionAt(lines: seq<string>, current: Section): Section {
    if lines == [] then current else SectionAt(lines[1..], SectionAfter(lines[0], current))
  }

  lemma {:induction false} SectionAtConcat(a: seq<string>, b: seq<string>, s: Section)
    ensures SectionAt(a + b, s) == SectionAt(b, SectionAt(a, s))
  {
    if a == [] {
      assert a + b == b;
    } else {
      assert (a + b)[1..] == a[1..] + b;
      SectionAtConcat(a[1..], b, SectionAfter(a[0], s));
    }
  }

  lemma SectionAtOne(raw: string, s: Section)
    ensures SectionAt([raw], s) == SectionAfter(raw, s)
  {
    assert [raw][1..] == [];
  }

  // ---------------------------------------------------------------- tags as a pattern

  predicate AllBlank(s: string) {
    forall c <- s :: IsBlankByte(c)
  }

  /** No blank at either end, and no line break. */
  predicate Bare(v: string) {
    '\n' !in v && (v != "" ==> !IsBlankByte(v[0]) && !IsBlankByte(v[|v| - 1]))
  }

  /** A name, a colon, blanks, a value without blanks around it, and blanks: the blanks in
      front of the value are as many as there can be. */
  ghost predicate TagPattern(s: string, name: string, value: string) {
    && name != "" && (forall c <- name :: !IsBlankByte(c) && c != ':') && Bare(value)
    && exists front, back ::
         AllBlank(front) && AllBlank(back) && (value == "" ==> back == "") && s == name + ":" + front + value + back
  }

  lemma {:induction false} StripLeftParts(s: string) returns (front: string)
    ensures AllBlank(front) && s == front + StripLeft(s)
    ensures StripLeft(s) != "" ==> !IsBlankByte(StripLeft(s)[0])
  {
    if s != "" && IsBlankByte(s[0]) {
      var rest := StripLeftParts(s[1..]);
      front := [s[0]] + rest;
    } else {
      front := "";
    }
  }

  lemma {:induction false} StripRightParts(s: string) returns (back: string)
    ensures AllBlank(back) && s == StripRight(s) + back
    ensures StripRight(s) != "" ==> !IsBlankByte(StripRight(s)[|StripRight(s)| - 1])
  {
    if s != "" && IsBlankByte(s[|s| - 1]) {
      var rest := StripRightParts(s[..|s| - 1]);
      back := rest + [s[|s| - 1]];
    } else {
      back := "";
    }
  }

  lemma {:induction false} StripLeftOver(front: string, rest: string)
    requires AllBlank(front) && (rest != "" ==> !IsBlankByte(rest[0]))
    ensures StripLeft(front + rest) == rest
  {
    if front == "" {
      assert front + rest == rest;
    } else {
      assert front[0] in front && forall c <- front[1..] :: c in front;
      assert (front + rest)[1..] == front[1..] + rest;
      StripLeftOver(front[1..], rest);
    }
  }

  lemma {:induction false} StripRightOver(rest: string, back: string)
    requires AllBlank(back) && (rest != "" ==> !IsBlankByte(rest[|rest| - 1]))
    ensures StripRight(rest + back) == rest
  {
    if back == "" {
      assert rest + back == rest;
    } else {
      var n := |back| - 1;
      assert back[n] in back && forall c <- back[..n] :: c in back;
      assert (rest + back)[..|rest + back| - 1] == rest + back[..n];
      StripRightOver(rest, back[..n]);
    }
  }

  lemma {:induction false} TagLengthIs(name: string, rest: string)
    requires (forall c <- name :: !IsBlankByte(c) && c != ':') && rest != "" && rest[0] == ':'
    ensures TagLength(name + rest) == |name|
  {
    if name == "" {
      assert name + rest == rest;
    } else {
      assert name[0] in name && forall c <- name[1..] :: c in name;
      assert (name + rest)[1..] == name[1..] + rest;
      TagLengthIs(name[1..], rest);
    }
  }

  lemma {:induction false} TagLengthFacts(s: string)
    ensures forall k :: 0 <= k < TagLength(s) ==> !IsBlankByte(s[k]) && s[k] != ':'
  {
    if s != "" && !IsBlankByte(s[0]) && s[0] != ':' {
      TagLengthFacts(s[1..]);
    }
  }

  /** Reading a tag by hand finds a name and a value exactly when they match the pattern of
      tag lines. */
  lemma TagMatchesPattern(s: string, name: string, value: string)
    ensures TagIn(s) == Some((name, value)) <==> TagPattern(s, name, value)
  {
    hide TagIn, TagPattern;
    if TagIn(s) == Some((name, value)) {
      TagFits(s, name, value);
    }
    if TagPattern(s, name, value) {
      PatternFound(s, name, value);
    }
  }

  lemma TagFits(s: string, name: string, value: string)
    requires TagIn(s) == Some((name, value))
    ensures TagPattern(s, name, value)
  {
    hide IsBlankByte, StripLeft, StripRight, TagLength, AllBlank;
    TagLengthFacts(s);
    var after := s[|name| + 1..];
    var front := StripLeftParts(after);
    var back := StripRightParts(StripLeft(after));
    FirstBlank(back);
    assert s == name + ":" + after;
    assert s == name + ":" + front + value + back;
    assert value == "" ==> StripLeft(after) == back;
  }

  lemma FirstBlank(s: string)
    requires AllBlank(s)
    ensures s != "" ==> IsBlankByte(s[0])
  {
  }

  lemma PatternFound(s: string, name: string, value: string)
    requires TagPattern(s, name, value)
    ensures TagIn(s) == Some((name, value))
  {
    hide IsBlankByte, StripLeft, StripRight, TagLength, AllBlank;
    var front, back :| AllBlank(front) && AllBlank(back) && (value == "" ==> back == "")
      && s == name + ":" + front + value + back;
    TagLengthIs(name, ":" + front + value + back);
    assert s == name + (":" + front + value + back);
    assert s[|name| + 1..] == front + (value + back);
    StripLeftOver(front, value + back);
    StripRightOver(value, back);
  }
}
