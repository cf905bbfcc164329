/** Spec lines: splitting into tokens, and what kind of line the first token makes it. */
module Lines {
  import opened Wrappers

  // ---------------------------------------------------------------- text

  /** Unicode white space. */
  predicate IsSpace(c: char) {
    var n := c as int;
    || 9 <= n <= 13 || n == 0x20 || n == 0x85 || n == 0xA0 || n == 0x1680
    || 0x2000 <= n <= 0x200A || n == 0x2028 || n == 0x2029 || n == 0x202F || n == 0x205F || n == 0x3000
  }

  /** Lower case, exact wherever the result is an ASCII character; keywords are ASCII. */
  function Lower(c: char): char {
    if 'A' <= c <= 'Z' then (c as int + 32) as char
    else if c as int == 0x212A then 'k'
    else if c as int == 0x130 then 'i'
    else c
  }

  function ToLower(s: string): (r: string)
    ensures |r| == |s|
  {
    seq(|s|, i requires 0 <= i < |s| => Lower(s[i]))
  }

  /** The length of the leading run without white space. */
  function TokenLength(s: string): (n: nat)
    ensures n <= |s| && (n < |s| ==> IsSpace(s[n]))
    ensures forall k :: 0 <= k < n ==> !IsSpace(s[k])
  {
    if s == "" || IsSpace(s[0]) then 0 else 1 + TokenLength(s[1..])
  }

  /** The tokens of a line, in order. */
  function Fields(s: string): (tokens: seq<string>)
    ensures forall t <- tokens :: t != "" && forall k :: 0 <= k < |t| ==> !IsSpace(t[k])
  {
    if s == "" then []
    else if IsSpace(s[0]) then Fields(s[1..])
    else [s[..TokenLength(s)]] + Fields(s[TokenLength(s)..])
  }

  function TrimLeft(s: string): string {
    if s != "" && IsSpace(s[0]) then TrimLeft(s[1..]) else s
  }

  function TrimRight(s: string): string {
    if s != "" && IsSpace(s[|s| - 1]) then TrimRight(s[..|s| - 1]) else s
  }

  function TrimSpace(s: string): string {
    TrimRight(TrimLeft(s))
  }

  // ---------------------------------------------------------------- section headers

  datatype SectionType =
    PackageSection | ScriptSection | RawSection | ChangelogSection | FilesSection | SourceFileListSection

  const SCRIPT_SECTIONS := {
    "%prep", "%conf", "%build", "%install", "%check", "%clean", "%generate_buildrequires",
    "%pre", "%post", "%preun", "%postun", "%pretrans", "%posttrans", "%preuntrans", "%postuntrans",
    "%verify", "%triggerin", "%triggerun", "%triggerprein", "%triggerpostun",
    "%filetriggerin", "%filetriggerun", "%filetriggerpostun",
    "%transfiletriggerin", "%transfiletriggerun", "%transfiletriggerpostun" }

  function SectionTypeByName(keyword: string): Option<SectionType> {
    if keyword == "%package" then Some(PackageSection)
    else if keyword in SCRIPT_SECTIONS then Some(ScriptSection)
    else if keyword == "%description" then Some(RawSection)
    else if keyword == "%files" then Some(FilesSection)
    else if keyword == "%changelog" then Some(ChangelogSection)
    else if keyword == "%patchlist" || keyword == "%sourcelist" then Some(SourceFileListSection)
    else None
  }

  /** The package a header names, from its tokens after the keyword: the last "-n" argument
      if there is one, else the first plain token; "--" ends the scan. */
  function PackageFrom(tokens: seq<string>, fullName: string, suffix: string): string
    decreases |tokens|
  {
    if tokens == [] || tokens[0] == "--" then
      if fullName != "" then fullName else suffix
    else if tokens[0] == "-n" then
      if |tokens| == 1 then PackageFrom([], fullName, suffix)
      else PackageFrom(tokens[2..], tokens[1], suffix)
    else if tokens[0] in {"-f", "-p", "-l", "-P"} then
      PackageFrom(if |tokens| == 1 then [] else tokens[2..], fullName, suffix)
    else if tokens[0] != "" && tokens[0][0] == '-' then
      PackageFrom(tokens[1..], fullName, suffix)
    else
      PackageFrom(tokens[1..], fullName, if suffix == "" then tokens[0] else suffix)
  }

  /** What the tokens after a header's keyword are, up to a "--". */
  datatype HeaderItem = FullName(value: string) | Word(value: string) | Flag

  function HeaderItems(tokens: seq<string>): seq<HeaderItem>
    decreases |tokens|
  {
    if tokens == [] || tokens[0] == "--" then []
    else if tokens[0] == "-n" then if |tokens| == 1 then [] else [FullName(tokens[1])] + HeaderItems(tokens[2..])
    else if tokens[0] in {"-f", "-p", "-l", "-P"} then [Flag] + HeaderItems(if |tokens| == 1 then [] else tokens[2..])
    else if tokens[0] != "" && tokens[0][0] == '-' then [Flag] + HeaderItems(tokens[1..])
    else [Word(tokens[0])] + HeaderItems(tokens[1..])
  }

  /** A header names the package of its last "-n", else the one of its first plain word. */
  ghost predicate NamesPackage(items: seq<HeaderItem>, pkg: string) {
    || (exists i :: LastFullName(items, i) && items[i].value == pkg)
    || ((forall i :: 0 <= i < |items| ==> !items[i].FullName?)
        && if exists i :: 0 <= i < |items| && items[i].Word? then
             exists i :: FirstWord(items, i) && items[i].value == pkg
           else pkg == "")
  }

  predicate LastFullName(items: seq<HeaderItem>, i: int) {
    0 <= i < |items| && items[i].FullName? && forall j :: i < j < |items| ==> !items[j].FullName?
  }

  predicate FirstWord(items: seq<HeaderItem>, i: int) {
    0 <= i < |items| && items[i].Word? && forall j :: 0 <= j < i ==> !items[j].Word?
  }

  /** What is read so far gives way to a later "-n", and only an earlier word to a later one. */
  ghost predicate NamesAfter(items: seq<HeaderItem>, fullName: string, suffix: string, pkg: string) {
    || (exists i :: LastFullName(items, i) && items[i].value == pkg)
    || ((forall i :: 0 <= i < |items| ==> !items[i].FullName?)
        && if fullName != "" then pkg == fullName
           else if suffix != "" then pkg == suffix
           else if exists i :: 0 <= i < |items| && items[i].Word? then
             exists i :: FirstWord(items, i) && items[i].value == pkg
           else pkg == "")
  }

  lemma NamesMore(item: HeaderItem, items: seq<HeaderItem>, fullName: string, suffix: string, pkg: string)
    requires item.Flag? || item.value != ""
    requires NamesAfter(items, if item.FullName? then item.value else fullName,
                        if item.Word? && suffix == "" then item.value else suffix, pkg)
    ensures NamesAfter([item] + items, fullName, suffix, pkg)
  {
    var all := [item] + items;
    assert forall i :: 0 <= i < |items| ==> all[i + 1] == items[i];
    assert forall i :: 0 < i < |all| ==> all[i] == items[i - 1];
    if i :| LastFullName(items, i) && items[i].value == pkg {
      assert LastFullName(all, i + 1);
    } else if item.FullName? {
      assert LastFullName(all, 0);
    } else if fullName == "" && suffix == "" {
      if item.Word? {
        assert FirstWord(all, 0);
      } else if i :| FirstWord(items, i) && items[i].value == pkg {
        assert FirstWord(all, i + 1);
      }
    }
  }

  lemma {:induction false} PackageFromReads(tokens: seq<string>, fullName: string, suffix: string)
    requires forall t <- tokens :: t != ""
    ensures NamesAfter(HeaderItems(tokens), fullName, suffix, PackageFrom(tokens, fullName, suffix))
    decreases |tokens|
  {
    hide NamesAfter;
    if tokens == [] || tokens[0] == "--" || (tokens[0] == "-n" && |tokens| == 1) {
      NamesNothing(fullName, suffix);
    } else {
      var k := if |tokens| > 1 && tokens[0] in {"-n", "-f", "-p", "-l", "-P"} then 2 else 1;
      var item := HeaderItems(tokens)[0];
      assert tokens[0] in tokens && (k == 2 ==> tokens[1] in tokens);
      assert forall t <- tokens[k..] :: t in tokens;
      var f := if item.FullName? then item.value else fullName;
      var s := if item.Word? && suffix == "" then item.value else suffix;
      PackageFromReads(tokens[k..], f, s);
      NamesMore(item, HeaderItems(tokens[k..]), fullName, suffix, PackageFrom(tokens, fullName, suffix));
    }
  }

  lemma NamesNothing(fullName: string, suffix: string)
    ensures NamesAfter([], fullName, suffix, if fullName != "" then fullName else suffix)
  {
  }

  /** The package read from a header is that of the last "-n" before any "--", else the first
      word that is no flag nor the argument of one, else none. */
  lemma PackageIsNamed(tokens: seq<string>)
    requires forall t <- tokens :: t != ""
    ensures NamesPackage(HeaderItems(tokens), PackageFrom(tokens, "", ""))
  {
    PackageFromReads(tokens, "", "");
  }

  method GetPackageNameFromSectionHeader(tokens: seq<string>) returns (name: string)
    ensures name == PackageFrom(if tokens == [] then [] else tokens[1..], "", "")
    ensures (forall t <- tokens :: t != "") ==>
            NamesPackage(HeaderItems(if tokens == [] then [] else tokens[1..]), name)
  {
    hide NamesPackage;
    var fullName, suffix, index := "", "", 1;
    while index < |tokens|
      invariant 1 <= index
      invariant PackageFrom(if index <= |tokens| then tokens[index..] else [], fullName, suffix)
             == PackageFrom(if tokens == [] then [] else tokens[1..], "", "")
      decreases |tokens| - index
    {
      var token := tokens[index];
      if token == "--" {
        index := |tokens|;
      } else if token == "-n" {
        index := index + 1;
        if index < |tokens| {
          fullName := tokens[index];
          index := index + 1;
        }
      } else if token in {"-f", "-p", "-l", "-P"} {
        index := index + 2;
      } else if token != "" && token[0] == '-' {
        index := index + 1;
      } else {
        if suffix == "" {
          suffix := token;
        }
        index := index + 1;
      }
    }
    name := if fullName != "" then fullName else suffix;
    if tokens != [] && forall t <- tokens :: t != "" {
      assert forall t <- tokens[1..] :: t in tokens;
      PackageIsNamed(tokens[1..]);
    } else if tokens == [] {
      PackageIsNamed([]);
    }
  }

  function PackageOf(sectType: SectionType, tokens: seq<string>): string
    requires tokens != []
  {
    if sectType.SourceFileListSection? || sectType.ChangelogSection? then "" else PackageFrom(tokens[1..], "", "")
  }

  // ---------------------------------------------------------------- kinds of lines

  /** `Content(meaningful)`: meaningful unless blank or a comment. */
  datatype Kind =
    | IfDirective
    | EndifDirective
    | ElseDirective
    | ElifDirective
    | SectionHeader(name: string, pkg: string, sectType: SectionType)
    | MacroDefinition(macroName: string)
    | Content(meaningful: bool)

  const IF_KEYWORDS := {"%if", "%ifarch", "%ifnarch", "%ifos", "%ifnos"}
  const ELIF_KEYWORDS := {"%elif", "%elifarch", "%elifnarch", "%elifos", "%elifnos"}

  function Classify(raw: string): Kind
  {
    var tokens := Fields(raw);
    if tokens == [] then Content(false)
    else
      var keyword := ToLower(tokens[0]);
      if keyword in IF_KEYWORDS then IfDirective
      else if keyword == "%endif" then EndifDirective
      else if keyword == "%else" then ElseDirective
      else if keyword in ELIF_KEYWORDS then ElifDirective
      else if (keyword == "%define" || keyword == "%global") && |tokens| >= 2 then
        MacroDefinition(BeforeParenthesis(tokens[1]))
      else if SectionTypeByName(keyword).Some? then
        var sectType := SectionTypeByName(keyword).value;
        SectionHeader(tokens[0], PackageOf(sectType, tokens), sectType)
      else Content(tokens[0][0] != '#')
  }

  function BeforeParenthesis(name: string): string {
    if name == "" || name[0] == '(' then "" else [name[0]] + BeforeParenthesis(name[1..])
  }

  // ---------------------------------------------- the predicates of the two engines

  predicate IsComment(trimmed: string) {
    trimmed != "" && trimmed[0] == '#'
  }

  function ConditionalDepthChange(raw: string): int {
    var trimmed := TrimSpace(raw);
    if IsComment(trimmed) || Fields(trimmed) == [] then 0
    else
      var lower := ToLower(Fields(trimmed)[0]);
      if lower == "%endif" then -1 else if lower in IF_KEYWORDS then 1 else 0
  }

  predicate IsConditionalBranchDirective(raw: string) {
    var trimmed := TrimSpace(raw);
    !IsComment(trimmed) && Fields(trimmed) != [] &&
    var lower := ToLower(Fields(trimmed)[0]);
    lower == "%else" || lower in ELIF_KEYWORDS
  }

  predicate IsElifDirective(raw: string) {
    var tokens := Fields(TrimSpace(raw));
    tokens != [] && ToLower(tokens[0]) != "%else" && IsConditionalBranchDirective(raw)
  }

  function MacroDefLine(raw: string): Option<string> {
    var tokens := Fields(TrimSpace(raw));
    if |tokens| < 2 then None
    else
      var lower := ToLower(tokens[0]);
      if lower == "%define" || lower == "%global" then Some(BeforeParenthesis(tokens[1])) else None
  }

  predicate IsSectionHeaderLine(raw: string) {
    var tokens := Fields(TrimSpace(raw));
    tokens != [] && SectionTypeByName(ToLower(tokens[0])).Some?
  }

  predicate IsBlankOrComment(raw: string) {
    var trimmed := TrimSpace(raw);
    trimmed == "" || IsComment(trimmed)
  }

  lemma {:induction false} FieldsTrimLeft(s: string)
    ensures Fields(TrimLeft(s)) == Fields(s)
    ensures TrimLeft(s) != "" ==> !IsSpace(TrimLeft(s)[0])
  {
    if s != "" && IsSpace(s[0]) {
      FieldsTrimLeft(s[1..]);
    }
  }

  lemma {:induction false} FieldsDropLastSpace(s: string)
    requires s != "" && IsSpace(s[|s| - 1])
    ensures Fields(s[..|s| - 1]) == Fields(s)
  {
    var short := s[..|s| - 1];
    if |s| == 1 {
    } else if IsSpace(s[0]) {
      assert s[1..][..|s| - 2] == short[1..];
      FieldsDropLastSpace(s[1..]);
    } else {
      TokenLengthOfPrefix(s);
      var n := TokenLength(s);
      assert s[n..][..|s| - 1 - n] == short[n..] && s[..n] == short[..n];
      FieldsDropLastSpace(s[n..]);
    }
  }

  lemma {:induction false} TokenLengthOfPrefix(s: string)
    requires s != "" && IsSpace(s[|s| - 1])
    ensures TokenLength(s[..|s| - 1]) == TokenLength(s) < |s|
  {
    if !IsSpace(s[0]) {
      assert s[..|s| - 1][1..] == s[1..][..|s| - 2];
      TokenLengthOfPrefix(s[1..]);
    }
  }

  lemma {:induction false} FieldsTrimRight(s: string)
    ensures Fields(TrimRight(s)) == Fields(s)
    ensures s != "" && !IsSpace(s[0]) ==> TrimRight(s) != "" && TrimRight(s)[0] == s[0]
  {
    if s != "" && IsSpace(s[|s| - 1]) {
      FieldsDropLastSpace(s);
      FieldsTrimRight(s[..|s| - 1]);
    }
  }

  lemma FieldsTrimSpace(raw: string)
    ensures Fields(TrimSpace(raw)) == Fields(raw)
    ensures TrimSpace(raw) == "" <==> Fields(raw) == []
    ensures Fields(raw) != [] ==> TrimSpace(raw)[0] == Fields(raw)[0][0]
  {
    FieldsTrimLeft(raw);
    FieldsTrimRight(TrimLeft(raw));
  }

  /** What the second to fourth letters say about a keyword. */
  lemma KeywordLetters(k: string)
    ensures k in IF_KEYWORDS ==> |k| >= 3 && k[0] == '%' && k[1] == 'i' && k[2] == 'f'
    ensures k in ELIF_KEYWORDS ==> |k| >= 4 && k[0] == '%' && k[1] == 'e' && k[2] == 'l' && k[3] == 'i'
    ensures k == "%else" ==> |k| >= 4 && k[0] == '%' && k[1] == 'e' && k[2] == 'l' && k[3] == 's'
    ensures k == "%endif" ==> |k| >= 4 && k[0] == '%' && k[1] == 'e' && k[2] == 'n'
    ensures k == "%define" ==> |k| >= 4 && k[0] == '%' && k[1] == 'd' && k[3] == 'f'
    ensures k == "%global" ==> |k| >= 4 && k[0] == '%' && k[1] == 'g' && k[2] == 'l'
  {
  }

  lemma SectionLetters(k: string)
    ensures SectionTypeByName(k).Some? ==>
              |k| >= 4 && k[0] == '%' && k[1] != 'e' && (k[1] == 'i' ==> k[2] == 'n')
              && (k[1] == 'g' ==> k[2] == 'e') && (k[1] == 'd' ==> k[3] == 's')
  {
  }

  predicate IsDefineKeyword(k: string) { k == "%define" || k == "%global" }

  /** The groups of keywords exclude each other. */
  lemma KeywordsExclusive(k: string)
    ensures k in IF_KEYWORDS ==>
              |k| > 0 && k[0] == '%' && k != "%endif" && k != "%else" && k !in ELIF_KEYWORDS && !IsDefineKeyword(k)
              && SectionTypeByName(k).None?
    ensures k == "%endif" || k == "%else" || k in ELIF_KEYWORDS ==>
              |k| > 0 && k[0] == '%' && !IsDefineKeyword(k) && SectionTypeByName(k).None?
    ensures k == "%endif" ==> k !in ELIF_KEYWORDS
    ensures k == "%else" ==> k !in ELIF_KEYWORDS
    ensures IsDefineKeyword(k) ==> |k| > 0 && k[0] == '%' && SectionTypeByName(k).None?
    ensures SectionTypeByName(k).Some? ==> |k| > 0 && k[0] == '%'
  {
    hide SectionTypeByName;
    KeywordLetters(k);
    SectionLetters(k);
  }

  lemma FirstTokenFacts(raw: string)
    ensures Fields(TrimSpace(raw)) == Fields(raw)
    ensures TrimSpace(raw) == "" <==> Fields(raw) == []
    ensures Fields(raw) != [] ==>
              && |ToLower(Fields(raw)[0])| > 0
              && (ToLower(Fields(raw)[0])[0] == '%' ==> !IsComment(TrimSpace(raw)))
              && (IsComment(TrimSpace(raw)) <==> Fields(raw)[0][0] == '#')
  {
    FieldsTrimSpace(raw);
    if Fields(raw) != [] {
      assert ToLower(Fields(raw)[0])[0] == Lower(Fields(raw)[0][0]);
    }
  }

  lemma ClassifyAgreesOnConditionals(raw: string)
    ensures ConditionalDepthChange(raw)
            == match Classify(raw) case IfDirective => 1 case EndifDirective => -1 case _ => 0
    ensures IsConditionalBranchDirective(raw) <==> Classify(raw).ElseDirective? || Classify(raw).ElifDirective?
    ensures IsElifDirective(raw) <==> Classify(raw).ElifDirective?
  {
    hide SectionTypeByName, PackageOf, BeforeParenthesis, Fields, TrimSpace, IsComment, ToLower;
    FirstTokenFacts(raw);
    if Fields(raw) != [] {
      KeywordsExclusive(ToLower(Fields(raw)[0]));
    }
  }

  lemma ClassifyAgreesOnOthers(raw: string)
    ensures MacroDefLine(raw).Some? <==> Classify(raw).MacroDefinition?
    ensures IsSectionHeaderLine(raw) <==> Classify(raw).SectionHeader?
    ensures IsBlankOrComment(raw) <==> Classify(raw) == Content(false)
  {
    hide SectionTypeByName, PackageOf, BeforeParenthesis, Fields, TrimSpace, IsComment, ToLower;
    FirstTokenFacts(raw);
    if Fields(raw) != [] {
      KeywordsExclusive(ToLower(Fields(raw)[0]));
    }
  }

  /** The predicates of both engines are exactly the cases of one classification, so a line is
      at most one of: opener, closer, branch, macro definition, section header, content. */
  lemma ClassifyAgrees(raw: string)
    ensures ConditionalDepthChange(raw)
            == match Classify(raw) case IfDirective => 1 case EndifDirective => -1 case _ => 0
    ensures IsConditionalBranchDirective(raw) <==> Classify(raw).ElseDirective? || Classify(raw).ElifDirective?
    ensures IsElifDirective(raw) <==> Classify(raw).ElifDirective?
    ensures MacroDefLine(raw).Some? <==> Classify(raw).MacroDefinition?
    ensures IsSectionHeaderLine(raw) <==> Classify(raw).SectionHeader?
    ensures IsBlankOrComment(raw) <==> Classify(raw) == Content(false)
  {
    hide *;
    ClassifyAgreesOnConditionals(raw);
    ClassifyAgreesOnOthers(raw);
  }

  // ---------------------------------------------------------------- labelled lines

  /** A line with the position it had when it was read and its kind. `inBody` marks lines
      inside a multi-line macro body, which are opaque to the structural parser. */
  datatype Line = Line(no: nat, text: string, kind: Kind, inBody: bool) {
    predicate Opens() { !inBody && kind.IfDirective? }
    predicate Closes() { !inBody && kind.EndifDirective? }
    predicate IsElse() { !inBody && kind.ElseDirective? }
    predicate IsElif() { !inBody && kind.ElifDirective? }
    predicate Branches() { IsElse() || IsElif() }
    predicate Heads() { !inBody && kind.SectionHeader? }
    predicate Defines() { !inBody && kind.MacroDefinition? }
    predicate Plain() { !inBody && kind.Content? }
  }
}
