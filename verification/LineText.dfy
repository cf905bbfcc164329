/** What splitting, trimming and lower-casing a line come to. */
module LineText {
  import opened Wrappers
  import opened Lines
  import opened SpecLines
  import opened SampleLines

  predicate Spaces(s: string) {
    forall c <- s :: IsSpace(c)
  }

  /** The tokens of a line are its longest runs without white space, from left to right. */
  lemma {:induction false} FieldsRead(lead: string, token: string, rest: string)
    requires Spaces(lead) && Solid(token) && (rest != "" ==> IsSpace(rest[0]))
    ensures Fields(lead + token + rest) == [token] + Fields(rest)
    decreases |lead|
  {
    if lead == "" {
      var all := token + rest;
      assert lead + token + rest == all;
      TokenEnds(token, rest);
      assert all[..|token|] == token && all[|token|..] == rest;
    } else {
      assert lead[0] in lead && forall c <- lead[1..] :: c in lead;
      assert (lead + token + rest)[1..] == lead[1..] + token + rest;
      FieldsRead(lead[1..], token, rest);
    }
  }

  lemma {:induction false} NoFields(s: string)
    requires Spaces(s)
    ensures Fields(s) == []
  {
    if s != "" {
      assert s[0] in s && forall c <- s[1..] :: c in s;
      NoFields(s[1..]);
    }
  }

  /** Trimming takes away the white space at both ends, and nothing else. */
  lemma TrimSpaceIs(s: string) returns (front: string, back: string)
    ensures s == front + TrimSpace(s) + back && Spaces(front) && Spaces(back)
    ensures TrimSpace(s) != "" ==> !IsSpace(TrimSpace(s)[0]) && !IsSpace(TrimSpace(s)[|TrimSpace(s)| - 1])
  {
    front := TrimLeftIs(s);
    back := TrimRightIs(TrimLeft(s));
  }

  lemma {:induction false} TrimLeftIs(s: string) returns (front: string)
    ensures s == front + TrimLeft(s) && Spaces(front) && (TrimLeft(s) != "" ==> !IsSpace(TrimLeft(s)[0]))
  {
    if s != "" && IsSpace(s[0]) {
      front := TrimLeftIs(s[1..]);
      front := [s[0]] + front;
    } else {
      front := "";
    }
  }

  lemma {:induction false} TrimRightIs(s: string) returns (back: string)
    ensures s == TrimRight(s) + back && Spaces(back)
    ensures TrimRight(s) != "" ==> TrimRight(s)[0] == s[0] && !IsSpace(TrimRight(s)[|TrimRight(s)| - 1])
  {
    if s != "" && IsSpace(s[|s| - 1]) {
      back := TrimRightIs(s[..|s| - 1]);
      back := back + [s[|s| - 1]];
    } else {
      back := "";
    }
  }

  /** Case is the only thing that lower-casing takes from ASCII letters. */
  lemma LowerIs(c: char)
    ensures 'a' <= c <= 'z' || c < 'A' ==> Lower(c) == c
    ensures 'A' <= c <= 'Z' ==> 'a' <= Lower(c) <= 'z' && Lower(c) as int - 'a' as int == c as int - 'A' as int
    ensures !('A' <= c <= 'Z') && Lower(c) != c ==> c as int > 127 && 'a' <= Lower(c) <= 'z'
  {
  }

  /** The blanks of regular expressions are the ASCII white space but for the vertical tab. */
  lemma BlankIsSpace(c: char)
    ensures IsBlankByte(c) <==> IsSpace(c) && c as int < 128 && c as int != 11
  {
  }

  /** Each opener has the branch keyword of its own kind. */
  lemma OpenersHaveBranches(tail: string)
    ensures "%if" + tail in IF_KEYWORDS <==> "%elif" + tail in ELIF_KEYWORDS
    ensures "%if" + tail in IF_KEYWORDS <==> tail in {"", "arch", "narch", "os", "nos"}
  {
    assert ("%if" + tail)[3..] == tail && ("%elif" + tail)[5..] == tail;
    assert "%if" == "%if" + "" && "%elif" == "%elif" + "";
    assert "%ifarch" == "%if" + "arch" && "%elifarch" == "%elif" + "arch";
    assert "%ifnarch" == "%if" + "narch" && "%elifnarch" == "%elif" + "narch";
    assert "%ifos" == "%if" + "os" && "%elifos" == "%elif" + "os";
    assert "%ifnos" == "%if" + "nos" && "%elifnos" == "%elif" + "nos";
  }

  /** The sections that are no scripts. */
  lemma SectionKeywords(k: string)
    ensures SectionTypeByName(k) == Some(PackageSection) <==> k == "%package"
    ensures SectionTypeByName(k) == Some(RawSection) <==> k == "%description"
    ensures SectionTypeByName(k) == Some(FilesSection) <==> k == "%files"
    ensures SectionTypeByName(k) == Some(ChangelogSection) <==> k == "%changelog"
    ensures SectionTypeByName(k) == Some(SourceFileListSection) <==> k == "%patchlist" || k == "%sourcelist"
  {
  }

  /** The scripts: those of the build, and those before and after the events of packages and files. */
  lemma ScriptKeywords()
    ensures {"%prep", "%conf", "%generate_buildrequires", "%build", "%install", "%check", "%clean",
            "%verify"} <= SCRIPT_SECTIONS
    ensures forall what <- {"", "un", "trans", "untrans"} ::
            "%pre" + what in SCRIPT_SECTIONS && "%post" + what in SCRIPT_SECTIONS
    ensures forall what <- {"in", "un", "prein", "postun"} :: "%trigger" + what in SCRIPT_SECTIONS
    ensures forall what <- {"in", "un", "postun"} ::
              "%filetrigger" + what in SCRIPT_SECTIONS && "%transfiletrigger" + what in SCRIPT_SECTIONS
  {
    assert "%pre" + "" == "%pre" && "%pre" + "un" == "%preun" && "%pre" + "trans" == "%pretrans";
    assert "%pre" + "untrans" == "%preuntrans" && "%post" + "untrans" == "%postuntrans";
    assert "%post" + "" == "%post" && "%post" + "un" == "%postun" && "%post" + "trans" == "%posttrans";
    assert "%trigger" + "in" == "%triggerin" && "%trigger" + "un" == "%triggerun";
    assert "%trigger" + "prein" == "%triggerprein" && "%trigger" + "postun" == "%triggerpostun";
    assert "%filetrigger" + "in" == "%filetriggerin" && "%filetrigger" + "un" == "%filetriggerun";
    assert "%filetrigger" + "postun" == "%filetriggerpostun" && "%transfiletrigger" + "in" == "%transfiletriggerin";
    assert "%transfiletrigger" + "un" == "%transfiletriggerun";
    assert "%transfiletrigger" + "postun" == "%transfiletriggerpostun";
  }

  /** The argument of a flag that takes one is never the package, nor is a flag. */
  lemma FlagsPassed(flag: string, argument: string, rest: seq<string>, fullName: string, suffix: string)
    ensures flag in {"-f", "-p", "-l", "-P"} ==>
              PackageFrom([flag, argument] + rest, fullName, suffix) == PackageFrom(rest, fullName, suffix)
    ensures flag in {"-q", "-e"} ==> PackageFrom([flag] + rest, fullName, suffix) == PackageFrom(rest, fullName, suffix)
    ensures PackageFrom(["--"] + rest, fullName, suffix) == if fullName != "" then fullName else suffix
  {
    assert ([flag, argument] + rest)[2..] == rest && ([flag] + rest)[1..] == rest;
  }

  /** The name of a macro is what stands before its parameters. */
  lemma {:induction false} MacroNameIs(name: string, parameters: string)
    requires (forall c <- name :: c != '(') && (parameters != "" ==> parameters[0] == '(')
    ensures BeforeParenthesis(name + parameters) == name
  {
    if name == "" {
      assert name + parameters == parameters;
    } else {
      assert name[0] in name && forall c <- name[1..] :: c in name;
      assert (name + parameters)[1..] == name[1..] + parameters;
      MacroNameIs(name[1..], parameters);
    }
  }

  // ---------------------------------------------------------------- what the first word makes of a line

  /** A line that starts with a word, and what goes on behind it. */
  predicate StartsWith(raw: string, lead: string, word: string, rest: string) {
    raw == lead + word + rest && Spaces(lead) && Solid(word) && (rest != "" ==> IsSpace(rest[0]))
  }

  lemma FirstWord(raw: string, lead: string, word: string, rest: string)
    requires StartsWith(raw, lead, word, rest)
    ensures Fields(TrimSpace(raw)) == Fields(raw) == [word] + Fields(rest)
    ensures TrimSpace(raw) != "" && TrimSpace(raw)[0] == word[0]
  {
    hide Fields, TrimSpace;
    FieldsRead(lead, word, rest);
    FieldsTrimSpace(raw);
  }

  /** Conditional directives, in any case and behind any white space. */
  lemma DirectiveIs(raw: string, lead: string, word: string, rest: string)
    requires StartsWith(raw, lead, word, rest)
    ensures ConditionalDepthChange(raw) == 1 <==> ToLower(word) in {"%if", "%ifarch", "%ifnarch", "%ifos", "%ifnos"}
    ensures ConditionalDepthChange(raw) == -1 <==> ToLower(word) == "%endif"
    ensures IsConditionalBranchDirective(raw) <==>
              ToLower(word) in {"%else", "%elif", "%elifarch", "%elifnarch", "%elifos", "%elifnos"}
  {
    hide Fields, TrimSpace, ToLower;
    FirstWord(raw, lead, word, rest);
    LowerOfHash(word);
  }

  lemma LowerOfHash(word: string)
    requires word != ""
    ensures word[0] == '#' ==> ToLower(word) != "" && ToLower(word)[0] == '#'
  {
  }

  /** Macro definitions have a name behind their keyword. */
  lemma DefinitionIs(raw: string, lead: string, word: string, gap: string, name: string, rest: string)
    requires StartsWith(raw, lead, word, gap + name + rest) && gap != ""
             && StartsWith(gap + name + rest, gap, name, rest)
    ensures MacroDefLine(raw) ==
            if ToLower(word) == "%define" || ToLower(word) == "%global" then Some(BeforeParenthesis(name)) else None
  {
    hide Fields, TrimSpace, ToLower, BeforeParenthesis;
    FirstWord(raw, lead, word, gap + name + rest);
    FieldsRead(gap, name, rest);
  }

  lemma NoDefinition(raw: string, lead: string, word: string, rest: string)
    requires StartsWith(raw, lead, word, rest) && Spaces(rest)
    ensures MacroDefLine(raw) == None
  {
    hide Fields, TrimSpace, ToLower;
    FirstWord(raw, lead, word, rest);
    NoFields(rest);
  }

  /** Blank lines are white space, and comments have a '#' behind it. */
  lemma BlankOrCommentIs(raw: string)
    ensures IsBlankOrComment(raw) <==> Spaces(raw) || exists lead, rest :: raw == lead + "#" + rest && Spaces(lead)
  {
    hide TrimSpace;
    var front, back := TrimSpaceIs(raw);
    var text := TrimSpace(raw);
    if text == "" {
      forall c | c in raw ensures IsSpace(c) {
        assert c in front || c in back;
      }
    } else {
      assert raw == front + [text[0]] + (text[1..] + back);
      assert text[0] in raw;
      if lead, rest :| raw == lead + "#" + rest && Spaces(lead) {
        SameFirst(front, text[0], text[1..] + back, lead, '#', rest);
      }
    }
  }

  /** The first character behind the white space is one. */
  lemma {:induction false} SameFirst(a: string, c: char, r: string, b: string, d: char, t: string)
    requires Spaces(a) && !IsSpace(c) && Spaces(b) && !IsSpace(d) && a + [c] + r == b + [d] + t
    ensures c == d
    decreases |a|
  {
    assert (a != "" ==> a[0] in a) && (b != "" ==> b[0] in b);
    assert (a + [c] + r)[0] == (b + [d] + t)[0];
    if a != "" && b != "" {
      assert (forall x <- a[1..] :: x in a) && forall x <- b[1..] :: x in b;
      assert (a + [c] + r)[1..] == a[1..] + [c] + r && (b + [d] + t)[1..] == b[1..] + [d] + t;
      SameFirst(a[1..], c, r, b[1..], d, t);
    }
  }
}
