/** Macro bodies as they are written: a grammar of well-nested text, and what the lexer makes of it. */
module MacroText {
  import opened Wrappers
  import opened MacroLexer

  // ---------------------------------------------------------------- Lua code

  /** A character of a quoted string, alone or behind a backslash. */
  datatype QuotedChar = Is(c: char) | Behind(c: char)

  /** Lua code between braces that match: brackets of level n are written with n equal signs. */
  datatype LuaPiece =
    | Char(c: char)
    | Two(c: char, d: char)
    | Quoted(quote: char, body: seq<QuotedChar>)
    | Long(comment: bool, n: nat, text: string)
    | Block(inner: seq<LuaPiece>)
    | Expansion(inner: seq<LuaPiece>)

  function Times(n: nat, c: char): (s: string)
    ensures |s| == n && forall k :: 0 <= k < n ==> s[k] == c
  {
    seq(n, i => c)
  }

  function QuotedText(body: seq<QuotedChar>): string {
    if body == [] then ""
    else (if body[0].Is? then [body[0].c] else ['\\', body[0].c]) + QuotedText(body[1..])
  }

  function LongOpener(n: nat): string { "[" + Times(n, '=') + "[" }

  function LongCloser(n: nat): string { "]" + Times(n, '=') + "]" }

  function LuaPieceText(p: LuaPiece): string
    decreases p
  {
    match p
    case Char(c) => [c]
    case Two(c, d) => [c, d]
    case Quoted(q, body) => [q] + QuotedText(body) + [q]
    case Long(comment, n, text) => (if comment then "--" else "") + LongOpener(n) + text + LongCloser(n)
    case Block(inner) => "{" + LuaCodeText(inner) + "}"
    case Expansion(inner) => "%{" + LuaCodeText(inner) + "}"
  }

  function LuaCodeText(ps: seq<LuaPiece>): string
    decreases ps
  {
    if ps == [] then "" else LuaPieceText(ps[0]) + LuaCodeText(ps[1..])
  }

  predicate PlainLua(c: char) {
    c !in {'\'', '"', '[', '-', '%', '{', '}'}
  }

  predicate LuaPieceOk(p: LuaPiece)
    decreases p
  {
    match p
    case Char(c) => PlainLua(c)
    case Two(c, d) => c in {'[', '-', '%'} && PlainLua(d) && d != '='
    case Quoted(q, body) => q in {'\'', '"'} && forall b <- body :: b.Is? ==> b.c != q && b.c != '\\'
    case Long(_, n, text) => forall k :: 0 <= k < |text| ==> !HasPrefixAt(text + LongCloser(n), k, LongCloser(n))
    case Block(inner) => LuaCodeOk(inner)
    case Expansion(inner) => LuaCodeOk(inner)
  }

  predicate LuaCodeOk(ps: seq<LuaPiece>)
    decreases ps
  {
    ps == [] || (LuaPieceOk(ps[0]) && LuaCodeOk(ps[1..]))
  }

  /** The lexical state of code. */
  const CODE := LuaText(NO_QUOTE, false, "")

  /** The text of some code, in front of something else. */
  predicate Stands(text: string, idx: nat, part: string) {
    idx + |part| <= |text| && text[idx..idx + |part|] == part
  }

  lemma StandsParts(text: string, idx: nat, a: string, b: string)
    requires Stands(text, idx, a + b)
    ensures Stands(text, idx, a) && Stands(text, idx + |a|, b)
  {
    assert text[idx..idx + |a|] == text[idx..idx + |a + b|][..|a|];
    assert text[idx + |a|..idx + |a| + |b|] == text[idx..idx + |a + b|][|a|..];
  }

  lemma StandsAt(text: string, idx: nat, part: string, k: nat)
    requires Stands(text, idx, part) && k < |part|
    ensures idx + k < |text| && text[idx + k] == part[k]
  {
    assert text[idx..idx + |part|][k] == part[k];
  }

  /** Well-nested Lua code, with its strings, long brackets and comments, leaves as many braces
      open as there were. */
  lemma {:induction false} CodeReads(text: string, idx: nat, ps: seq<LuaPiece>, open: nat)
    requires LuaCodeOk(ps) && Stands(text, idx, LuaCodeText(ps))
    ensures CombinedScan(text, idx, CODE, open) == CombinedScan(text, idx + |LuaCodeText(ps)|, CODE, open)
    decreases ps
  {
    hide CombinedScan, LuaPieceText, LuaPieceOk, Stands;
    if ps != [] {
      StandsParts(text, idx, LuaPieceText(ps[0]), LuaCodeText(ps[1..]));
      StandsFits(text, idx, LuaPieceText(ps[0]));
      PieceReads(text, idx, ps[0], open);
      CodeReads(text, idx + |LuaPieceText(ps[0])|, ps[1..], open);
    } else {
      StandsFits(text, idx, "");
    }
  }

  lemma StandsFits(text: string, idx: nat, part: string)
    requires Stands(text, idx, part)
    ensures idx + |part| <= |text|
  {
  }

  lemma {:induction false} PieceReads(text: string, idx: nat, p: LuaPiece, open: nat)
    requires LuaPieceOk(p) && Stands(text, idx, LuaPieceText(p))
    ensures idx + |LuaPieceText(p)| <= |text|
    ensures CombinedScan(text, idx, CODE, open) == CombinedScan(text, idx + |LuaPieceText(p)|, CODE, open)
    decreases p
  {
    hide CombinedScan, LuaItem, LuaCodeText, LuaCodeOk, Stands;
    StandsFits(text, idx, LuaPieceText(p));
    match p
    case Char(c) => PlainReads(text, idx, c, open);
    case Two(c, d) => TwoRead(text, idx, c, d, open);
    case Quoted(q, body) => QuotedReads(text, idx, q, body, open);
    case Long(comment, n, t) => LongReads(text, idx, comment, n, t, open);
    case Block(inner) =>
      assert LuaPieceText(p) == "{" + (LuaCodeText(inner) + "}");
      StandsParts(text, idx, "{", LuaCodeText(inner) + "}");
      StandsParts(text, idx + 1, LuaCodeText(inner), "}");
      OpensCode(text, idx, "{", open);
      CodeReads(text, idx + 1, inner, open + 1);
      ClosesCode(text, idx + 1 + |LuaCodeText(inner)|, open + 1);
    case Expansion(inner) =>
      assert LuaPieceText(p) == "%{" + (LuaCodeText(inner) + "}");
      StandsParts(text, idx, "%{", LuaCodeText(inner) + "}");
      StandsParts(text, idx + 2, LuaCodeText(inner), "}");
      OpensCode(text, idx, "%{", open);
      CodeReads(text, idx + 2, inner, open + 1);
      ClosesCode(text, idx + 2 + |LuaCodeText(inner)|, open + 1);
  }

  lemma PlainReads(text: string, idx: nat, c: char, open: nat)
    requires PlainLua(c) && Stands(text, idx, [c])
    ensures idx < |text| && CombinedScan(text, idx, CODE, open) == CombinedScan(text, idx + 1, CODE, open)
  {
    hide Stands, RunEnd;
    StandsAt(text, idx, [c], 0);
  }

  lemma TwoRead(text: string, idx: nat, c: char, d: char, open: nat)
    requires c in {'[', '-', '%'} && PlainLua(d) && d != '=' && Stands(text, idx, [c, d])
    ensures idx + 2 <= |text| && CombinedScan(text, idx, CODE, open) == CombinedScan(text, idx + 2, CODE, open)
  {
    hide Stands;
    StandsAt(text, idx, [c, d], 0);
    StandsAt(text, idx, [c, d], 1);
    assert LuaItem(text, idx, CODE) == (idx + 1, CODE, Neither);
    assert LuaItem(text, idx + 1, CODE) == (idx + 2, CODE, Neither);
  }

  lemma OpensCode(text: string, idx: nat, opener: string, open: nat)
    requires (opener == "{" || opener == "%{") && Stands(text, idx, opener)
    ensures idx + |opener| <= |text|
    ensures CombinedScan(text, idx, CODE, open) == CombinedScan(text, idx + |opener|, CODE, open + 1)
  {
    hide Stands, RunEnd;
    StandsAt(text, idx, opener, 0);
    StandsAt(text, idx, opener, |opener| - 1);
    assert LuaItem(text, idx, CODE) == (idx + |opener|, CODE, Opens);
  }

  lemma ClosesCode(text: string, idx: nat, open: nat)
    requires Stands(text, idx, "}")
    ensures idx < |text|
    ensures CombinedScan(text, idx, CODE, open)
         == if open == 0 then (idx + 1, CODE, 0, true) else CombinedScan(text, idx + 1, CODE, open - 1)
  {
    hide Stands, RunEnd;
    StandsAt(text, idx, "}", 0);
    assert LuaItem(text, idx, CODE) == (idx + 1, CODE, Closes);
  }

  lemma QuotedReads(text: string, idx: nat, q: char, body: seq<QuotedChar>, open: nat)
    requires q in {'\'', '"'} && forall b <- body :: b.Is? ==> b.c != q && b.c != '\\'
    requires Stands(text, idx, [q] + QuotedText(body) + [q])
    ensures idx + |QuotedText(body)| + 2 <= |text|
    ensures CombinedScan(text, idx, CODE, open) == CombinedScan(text, idx + |QuotedText(body)| + 2, CODE, open)
  {
    hide Stands, QuotedText, CombinedScan;
    StandsFits(text, idx, [q] + QuotedText(body) + [q]);
    assert [q] + QuotedText(body) + [q] == [q] + (QuotedText(body) + [q]);
    StandsParts(text, idx, [q], QuotedText(body) + [q]);
    StandsAt(text, idx, [q], 0);
    QuoteOpens(text, idx, open);
    InQuotes(text, idx + 1, q, body, open);
  }

  lemma QuoteOpens(text: string, idx: nat, open: nat)
    requires idx < |text| && text[idx] in {'\'', '"'}
    ensures CombinedScan(text, idx, CODE, open) == CombinedScan(text, idx + 1, LuaText(text[idx], false, ""), open)
  {
    hide RunEnd;
    assert LuaItem(text, idx, CODE) == (idx + 1, LuaText(text[idx], false, ""), Neither);
  }

  /** One character of a quoted string. */
  lemma QuoteStep(text: string, idx: nat, q: char, escaped: bool, open: nat)
    requires idx < |text| && q in {'\'', '"'}
    ensures CombinedScan(text, idx, LuaText(q, escaped, ""), open)
         == if escaped then CombinedScan(text, idx + 1, LuaText(q, false, ""), open)
            else if text[idx] == '\\' then CombinedScan(text, idx + 1, LuaText(q, true, ""), open)
            else if text[idx] == q then CombinedScan(text, idx + 1, CODE, open)
            else CombinedScan(text, idx + 1, LuaText(q, false, ""), open)
  {
    hide LongDelimiter;
  }

  lemma {:induction false} InQuotes(text: string, idx: nat, q: char, body: seq<QuotedChar>, open: nat)
    requires q in {'\'', '"'} && forall b <- body :: b.Is? ==> b.c != q && b.c != '\\'
    requires Stands(text, idx, QuotedText(body) + [q])
    ensures idx + |QuotedText(body)| + 1 <= |text|
    ensures CombinedScan(text, idx, LuaText(q, false, ""), open)
         == CombinedScan(text, idx + |QuotedText(body)| + 1, CODE, open)
    decreases |body|
  {
    hide Stands, CombinedScan;
    StandsFits(text, idx, QuotedText(body) + [q]);
    QuoteStep(text, idx, q, false, open);
    if body == [] {
      assert QuotedText(body) + [q] == [q];
      StandsAt(text, idx, [q], 0);
    } else {
      var b := body[0];
      assert b in body && forall x <- body[1..] :: x in body;
      var first := if b.Is? then [b.c] else ['\\', b.c];
      assert QuotedText(body) + [q] == first + (QuotedText(body[1..]) + [q]);
      StandsParts(text, idx, first, QuotedText(body[1..]) + [q]);
      StandsAt(text, idx, first, 0);
      StandsFits(text, idx, first);
      if b.Behind? {
        QuoteStep(text, idx + 1, q, true, open);
      }
      InQuotes(text, idx + |first|, q, body[1..], open);
    }
  }

  lemma LongReads(text: string, idx: nat, comment: bool, n: nat, t: string, open: nat)
    requires forall k :: 0 <= k < |t| ==> !HasPrefixAt(t + LongCloser(n), k, LongCloser(n))
    requires Stands(text, idx, (if comment then "--" else "") + LongOpener(n) + t + LongCloser(n))
    ensures var end := idx + |(if comment then "--" else "") + LongOpener(n) + t + LongCloser(n)|;
            end <= |text| && CombinedScan(text, idx, CODE, open) == CombinedScan(text, end, CODE, open)
  {
    hide Stands, LongOpener, LongCloser, CombinedScan;
    var dashes := if comment then "--" else "";
    var rest := t + LongCloser(n);
    StandsFits(text, idx, dashes + LongOpener(n) + t + LongCloser(n));
    assert dashes + LongOpener(n) + t + LongCloser(n) == (dashes + LongOpener(n)) + rest;
    StandsParts(text, idx, dashes + LongOpener(n), rest);
    LongOpens(text, idx, comment, n, open);
    InLong(text, idx + |dashes + LongOpener(n)|, n, t, open);
  }

  lemma LongOpens(text: string, idx: nat, comment: bool, n: nat, open: nat)
    requires Stands(text, idx, (if comment then "--" else "") + LongOpener(n))
    ensures var next := idx + |(if comment then "--" else "") + LongOpener(n)|;
            && next <= |text|
            && CombinedScan(text, idx, CODE, open)
               == CombinedScan(text, next, LuaText(NO_QUOTE, false, LongCloser(n)), open)
  {
    hide Stands, RunEnd, LongOpener, LongDelimiter;
    var dashes := if comment then "--" else "";
    var opener := dashes + LongOpener(n);
    StandsFits(text, idx, opener);
    StandsParts(text, idx, dashes, LongOpener(n));
    DelimiterStands(text, idx + |dashes|, n);
    if comment {
      StandsAt(text, idx, dashes, 0);
      StandsAt(text, idx, dashes, 1);
    }
    assert LuaItem(text, idx, CODE) == (idx + |opener|, LuaText(NO_QUOTE, false, LongCloser(n)), Neither);
  }

  lemma DelimiterStands(text: string, idx: nat, n: nat)
    requires Stands(text, idx, LongOpener(n))
    ensures |LongOpener(n)| == n + 2 && idx + n + 2 <= |text| && text[idx] == '['
    ensures LongDelimiter(text, idx) == Some(Times(n, '='))
  {
    hide Stands, RunEnd;
    var opener := LongOpener(n);
    StandsFits(text, idx, opener);
    forall k | 0 <= k < |opener| ensures text[idx + k] == opener[k] {
      StandsAt(text, idx, opener, k);
    }
    assert text[idx + 0] == opener[0] == '[' && text[idx + (n + 1)] == opener[n + 1] == '[';
    forall k | idx + 1 <= k < idx + 1 + n ensures text[k] == '=' {
      assert text[idx + (k - idx)] == opener[k - idx];
    }
    RunIsTimes(text, idx + 1, n, '=');
    assert text[idx + 1..idx + 1 + n] == Times(n, '=');
  }

  /** The run that starts at idx ends where something else stands. */
  lemma RunIsTimes(text: string, idx: nat, n: nat, c: char)
    requires idx + n <= |text| && (forall k :: idx <= k < idx + n ==> text[k] == c)
    requires idx + n < |text| ==> text[idx + n] != c
    ensures RunEnd(text, idx, c) == idx + n
  {
    hide RunEnd;
  }

  lemma {:induction false} InLong(text: string, idx: nat, n: nat, t: string, open: nat)
    requires forall k :: 0 <= k < |t| ==> !HasPrefixAt(t + LongCloser(n), k, LongCloser(n))
    requires Stands(text, idx, t + LongCloser(n))
    ensures idx + |t| + |LongCloser(n)| <= |text|
    ensures CombinedScan(text, idx, LuaText(NO_QUOTE, false, LongCloser(n)), open)
         == CombinedScan(text, idx + |t| + |LongCloser(n)|, CODE, open)
    decreases |t|
  {
    hide LongCloser, CombinedScan, HasPrefixAt, Stands;
    var closer := LongCloser(n);
    CloserSize(n);
    StandsFits(text, idx, t + closer);
    LongStep(text, idx, closer, open);
    if t == "" {
      assert t + closer == closer;
      StandsIsPrefix(text, idx, closer);
    } else {
      var rest := t[1..];
      assert t + closer == [t[0]] + (rest + closer);
      assert !HasPrefixAt(t + closer, 0, closer);
      PrefixSame(text, idx, t + closer, closer);
      StandsParts(text, idx, [t[0]], rest + closer);
      forall k | 0 <= k < |rest| ensures !HasPrefixAt(rest + closer, k, closer) {
        assert !HasPrefixAt(t + closer, k + 1, closer);
        PrefixMoved(t[0], rest + closer, k, closer);
      }
      InLong(text, idx + 1, n, rest, open);
    }
  }

  lemma LongStep(text: string, idx: nat, closer: string, open: nat)
    requires idx < |text| && closer != ""
    ensures CombinedScan(text, idx, LuaText(NO_QUOTE, false, closer), open)
         == if HasPrefixAt(text, idx, closer) then CombinedScan(text, idx + |closer|, CODE, open)
            else CombinedScan(text, idx + 1, LuaText(NO_QUOTE, false, closer), open)
  {
    hide HasPrefixAt, LongDelimiter;
  }

  lemma StandsIsPrefix(text: string, idx: nat, part: string)
    requires Stands(text, idx, part)
    ensures HasPrefixAt(text, idx, part)
  {
  }

  lemma PrefixMoved(c: char, text: string, k: nat, part: string)
    requires !HasPrefixAt([c] + text, k + 1, part)
    ensures !HasPrefixAt(text, k, part)
  {
    if k + |part| <= |text| {
      assert ([c] + text)[k + 1..k + 1 + |part|] == text[k..k + |part|];
    }
  }

  lemma CloserSize(n: nat)
    ensures |LongCloser(n)| == n + 2
  {
  }

  lemma PrefixSame(text: string, idx: nat, part: string, closer: string)
    requires Stands(text, idx, part) && |closer| <= |part| && !HasPrefixAt(part, 0, closer)
    ensures !HasPrefixAt(text, idx, closer)
  {
    assert text[idx..idx + |closer|] == text[idx..idx + |part|][..|closer|] == part[..|closer|];
  }

  /** A line comment runs to the end of the line, whatever it holds. */
  lemma CommentHides(text: string, idx: nat, open: nat)
    requires Stands(text, idx, "--") && LongDelimiter(text, idx + 2).None?
    ensures CombinedScan(text, idx, CODE, open) == (|text|, CODE, open, false)
  {
    StandsAt(text, idx, "--", 0);
    StandsAt(text, idx, "--", 1);
    assert LuaItem(text, idx, CODE) == (|text|, CODE, Neither);
  }

  /** A Lua expansion ends at the first brace behind its code. */
  lemma CodeCloses(ps: seq<LuaPiece>, rest: string)
    requires LuaCodeOk(ps)
    ensures var text := LuaCodeText(ps) + "}" + rest;
            var r := LuaScan(text, 0, START_LUA);
            r.0 == |LuaCodeText(ps)| + 1 && r.2
  {
    hide LuaScan, CombinedScan, LuaCodeText, Stands;
    var text := LuaCodeText(ps) + "}" + rest;
    InFront(LuaCodeText(ps), "}", rest);
    StandsParts(text, 0, LuaCodeText(ps), "}");
    CodeReads(text, 0, ps, 0);
    ClosesCode(text, |LuaCodeText(ps)|, 0);
    LuaScanIsCombinedScan(text, 0, START_LUA);
  }

  lemma InFront(a: string, b: string, rest: string)
    ensures Stands(a + b + rest, 0, a + b)
  {
    assert (a + b + rest)[0..|a + b|] == a + b;
  }

  // ---------------------------------------------------------------- macro text

  /** Macro text with matching braces. `Signs` are percent signs in front of something else than
      a brace; `Live` and `LuaCode` are expansions behind an odd number of signs, `Escaped` is
      text in braces behind an even number inside an expansion, and `Mute` such a brace outside;
      `Stray` is a brace that is not counted. */
  datatype Piece =
    | Plain(c: char)
    | Signs(n: nat, c: char)
    | Dollar(c: char)
    | Live(n: nat, inner: seq<Piece>)
    | LuaCode(n: nat, code: seq<LuaPiece>)
    | Escaped(n: nat, body: string)
    | Shell(inner: seq<Piece>)
    | Group(inner: seq<Piece>)
    | Mute(n: nat)
    | Stray(c: char)

  /** Where a piece stands: in no construct at all, in shell braces only, or in an expansion. */
  datatype Place = Outermost | InShell | InLive

  function PieceText(p: Piece): string
    decreases p
  {
    match p
    case Plain(c) => [c]
    case Signs(n, c) => Times(n, '%') + [c]
    case Dollar(c) => ['$', c]
    case Live(n, inner) => Times(n, '%') + "{" + MacroText(inner) + "}"
    case LuaCode(n, code) => Times(n, '%') + "{lua:" + LuaCodeText(code) + "}"
    case Escaped(n, body) => Times(n, '%') + "{" + body + "}"
    case Shell(inner) => "${" + MacroText(inner) + "}"
    case Group(inner) => "{" + MacroText(inner) + "}"
    case Mute(n) => Times(n, '%') + "{"
    case Stray(c) => [c]
  }

  function MacroText(ps: seq<Piece>): string
    decreases ps
  {
    if ps == [] then "" else PieceText(ps[0]) + MacroText(ps[1..])
  }

  predicate PlainChar(c: char) {
    c !in {'%', '{', '}', '$'}
  }

  /** Braces in a text nest, from `open` of them on, and end with none. */
  predicate Nests(text: string, open: nat) {
    if text == "" then open == 0
    else if text[0] == '}' then open > 0 && Nests(text[1..], open - 1)
    else Nests(text[1..], if text[0] == '{' then open + 1 else open)
  }

  predicate PieceOk(p: Piece, place: Place)
    decreases p
  {
    match p
    case Plain(c) => PlainChar(c)
    case Signs(n, c) => n > 0 && PlainChar(c)
    case Dollar(c) => PlainChar(c)
    case Live(n, inner) => n % 2 == 1 && !("lua:" <= MacroText(inner) + "}") && MacroOk(inner, InLive)
    case LuaCode(n, code) => n % 2 == 1 && LuaCodeOk(code)
    case Escaped(n, body) => n > 0 && n % 2 == 0 && Nests(body, 0) && place == InLive
    case Shell(inner) => MacroOk(inner, if place == InLive then InLive else InShell)
    case Group(inner) => place == InLive && MacroOk(inner, InLive)
    case Mute(n) => n > 0 && n % 2 == 0 && place == Outermost
    case Stray(c) => (c == '{' || c == '}') && place == Outermost
  }

  predicate MacroOk(ps: seq<Piece>, place: Place)
    decreases ps
  {
    ps == [] || (PieceOk(ps[0], place) && MacroOk(ps[1..], place))
  }

  /** A state outside of Lua and of escaped braces. */
  predicate Calm(st: MacroState) {
    st.lua.None? && st.escapedBraces == 0 && st.depth >= 0 && st.shellBraces >= 0 && st.rawBraces >= 0
  }

  /** The constructs open; which of the counters a closing brace goes to does not matter. */
  function Total(st: MacroState): int {
    st.depth + st.shellBraces + st.rawBraces
  }

  predicate Fits(st: MacroState, place: Place) {
    && Calm(st)
    && (place == Outermost ==> Total(st) == 0)
    && (place == InLive ==> st.depth > 0)
  }

  /** The same constructs are open, and no fewer expansions among them. */
  predicate Kept(st: MacroState, st': MacroState) {
    Calm(st') && Total(st') == Total(st) && st'.depth >= st.depth
  }

  /** The text is not behind a percent sign. */
  predicate Fresh(line: string, idx: nat) {
    idx <= |line| && (idx > 0 ==> line[idx - 1] != '%')
  }

  /** Well-nested text leaves the constructs open that were open before it. */
  lemma {:induction false} TextReads(line: string, idx: nat, ps: seq<Piece>, place: Place, st: MacroState)
    returns (st': MacroState)
    requires MacroOk(ps, place) && Fits(st, place) && Stands(line, idx, MacroText(ps)) && Fresh(line, idx)
    ensures Kept(st, st') && Fresh(line, idx + |MacroText(ps)|)
    ensures MacroScan(line, idx, st) == MacroScan(line, idx + |MacroText(ps)|, st')
    decreases ps, 0
  {
    hide MacroScan, PieceText, PieceOk, Stands;
    if ps == [] {
      st' := st;
    } else {
      StandsParts(line, idx, PieceText(ps[0]), MacroText(ps[1..]));
      var mid := MacroPieceReads(line, idx, ps[0], place, st);
      st' := TextReads(line, idx + |PieceText(ps[0])|, ps[1..], place, mid);
    }
  }

  lemma {:induction false} MacroPieceReads(line: string, idx: nat, p: Piece, place: Place, st: MacroState)
    returns (st': MacroState)
    requires PieceOk(p, place) && Fits(st, place) && Stands(line, idx, PieceText(p)) && Fresh(line, idx)
    ensures Kept(st, st') && Fresh(line, idx + |PieceText(p)|)
    ensures MacroScan(line, idx, st) == MacroScan(line, idx + |PieceText(p)|, st')
    decreases p, 2
  {
    hide MacroScan, MacroText, MacroOk, Stands, Nests, LuaCodeText, LuaCodeOk, Kept, Fresh;
    match p
    case Plain(c) => st' := OnePieceReads(line, idx, c, st);
    case Stray(c) => st' := OnePieceReads(line, idx, c, st);
    case Dollar(c) => st' := DollarReads(line, idx, c, st);
    case Signs(n, c) => st' := SignsAndOne(line, idx, n, c, st);
    case Mute(n) => st' := MuteReads(line, idx, n, st);
    case Live(n, inner) => st' := LiveReads(line, idx, n, inner, st);
    case LuaCode(n, code) => st' := LuaExpansionReads(line, idx, n, code, st);
    case Escaped(n, body) => st' := EscapedPieceReads(line, idx, n, body, st);
    case Shell(inner) => st' := ShellPieceReads(line, idx, inner, place, st);
    case Group(inner) => st' := GroupPieceReads(line, idx, inner, st);
  }

  lemma OnePieceReads(line: string, idx: nat, c: char, st: MacroState) returns (st': MacroState)
    requires Stands(line, idx, [c]) && Calm(st) && c != '%' && c != '$' && (c in {'{', '}'} ==> Total(st) == 0)
    ensures Kept(st, st') && Fresh(line, idx + 1) && MacroScan(line, idx, st) == MacroScan(line, idx + 1, st')
  {
    hide MacroScan, Stands;
    st' := OneRead(line, idx, c, st);
  }

  lemma MuteReads(line: string, idx: nat, n: nat, st: MacroState) returns (st': MacroState)
    requires n > 0 && n % 2 == 0 && Calm(st) && st.depth == 0
    requires Stands(line, idx, Times(n, '%') + "{") && Fresh(line, idx)
    ensures Kept(st, st') && Fresh(line, idx + n + 1) && MacroScan(line, idx, st) == MacroScan(line, idx + n + 1, st')
  {
    hide MacroScan, Stands;
    OpenerReads(line, idx, n, st);
    st' := st;
  }

  lemma DollarReads(line: string, idx: nat, c: char, st: MacroState) returns (st': MacroState)
    requires PlainChar(c) && Calm(st) && Stands(line, idx, ['$', c])
    ensures Kept(st, st') && Fresh(line, idx + 2) && MacroScan(line, idx, st) == MacroScan(line, idx + 2, st')
  {
    hide MacroScan, Stands;
    assert ['$', c] == ['$'] + [c];
    StandsParts(line, idx, ['$'], [c]);
    StandsAt(line, idx + 1, [c], 0);
    var mid := OneRead(line, idx, '$', st);
    st' := OneRead(line, idx + 1, c, mid);
  }

  lemma SignsAndOne(line: string, idx: nat, n: nat, c: char, st: MacroState) returns (st': MacroState)
    requires n > 0 && PlainChar(c) && Calm(st) && Fresh(line, idx) && Stands(line, idx, Times(n, '%') + [c])
    ensures Kept(st, st') && Fresh(line, idx + n + 1) && MacroScan(line, idx, st) == MacroScan(line, idx + n + 1, st')
  {
    hide MacroScan, Stands;
    StandsParts(line, idx, Times(n, '%'), [c]);
    StandsAt(line, idx + n, [c], 0);
    SignsRead(line, idx, n, st);
    st' := OneRead(line, idx + n, c, st);
  }

  lemma {:induction false} LiveReads(line: string, idx: nat, n: nat, inner: seq<Piece>, st: MacroState)
    returns (st': MacroState)
    requires n % 2 == 1 && !("lua:" <= MacroText(inner) + "}") && MacroOk(inner, InLive) && Calm(st)
    requires Stands(line, idx, Times(n, '%') + "{" + MacroText(inner) + "}") && Fresh(line, idx)
    ensures var end := idx + n + 2 + |MacroText(inner)|;
            Kept(st, st') && Fresh(line, end) && MacroScan(line, idx, st) == MacroScan(line, end, st')
    decreases inner, 1
  {
    hide MacroScan, MacroText, MacroOk, Stands;
    var text := MacroText(inner);
    assert Times(n, '%') + "{" + text + "}" == (Times(n, '%') + "{") + (text + "}");
    StandsParts(line, idx, Times(n, '%') + "{", text + "}");
    StandsParts(line, idx + n + 1, text, "}");
    NotLua(line, idx + n + 1, text + "}");
    OpenerReads(line, idx, n, st);
    var mid := TextReads(line, idx + n + 1, inner, InLive, st.(depth := st.depth + 1));
    st' := CloserReads(line, idx + n + 1 + |text|, mid);
  }

  lemma LuaExpansionReads(line: string, idx: nat, n: nat, code: seq<LuaPiece>, st: MacroState) returns (st': MacroState)
    requires n % 2 == 1 && LuaCodeOk(code) && Calm(st)
    requires Stands(line, idx, Times(n, '%') + "{lua:" + LuaCodeText(code) + "}") && Fresh(line, idx)
    ensures var end := idx + n + 6 + |LuaCodeText(code)|;
            Kept(st, st') && Fresh(line, end) && MacroScan(line, idx, st) == MacroScan(line, end, st')
  {
    hide MacroScan, LuaCodeText, LuaCodeOk, Stands;
    var text := LuaCodeText(code);
    assert Times(n, '%') + "{lua:" + text + "}" == (Times(n, '%') + "{") + ("lua:" + (text + "}"));
    StandsParts(line, idx, Times(n, '%') + "{", "lua:" + (text + "}"));
    StandsParts(line, idx + n + 1, "lua:", text + "}");
    OpenerReads(line, idx, n, st);
    LuaReads(line, idx + n + 5, code, st);
    st' := st;
  }

  lemma EscapedPieceReads(line: string, idx: nat, n: nat, body: string, st: MacroState) returns (st': MacroState)
    requires n > 0 && n % 2 == 0 && Nests(body, 0) && Calm(st) && st.depth > 0
    requires Stands(line, idx, Times(n, '%') + "{" + body + "}") && Fresh(line, idx)
    ensures var end := idx + n + 2 + |body|;
            Kept(st, st') && Fresh(line, end) && MacroScan(line, idx, st) == MacroScan(line, end, st')
  {
    hide MacroScan, Stands, Nests;
    assert Times(n, '%') + "{" + body + "}" == (Times(n, '%') + "{") + (body + "}");
    StandsParts(line, idx, Times(n, '%') + "{", body + "}");
    OpenerReads(line, idx, n, st);
    EscapedReads(line, idx + n + 1, body, 0, st);
    StandsParts(line, idx + n + 1, body, "}");
    StandsAt(line, idx + n + 1 + |body|, "}", 0);
    st' := st;
  }

  lemma {:induction false} ShellPieceReads(line: string, idx: nat, inner: seq<Piece>, place: Place, st: MacroState)
    returns (st': MacroState)
    requires MacroOk(inner, if place == InLive then InLive else InShell) && Fits(st, place)
    requires Stands(line, idx, "${" + MacroText(inner) + "}")
    ensures var end := idx + 3 + |MacroText(inner)|;
            Kept(st, st') && Fresh(line, end) && MacroScan(line, idx, st) == MacroScan(line, end, st')
    decreases inner, 1
  {
    hide MacroScan, MacroText, MacroOk, Stands;
    var text := MacroText(inner);
    assert "${" + text + "}" == "${" + (text + "}");
    StandsParts(line, idx, "${", text + "}");
    StandsParts(line, idx + 2, text, "}");
    ShellReads(line, idx, st);
    var mid := TextReads(line, idx + 2, inner, if place == InLive then InLive else InShell,
                         st.(shellBraces := st.shellBraces + 1));
    st' := CloserReads(line, idx + 2 + |text|, mid);
  }

  lemma {:induction false} GroupPieceReads(line: string, idx: nat, inner: seq<Piece>, st: MacroState)
    returns (st': MacroState)
    requires MacroOk(inner, InLive) && Calm(st) && st.depth > 0 && Stands(line, idx, "{" + MacroText(inner) + "}")
    ensures var end := idx + 2 + |MacroText(inner)|;
            Kept(st, st') && Fresh(line, end) && MacroScan(line, idx, st) == MacroScan(line, end, st')
    decreases inner, 1
  {
    hide MacroScan, MacroText, MacroOk, Stands;
    var text := MacroText(inner);
    assert "{" + text + "}" == "{" + (text + "}");
    StandsParts(line, idx, "{", text + "}");
    StandsParts(line, idx + 1, text, "}");
    GroupReads(line, idx, st);
    var mid := TextReads(line, idx + 1, inner, InLive, st.(rawBraces := st.rawBraces + 1));
    st' := CloserReads(line, idx + 1 + |text|, mid);
  }

  /** A character that is neither a percent sign nor counted. */
  lemma OneRead(line: string, idx: nat, c: char, st: MacroState) returns (st': MacroState)
    requires Stands(line, idx, [c]) && Calm(st) && c != '%' && (c in {'{', '}'} ==> Total(st) == 0)
    requires c == '$' ==> idx + 1 < |line| && line[idx + 1] != '{'
    ensures st' == st && idx < |line| && line[idx] == c
    ensures MacroScan(line, idx, st) == MacroScan(line, idx + 1, st')
  {
    hide Stands;
    StandsAt(line, idx, [c], 0);
    st' := st;
  }

  lemma SignsStand(line: string, idx: nat, n: nat)
    requires Stands(line, idx, Times(n, '%')) && (idx + n < |line| ==> line[idx + n] != '%')
    ensures idx + n <= |line| && (n > 0 ==> line[idx] == '%' && line[idx + n - 1] == '%')
            && RunEnd(line, idx, '%') == idx + n
  {
    hide RunEnd;
    forall k | idx <= k < idx + n ensures line[k] == '%' {
      StandsAt(line, idx, Times(n, '%'), k - idx);
    }
    RunIsTimes(line, idx, n, '%');
  }

  lemma SignsRead(line: string, idx: nat, n: nat, st: MacroState)
    requires n > 0 && Stands(line, idx, Times(n, '%')) && Fresh(line, idx) && Calm(st)
    requires idx + n < |line| ==> line[idx + n] !in {'%', '{'}
    ensures idx + n <= |line| && MacroScan(line, idx, st) == MacroScan(line, idx + n, st)
  {
    hide Stands, RunEnd;
    SignsStand(line, idx, n);
  }

  /** What n percent signs and a brace do: an odd number opens an expansion, an even one nothing
      outside of expansions and an escaped brace inside. */
  lemma OpenerReads(line: string, idx: nat, n: nat, st: MacroState)
    requires n > 0 && Stands(line, idx, Times(n, '%') + "{") && Fresh(line, idx) && Calm(st)
    ensures idx + n + 1 <= |line| && line[idx + n] == '{'
    ensures MacroScan(line, idx, st)
         == if n % 2 == 1 then
              if Stands(line, idx + n + 1, "lua:") then
                MacroScan(line, idx + n + 5, st.(depth := st.depth + 1, lua := Some(START_LUA)))
              else MacroScan(line, idx + n + 1, st.(depth := st.depth + 1))
            else MacroScan(line, idx + n + 1, if st.depth > 0 then st.(escapedBraces := 1) else st)
  {
    hide RunEnd, MacroScan;
    StandsFits(line, idx, Times(n, '%') + "{");
    StandsParts(line, idx, Times(n, '%'), "{");
    StandsAt(line, idx + n, "{", 0);
    SignsStand(line, idx, n);
    LuaOpener(line, idx + n - 1);
    ScanStep(line, idx, st);
  }

  lemma LuaOpener(line: string, idx: nat)
    requires idx + 2 <= |line| && line[idx] == '%' && line[idx + 1] == '{'
    ensures HasPrefixAt(line, idx, "%{lua:") <==> Stands(line, idx + 2, "lua:")
  {
    if Stands(line, idx + 2, "lua:") {
      assert line[idx..idx + 6] == line[idx..idx + 2] + line[idx + 2..idx + 6];
    }
    if HasPrefixAt(line, idx, "%{lua:") {
      assert line[idx + 2..idx + 6] == line[idx..idx + 6][2..];
    }
  }

  lemma ScanStep(line: string, idx: nat, st: MacroState)
    requires idx < |line|
    ensures MacroScan(line, idx, st) == MacroScan(line, MacroStep(line, idx, st).1, MacroStep(line, idx, st).0)
  {
    hide MacroStep;
  }

  lemma NotLua(line: string, idx: nat, part: string)
    requires Stands(line, idx, part) && !("lua:" <= part) && part != "" && part[|part| - 1] == '}'
    ensures !Stands(line, idx, "lua:")
  {
    if |part| >= 4 {
      assert line[idx..idx + 4] == line[idx..idx + |part|][..4] == part[..4];
    } else {
      assert line[idx + |part| - 1] == line[idx..idx + |part|][|part| - 1] == '}';
    }
  }

  /** A closing brace goes to a shell brace first, then to a raw one, and last to an expansion. */
  lemma CloserGoesTo(st: MacroState)
    requires Calm(st) && Total(st) > 0
    ensures MacroScan("}", 0, st)
         == if st.shellBraces > 0 then st.(shellBraces := st.shellBraces - 1)
            else if st.rawBraces > 0 then st.(rawBraces := st.rawBraces - 1) else st.(depth := st.depth - 1)
  {
    hide MacroScan;
    ScanStep("}", 0, st);
    EndOfLine("}", MacroStep("}", 0, st).0);
  }

  lemma CloserReads(line: string, idx: nat, st: MacroState) returns (st': MacroState)
    requires Stands(line, idx, "}") && Calm(st) && Total(st) > 0
    ensures idx < |line| && line[idx] == '}' && MacroScan(line, idx, st) == MacroScan(line, idx + 1, st')
    ensures Calm(st') && Total(st') == Total(st) - 1
    ensures st'.depth == if st.shellBraces + st.rawBraces > 0 then st.depth else st.depth - 1
  {
    hide Stands;
    StandsAt(line, idx, "}", 0);
    st' := MacroStep(line, idx, st).0;
  }

  lemma ShellReads(line: string, idx: nat, st: MacroState)
    requires Stands(line, idx, "${") && Calm(st)
    ensures idx + 2 <= |line| && line[idx + 1] == '{'
    ensures MacroScan(line, idx, st) == MacroScan(line, idx + 2, st.(shellBraces := st.shellBraces + 1))
  {
    hide Stands;
    StandsAt(line, idx, "${", 0);
    StandsAt(line, idx, "${", 1);
  }

  lemma GroupReads(line: string, idx: nat, st: MacroState)
    requires Stands(line, idx, "{") && Calm(st) && st.depth > 0
    ensures idx < |line| && line[idx] == '{'
    ensures MacroScan(line, idx, st) == MacroScan(line, idx + 1, st.(rawBraces := st.rawBraces + 1))
  {
    hide Stands;
    StandsAt(line, idx, "{", 0);
  }

  lemma EscapedStep(line: string, idx: nat, open: nat, st: MacroState)
    requires idx < |line| && Calm(st)
    ensures var more := if line[idx] == '{' then 1 else if line[idx] == '}' then -1 else 0;
            MacroScan(line, idx, st.(escapedBraces := open + 1))
            == MacroScan(line, idx + 1, st.(escapedBraces := open + 1 + more))
  {
    hide MacroScan;
    ScanStep(line, idx, st.(escapedBraces := open + 1));
  }

  /** Escaped text ends where its own braces do. */
  lemma {:induction false} EscapedReads(line: string, idx: nat, body: string, open: nat, st: MacroState)
    requires Nests(body, open) && Stands(line, idx, body + "}") && Calm(st)
    ensures idx + |body| < |line|
    ensures MacroScan(line, idx, st.(escapedBraces := open + 1)) == MacroScan(line, idx + |body| + 1, st)
    decreases |body|
  {
    hide Stands, MacroScan;
    StandsFits(line, idx, body + "}");
    EscapedStep(line, idx, open, st);
    if body == "" {
      assert body + "}" == "}";
      StandsAt(line, idx, "}", 0);
      assert st.(escapedBraces := 0) == st;
    } else {
      assert body + "}" == [body[0]] + (body[1..] + "}");
      StandsParts(line, idx, [body[0]], body[1..] + "}");
      StandsAt(line, idx, [body[0]], 0);
      var next := if body[0] == '}' then open - 1 else if body[0] == '{' then open + 1 else open;
      EscapedReads(line, idx + 1, body[1..], next, st);
    }
  }

  /** A Lua expansion on one line is closed by the brace behind its code. */
  lemma LuaReads(line: string, idx: nat, code: seq<LuaPiece>, st: MacroState)
    requires LuaCodeOk(code) && Stands(line, idx, LuaCodeText(code) + "}") && Calm(st)
    ensures idx + |LuaCodeText(code)| < |line| && line[idx + |LuaCodeText(code)|] == '}'
    ensures MacroScan(line, idx, st.(depth := st.depth + 1, lua := Some(START_LUA)))
         == MacroScan(line, idx + |LuaCodeText(code)| + 1, st)
  {
    hide MacroScan, LuaScan, LuaCodeText, LuaCodeOk;
    var part := LuaCodeText(code) + "}";
    StandsFits(line, idx, part);
    StandsAt(line, idx, part, |LuaCodeText(code)|);
    assert line[idx..] == line[idx..idx + |part|] + line[idx + |part|..];
    CodeCloses(code, line[idx + |part|..]);
    ScanStep(line, idx, st.(depth := st.depth + 1, lua := Some(START_LUA)));
  }

  /** Well-nested text, on its own, leaves nothing open. */
  lemma NestedTextCloses(ps: seq<Piece>)
    requires MacroOk(ps, Outermost)
    ensures MacroScan(MacroText(ps), 0, START) == START
  {
    hide MacroText, MacroOk, MacroScan;
    var text := MacroText(ps);
    assert text[0..|text|] == text;
    var st := TextReads(text, 0, ps, Outermost, START);
    EndOfLine(text, st);
  }

  lemma EndOfLine(line: string, st: MacroState)
    requires st.lua.None?
    ensures MacroScan(line, |line|, st) == st
  {
  }

  /** An expansion whose text is well nested but that is not closed leaves the body open. */
  lemma OpenTextContinues(ps: seq<Piece>, n: nat, inner: seq<Piece>)
    requires MacroOk(ps, Outermost) && n % 2 == 1 && MacroOk(inner, InLive) && !("lua:" <= MacroText(inner))
    ensures MacroScan(MacroText(ps) + Times(n, '%') + "{" + MacroText(inner), 0, START) == START.(depth := 1)
  {
    hide MacroText, MacroOk, MacroScan, Stands;
    var before, rest := MacroText(ps), Times(n, '%') + "{" + MacroText(inner);
    assert MacroText(ps) + Times(n, '%') + "{" + MacroText(inner) == before + rest;
    Whole(before, rest);
    StandsParts(before + rest, 0, before, rest);
    TextKeepsStart(before + rest, ps);
    OpenTextReads(before + rest, |before|, n, inner);
  }

  lemma TextKeepsStart(line: string, ps: seq<Piece>)
    requires MacroOk(ps, Outermost) && Stands(line, 0, MacroText(ps))
    ensures Fresh(line, |MacroText(ps)|) && MacroScan(line, 0, START) == MacroScan(line, |MacroText(ps)|, START)
  {
    hide MacroText, MacroOk, MacroScan, Stands;
    var st := TextReads(line, 0, ps, Outermost, START);
    assert st == START;
  }

  lemma OpenTextReads(line: string, idx: nat, n: nat, inner: seq<Piece>)
    requires n % 2 == 1 && MacroOk(inner, InLive) && !("lua:" <= MacroText(inner)) && Fresh(line, idx)
    requires Stands(line, idx, Times(n, '%') + "{" + MacroText(inner)) && idx + n + 1 + |MacroText(inner)| == |line|
    ensures MacroScan(line, idx, START) == START.(depth := 1)
  {
    hide MacroText, MacroOk, MacroScan, Stands;
    var opener, after := Times(n, '%') + "{", MacroText(inner);
    StandsParts(line, idx, opener, after);
    NotLuaAtEnd(line, idx + n + 1, after);
    OpenerReads(line, idx, n, START);
    var st' := TextReads(line, idx + n + 1, inner, InLive, START.(depth := 1));
    EndOfLine(line, st');
  }

  lemma Whole(a: string, b: string)
    ensures Stands(a + b, 0, a + b)
  {
    assert (a + b)[0..|a + b|] == a + b;
  }

  lemma NotLuaAtEnd(line: string, idx: nat, part: string)
    requires Stands(line, idx, part) && !("lua:" <= part) && idx + |part| == |line|
    ensures !Stands(line, idx, "lua:")
  {
  }
}
