/** Which lines the definition of a macro hides, read off the text. */
module MacroBodies {
  import opened Wrappers
  import opened Lines
  import opened MacroLexer
  import opened MacroText
  import opened Scanning
  import opened Tree
  import opened Parser
  import opened NormalForm

  predicate BraceFree(s: string) {
    forall c <- s :: c != '{' && c != '}'
  }

  /** Text without braces opens and closes nothing. */
  lemma {:induction false} BraceFreeReads(line: string, idx: nat, end: nat, st: MacroState)
    requires idx <= end <= |line| && BraceFree(line[idx..end]) && st.lua.None?
    requires idx < end < |line| ==> line[end] != '{' && line[end - 1] != '%'
    ensures MacroScan(line, idx, st) == MacroScan(line, end, st)
    decreases end - idx
  {
    hide RunEnd;
    if idx < end {
      var (st', next) := MacroStep(line, idx, st);
      StepsWithin(line, idx, end, st);
      forall c | c in line[next..end] ensures c in line[idx..end] {
        var k :| next <= k < end && line[k] == c;
        assert line[idx..end][k - idx] == c;
      }
      BraceFreeReads(line, next, end, st);
    }
  }

  lemma StepsWithin(line: string, idx: nat, end: nat, st: MacroState)
    requires idx < end <= |line| && BraceFree(line[idx..end]) && st.lua.None?
    requires end < |line| ==> line[end] != '{' && line[end - 1] != '%'
    ensures MacroStep(line, idx, st).0 == st && MacroStep(line, idx, st).1 <= end
  {
    hide RunEnd;
    forall k | idx <= k < end ensures line[k] != '{' && line[k] != '}' {
      assert line[idx..end][k - idx] == line[k] && line[k] in line[idx..end];
    }
  }

  lemma BraceFreeLine(line: string, st: MacroState)
    requires BraceFree(line) && st.lua.None?
    ensures MacroScan(line, 0, st) == st
  {
    assert line[0..|line|] == line;
    BraceFreeReads(line, 0, |line|, st);
    EndOfLine(line, st);
  }

  // ---------------------------------------------------------------- openers

  /** A line whose only brace is one behind n percent signs. */
  predicate HasOpener(line: string, n: nat, front: string, back: string) {
    && n > 0 && line == front + Times(n, '%') + "{" + back && BraceFree(front) && BraceFree(back)
    && (front != "" ==> front[|front| - 1] != '%') && !("lua:" <= back)
  }

  /** An odd number of percent signs before the brace opens an expansion, an even one does not. */
  lemma SignsDecide(line: string, n: nat, front: string, back: string)
    requires HasOpener(line, n, front, back)
    ensures MacroScan(line, 0, START) == if n % 2 == 1 then START.(depth := 1) else START
  {
    hide MacroScan, Stands, BraceFree;
    var opener := Times(n, '%') + "{";
    assert line == front + (opener + back) == (front + opener) + back;
    assert line[0..|front|] == front && line[|front| + n + 1..|line|] == back;
    assert line[|front|] == '%';
    BraceFreeReads(line, 0, |front|, START);
    StandsBetween(front, opener, back);
    NotLuaThere(line, |front| + n + 1, back);
    OpenerReads(line, |front|, n, START);
    var st := if n % 2 == 1 then START.(depth := 1) else START;
    BraceFreeReads(line, |front| + n + 1, |line|, st);
    EndOfLine(line, st);
  }

  lemma StandsBetween(front: string, part: string, back: string)
    ensures Stands(front + part + back, |front|, part)
  {
    assert (front + part + back)[|front|..|front| + |part|] == part;
  }

  lemma NotLuaThere(line: string, idx: nat, back: string)
    requires idx + |back| == |line| && line[idx..] == back && !("lua:" <= back)
    ensures !Stands(line, idx, "lua:")
  {
    if |back| >= 4 {
      assert line[idx..idx + 4] == back[..4];
    }
  }

  /** A line whose only brace closes an expansion, and that does not end in a backslash. */
  predicate HasCloser(line: string, front: string, back: string) {
    && line == front + "}" + back && BraceFree(front) && BraceFree(back)
    && line[|line| - 1] != '\\' && (front != "" ==> front[|front| - 1] != '%')
  }

  lemma CloserEnds(line: string, front: string, back: string)
    requires HasCloser(line, front, back)
    ensures MacroScan(line, 0, START.(depth := 1)) == START
  {
    hide MacroScan, Stands, BraceFree;
    var open := START.(depth := 1);
    assert line[0..|front|] == front && line[|front| + 1..|line|] == back && line[|front|] == '}';
    BraceFreeReads(line, 0, |front|, open);
    StandsBetween(front, "}", back);
    var st := CloserReads(line, |front|, open);
    BraceFreeReads(line, |front| + 1, |line|, START);
    EndOfLine(line, START);
  }

  // ---------------------------------------------------------------- hidden lines

  /** The mask of a line, and what it makes of the next one. */
  lemma MaskNext(raw: seq<string>, k: nat)
    requires k < |raw|
    ensures Masked(raw)[k].inBody == ModeEnd(Label(raw)[..k], Outside).Inside?
    ensures ModeEnd(Label(raw)[..k + 1], Outside) == ModeAfter(Label(raw)[k], ModeEnd(Label(raw)[..k], Outside))
  {
    hide ModeAfter, ModeEnd, Mask, Label, Classify;
    var ls := Label(raw);
    MaskSuffix(ls, Outside, k);
    assert ls[..k + 1] == ls[..k] + [ls[k]];
    ModeEndConcat(ls[..k], [ls[k]], Outside);
    ModeEndOne(ls[k], ModeEnd(ls[..k], Outside));
  }

  lemma ModeEndOne(l: Line, m: Mode)
    ensures ModeEnd([l], m) == ModeAfter(l, m)
  {
    assert [l][1..] == [];
  }

  /** A definition outside of every body: its first line decides whether the next is hidden. */
  lemma DefinitionContinues(raw: seq<string>, i: nat)
    requires i < |raw| && !Masked(raw)[i].inBody && MacroDefLine(raw[i]).Some?
    ensures var (st, continues) := BodyAfter(raw[i], START);
            ModeEnd(Label(raw)[..i + 1], Outside) == if continues then Inside(st) else Outside
  {
    hide ModeEnd, Mask, BodyAfter, Classify, MacroDefLine;
    MaskNext(raw, i);
    ClassifyAgrees(raw[i]);
  }

  /** The lines from a definition that opens an expansion up to the line that closes it: all but
      the first are hidden, and the line behind them is not. */
  lemma ExpansionHides(raw: seq<string>, i: nat, j: nat, n: nat, opener: (string, string), closer: (string, string))
    requires i < j < |raw| && !Masked(raw)[i].inBody && MacroDefLine(raw[i]).Some?
    requires HasOpener(raw[i], n, opener.0, opener.1) && n % 2 == 1
    requires forall k :: i < k < j ==> BraceFree(raw[k])
    requires HasCloser(raw[j], closer.0, closer.1)
    ensures forall k :: i < k <= j ==> Masked(raw)[k].inBody
    ensures ModeEnd(Label(raw)[..j + 1], Outside) == Outside && (j + 1 < |raw| ==> !Masked(raw)[j + 1].inBody)
  {
    hide ModeEnd, Mask, MacroScan, MacroDefLine, Label, Classify, BraceFree, HasOpener, HasCloser;
    SignsDecide(raw[i], n, opener.0, opener.1);
    DefinitionContinues(raw, i);
    StaysOpen(raw, i, j);
    CloserEnds(raw[j], closer.0, closer.1);
    CloserLast(raw[j], closer.0, closer.1);
    MaskNext(raw, j);
    forall k | i < k <= j ensures Masked(raw)[k].inBody {
      StaysOpen(raw, i, k);
      MaskNext(raw, k);
    }
    if j + 1 < |raw| {
      MaskNext(raw, j + 1);
    }
  }

  lemma CloserLast(line: string, front: string, back: string)
    requires HasCloser(line, front, back)
    ensures line != "" && line[|line| - 1] != '\\'
  {
  }

  lemma {:induction false} StaysOpen(raw: seq<string>, i: nat, j: nat)
    requires i < j < |raw| && forall k :: i < k < j ==> BraceFree(raw[k])
    requires ModeEnd(Label(raw)[..i + 1], Outside) == Inside(START.(depth := 1))
    ensures ModeEnd(Label(raw)[..j], Outside) == Inside(START.(depth := 1))
  {
    hide ModeEnd, Mask, MacroScan, BraceFree, Label, Classify;
    if j > i + 1 {
      StaysOpen(raw, i, j - 1);
      BraceFreeLine(raw[j - 1], START.(depth := 1));
      MaskNext(raw, j - 1);
    }
  }

  /** A definition that opens no expansion hides the next line exactly when it ends in a
      backslash: without any brace, or with one behind an even number of percent signs. */
  lemma ClosedDefinition(raw: seq<string>, i: nat, n: nat, front: string, back: string)
    requires i + 1 < |raw| && !Masked(raw)[i].inBody && MacroDefLine(raw[i]).Some?
    requires BraceFree(raw[i]) || (HasOpener(raw[i], n, front, back) && n % 2 == 0)
    ensures Masked(raw)[i + 1].inBody <==> raw[i] != "" && raw[i][|raw[i]| - 1] == '\\'
  {
    hide ModeEnd, Mask, MacroScan, MacroDefLine, Label, Classify, BraceFree, HasOpener;
    if BraceFree(raw[i]) {
      BraceFreeLine(raw[i], START);
    } else {
      SignsDecide(raw[i], n, front, back);
    }
    DefinitionContinues(raw, i);
    MaskNext(raw, i + 1);
  }

  // ---------------------------------------------------------------- the tree

  /** A file that is one definition whose expansion spans all its lines parses to one macro
      block, whatever its lines look like. */
  lemma OneMacro(raw: seq<string>, n: nat, opener: (string, string), closer: (string, string))
    requires |raw| >= 2 && MacroDefLine(raw[0]).Some? && n % 2 == 1 && HasOpener(raw[0], n, opener.0, opener.1)
    requires forall k :: 0 < k < |raw| - 1 ==> BraceFree(raw[k])
    requires HasCloser(raw[|raw| - 1], closer.0, closer.1)
    ensures Parse(raw) == Success([Section(None, [Macro(Masked(raw))])])
  {
    hide ModeEnd, Mask, MacroScan, MacroDefLine, Label, Classify, BraceFree, HasOpener, HasCloser, WellFormedRoot,
      NormalRoot,
      Parse, Serialize;
    FirstLineFree(raw);
    ExpansionHides(raw, 0, |raw| - 1, n, opener, closer);
    DefinitionDefines(raw);
    assert Label(raw)[..|raw|] == Label(raw);
    MacroRoot(Masked(raw));
    ParsesExactly(raw, [Section(None, [Macro(Masked(raw))])]);
  }

  lemma FirstLineFree(raw: seq<string>)
    requires raw != []
    ensures |Masked(raw)| == |raw| && !Masked(raw)[0].inBody
  {
    hide Mask, Label, Classify;
    MaskHead(Label(raw), Outside);
  }

  lemma DefinitionDefines(raw: seq<string>)
    requires raw != [] && !Masked(raw)[0].inBody && MacroDefLine(raw[0]).Some?
    ensures Masked(raw)[0].Defines()
  {
    hide Mask, Classify, MacroDefLine;
    ClassifyAgrees(raw[0]);
  }

  lemma MacroRoot(m: seq<Line>)
    requires m != [] && m[0].Defines() && forall k :: 0 < k < |m| ==> m[k].inBody
    ensures var root := [Section(None, [Macro(m)])];
            WellFormedRoot(root) && NormalRoot(root) && Serialize(root) == m
  {
    var b := Macro(m);
    var pre := Section(None, [b]);
    assert [b][1..] == [] && [pre][1..] == [];
    SerializeOne(b);
    SerializeOne(pre);
    NormalNone();
    NormalCons(b, []);
    assert [b] + [] == [b];
  }
}
