/** The character-level lexer that decides where a %define/%global body ends.

    A body continues while a live %{...}, an escaped %%{...} inside a live one, or a
    %{lua:...} expansion is open, or while a physical line ends in a backslash. Lua text
    has its own strings, comments and long brackets, none of which may close the expansion.
 */
module MacroLexer {
  import opened Wrappers

  // ---------------------------------------------------------------- values

  const NO_QUOTE := '\0'

  /** State inside a %{lua:...} expansion. `longClose` is empty outside long brackets. */
  datatype Lua = Lua(braces: int, nestedRpm: int, quote: char, escaped: bool, longClose: string)

  datatype MacroState = MacroState(
    depth: int, escapedBraces: int, shellBraces: int, rawBraces: int, lua: Option<Lua>)
  {
    predicate Open() {
      depth > 0 || escapedBraces > 0 || lua.Some?
    }

    /** Holds of every state the lexer can reach. */
    ghost predicate Valid() {
      && 0 <= depth && 0 <= escapedBraces && 0 <= shellBraces && 0 <= rawBraces
      && (lua.Some? ==> depth >= 1 && escapedBraces == 0 && 0 <= lua.value.braces && 0 <= lua.value.nestedRpm)
      && (rawBraces > 0 ==> depth >= if lua.Some? then 2 else 1)
      && (escapedBraces > 0 ==> depth >= 1)
    }
  }

  const START_LUA := Lua(0, 0, NO_QUOTE, false, "")
  const START := MacroState(0, 0, 0, 0, None)

  // ---------------------------------------------------------------- Lua text

  predicate HasPrefixAt(text: string, idx: nat, prefix: string)
  {
    idx + |prefix| <= |text| && text[idx..idx + |prefix|] == prefix
  }

  /** The end of the run of `c` that starts at idx. */
  function RunEnd(text: string, idx: nat, c: char): (end: nat)
    requires idx <= |text|
    ensures idx <= end <= |text|
    ensures forall k :: idx <= k < end ==> text[k] == c
    ensures end < |text| ==> text[end] != c
    decreases |text| - idx
  {
    if idx < |text| && text[idx] == c then RunEnd(text, idx + 1, c) else idx
  }

  /** The '=' run of a long-bracket opener at idx, if there is one. */
  function LongDelimiter(text: string, idx: nat): (r: Option<string>)
    requires idx <= |text|
    ensures r.Some? ==> idx + |r.value| + 2 <= |text|
  {
    if idx == |text| || text[idx] != '[' then None
    else
      var end := RunEnd(text, idx + 1, '=');
      if end == |text| || text[end] != '[' then None else Some(text[idx + 1..end])
  }

  datatype Brace = Opens | Closes | Neither

  /** Lua's lexical state without any brace counting. */
  datatype LuaText = LuaText(quote: char, escaped: bool, longClose: string)

  /** Two dashes in code start a comment. */
  predicate StartsComment(text: string, idx: nat, mode: LuaText)
    requires idx < |text|
  {
    mode.longClose == "" && mode.quote == NO_QUOTE && HasPrefixAt(text, idx, "--")
  }

  /** Reads one lexical item of Lua text: where it ends, the lexical state after it, and
      whether it is a brace of the code. Strings, long brackets and comments never are. */
  function LuaItem(text: string, idx: nat, mode: LuaText): (r: (nat, LuaText, Brace))
    requires idx < |text|
    ensures idx < r.0 <= |text|
    ensures mode.quote != NO_QUOTE || mode.longClose != "" ==> r.2 == Neither
    ensures StartsComment(text, idx, mode) ==> r.2 == Neither && (r.0 == |text| || r.1.longClose != "")
    ensures r.2 == Closes ==> text[idx] == '}' && r.0 == idx + 1
    ensures r.2 == Opens ==> text[r.0 - 1] == '{' && (text[idx] == '{' || text[idx] == '%')
  {
    if mode.longClose != "" then
      if HasPrefixAt(text, idx, mode.longClose)
      then (idx + |mode.longClose|, mode.(longClose := ""), Neither)
      else (idx + 1, mode, Neither)
    else if mode.quote != NO_QUOTE then
      (idx + 1,
       if mode.escaped then mode.(escaped := false)
       else if text[idx] == '\\' then mode.(escaped := true)
       else if text[idx] == mode.quote then mode.(quote := NO_QUOTE)
       else mode,
       Neither)
    else
      var comment := text[idx] == '-' && idx + 1 < |text| && text[idx + 1] == '-';
      var bracket := if comment then idx + 2 else idx;
      if LongDelimiter(text, bracket).Some? then
        var d := LongDelimiter(text, bracket).value;
        (bracket + |d| + 2, mode.(longClose := "]" + d + "]"), Neither)
      else if comment then
        (|text|, mode, Neither)
      else if text[idx] == '\'' || text[idx] == '"' then
        (idx + 1, mode.(quote := text[idx]), Neither)
      else if text[idx] == '%' && idx + 1 < |text| && text[idx + 1] == '{' then
        (idx + 2, mode, Opens)
      else
        (idx + 1, mode, if text[idx] == '{' then Opens else if text[idx] == '}' then Closes else Neither)
  }

  function TextOf(lua: Lua): LuaText {
    LuaText(lua.quote, lua.escaped, lua.longClose)
  }

  /** One step of the Lua scan: the next index, the next state, and whether the expansion
      closed. Braces opened by "%{" are counted apart and are closed first. */
  function LuaStep(text: string, idx: nat, lua: Lua): (r: (nat, Lua, bool))
    requires idx < |text|
    ensures idx < r.0 <= |text|
  {
    var (next, mode, brace) := LuaItem(text, idx, TextOf(lua));
    var (nestedRpm, braces) :=
      if brace == Opens && text[idx] == '%' then (lua.nestedRpm + 1, lua.braces)
      else if brace == Opens then (lua.nestedRpm, lua.braces + 1)
      else if brace == Closes && lua.nestedRpm > 0 then (lua.nestedRpm - 1, lua.braces)
      else if brace == Closes && lua.braces > 0 then (lua.nestedRpm, lua.braces - 1)
      else (lua.nestedRpm, lua.braces);
    (next,
     Lua(braces, nestedRpm, mode.quote, mode.escaped, mode.longClose),
     brace == Closes && lua.nestedRpm <= 0 && lua.braces <= 0)
  }

  /** The whole Lua scan of a fragment: index reached, final state, closed. */
  function LuaScan(text: string, idx: nat, lua: Lua): (r: (nat, Lua, bool))
    requires idx <= |text|
    ensures idx <= r.0 <= |text|
    ensures idx < |text| ==> idx < r.0
    ensures !r.2 ==> r.0 == |text|
    decreases |text| - idx
  {
    if idx == |text| then (idx, lua, false)
    else
      var (next, lua', closed) := LuaStep(text, idx, lua);
      if closed then (next, lua', true) else LuaScan(text, next, lua')
  }

  /** The object the lexer keeps while a Lua expansion is open. */
  class LuaState {
    var braces: int
    var nestedRpm: int
    var quote: char
    var escaped: bool
    var longClose: string

    constructor ()
      ensures Value() == START_LUA
    {
      braces, nestedRpm, quote, escaped, longClose := 0, 0, NO_QUOTE, false, "";
    }

    function Value(): Lua
      reads this
    {
      Lua(braces, nestedRpm, quote, escaped, longClose)
    }

    /** The body of the scanning loop. */
    method Step(text: string, idx: nat) returns (next: nat, closed: bool)
      requires idx < |text|
      modifies this
      ensures (next, Value(), closed) == LuaStep(text, idx, old(Value()))
    {
      closed := false;
      if longClose != "" {
        if HasPrefixAt(text, idx, longClose) {
          next := idx + |longClose|;
          longClose := "";
        } else {
          next := idx + 1;
        }
        return;
      }
      if quote != NO_QUOTE {
        if escaped {
          escaped := false;
        } else if text[idx] == '\\' {
          escaped := true;
        } else if text[idx] == quote {
          quote := NO_QUOTE;
        }
        next := idx + 1;
        return;
      }
      var delimiter := LongDelimiter(text, idx);
      if delimiter.Some? {
        longClose := "]" + delimiter.value + "]";
        next := idx + |delimiter.value| + 2;
        return;
      }
      if text[idx] == '-' && idx + 1 < |text| && text[idx + 1] == '-' {
        delimiter := LongDelimiter(text, idx + 2);
        if delimiter.Some? {
          longClose := "]" + delimiter.value + "]";
          next := idx + |delimiter.value| + 4;
        } else {
          next := |text|;
        }
        return;
      }
      next := idx + 1;
      if text[idx] == '\'' || text[idx] == '"' {
        quote := text[idx];
      } else if text[idx] == '%' && idx + 1 < |text| && text[idx + 1] == '{' {
        nestedRpm := nestedRpm + 1;
        next := idx + 2;
      } else if text[idx] == '}' {
        if nestedRpm > 0 {
          nestedRpm := nestedRpm - 1;
        } else if braces > 0 {
          braces := braces - 1;
        } else {
          closed := true;
        }
      } else if text[idx] == '{' {
        braces := braces + 1;
      }
    }

    method Consume(text: string) returns (consumed: nat, closed: bool)
      modifies this
      ensures (consumed, Value(), closed) == LuaScan(text, 0, old(Value()))
    {
      consumed, closed := 0, false;
      while consumed < |text|
        invariant 0 <= consumed <= |text| && !closed
        invariant LuaScan(text, consumed, Value()) == LuaScan(text, 0, old(Value()))
      {
        consumed, closed := Step(text, consumed);
        if closed {
          return;
        }
      }
    }
  }

  // ------------------------------------------------- Lua: one combined counter

  /** Reference scan: a single counter of open code braces; the expansion closes at the
      first closing brace met with the counter at zero. */
  function CombinedScan(text: string, idx: nat, mode: LuaText, open: nat): (r: (nat, LuaText, nat, bool))
    requires idx <= |text|
    decreases |text| - idx
  {
    if idx == |text| then (idx, mode, open, false)
    else
      var (next, mode', brace) := LuaItem(text, idx, mode);
      if brace == Closes && open == 0 then (next, mode', 0, true)
      else CombinedScan(text, next, mode',
                        if brace == Opens then open + 1 else if brace == Closes then open - 1 else open)
  }

  /** One step keeps the sum of the two counters equal to the one counter. */
  lemma LuaStepKeepsSum(text: string, idx: nat, lua: Lua)
    requires idx < |text| && lua.braces >= 0 && lua.nestedRpm >= 0
    ensures var (next, lua', closed) := LuaStep(text, idx, lua);
            var (end, mode, brace) := LuaItem(text, idx, TextOf(lua));
            && next == end && TextOf(lua') == mode
            && lua'.braces >= 0 && lua'.nestedRpm >= 0
            && (closed <==> brace == Closes && lua.braces + lua.nestedRpm == 0)
            && lua'.braces + lua'.nestedRpm == lua.braces + lua.nestedRpm
               + (if brace == Opens then 1 else if brace == Closes && !closed then -1 else 0)
  {
  }

  /** The pair of Lua counters closes exactly where the one combined counter does. */
  lemma {:induction false} LuaScanIsCombinedScan(text: string, idx: nat, lua: Lua)
    requires idx <= |text| && lua.braces >= 0 && lua.nestedRpm >= 0
    ensures var (end, lua', closed) := LuaScan(text, idx, lua);
            && lua'.braces >= 0 && lua'.nestedRpm >= 0
            && CombinedScan(text, idx, TextOf(lua), lua.braces + lua.nestedRpm)
               == (end, TextOf(lua'), lua'.braces + lua'.nestedRpm, closed)
    decreases |text| - idx
  {
    if idx < |text| {
      LuaStepKeepsSum(text, idx, lua);
      var (next, lua', closed) := LuaStep(text, idx, lua);
      if !closed {
        LuaScanIsCombinedScan(text, next, lua');
      }
    }
  }

  // ---------------------------------------------------------------- macro bodies

  /** One step of the scan of a macro-body line. */
  function MacroStep(line: string, idx: nat, st: MacroState): (r: (MacroState, nat))
    requires idx < |line|
    ensures idx < r.1 <= |line|
  {
    if st.lua.Some? then
      var (consumed, lua, closed) := LuaScan(line[idx..], 0, st.lua.value);
      (if closed then st.(lua := None, depth := st.depth - 1) else st.(lua := Some(lua)), idx + consumed)
    else if st.escapedBraces > 0 then
      (if line[idx] == '{' then st.(escapedBraces := st.escapedBraces + 1)
       else if line[idx] == '}' then st.(escapedBraces := st.escapedBraces - 1)
       else st,
       idx + 1)
    else if line[idx] == '%' && (idx == 0 || line[idx - 1] != '%') then
      PercentRun(line, idx, st)
    else if line[idx] == '$' && idx + 1 < |line| && line[idx + 1] == '{' then
      (st.(shellBraces := st.shellBraces + 1), idx + 2)
    else if line[idx] == '}' && st.shellBraces > 0 then
      (st.(shellBraces := st.shellBraces - 1), idx + 1)
    else if line[idx] == '{' && st.depth > 0 then
      (st.(rawBraces := st.rawBraces + 1), idx + 1)
    else if line[idx] == '}' && st.rawBraces > 0 then
      (st.(rawBraces := st.rawBraces - 1), idx + 1)
    else if line[idx] == '}' && st.depth > 0 then
      (st.(depth := st.depth - 1), idx + 1)
    else
      (st, idx + 1)
  }

  /** A run of percent signs before a brace: an odd run opens a macro, an even run is an
      escaped opener that only counts inside a live expansion. */
  function PercentRun(line: string, idx: nat, st: MacroState): (r: (MacroState, nat))
    requires idx < |line| && line[idx] == '%'
    ensures idx < r.1 <= |line|
  {
    var end := RunEnd(line, idx, '%');
    if end == |line| || line[end] != '{' then (st, end)
    else if (end - idx) % 2 == 0 then
      (if st.depth > 0 then st.(escapedBraces := st.escapedBraces + 1) else st, end + 1)
    else if HasPrefixAt(line, end - 1, "%{lua:") then
      (st.(depth := st.depth + 1, lua := Some(START_LUA)), end - 1 + |"%{lua:"|)
    else
      (st.(depth := st.depth + 1), end + 1)
  }

  /** The state after a whole line; Lua treats the physical newline as ending an escape. */
  function MacroScan(line: string, idx: nat, st: MacroState): MacroState
    requires idx <= |line|
    decreases |line| - idx
  {
    if idx == |line| then
      if st.lua.Some? then st.(lua := Some(st.lua.value.(escaped := false))) else st
    else
      var (st', next) := MacroStep(line, idx, st);
      MacroScan(line, next, st')
  }

  /** State after one body line, and whether the body continues on the next line. */
  function BodyAfter(line: string, st: MacroState): (MacroState, bool)
  {
    var st' := MacroScan(line, 0, st);
    (st', (|line| > 0 && line[|line| - 1] == '\\') || st'.Open())
  }

  lemma MacroStepValid(line: string, idx: nat, st: MacroState)
    requires idx < |line| && st.Valid()
    ensures MacroStep(line, idx, st).0.Valid()
  {
    if st.lua.Some? {
      LuaScanIsCombinedScan(line[idx..], 0, st.lua.value);
    }
  }

  /** Every run of the lexer, over any lines from any valid state, stays valid. */
  lemma {:induction false} MacroScanValid(line: string, idx: nat, st: MacroState)
    requires idx <= |line| && st.Valid()
    ensures MacroScan(line, idx, st).Valid()
    decreases |line| - idx
  {
    if idx < |line| {
      var (st', next) := MacroStep(line, idx, st);
      MacroStepValid(line, idx, st);
      MacroScanValid(line, next, st');
    }
  }

  /** A backslash at the end of a line escapes nothing on the next one. */
  lemma {:induction false} EscapesEndWithLine(line: string, idx: nat, st: MacroState)
    requires idx <= |line|
    ensures var st' := MacroScan(line, idx, st);
            st'.lua.Some? ==> !st'.lua.value.escaped
    decreases |line| - idx
  {
    hide MacroStep;
    if idx < |line| {
      var (st', next) := MacroStep(line, idx, st);
      EscapesEndWithLine(line, next, st');
    }
  }

  /** Lexing lines in order, whatever made the body continue. */
  function LexLines(lines: seq<string>, st: MacroState): MacroState
  {
    if lines == [] then st else LexLines(lines[1..], BodyAfter(lines[0], st).0)
  }

  lemma {:induction false} LexLinesValid(lines: seq<string>)
    ensures LexLines(lines, START).Valid()
  {
    LexLinesValidFrom(lines, START);
  }

  lemma {:induction false} LexLinesValidFrom(lines: seq<string>, st: MacroState)
    requires st.Valid()
    ensures LexLines(lines, st).Valid()
  {
    if lines != [] {
      MacroScanValid(lines[0], 0, st);
      LexLinesValidFrom(lines[1..], BodyAfter(lines[0], st).0);
    }
  }

  // -------------------------------------------------------------- the loop itself

  /** The state the code passes around: four counters and a pointer to the Lua object. */
  datatype LiveState = LiveState(
    depth: int, escapedBraces: int, shellBraces: int, rawBraces: int, lua: LuaState?)

  function View(s: LiveState): MacroState
    reads s.lua
  {
    MacroState(s.depth, s.escapedBraces, s.shellBraces, s.rawBraces,
               if s.lua == null then None else Some(s.lua.Value()))
  }

  const LIVE_START := LiveState(0, 0, 0, 0, null)

  method MacroStateAfter(line: string, state: LiveState) returns (s: LiveState)
    modifies state.lua
    ensures View(s) == MacroScan(line, 0, old(View(state)))
    ensures s.lua == null || s.lua == state.lua || fresh(s.lua)
  {
    s := state;
    var idx := 0;
    while idx < |line|
      invariant 0 <= idx <= |line|
      invariant MacroScan(line, idx, View(s)) == MacroScan(line, 0, old(View(state)))
      invariant s.lua == null || s.lua == state.lua || fresh(s.lua)
    {
      s, idx := MacroStateStep(line, idx, s);
    }
    if s.lua != null {
      s.lua.escaped := false;
    }
  }

  /** The body of the scanning loop. */
  method MacroStateStep(line: string, idx: nat, state: LiveState) returns (s: LiveState, next: nat)
    requires idx < |line|
    modifies state.lua
    ensures (View(s), next) == MacroStep(line, idx, old(View(state)))
    ensures s.lua == null || s.lua == state.lua || fresh(s.lua)
  {
    s := state;
    if s.lua != null {
      var consumed, closed := s.lua.Consume(line[idx..]);
      next := idx + consumed;
      if closed {
        s := s.(lua := null, depth := s.depth - 1);
      }
    } else if s.escapedBraces > 0 {
      s, next := ConsumeEscapedBracedMacro(line, idx, s);
    } else if line[idx] == '%' && (idx == 0 || line[idx - 1] != '%') {
      s, next := MacroStateAfterPercentRun(line, idx, s);
    } else if line[idx] == '$' && idx + 1 < |line| && line[idx + 1] == '{' {
      s, next := s.(shellBraces := s.shellBraces + 1), idx + 2;
    } else if line[idx] == '}' && s.shellBraces > 0 {
      s, next := s.(shellBraces := s.shellBraces - 1), idx + 1;
    } else if line[idx] == '{' && s.depth > 0 {
      s, next := s.(rawBraces := s.rawBraces + 1), idx + 1;
    } else if line[idx] == '}' && s.rawBraces > 0 {
      s, next := s.(rawBraces := s.rawBraces - 1), idx + 1;
    } else if line[idx] == '}' && s.depth > 0 {
      s, next := s.(depth := s.depth - 1), idx + 1;
    } else {
      next := idx + 1;
    }
  }

  method ConsumeEscapedBracedMacro(line: string, idx: nat, state: LiveState) returns (s: LiveState, next: nat)
    requires idx < |line| && state.lua == null && state.escapedBraces > 0
    ensures s.lua == null && (View(s), next) == MacroStep(line, idx, View(state))
  {
    s, next := state, idx + 1;
    if line[idx] == '{' {
      s := s.(escapedBraces := s.escapedBraces + 1);
    } else if line[idx] == '}' {
      s := s.(escapedBraces := s.escapedBraces - 1);
    }
  }

  method MacroStateAfterPercentRun(line: string, idx: nat, state: LiveState) returns (s: LiveState, next: nat)
    requires idx < |line| && line[idx] == '%' && state.lua == null
    ensures s.lua == null || fresh(s.lua)
    ensures (View(s), next) == PercentRun(line, idx, View(state))
  {
    s := state;
    var runEnd := idx;
    while runEnd < |line| && line[runEnd] == '%'
      invariant idx <= runEnd <= |line|
      invariant RunEnd(line, idx, '%') == RunEnd(line, runEnd, '%')
    {
      runEnd := runEnd + 1;
    }
    if runEnd >= |line| || line[runEnd] != '{' {
      return s, runEnd;
    }
    if (runEnd - idx) % 2 == 0 {
      if s.depth > 0 {
        s := s.(escapedBraces := s.escapedBraces + 1);
      }
      return s, runEnd + 1;
    }
    s := s.(depth := s.depth + 1);
    if HasPrefixAt(line, runEnd - 1, "%{lua:") {
      var lua := new LuaState();
      s := s.(lua := lua);
      return s, runEnd - 1 + |"%{lua:"|;
    }
    next := runEnd + 1;
  }

  method MacroBodyStateAfter(line: string, state: LiveState) returns (s: LiveState, continues: bool)
    modifies state.lua
    ensures (View(s), continues) == BodyAfter(line, old(View(state)))
    ensures s.lua == null || s.lua == state.lua || fresh(s.lua)
  {
    s := MacroStateAfter(line, state);
    continues := (|line| > 0 && line[|line| - 1] == '\\') || View(s).Open();
  }
}
