/** Which trees are well formed, and that parsing yields exactly those. */
module Grammar {
  import opened Wrappers
  import opened Lines
  import opened Scanning
  import opened Conditionals
  import opened Tree

  // ---------------------------------------------------------------- sections of a tree

  function SectionsIn(b: Block): seq<Block> {
    match b
    case Section(_, children) => [b] + SectionsOf(children)
    case Cond(_, thn, _, els, _) => SectionsOf(thn) + SectionsOf(els)
    case _ => []
  }

  /** The sections of a tree, in document order. */
  function SectionsOf(bs: seq<Block>): seq<Block> {
    if bs == [] then [] else SectionsIn(bs[0]) + SectionsOf(bs[1..])
  }

  lemma {:induction false} SectionsOfConcat(a: seq<Block>, b: seq<Block>)
    ensures SectionsOf(a + b) == SectionsOf(a) + SectionsOf(b)
  {
    if a == [] {
      assert a + b == b;
    } else {
      assert (a + b)[1..] == a[1..] + b;
      SectionsOfConcat(a[1..], b);
    }
  }

  /** A section, or a conditional around sections. */
  predicate WrapsSections(b: Block) {
    b.Section? || (b.Cond? && SectionsIn(b) != [])
  }

  /** The section headers among lines. */
  function HeadsOf(ls: seq<Line>): (r: seq<Line>)
    ensures r == [] <==> !HasHeader(ls)
  {
    if ls == [] then [] else (if ls[0].Heads() then [ls[0]] else []) + HeadsOf(ls[1..])
  }

  function HeadersOf(ss: seq<Block>): seq<Line> {
    if ss == [] then []
    else (if ss[0].Section? then OptLine(ss[0].header) else []) + HeadersOf(ss[1..])
  }

  // ---------------------------------------------------------------- well-formed trees

  /** No directive and no header hides in text, macro bodies are whole, sections are not
      nested, and the directives of every conditional are of the right kind. */
  predicate WellFormedBlock(b: Block) {
    match b
    case Text(lines) => lines != [] && forall l <- lines :: l.Plain()
    case Macro(lines) =>
      lines != [] && lines[0].Defines() && forall i :: 0 < i < |lines| ==> lines[i].inBody
    case Section(header, children) =>
      header.Some? && header.value.Heads() && SectionsOf(children) == [] && WellFormed(children)
    case Cond(opener, _, _, _, endif) =>
      opener.Opens() && endif.Some? && endif.value.Closes() && WellFormedBranches(b)
  }

  predicate WellFormedBranches(b: Block)
    requires b.Cond?
    decreases b, 0
  {
    && WellFormed(b.thn)
    && if b.elseDirective.Some? then b.elseDirective.value.IsElse() && WellFormed(b.els)
       else b.els == [] || IsElifChain(b.els)
  }

  predicate IsElifChain(els: seq<Block>)
    decreases els, 0
  {
    && |els| == 1 && els[0].Cond? && els[0].opener.IsElif() && els[0].endif.None?
    && WellFormedBranches(els[0])
  }

  predicate WellFormed(bs: seq<Block>) {
    bs == [] || (WellFormedBlock(bs[0]) && WellFormed(bs[1..]))
  }

  // ---------------------------------------------------------------- slices of lines

  predicate Inert(l: Line) {
    !l.Opens() && !l.Closes() && !l.Branches()
  }

  lemma {:induction false} RunInert(ls: seq<Line>, s: seq<Frame>)
    requires forall l <- ls :: Inert(l)
    ensures RunFrames(ls, s) == Success(s)
  {
    if ls != [] {
      assert Inert(ls[0]);
      RunInert(ls[1..], s);
    }
  }

  lemma BalancedDropInert(ls: seq<Line>, n: nat)
    requires Balanced(ls) && n <= |ls| && forall l <- ls[..n] :: Inert(l)
    ensures Balanced(ls[..n]) && Balanced(ls[n..])
  {
    RunInert(ls[..n], []);
    assert ls == ls[..n] + ls[n..];
    BalancedConcat(ls[..n], ls[n..]);
  }

  lemma ShapedSlice(ls: seq<Line>, a: nat, b: nat)
    requires Shaped(ls) && a <= b <= |ls| && (a < b ==> !ls[a].inBody)
    ensures Shaped(ls[a..b])
  {
    var s := ls[a..b];
    forall i | 0 <= i < |s| && s[i].inBody
      ensures i > 0 && (s[i - 1].inBody || s[i - 1].Defines())
    {
      assert s[i] == ls[a + i];
      assert i > 0 ==> s[i - 1] == ls[a + i - 1];
    }
  }

  /** Raw text of balanced lines holds nothing but content. */
  lemma {:induction false} TextRunPlain(ls: seq<Line>)
    requires Balanced(ls) && Shaped(ls)
    ensures forall l <- ls[..TextRun(ls)] :: l.Plain()
  {
    if TextRun(ls) > 0 {
      assert !ls[0].inBody && ls[0].Plain();
      ShapedSlice(ls, 1, |ls|);
      assert ls[1..|ls|] == ls[1..];
      TextRunPlain(ls[1..]);
      assert ls[..TextRun(ls)] == [ls[0]] + ls[1..][..TextRun(ls[1..])];
    }
  }

  /** A section's extent is balanced, holds no header, and stops at a header or a wrapper. */
  lemma {:induction false} SectionEndSplits(ls: seq<Line>)
    requires Balanced(ls)
    ensures var n := SectionEnd(ls);
            && Balanced(ls[..n]) && Balanced(ls[n..]) && !HasHeader(ls[..n])
            && (n < |ls| ==> !ls[n].inBody)
    decreases |ls|
  {
    hide *;
    var n := SectionEnd(ls);
    SectionEndCases(ls);
    if n == 0 {
      BalancedNone();
      assert ls[..0] == [] && ls[0..] == ls;
    } else if ls[0].Opens() {
      var k := CloseAt(ls[1..], 1);
      BalancedOpenerWhole(ls);
      BalancedOpener(ls);
      SectionEndSplits(ls[k + 2..]);
      SectionEndSkip(ls, k + 2, n);
    } else {
      BalancedFirstInert(ls);
      SectionEndSplits(ls[1..]);
      SectionEndSkip(ls, 1, n);
    }
  }

  lemma SectionEndCases(ls: seq<Line>)
    requires Balanced(ls)
    ensures var n := SectionEnd(ls);
            if n == 0 then ls != [] ==> !ls[0].inBody
            else if ls[0].Opens() then
              var k := CloseAt(ls[1..], 1);
              k < |ls| - 1 && n == k + 2 + SectionEnd(ls[k + 2..]) && !HasHeader(ls[1..][..k])
            else n == 1 + SectionEnd(ls[1..]) && !ls[0].Heads()
  {
    if ls != [] && ls[0].Opens() {
      BalancedOpener(ls);
    }
  }

  lemma BalancedNone()
    ensures Balanced([]) && !HasHeader([])
  {
  }

  lemma BalancedFirstInert(ls: seq<Line>)
    requires Balanced(ls) && ls != [] && !ls[0].Opens()
    ensures Inert(ls[0]) && Balanced(ls[..1]) && Balanced(ls[1..])
    ensures !ls[0].Heads() ==> !HasHeader(ls[..1])
  {
    assert Inert(ls[0]);
    BalancedDropInert(ls, 1);
  }

  lemma BalancedOpenerWhole(ls: seq<Line>)
    requires Balanced(ls) && ls != [] && ls[0].Opens()
    ensures var n := CloseAt(ls[1..], 1); n < |ls| - 1 && Balanced(ls[..n + 2])
    ensures var n := CloseAt(ls[1..], 1);
            && ls[..n + 2] == [ls[0]] + ls[1..][..n] + [ls[n + 1]]
            && (!HasHeader(ls[1..][..n]) ==> !HasHeader(ls[..n + 2]))
  {
    BalancedOpener(ls);
    var n := CloseAt(ls[1..], 1);
    BalancedWhole(ls[0], ls[1..][..n], ls[n + 1]);
    assert ls[..n + 2] == [ls[0]] + ls[1..][..n] + [ls[n + 1]];
  }

  lemma SectionEndSkip(ls: seq<Line>, k: nat, n: nat)
    requires k <= n <= |ls| && Balanced(ls[..k]) && !HasHeader(ls[..k])
    requires Balanced(ls[k..][..n - k]) && Balanced(ls[k..][n - k..]) && !HasHeader(ls[k..][..n - k])
    ensures Balanced(ls[..n]) && Balanced(ls[n..]) && !HasHeader(ls[..n])
  {
    assert ls[..n] == ls[..k] + ls[k..][..n - k] && ls[n..] == ls[k..][n - k..];
    BalancedConcat(ls[..k], ls[k..][..n - k]);
  }

  // ---------------------------------------------------------------- headers and sections

  lemma {:induction false} HeadsOfConcat(a: seq<Line>, b: seq<Line>)
    ensures HeadsOf(a + b) == HeadsOf(a) + HeadsOf(b)
  {
    hide HasHeader;
    if a == [] {
      assert a + b == b;
    } else {
      assert (a + b)[1..] == a[1..] + b;
      HeadsOfConcat(a[1..], b);
      var head := if a[0].Heads() then [a[0]] else [];
      assert HeadsOf(a + b) == head + (HeadsOf(a[1..]) + HeadsOf(b));
    }
  }

  lemma {:induction false} HeadersOfConcat(a: seq<Block>, b: seq<Block>)
    ensures HeadersOf(a + b) == HeadersOf(a) + HeadersOf(b)
  {
    if a == [] {
      assert a + b == b;
    } else {
      assert (a + b)[1..] == a[1..] + b;
      HeadersOfConcat(a[1..], b);
    }
  }

  lemma {:induction false} HeadsOfSerialize(bs: seq<Block>)
    requires WellFormed(bs)
    ensures HeadsOf(Serialize(bs)) == HeadersOf(SectionsOf(bs))
    decreases bs, 0
  {
    if bs != [] {
      HeadsOfBlock(bs[0]);
      HeadsOfSerialize(bs[1..]);
      HeadsOfConcat(SerializeBlock(bs[0]), Serialize(bs[1..]));
      HeadersOfConcat(SectionsIn(bs[0]), SectionsOf(bs[1..]));
    }
  }

  lemma {:induction false} HeadsOfBlock(b: Block)
    requires WellFormedBlock(b)
    ensures HeadsOf(SerializeBlock(b)) == HeadersOf(SectionsIn(b))
    decreases b, 2
  {
    match b
    case Text(lines) =>
    case Macro(lines) =>
    case Section(header, children) =>
      HeadsOfSerialize(children);
      HeadsOfConcat([header.value], Serialize(children));
      HeadersOfConcat([b], SectionsOf(children));
      assert [b][1..] == [] && [header.value][1..] == [];
    case Cond(opener, thn, _, els, endif) =>
      HeadsOfBranches(b);
      HeadsOfConcat([opener], SerializeBranches(b));
      HeadsOfConcat([opener] + SerializeBranches(b), [endif.value]);
  }

  lemma {:induction false} HeadsOfBranches(b: Block)
    requires b.Cond? && WellFormedBranches(b)
    ensures HeadsOf(SerializeBranches(b)) == HeadersOf(SectionsOf(b.thn) + SectionsOf(b.els))
    decreases b, 1
  {
    hide HeadsOf, HeadersOf, Serialize, SectionsOf, SectionsIn, WellFormed;
    var thn, dir, els := Serialize(b.thn), OptLine(b.elseDirective), Serialize(b.els);
    HeadsOfSerialize(b.thn);
    if b.elseDirective.Some? {
      HeadsOfLine(b.elseDirective.value);
      HeadsOfSerialize(b.els);
    } else {
      HeadsOfNone();
      HeadsOfElif(b.els);
    }
    HeadersOfConcat(SectionsOf(b.thn), SectionsOf(b.els));
    HeadsOfConcat(thn + dir, els);
    HeadsOfConcat(thn, dir);
  }

  lemma HeadsOfLine(l: Line)
    ensures HeadsOf([l]) == if l.Heads() then [l] else []
  {
    assert [l][1..] == [];
  }

  lemma HeadsOfNone()
    ensures HeadsOf([]) == [] && HeadersOf([]) == []
  {
  }

  lemma {:induction false} HeadsOfElif(els: seq<Block>)
    requires els == [] || IsElifChain(els)
    ensures HeadsOf(Serialize(els)) == HeadersOf(SectionsOf(els))
    decreases els, 0
  {
    if els == [] {
    } else {
      var inner := els[0];
      assert els == [inner];
      SerializeOne(inner);
      SectionsOne(inner);
      HeadsOfBranches(inner);
      HeadsOfLine(inner.opener);
      HeadsOfConcat([inner.opener], SerializeBranches(inner));
      hide *;
      assert [inner.opener] + SerializeBranches(inner) + [] == [inner.opener] + SerializeBranches(inner);
    }
  }

  lemma SectionsOne(b: Block)
    ensures SectionsOf([b]) == SectionsIn(b)
  {
    assert [b][1..] == [];
  }

  // ---------------------------------------------------------------- parsed trees are well formed

  lemma {:induction false} WellFormedConcat(a: seq<Block>, b: seq<Block>)
    ensures WellFormed(a + b) <==> WellFormed(a) && WellFormed(b)
  {
    if a == [] {
      assert a + b == b;
    } else {
      assert (a + b)[1..] == a[1..] + b;
      WellFormedConcat(a[1..], b);
    }
  }

  lemma WellFormedParts(bs: seq<Block>)
    requires WellFormed(bs) && bs != []
    ensures WellFormedBlock(bs[0]) && WellFormed(bs[1..])
  {
  }

  lemma WellFormedCons(b: Block, bs: seq<Block>)
    requires WellFormedBlock(b) && WellFormed(bs)
    ensures WellFormed([b] + bs)
  {
    assert ([b] + bs)[1..] == bs;
  }

  lemma {:induction false} BuildWellFormed(ls: seq<Line>)
    requires Balanced(ls) && Shaped(ls)
    ensures WellFormed(Build(ls))
    decreases |ls|, 1
  {
    hide CloseAt, SectionEnd, BranchAt, TextRun, BodyRun, Balanced, WellFormed;
    if ls == [] {
      WellFormedNone();
    } else if ls[0].Heads() {
      var n := SectionEnd(ls[1..]);
      var content := ls[1..][..n];
      HeaderSplits(ls);
      BuildWellFormed(content);
      BuildWellFormed(ls[n + 1..]);
      NoHeaderNoSection(content);
      WellFormedCons(Section(Some(ls[0]), Build(content)), Build(ls[n + 1..]));
    } else if ls[0].Opens() {
      BuildOpenerWellFormed(ls);
    } else if ls[0].Defines() {
      var n := BodyRun(ls[1..]);
      MacroSplits(ls);
      BuildWellFormed(ls[n + 1..]);
      WellFormedCons(Macro(ls[..n + 1]), Build(ls[n + 1..]));
    } else {
      var n := TextRun(ls);
      TextSplits(ls);
      BuildWellFormed(ls[n..]);
      WellFormedCons(Text(ls[..n]), Build(ls[n..]));
    }
  }

  lemma WellFormedNone()
    ensures WellFormed([])
  {
  }

  lemma TextSplits(ls: seq<Line>)
    requires Balanced(ls) && Shaped(ls) && TextRun(ls) > 0
    ensures var n := TextRun(ls);
            && WellFormedBlock(Text(ls[..n]))
            && Balanced(ls[n..]) && Shaped(ls[n..])
  {
    var n := TextRun(ls);
    TextRunPlain(ls);
    BalancedDropInert(ls, n);
    assert ls[..n][n - 1] == ls[n - 1];
    ShapedSlice(ls, n, |ls|);
    assert ls[n..|ls|] == ls[n..];
  }

  lemma HeaderSplits(ls: seq<Line>)
    requires Balanced(ls) && Shaped(ls) && ls != [] && ls[0].Heads()
    ensures var n := SectionEnd(ls[1..]);
            && Balanced(ls[1..][..n]) && Shaped(ls[1..][..n]) && !HasHeader(ls[1..][..n])
            && Balanced(ls[n + 1..]) && Shaped(ls[n + 1..])
  {
    var n := SectionEnd(ls[1..]);
    BalancedDropInert(ls, 1);
    SectionEndSplits(ls[1..]);
    assert ls[1..][n..] == ls[n + 1..] && ls[1..][..n] == ls[1..n + 1] && ls[n + 1..|ls|] == ls[n + 1..];
    ShapedSlice(ls, 1, n + 1);
    ShapedSlice(ls, n + 1, |ls|);
  }

  lemma MacroSplits(ls: seq<Line>)
    requires Balanced(ls) && Shaped(ls) && ls != [] && ls[0].Defines()
    ensures var n := BodyRun(ls[1..]);
            && WellFormedBlock(Macro(ls[..n + 1]))
            && Balanced(ls[n + 1..]) && Shaped(ls[n + 1..])
  {
    var n := BodyRun(ls[1..]);
    var lines := ls[..n + 1];
    forall i | 0 < i < |lines|
      ensures lines[i].inBody
    {
      assert lines[i] == ls[1..][i - 1];
    }
    BalancedDropInert(ls, n + 1);
    ShapedSlice(ls, n + 1, |ls|);
    assert ls[n + 1..|ls|] == ls[n + 1..];
  }

  lemma NoHeaderNoSection(ls: seq<Line>)
    requires WellFormed(Build(ls)) && !HasHeader(ls)
    ensures SectionsOf(Build(ls)) == []
  {
    HeadsOfSerialize(Build(ls));
    SerializeBuild(ls);
    SectionsHaveHeaders(Build(ls));
  }

  lemma {:induction false} SectionsHaveHeaders(bs: seq<Block>)
    requires WellFormed(bs)
    ensures forall s <- SectionsOf(bs) :: s.Section? && s.header.Some?
    ensures HeadersOf(SectionsOf(bs)) == [] ==> SectionsOf(bs) == []
    decreases bs, 0
  {
    if bs != [] {
      SectionsHaveHeaders(bs[1..]);
      match bs[0]
      case Text(_) =>
      case Macro(_) =>
      case Section(_, children) => SectionsHaveHeaders(children);
      case Cond(_, _, _, _, _) => SectionsHaveHeadersBranches(bs[0]);
    }
  }

  lemma {:induction false} SectionsHaveHeadersBranches(b: Block)
    requires b.Cond? && WellFormedBranches(b)
    ensures forall s <- SectionsIn(b) :: s.Section? && s.header.Some?
    decreases b, 0
  {
    SectionsHaveHeaders(b.thn);
    if b.elseDirective.Some? {
      SectionsHaveHeaders(b.els);
    } else if b.els != [] {
      SectionsHaveHeadersBranches(b.els[0]);
      assert SectionsOf(b.els) == SectionsIn(b.els[0]) + [];
    }
  }

  lemma {:induction false} BuildOpenerWellFormed(ls: seq<Line>)
    requires Balanced(ls) && Shaped(ls) && ls != [] && ls[0].Opens()
    ensures WellFormed(Build(ls))
    decreases |ls|, 0
  {
    hide SectionEnd, BranchAt, TextRun, BodyRun, Balanced, WellFormed;
    var n := CloseAt(ls[1..], 1);
    BalancedOpener(ls);
    assert ls[1..][..n] == ls[1..n + 1] && ls[n + 2..] == ls[n + 2..|ls|];
    ShapedSlice(ls, 1, n + 1);
    ShapedSlice(ls, n + 2, |ls|);
    BuildCondWellFormed(ls[0], ls[1..][..n], Some(ls[n + 1]));
    BuildWellFormed(ls[n + 2..]);
    WellFormedCons(BuildCond(ls[0], ls[1..][..n], Some(ls[n + 1])), Build(ls[n + 2..]));
  }

  lemma {:induction false} BuildCondWellFormed(opener: Line, body: seq<Line>, endif: Option<Line>)
    requires Shaped(body) && BranchBody(body, Frame(opener.no, None))
    ensures WellFormedBranches(BuildCond(opener, body, endif))
    decreases |body|, 2
  {
    hide BranchAt, CloseAt, Balanced, BranchBody, WellFormed;
    var n := BranchAt(body, 0);
    var f := Frame(opener.no, None);
    BranchBodySplit(body, f);
    ShapedSlice(body, 0, n);
    assert body[0..n] == body[..n] && (n == |body| ==> body[..n] == body);
    BuildWellFormed(body[..n]);
    if n < |body| {
      ShapedSlice(body, n + 1, |body|);
      assert body[n + 1..] == body[n + 1..|body|];
      if body[n].IsElif() {
        BranchBodyAnyLabel(body[n + 1..], f, Frame(body[n].no, None));
        BuildCondWellFormed(body[n], body[n + 1..], None);
      } else {
        BuildWellFormed(body[n + 1..]);
      }
    }
  }

  /** Which label the open frame carries does not matter. */
  lemma BranchBodyAnyLabel(body: seq<Line>, f: Frame, g: Frame)
    requires BranchBody(body, f) && f.elseLine.None? && g.elseLine.None?
    ensures BranchBody(body, g)
  {
    RunAnyLabels(body, [f], body, [g]);
  }

  predicate SameFrames(s: seq<Frame>, t: seq<Frame>) {
    |s| == |t| && forall i :: 0 <= i < |s| ==> s[i].elseLine.Some? == t[i].elseLine.Some?
  }

  /** Matching depends on the kinds of lines only, not on their labels. */
  lemma {:induction false} RunAnyLabels(ls: seq<Line>, s: seq<Frame>, ks: seq<Line>, t: seq<Frame>)
    requires SameFrames(s, t) && |ls| == |ks|
    requires forall i :: 0 <= i < |ls| ==> ls[i].kind == ks[i].kind && ls[i].inBody == ks[i].inBody
    ensures RunFrames(ls, s).Success? <==> RunFrames(ks, t).Success?
    ensures RunFrames(ls, s).Success? ==> SameFrames(RunFrames(ls, s).value, RunFrames(ks, t).value)
  {
    if ls != [] {
      StepAnyLabels(ls[0], s, ks[0], t);
      hide StepFrames;
      if StepFrames(ls[0], s).Success? {
        RunAnyLabels(ls[1..], StepFrames(ls[0], s).value, ks[1..], StepFrames(ks[0], t).value);
      }
    }
  }

  lemma StepAnyLabels(l: Line, s: seq<Frame>, k: Line, t: seq<Frame>)
    requires SameFrames(s, t) && l.kind == k.kind && l.inBody == k.inBody
    ensures StepFrames(l, s).Success? <==> StepFrames(k, t).Success?
    ensures StepFrames(l, s).Success? ==> SameFrames(StepFrames(l, s).value, StepFrames(k, t).value)
  {
  }

  // ---------------------------------------------------------------- well-formed trees are parsed

  lemma {:induction false} SerializeBalanced(bs: seq<Block>)
    requires WellFormed(bs)
    ensures Balanced(Serialize(bs))
    decreases bs, 0
  {
    if bs != [] {
      SerializeBlockBalanced(bs[0]);
      SerializeBalanced(bs[1..]);
      BalancedConcat(SerializeBlock(bs[0]), Serialize(bs[1..]));
    }
  }

  lemma {:induction false} SerializeBlockBalanced(b: Block)
    requires WellFormedBlock(b)
    ensures Balanced(SerializeBlock(b))
    decreases b, 2
  {
    hide WellFormed, WellFormedBranches, SectionsOf, Serialize, SerializeBranches, RunFrames, Balanced;
    match b
    case Text(lines) => InertBalanced(lines);
    case Macro(lines) => InertBalanced(lines);
    case Section(header, children) =>
      InertBalanced([header.value]);
      SerializeBalanced(children);
      BalancedConcat([header.value], Serialize(children));
    case Cond(opener, _, _, _, endif) =>
      SerializeBranchesRun(b, Frame(opener.no, None));
      BalancedAround(opener, SerializeBranches(b), endif.value);
  }

  lemma InertBalanced(ls: seq<Line>)
    requires forall l <- ls :: Inert(l)
    ensures Balanced(ls)
  {
    RunInert(ls, []);
  }

  lemma {:induction false} SerializeBranchesRun(b: Block, f: Frame)
    requires b.Cond? && WellFormedBranches(b) && f.elseLine.None?
    ensures RunFrames(SerializeBranches(b), [f]).Success? && |RunFrames(SerializeBranches(b), [f]).value| == 1
    decreases b, 1
  {
    var thn, dir, els := Serialize(b.thn), OptLine(b.elseDirective), Serialize(b.els);
    SerializeBalanced(b.thn);
    BalancedAnywhere(thn, [f]);
    assert SerializeBranches(b) == thn + (dir + els);
    RunConcat(thn, dir + els, [f]);
    if b.elseDirective.Some? {
      SerializeBalanced(b.els);
      var d := b.elseDirective.value;
      var g := f.(elseLine := Some(d.no));
      BranchStep(d, f);
      BalancedAnywhere(els, [g]);
      assert (dir + els)[1..] == els;
    } else if b.els == [] {
      assert dir + els == [];
    } else {
      var inner := b.els[0];
      SerializeOne(inner);
      assert b.els == [inner];
      SerializeBranchesRun(inner, f);
      assert dir + els == [inner.opener] + SerializeBranches(inner);
      assert (dir + els)[1..] == SerializeBranches(inner);
      BranchStep(inner.opener, f);
    }
  }

  lemma ShapedConcat(a: seq<Line>, b: seq<Line>)
    requires Shaped(a) && Shaped(b)
    ensures Shaped(a + b)
  {
    var all := a + b;
    forall i | 0 <= i < |all| && all[i].inBody
      ensures i > 0 && (all[i - 1].inBody || all[i - 1].Defines())
    {
      if i >= |a| {
        assert b[i - |a|].inBody;
      }
    }
  }

  lemma {:induction false} SerializeShaped(bs: seq<Block>)
    requires WellFormed(bs)
    ensures Shaped(Serialize(bs))
    decreases bs, 0
  {
    if bs != [] {
      SerializeBlockShaped(bs[0]);
      SerializeShaped(bs[1..]);
      ShapedConcat(SerializeBlock(bs[0]), Serialize(bs[1..]));
    }
  }

  lemma {:induction false} SerializeBlockShaped(b: Block)
    requires WellFormedBlock(b)
    ensures Shaped(SerializeBlock(b))
    decreases b, 2
  {
    match b
    case Text(lines) =>
      assert forall i :: 0 <= i < |lines| ==> lines[i].Plain();
    case Macro(lines) =>
    case Section(header, children) =>
      SerializeShaped(children);
      ShapedConcat([header.value], Serialize(children));
    case Cond(opener, _, _, _, endif) =>
      SerializeBranchesShaped(b);
      ShapedConcat([opener], SerializeBranches(b));
      ShapedConcat([opener] + SerializeBranches(b), [endif.value]);
  }

  lemma {:induction false} SerializeBranchesShaped(b: Block)
    requires b.Cond? && WellFormedBranches(b)
    ensures Shaped(SerializeBranches(b))
    decreases b, 1
  {
    hide Serialize, WellFormed, SectionsOf;
    var thn, dir, els := Serialize(b.thn), OptLine(b.elseDirective), Serialize(b.els);
    SerializeShaped(b.thn);
    ShapedConcat(thn, dir);
    if b.elseDirective.Some? {
      SerializeShaped(b.els);
    } else if b.els == [] {
      SerializeNone();
    } else {
      var inner := b.els[0];
      assert b.els == [inner];
      SerializeOne(inner);
      SerializeBranchesShaped(inner);
      ShapedConcat([inner.opener], SerializeBranches(inner));
    }
    ShapedConcat(thn + dir, els);
  }

  /** Masked lines match up as conditionals exactly when they spell a well-formed tree. */
  lemma BalancedIffGrammatical(ls: seq<Line>)
    ensures Balanced(ls) && Shaped(ls) <==> exists bs :: WellFormed(bs) && Serialize(bs) == ls
  {
    if Balanced(ls) && Shaped(ls) {
      BuildWellFormed(ls);
      SerializeBuild(ls);
    }
    forall bs | WellFormed(bs) && Serialize(bs) == ls
      ensures Balanced(ls) && Shaped(ls)
    {
      SerializeBalanced(bs);
      SerializeShaped(bs);
    }
  }
}
