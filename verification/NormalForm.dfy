/** The normal form of trees: parsing the lines of a tree gives the tree back exactly when it is
    in normal form. */
module NormalForm {
  import opened Wrappers
  import opened Lines
  import opened Scanning
  import opened Conditionals
  import opened Tree
  import opened Grammar
  import opened Parser

  // ---------------------------------------------------------------- normal form

  /** Text runs are maximal, and sections reach up to the next block that ends them. */
  predicate Follows(a: Block, b: Block) {
    (a.Text? ==> !b.Text?) && (a.Section? ==> WrapsSections(b))
  }

  predicate NormalBlock(b: Block) {
    match b
    case Section(_, children) => Normal(children)
    case Cond(_, thn, _, els, _) => Normal(thn) && Normal(els)
    case _ => true
  }

  predicate Normal(bs: seq<Block>) {
    bs == [] || (NormalBlock(bs[0]) && (|bs| > 1 ==> Follows(bs[0], bs[1])) && Normal(bs[1..]))
  }

  /** Below the root, the preamble takes all there is before the first section. */
  predicate NormalRoot(root: seq<Block>) {
    && root != [] && root[0].Section?
    && Normal(root[0].children) && Normal(root[1..]) && (|root| > 1 ==> WrapsSections(root[1]))
  }

  // ---------------------------------------------------------------- built trees are normal

  lemma {:induction false} SectionEndsThere(ls: seq<Line>)
    ensures SectionEnd(ls[SectionEnd(ls)..]) == 0
    decreases |ls|
  {
    hide HasHeader, CloseAt;
    var n := SectionEnd(ls);
    if n > 0 {
      var k := if ls[0].Opens() && CloseAt(ls[1..], 1) < |ls| - 1 then CloseAt(ls[1..], 1) + 2 else 1;
      SectionEndsThere(ls[k..]);
      assert ls[k..][n - k..] == ls[n..];
    }
  }

  /** What ends a section wraps sections. */
  lemma EndWraps(ls: seq<Line>)
    requires Balanced(ls) && Shaped(ls) && ls != [] && SectionEnd(ls) == 0
    ensures Build(ls) != [] && WrapsSections(Build(ls)[0])
  {
    hide Balanced, Shaped, CloseAt, BuildCond, Build, SectionsIn;
    EndIs(ls);
    if ls[0].Heads() {
      BuildUnfolds(ls);
    } else {
      BuildUnfoldsOpener(ls);
      CondWraps(ls);
    }
  }

  lemma EndIs(ls: seq<Line>)
    requires ls != [] && SectionEnd(ls) == 0
    ensures ls[0].Heads() || (ls[0].Opens() && CloseAt(ls[1..], 1) < |ls| - 1
            && HasHeader(ls[1..][..CloseAt(ls[1..], 1)]))
  {
  }

  lemma CondWraps(ls: seq<Line>)
    requires Balanced(ls) && Shaped(ls) && ls != [] && ls[0].Opens()
    requires CloseAt(ls[1..], 1) < |ls| - 1 && HasHeader(ls[1..][..CloseAt(ls[1..], 1)])
    ensures var n := CloseAt(ls[1..], 1);
            SectionsIn(BuildCond(ls[0], ls[1..][..n], Some(ls[n + 1]))) != []
  {
    hide Balanced, Shaped, CloseAt, Build, BuildCond, HeadsOf, HasHeader, WellFormedBranches, SerializeBranches,
      BranchBody;
    var n := CloseAt(ls[1..], 1);
    var body := ls[1..][..n];
    BalancedOpener(ls);
    assert body == ls[1..n + 1];
    OpenerBodyShaped(ls, n);
    BuildCondWellFormed(ls[0], body, Some(ls[n + 1]));
    SerializeBuildCond(ls[0], body, Some(ls[n + 1]));
    var b := BuildCond(ls[0], body, Some(ls[n + 1]));
    HeadsOfBranches(b);
    assert HeadsOf(body) != [];
    HeadsOfNone();
  }

  lemma OpenerBodyShaped(ls: seq<Line>, n: nat)
    requires Shaped(ls) && ls != [] && ls[0].Opens() && n + 1 <= |ls|
    ensures Shaped(ls[1..n + 1])
  {
    assert |ls| > 1 ==> !ls[1].inBody;
    ShapedSlice(ls, 1, n + 1);
  }

  lemma NormalCons(b: Block, bs: seq<Block>)
    requires NormalBlock(b) && Normal(bs) && (bs != [] ==> Follows(b, bs[0]))
    ensures Normal([b] + bs)
  {
    hide Follows, NormalBlock;
    assert ([b] + bs)[1..] == bs;
  }

  lemma NormalNone()
    ensures Normal([])
  {
  }

  /** Text is followed by something else. */
  lemma TextEnds(ls: seq<Line>)
    requires Balanced(ls) && Shaped(ls) && ls != [] && !IsText(ls[0])
    ensures Build(ls) != [] && !Build(ls)[0].Text?
  {
    hide Balanced, Shaped, CloseAt, BuildCond, Build;
    BuildUnfolds(ls);
    if ls[0].Opens() {
      BuildUnfoldsOpener(ls);
      BalancedOpener(ls);
    }
  }

  /** The tree built from lines that match up is in normal form. */
  lemma {:induction false} BuildNormal(ls: seq<Line>)
    requires Balanced(ls) && Shaped(ls)
    ensures Normal(Build(ls))
    decreases |ls|, 1
  {
    hide CloseAt, SectionEnd, BranchAt, TextRun, BodyRun, Balanced, Shaped, WellFormed, Normal, Build, BuildCond;
    if ls == [] {
      BuildNone();
      NormalNone();
    } else if ls[0].Heads() {
      var n := SectionEnd(ls[1..]);
      var rest := ls[n + 1..];
      HeaderSplits(ls);
      BuildUnfolds(ls);
      BuildNormal(ls[1..][..n]);
      BuildNormal(rest);
      SectionEndsThere(ls[1..]);
      assert ls[1..][n..] == rest;
      if rest != [] {
        EndWraps(rest);
      } else {
        BuildNone();
      }
      NormalCons(Section(Some(ls[0]), Build(ls[1..][..n])), Build(rest));
    } else if ls[0].Opens() {
      BuildOpenerNormal(ls);
    } else if ls[0].Defines() {
      var n := BodyRun(ls[1..]);
      MacroSplits(ls);
      BuildUnfolds(ls);
      BuildNormal(ls[n + 1..]);
      NormalCons(Macro(ls[..n + 1]), Build(ls[n + 1..]));
    } else {
      var n := TextRun(ls);
      var rest := ls[n..];
      TextSplits(ls);
      BuildText(ls);
      BuildNormal(rest);
      TextRunStops(ls);
      if rest != [] {
        TextEnds(rest);
      } else {
        BuildNone();
      }
      NormalCons(Text(ls[..n]), Build(rest));
    }
  }

  lemma {:induction false} BuildOpenerNormal(ls: seq<Line>)
    requires Balanced(ls) && Shaped(ls) && ls != [] && ls[0].Opens()
    ensures Normal(Build(ls))
    decreases |ls|, 0
  {
    hide CloseAt, Balanced, Shaped, BranchBody, WellFormed, Normal, Build, BuildCond;
    var n := CloseAt(ls[1..], 1);
    BalancedOpener(ls);
    var body, rest := ls[1..][..n], ls[n + 2..];
    BuildUnfoldsOpener(ls);
    assert body == ls[1..n + 1] && rest == ls[n + 2..|ls|];
    OpenerBodyShaped(ls, n);
    AfterCloser(ls, n);
    BuildCondNormal(ls[0], body, Some(ls[n + 1]));
    BuildNormal(rest);
    NormalCons(BuildCond(ls[0], body, Some(ls[n + 1])), Build(rest));
  }

  lemma AfterCloser(ls: seq<Line>, n: nat)
    requires Shaped(ls) && n + 1 < |ls| && ls[n + 1].Closes()
    ensures Shaped(ls[n + 2..|ls|])
  {
    assert n + 2 < |ls| ==> !ls[n + 2].inBody;
    ShapedSlice(ls, n + 2, |ls|);
  }

  lemma {:induction false} BuildCondNormal(opener: Line, body: seq<Line>, endif: Option<Line>)
    requires Shaped(body) && BranchBody(body, Frame(opener.no, None))
    ensures NormalBlock(BuildCond(opener, body, endif))
    decreases |body|, 2
  {
    hide BranchAt, CloseAt, Balanced, BranchBody, Shaped, Normal, Build;
    var n := BranchAt(body, 0);
    var f := Frame(opener.no, None);
    BranchBodySplit(body, f);
    BranchBodyShaped(body, n);
    NormalNone();
    BuildNormal(body[..n]);
    if n < |body| {
      if body[n].IsElif() {
        BranchBodyAnyLabel(body[n + 1..], f, Frame(body[n].no, None));
        BuildCondNormal(body[n], body[n + 1..], None);
        var inner := BuildCond(body[n], body[n + 1..], None);
        NormalCons(inner, []);
        assert [inner] + [] == [inner];
      } else {
        BuildNormal(body[n + 1..]);
      }
    }
  }

  lemma BranchBodyShaped(body: seq<Line>, n: nat)
    requires Shaped(body) && n <= |body| && (n < |body| ==> body[n].Branches())
    ensures Shaped(body[..n]) && (n == |body| ==> body[..n] == body) && (n < |body| ==> Shaped(body[n + 1..]))
  {
    assert |body| > 0 ==> !body[0].inBody;
    ShapedSlice(body, 0, n);
    assert body[0..n] == body[..n];
    if n < |body| {
      assert n + 1 < |body| ==> !body[n + 1].inBody;
      ShapedSlice(body, n + 1, |body|);
      assert body[n + 1..|body|] == body[n + 1..];
    }
  }

  // ---------------------------------------------------------------- normal trees are built

  /** A section scan runs over balanced lines without header to what ends a section. */
  lemma {:induction false} SectionEndOver(a: seq<Line>, tail: seq<Line>)
    requires Balanced(a) && !HasHeader(a) && SectionEnd(tail) == 0
    ensures SectionEnd(a + tail) == |a|
    decreases |a|
  {
    hide Balanced, CloseAt;
    if a == [] {
      assert a + tail == tail;
    } else {
      var all := a + tail;
      assert a[0] in a && all[0] == a[0] && all[1..] == a[1..] + tail;
      if a[0].Opens() {
        BalancedOpenerWhole(a);
        BalancedOpener(a);
        var n := CloseAt(a[1..], 1);
        CloseAtPrefix(a[1..], tail, 1);
        assert all[1..][..n] == a[1..][..n] && all[n + 2..] == a[n + 2..] + tail;
        assert forall l <- a[1..][..n] :: l in a;
        assert forall l <- a[n + 2..] :: l in a;
        SectionEndOver(a[n + 2..], tail);
      } else {
        BalancedFirstInert(a);
        assert forall l <- a[1..] :: l in a;
        SectionEndOver(a[1..], tail);
      }
    }
  }

  /** The search for a branch runs over lines run on a stack. */
  lemma {:induction false} BranchOverRun(seg: seq<Line>, rest: seq<Line>, s: seq<Frame>)
    requires RunFrames(seg, s).Success?
    ensures BranchAt(seg + rest, |s|) == |seg| + BranchAt(rest, |RunFrames(seg, s).value|)
  {
    hide StepFrames, BranchAt;
    if seg == [] {
      assert seg + rest == rest;
    } else {
      var s' := StepFrames(seg[0], s).value;
      StepSize(seg[0], s);
      NothingToClose(seg[0], s);
      NoBranchOutside(seg[0], s);
      assert seg + rest == [seg[0]] + (seg[1..] + rest);
      BranchAtStep(seg[0], seg[1..] + rest, |s|, |s'|);
      BranchOverRun(seg[1..], rest, s');
    }
  }

  lemma NoBranchOutside(l: Line, s: seq<Frame>)
    requires StepFrames(l, s).Success?
    ensures l.Branches() ==> s != []
  {
  }

  /** The search for a %endif runs over the branches of a conditional. */
  lemma {:induction false} CloseOverBranches(b: Block, rest: seq<Line>)
    requires b.Cond? && WellFormedBranches(b)
    ensures CloseAt(SerializeBranches(b) + rest, 1) == |SerializeBranches(b)| + CloseAt(rest, 1)
    decreases b
  {
    hide CloseAt, RunFrames, Serialize, WellFormed;
    var thn, dir, els := Serialize(b.thn), OptLine(b.elseDirective), Serialize(b.els);
    SerializeBalanced(b.thn);
    assert SerializeBranches(b) + rest == thn + (dir + (els + rest));
    CloseOverBalanced(thn, dir + (els + rest));
    if b.elseDirective.Some? {
      SerializeBalanced(b.els);
      CloseAtCons(b.elseDirective.value, els + rest, 1);
      CloseOverBalanced(els, rest);
    } else if b.els == [] {
      SerializeNone();
      assert dir + (els + rest) == rest;
    } else {
      var inner := b.els[0];
      assert b.els == [inner];
      SerializeOne(inner);
      assert els == [inner.opener] + SerializeBranches(inner);
      assert dir + (els + rest) == [inner.opener] + (SerializeBranches(inner) + rest);
      CloseAtCons(inner.opener, SerializeBranches(inner) + rest, 1);
      CloseOverBranches(inner, rest);
    }
  }

  lemma CloseOverBalanced(a: seq<Line>, rest: seq<Line>)
    requires Balanced(a)
    ensures CloseAt(a + rest, 1) == |a| + CloseAt(rest, 1)
  {
    CloseOverRun(a, rest, [], 1);
  }

  lemma BranchOverBalanced(a: seq<Line>, rest: seq<Line>)
    requires Balanced(a)
    ensures BranchAt(a + rest, 0) == |a| + BranchAt(rest, 0)
  {
    BranchOverRun(a, rest, []);
  }

  /** Building the lines of a well-formed tree in normal form gives the tree back. */
  lemma {:induction false} BuildSerialize(bs: seq<Block>)
    requires WellFormed(bs) && Normal(bs)
    ensures Build(Serialize(bs)) == bs
    decreases bs, 0
  {
    hide Build, Serialize, WellFormed, Normal, SerializeBlock, NormalBlock, WellFormedBlock, Follows;
    if bs == [] {
      SerializeNone();
      BuildNone();
    } else {
      WellFormedParts(bs);
      NormalParts(bs);
      BuildSerialize(bs[1..]);
      assert bs == [bs[0]] + bs[1..];
      SerializeCons(bs[0], bs[1..]);
      match bs[0] {
        case Text(_) => BuildTextBack(bs);
        case Macro(_) => BuildMacroBack(bs);
        case Section(_, children) =>
          SectionParts(bs[0]);
          BuildSerialize(children);
          BuildSectionBack(bs);
        case Cond(_, _, _, _, _) =>
          CondParts(bs[0]);
          BuildCondSerialize(bs[0]);
          BuildCondBack(bs);
      }
    }
  }

  lemma NormalParts(bs: seq<Block>)
    requires Normal(bs) && bs != []
    ensures NormalBlock(bs[0]) && Normal(bs[1..]) && (|bs| > 1 ==> Follows(bs[0], bs[1]))
  {
  }

  /** How the lines of a well-formed tree start. */
  lemma FirstLine(bs: seq<Block>)
    requires WellFormed(bs) && bs != []
    ensures var ls := Serialize(bs);
            && ls != [] && !ls[0].inBody
            && (bs[0].Section? ==> ls[0].Heads()) && (bs[0].Cond? ==> ls[0].Opens())
               && (bs[0].Macro? ==> ls[0].Defines())
            && (bs[0].Text? ==> ls[0].Plain())
  {
    hide SectionsOf, Serialize, WellFormed, WellFormedBranches, SerializeBranches;
    WellFormedParts(bs);
    assert bs == [bs[0]] + bs[1..];
    SerializeCons(bs[0], bs[1..]);
    if bs[0].Text? {
      assert bs[0].lines[0] in bs[0].lines;
    }
  }

  lemma BuildTextBack(bs: seq<Block>)
    requires bs != [] && bs[0].Text? && WellFormed(bs) && Normal(bs)
    requires Build(Serialize(bs[1..])) == bs[1..] && Serialize(bs) == SerializeBlock(bs[0]) + Serialize(bs[1..])
    ensures Build(Serialize(bs)) == bs
  {
    hide Build, Serialize, WellFormed, TextRun, Normal;
    WellFormedParts(bs);
    NormalParts(bs);
    var lines, rest := bs[0].lines, Serialize(bs[1..]);
    var all := lines + rest;
    assert lines[0] in lines && all[..|lines|] == lines && all[|lines|..] == rest;
    if |bs| > 1 {
      FirstLine(bs[1..]);
    } else {
      SerializeNone();
    }
    TextRunIs(all, |lines|);
    BuildText(all);
    assert bs == [bs[0]] + bs[1..];
  }

  lemma BuildMacroBack(bs: seq<Block>)
    requires bs != [] && bs[0].Macro? && WellFormed(bs)
    requires Build(Serialize(bs[1..])) == bs[1..] && Serialize(bs) == SerializeBlock(bs[0]) + Serialize(bs[1..])
    ensures Build(Serialize(bs)) == bs
  {
    hide Build, Serialize, WellFormed, BodyRun;
    WellFormedParts(bs);
    var lines, rest := bs[0].lines, Serialize(bs[1..]);
    var all := lines + rest;
    if |bs| > 1 {
      FirstLine(bs[1..]);
    } else {
      SerializeNone();
    }
    var n := |lines| - 1;
    forall i | 0 <= i < n ensures all[1..][i].inBody {
      assert all[1..][i] == lines[i + 1];
    }
    assert rest != [] ==> all[1..][n] == rest[0];
    BodyRunIs(all[1..], n);
    BuildUnfolds(all);
    assert all[..|lines|] == lines && all[|lines|..] == rest && bs == [bs[0]] + bs[1..];
  }

  lemma SectionParts(b: Block)
    requires b.Section? && WellFormedBlock(b) && NormalBlock(b)
    ensures WellFormed(b.children) && Normal(b.children) && SectionsOf(b.children) == []
  {
  }

  lemma CondParts(b: Block)
    requires b.Cond? && WellFormedBlock(b)
    ensures WellFormedBranches(b) && b.endif.Some? && b.endif.value.Closes() && b.opener.Opens()
  {
  }

  /** The lines after a section end it. */
  lemma EndsSection(bs: seq<Block>)
    requires WellFormed(bs) && (bs != [] ==> WrapsSections(bs[0]))
    ensures SectionEnd(Serialize(bs)) == 0
  {
    hide Serialize, WellFormed, SerializeBranches, WellFormedBranches, CloseAt, HasHeader, SectionsIn, SectionEnd;
    if bs == [] {
      SerializeNone();
      NoEnd();
    } else {
      WellFormedParts(bs);
      FirstLine(bs);
      var ls := Serialize(bs);
      if bs[0].Cond? {
        CondParts(bs[0]);
        var body, endif, rest := SerializeBranches(bs[0]), bs[0].endif.value, Serialize(bs[1..]);
        assert bs == [bs[0]] + bs[1..];
        SerializeCons(bs[0], bs[1..]);
        assert ls[1..] == body + ([endif] + rest);
        CloseOverBranches(bs[0], [endif] + rest);
        CloseAtCons(endif, rest, 1);
        assert ls[1..][..|body|] == body;
        HeaderInBranches(bs[0]);
      }
      EndsAtWrapper(ls);
    }
  }

  lemma NoEnd()
    ensures SectionEnd([]) == 0
  {
  }

  lemma EndsAtWrapper(ls: seq<Line>)
    requires ls != []
    requires ls[0].Heads() || (ls[0].Opens() && CloseAt(ls[1..], 1) < |ls| - 1
             && HasHeader(ls[1..][..CloseAt(ls[1..], 1)]))
    ensures SectionEnd(ls) == 0
  {
  }

  lemma HeaderInBranches(b: Block)
    requires b.Cond? && WellFormedBranches(b) && SectionsIn(b) != []
    ensures HasHeader(SerializeBranches(b))
  {
    hide HeadsOf, HasHeader, WellFormedBranches, SerializeBranches, SectionsOf;
    HeadsOfBranches(b);
    SectionsHaveHeadersBranches(b);
    assert HeadsOf(SerializeBranches(b)) != [];
  }

  lemma BuildSectionBack(bs: seq<Block>)
    requires bs != [] && bs[0].Section? && WellFormed(bs) && Normal(bs)
    requires SectionsOf(bs[0].children) == [] && WellFormed(bs[0].children)
             && Build(Serialize(bs[0].children)) == bs[0].children
    requires Build(Serialize(bs[1..])) == bs[1..] && Serialize(bs) == SerializeBlock(bs[0]) + Serialize(bs[1..])
    ensures Build(Serialize(bs)) == bs
  {
    hide Build, Serialize, WellFormed, SectionEnd, Normal, SectionsOf, HasHeader, Balanced, WrapsSections;
    WellFormedParts(bs);
    NormalParts(bs);
    var h, content, rest := bs[0].header.value, Serialize(bs[0].children), Serialize(bs[1..]);
    EndsSection(bs[1..]);
    SerializeBalanced(bs[0].children);
    HeadsOfSerialize(bs[0].children);
    HeadsOfNone();
    var all := [h] + content + rest;
    assert all[1..] == content + rest;
    SectionEndOver(content, rest);
    BuildUnfolds(all);
    assert all[1..][..|content|] == content && all[|content| + 1..] == rest && bs == [bs[0]] + bs[1..];
  }

  /** Building a conditional from the lines between its directives gives it back. */
  lemma {:induction false} BuildCondSerialize(b: Block)
    requires b.Cond? && WellFormedBranches(b) && NormalBlock(b)
    ensures BuildCond(b.opener, SerializeBranches(b), b.endif) == b
    decreases b, 1
  {
    hide Build, BuildCond, Serialize, SerializeBranches, WellFormed, Normal, BranchAt, Balanced;
    var thn, dir, els := Serialize(b.thn), OptLine(b.elseDirective), Serialize(b.els);
    SerializeBalanced(b.thn);
    BuildSerialize(b.thn);
    BranchesAre(b);
    var body := SerializeBranches(b);
    BranchOverBalanced(thn, dir + els);
    CondUnfolds(b.opener, body, b.endif);
    if b.elseDirective.Some? {
      BuildSerialize(b.els);
      BranchAtNow(b.elseDirective.value, els);
      assert body[..|thn|] == thn && body[|thn| + 1..] == els;
    } else if b.els == [] {
      SerializeNone();
      BranchAtNone();
      assert dir + els == [] && body == thn;
    } else {
      var inner := b.els[0];
      NormalParts(b.els);
      BuildCondSerialize(inner);
      InnerLines(b.els);
      BranchAtNow(inner.opener, SerializeBranches(inner));
      assert dir + els == [inner.opener] + SerializeBranches(inner);
      assert body[..|thn|] == thn && body[|thn| + 1..] == SerializeBranches(inner);
    }
  }

  lemma BranchesAre(b: Block)
    requires b.Cond?
    ensures SerializeBranches(b) == Serialize(b.thn) + (OptLine(b.elseDirective) + Serialize(b.els))
  {
    hide Serialize;
  }

  lemma InnerLines(els: seq<Block>)
    requires IsElifChain(els)
    ensures els == [els[0]] && Serialize(els) == [els[0].opener] + SerializeBranches(els[0])
  {
    hide Serialize, SerializeBranches, WellFormedBranches;
    assert els == [els[0]];
    SerializeOne(els[0]);
  }

  lemma CondUnfolds(opener: Line, body: seq<Line>, endif: Option<Line>)
    ensures var n := BranchAt(body, 0);
            BuildCond(opener, body, endif)
            == if n == |body| then Cond(opener, Build(body), None, [], endif)
               else if body[n].IsElif() then
                 Cond(opener, Build(body[..n]), None, [BuildCond(body[n], body[n + 1..], None)], endif)
               else Cond(opener, Build(body[..n]), Some(body[n]), Build(body[n + 1..]), endif)
  {
    hide Build, BranchAt;
  }

  lemma BranchAtNow(l: Line, rest: seq<Line>)
    requires l.Branches()
    ensures BranchAt([l] + rest, 0) == 0
  {
  }

  lemma BranchAtNone()
    ensures BranchAt([], 0) == 0
  {
  }

  lemma BuildCondBack(bs: seq<Block>)
    requires bs != [] && bs[0].Cond? && WellFormed(bs)
    requires BuildCond(bs[0].opener, SerializeBranches(bs[0]), bs[0].endif) == bs[0]
    requires Build(Serialize(bs[1..])) == bs[1..] && Serialize(bs) == SerializeBlock(bs[0]) + Serialize(bs[1..])
    ensures Build(Serialize(bs)) == bs
  {
    hide Build, BuildCond, Serialize, WellFormed, SerializeBranches, WellFormedBranches, CloseAt;
    WellFormedParts(bs);
    CondParts(bs[0]);
    var body, endif, rest := SerializeBranches(bs[0]), bs[0].endif.value, Serialize(bs[1..]);
    var all := [bs[0].opener] + body + [endif] + rest;
    assert all == Serialize(bs) && all[1..] == body + ([endif] + rest);
    CloseOverBranches(bs[0], [endif] + rest);
    CloseAtCons(endif, rest, 1);
    BuildUnfoldsOpener(all);
    assert all[1..][..|body|] == body && all[|body| + 1] == endif && all[|body| + 2..] == rest
      && bs == [bs[0]] + bs[1..];
  }

  // ---------------------------------------------------------------- parsing gives the one normal tree

  lemma {:induction false} NormalParted(bs: seq<Block>, n: nat)
    requires Normal(bs) && n <= |bs|
    ensures Normal(bs[..n]) && Normal(bs[n..])
  {
    hide Follows, NormalBlock;
    if n > 0 {
      NormalParted(bs[1..], n - 1);
      assert bs[..n][1..] == bs[1..][..n - 1] && bs[1..][n - 1..] == bs[n..];
    } else {
      assert bs[0..] == bs;
    }
  }

  lemma {:induction false} NormalJoined(a: seq<Block>, b: seq<Block>)
    requires Normal(a) && Normal(b) && (b != [] ==> WrapsSections(b[0]))
    ensures Normal(a + b)
  {
    hide NormalBlock;
    if a == [] {
      assert a + b == b;
    } else {
      NormalJoined(a[1..], b);
      assert (a + b)[1..] == a[1..] + b;
    }
  }

  lemma {:induction false} NoSectionsNoWraps(bs: seq<Block>)
    requires SectionsOf(bs) == []
    ensures forall i :: 0 <= i < |bs| ==> !WrapsSections(bs[i])
  {
    if bs != [] {
      NoSectionsNoWraps(bs[1..]);
    }
  }

  lemma WrapNormal(bs: seq<Block>)
    requires Normal(bs)
    ensures NormalRoot(WrapPreamble(bs))
  {
    hide Normal, WrapsSections, PreambleEnd;
    NormalParted(bs, PreambleEnd(bs));
    assert WrapPreamble(bs)[1..] == bs[PreambleEnd(bs)..];
  }

  lemma {:induction false} PreambleEndIs(bs: seq<Block>, n: nat)
    requires n <= |bs| && (forall i :: 0 <= i < n ==> !WrapsSections(bs[i])) && (n < |bs| ==> WrapsSections(bs[n]))
    ensures PreambleEnd(bs) == n
  {
    hide WrapsSections;
    if n > 0 {
      PreambleEndIs(bs[1..], n - 1);
    }
  }

  /** A root in normal form is its own blocks, wrapped again. */
  lemma RootIsWrapped(root: seq<Block>)
    requires WellFormedRoot(root) && NormalRoot(root)
    ensures root != [] && root[0].Section?
    ensures var bs := root[0].children + root[1..];
            WellFormed(bs) && Normal(bs) && WrapPreamble(bs) == root && Serialize(bs) == Serialize(root)
  {
    hide Normal, WellFormed, Serialize, SectionsOf, WrapsSections, PreambleEnd;
    var a, b := root[0].children, root[1..];
    WellFormedConcat(a, b);
    NormalJoined(a, b);
    NoSectionsNoWraps(a);
    RootHeads(root);
    SerializeConcat(a, b);
    assert forall i :: 0 <= i < |a| ==> (a + b)[i] == a[i];
    assert b != [] ==> (a + b)[|a|] == b[0];
    PreambleEndIs(a + b, |a|);
    assert (a + b)[..|a|] == a && (a + b)[|a|..] == b && root == [root[0]] + b;
  }

  /** Parsing gives a tree exactly when that tree is well formed, in normal form and made of
      these lines: round trip and inverse round trip, and no other tree has both. */
  lemma ParsesExactly(raw: seq<string>, root: seq<Block>)
    ensures Parse(raw) == Success(root) <==>
              !EndsInMacro(raw) && WellFormedRoot(root) && NormalRoot(root) && Serialize(root) == Masked(raw)
  {
    if Parse(raw) == Success(root) {
      ParsedIsNormal(raw);
      ParsedIsWellFormed(raw);
      RoundTrip(raw);
    }
    if !EndsInMacro(raw) && WellFormedRoot(root) && NormalRoot(root) && Serialize(root) == Masked(raw) {
      NormalParses(raw, root);
    }
  }

  lemma ParsedIsNormal(raw: seq<string>)
    requires Parse(raw).Success?
    ensures NormalRoot(Parse(raw).value)
  {
    hide Masked, Build, Shaped, Balanced, Lexed, ModeEnd, WrapPreamble, NormalRoot, Normal;
    MaskedFacts(raw);
    MatchingIsBalanced(Masked(raw));
    BuildNormal(Masked(raw));
    WrapNormal(Build(Masked(raw)));
  }

  lemma NormalParses(raw: seq<string>, root: seq<Block>)
    requires !EndsInMacro(raw) && WellFormedRoot(root) && NormalRoot(root) && Serialize(root) == Masked(raw)
    ensures Parse(raw) == Success(root)
  {
    hide Masked, EndsInMacro, Build, Serialize, WellFormed, Normal, WrapPreamble, WellFormedRoot, NormalRoot,
      Balanced, Matching;
    RootIsWrapped(root);
    var bs := root[0].children + root[1..];
    BuildSerialize(bs);
    SerializeBalanced(bs);
    MatchingIsBalanced(Masked(raw));
  }

  // ---------------------------------------------------------------- up to labels

  function EraseLine(l: Line): Line {
    l.(no := 0)
  }

  function EraseLines(ls: seq<Line>): (r: seq<Line>)
    ensures |r| == |ls| && forall i :: 0 <= i < |ls| ==> r[i] == EraseLine(ls[i])
  {
    seq(|ls|, i requires 0 <= i < |ls| => EraseLine(ls[i]))
  }

  function EraseOpt(l: Option<Line>): Option<Line> {
    if l.Some? then Some(EraseLine(l.value)) else None
  }

  /** A tree without the labels of its lines. */
  function EraseBlock(b: Block): Block {
    match b
    case Text(lines) => Text(EraseLines(lines))
    case Macro(lines) => Macro(EraseLines(lines))
    case Section(header, children) => Section(EraseOpt(header), Erase(children))
    case Cond(opener, thn, elseDirective, els, endif) =>
      Cond(EraseLine(opener), Erase(thn), EraseOpt(elseDirective), Erase(els), EraseOpt(endif))
  }

  function Erase(bs: seq<Block>): (r: seq<Block>)
    ensures |r| == |bs| && forall i :: 0 <= i < |bs| ==> r[i] == EraseBlock(bs[i])
  {
    if bs == [] then [] else [EraseBlock(bs[0])] + Erase(bs[1..])
  }

  lemma {:induction false} ScansErased(ls: seq<Line>, d: nat)
    requires d > 0
    ensures CloseAt(EraseLines(ls), d) == CloseAt(ls, d)
  {
    if ls != [] {
      assert EraseLines(ls)[1..] == EraseLines(ls[1..]);
      ScansErased(ls[1..], if ls[0].Opens() then d + 1 else if ls[0].Closes() && d > 1 then d - 1 else d);
    }
  }

  lemma {:induction false} BranchAtErased(ls: seq<Line>, d: int)
    ensures BranchAt(EraseLines(ls), d) == BranchAt(ls, d)
  {
    if ls != [] {
      assert EraseLines(ls)[1..] == EraseLines(ls[1..]);
      BranchAtErased(ls[1..], if ls[0].Opens() then d + 1 else if ls[0].Closes() then d - 1 else d);
    }
  }

  lemma {:induction false} RunsErased(ls: seq<Line>)
    ensures TextRun(EraseLines(ls)) == TextRun(ls) && BodyRun(EraseLines(ls)) == BodyRun(ls)
  {
    if ls != [] {
      assert EraseLines(ls)[1..] == EraseLines(ls[1..]);
      RunsErased(ls[1..]);
    }
  }

  lemma HeaderErased(ls: seq<Line>)
    ensures HasHeader(EraseLines(ls)) <==> HasHeader(ls)
  {
    if l :| l in ls && l.Heads() {
      var i :| 0 <= i < |ls| && ls[i] == l;
      assert EraseLines(ls)[i].Heads() && EraseLines(ls)[i] in EraseLines(ls);
    }
    if l :| l in EraseLines(ls) && l.Heads() {
      var i :| 0 <= i < |ls| && EraseLines(ls)[i] == l;
      assert ls[i].Heads() && ls[i] in ls;
    }
  }

  lemma SliceErased(ls: seq<Line>, a: nat, b: nat)
    requires a <= b <= |ls|
    ensures EraseLines(ls)[a..b] == EraseLines(ls[a..b]) && EraseLines(ls)[a..] == EraseLines(ls[a..])
  {
  }

  lemma {:induction false} SectionEndErased(ls: seq<Line>)
    ensures SectionEnd(EraseLines(ls)) == SectionEnd(ls)
    decreases |ls|
  {
    hide CloseAt, HasHeader;
    if ls != [] && !ls[0].Heads() {
      var es := EraseLines(ls);
      SliceErased(ls, 1, |ls|);
      ScansErased(ls[1..], 1);
      var n := CloseAt(ls[1..], 1);
      if ls[0].Opens() && n < |ls| - 1 {
        SliceErased(ls[1..], 0, n);
        assert es[1..][..n] == es[1..][0..n] && ls[1..][..n] == ls[1..][0..n];
        HeaderErased(ls[1..][..n]);
        SliceErased(ls, n + 2, |ls|);
        SectionEndErased(ls[n + 2..]);
      } else {
        SectionEndErased(ls[1..]);
      }
    }
  }

  lemma {:induction false} EraseConcat(a: seq<Block>, b: seq<Block>)
    ensures Erase(a + b) == Erase(a) + Erase(b)
  {
    hide EraseBlock;
    assert forall i :: 0 <= i < |a + b| ==> Erase(a + b)[i] == (Erase(a) + Erase(b))[i];
  }

  lemma EraseCons(b: Block, bs: seq<Block>)
    ensures Erase([b] + bs) == [EraseBlock(b)] + Erase(bs)
  {
    hide EraseBlock;
    assert ([b] + bs)[1..] == bs;
  }

  /** Building does not look at labels. */
  lemma {:induction false} BuildErased(ls: seq<Line>)
    ensures Build(EraseLines(ls)) == Erase(Build(ls))
    decreases |ls|, 1
  {
    hide CloseAt, SectionEnd, BranchAt, TextRun, BodyRun, Build, BuildCond, Erase, EraseLines;
    var es := EraseLines(ls);
    if ls == [] {
      BuildNone();
      EraseNone();
    } else if ls[0].Opens() {
      BuildOpenerErased(ls);
    } else {
      SliceErased(ls, 1, |ls|);
      if ls[0].Heads() {
        var n := SectionEnd(ls[1..]);
        SectionEndErased(ls[1..]);
        SliceErased(ls[1..], 0, n);
        SliceErased(ls, n + 1, |ls|);
        assert es[1..][..n] == es[1..][0..n] && ls[1..][..n] == ls[1..][0..n];
        BuildErased(ls[1..][..n]);
        BuildErased(ls[n + 1..]);
        BuildUnfolds(ls);
        BuildUnfolds(es);
        EraseCons(Section(Some(ls[0]), Build(ls[1..][..n])), Build(ls[n + 1..]));
      } else if ls[0].Defines() {
        var n := BodyRun(ls[1..]);
        RunsErased(ls[1..]);
        SliceErased(ls, 0, n + 1);
        SliceErased(ls, n + 1, |ls|);
        assert es[..n + 1] == es[0..n + 1] && ls[..n + 1] == ls[0..n + 1];
        BuildErased(ls[n + 1..]);
        BuildUnfolds(ls);
        BuildUnfolds(es);
        EraseCons(Macro(ls[..n + 1]), Build(ls[n + 1..]));
      } else {
        var n := TextRun(ls);
        RunsErased(ls);
        SliceErased(ls, 0, n);
        SliceErased(ls, n, |ls|);
        assert es[..n] == es[0..n] && ls[..n] == ls[0..n];
        BuildErased(ls[n..]);
        BuildText(ls);
        BuildText(es);
        EraseCons(Text(ls[..n]), Build(ls[n..]));
      }
    }
  }

  lemma EraseNone()
    ensures EraseLines([]) == [] && Erase([]) == []
  {
  }

  lemma {:induction false} BuildOpenerErased(ls: seq<Line>)
    requires ls != [] && ls[0].Opens()
    ensures Build(EraseLines(ls)) == Erase(Build(ls))
    decreases |ls|, 0
  {
    hide CloseAt, Build, BuildCond, Erase, EraseLines;
    var es, n := EraseLines(ls), CloseAt(ls[1..], 1);
    SliceErased(ls, 1, |ls|);
    ScansErased(ls[1..], 1);
    BuildUnfoldsOpener(ls);
    BuildUnfoldsOpener(es);
    EraseNone();
    if n == |ls| - 1 {
      EraseCons(Text(ls), []);
      assert [Text(ls)] + [] == [Text(ls)] && [Text(es)] + [] == [Text(es)];
    } else {
      SliceErased(ls[1..], 0, n);
      assert es[1..][..n] == es[1..][0..n] && ls[1..][..n] == ls[1..][0..n];
      SliceErased(ls, n + 2, |ls|);
      BuildCondErased(ls[0], ls[1..][..n], Some(ls[n + 1]));
      BuildErased(ls[n + 2..]);
      EraseCons(BuildCond(ls[0], ls[1..][..n], Some(ls[n + 1])), Build(ls[n + 2..]));
    }
  }

  lemma {:induction false} BuildCondErased(opener: Line, body: seq<Line>, endif: Option<Line>)
    ensures BuildCond(EraseLine(opener), EraseLines(body), EraseOpt(endif))
            == EraseBlock(BuildCond(opener, body, endif))
    decreases |body|, 2
  {
    hide BranchAt, Build, BuildCond, Erase, EraseLines;
    var es, n := EraseLines(body), BranchAt(body, 0);
    BranchAtErased(body, 0);
    CondUnfolds(opener, body, endif);
    CondUnfolds(EraseLine(opener), es, EraseOpt(endif));
    EraseNone();
    if n == |body| {
      BuildErased(body);
    } else {
      SliceErased(body, 0, n);
      SliceErased(body, n + 1, |body|);
      assert es[..n] == es[0..n] && body[..n] == body[0..n];
      BuildErased(body[..n]);
      if body[n].IsElif() {
        var inner := BuildCond(body[n], body[n + 1..], None);
        BuildCondErased(body[n], body[n + 1..], None);
        EraseCons(inner, []);
        assert [inner] + [] == [inner] && [EraseBlock(inner)] + [] == [EraseBlock(inner)];
      } else {
        BuildErased(body[n + 1..]);
      }
    }
  }

  lemma {:induction false} SectionsErased(bs: seq<Block>)
    ensures SectionsOf(Erase(bs)) == [] <==> SectionsOf(bs) == []
    decreases bs, 0
  {
    hide Erase;
    if bs == [] {
      EraseNone();
    } else {
      assert bs == [bs[0]] + bs[1..];
      EraseCons(bs[0], bs[1..]);
      assert Erase(bs)[1..] == Erase(bs[1..]);
      SectionsInErased(bs[0]);
      SectionsErased(bs[1..]);
    }
  }

  lemma {:induction false} SectionsInErased(b: Block)
    ensures SectionsIn(EraseBlock(b)) == [] <==> SectionsIn(b) == []
    decreases b, 1
  {
    if b.Cond? {
      SectionsErased(b.thn);
      SectionsErased(b.els);
    }
  }

  lemma WrapsErased(b: Block)
    ensures WrapsSections(EraseBlock(b)) <==> WrapsSections(b)
  {
    SectionsInErased(b);
  }

  lemma WrapErased(bs: seq<Block>)
    ensures Erase(WrapPreamble(bs)) == WrapPreamble(Erase(bs))
  {
    hide Erase, WrapsSections, PreambleEnd;
    var es, n := Erase(bs), PreambleEnd(bs);
    forall i | 0 <= i < |bs| ensures WrapsSections(es[i]) <==> WrapsSections(bs[i]) {
      WrapsErased(bs[i]);
    }
    PreambleEndIs(es, n);
    assert bs == bs[..n] + bs[n..];
    EraseConcat(bs[..n], bs[n..]);
    assert es[..n] == Erase(bs[..n]) && es[n..] == Erase(bs[n..]);
    EraseCons(Section(None, bs[..n]), bs[n..]);
  }

  lemma {:induction false} NormalErased(bs: seq<Block>)
    ensures Normal(Erase(bs)) <==> Normal(bs)
    decreases bs, 0
  {
    hide Erase, EraseBlock, NormalBlock, WrapsSections;
    if bs == [] {
      EraseNone();
    } else {
      assert bs == [bs[0]] + bs[1..];
      EraseCons(bs[0], bs[1..]);
      assert Erase(bs)[1..] == Erase(bs[1..]);
      NormalBlockErased(bs[0]);
      NormalErased(bs[1..]);
      if |bs| > 1 {
        FollowsErased(bs[0], bs[1]);
      }
    }
  }

  lemma FollowsErased(a: Block, b: Block)
    ensures Follows(EraseBlock(a), EraseBlock(b)) <==> Follows(a, b)
  {
    hide WrapsSections;
    WrapsErased(b);
  }

  lemma {:induction false} NormalBlockErased(b: Block)
    ensures NormalBlock(EraseBlock(b)) <==> NormalBlock(b)
    decreases b, 1
  {
    match b
    case Section(_, children) => NormalErased(children);
    case Cond(_, thn, _, els, _) =>
      NormalErased(thn);
      NormalErased(els);
    case _ =>
  }

  lemma NormalRootErased(root: seq<Block>)
    ensures NormalRoot(Erase(root)) <==> NormalRoot(root)
  {
    hide Erase, Normal, WrapsSections;
    var es := Erase(root);
    if root != [] && root[0].Section? {
      NormalErased(root[0].children);
      NormalErased(root[1..]);
      assert root == [root[0]] + root[1..];
      EraseCons(root[0], root[1..]);
      assert es[1..] == Erase(root[1..]);
      if |root| > 1 {
        WrapsErased(root[1]);
      }
    }
  }

  /** Parsing the lines of a well-formed tree again, whatever their labels, gives the same tree up
      to labels exactly when it is in normal form. */
  lemma ParsedAgain(root: seq<Block>, again: seq<string>)
    requires WellFormedRoot(root) && Parse(again).Success? && EraseLines(Masked(again)) == EraseLines(Serialize(root))
    ensures Erase(Parse(again).value) == Erase(root) <==> NormalRoot(root)
  {
    hide Masked, Build, Erase, EraseLines, Normal, NormalRoot, WellFormed, WellFormedRoot, WrapPreamble, Serialize,
      Matching, EndsInMacro;
    var ls := Serialize(root);
    ParsedIsNormal(again);
    NormalRootErased(Parse(again).value);
    NormalRootErased(root);
    if NormalRoot(root) {
      RootIsWrapped(root);
      var bs := root[0].children + root[1..];
      BuildSerialize(bs);
      BuildErased(ls);
      BuildErased(Masked(again));
      WrapErased(bs);
      WrapErased(Build(Masked(again)));
    }
  }
}
