/** The structural tree of a spec, its serialization, and the tree that balanced lines denote. */
module Tree {
  import opened Wrappers
  import opened Lines
  import opened Conditionals

  /** A node. The header line of a section or conditional also is its identity: labels are
      unique. The implicit preamble is a section without a header. For an %elif the `els` of a
      conditional is one nested conditional whose header is the %elif and which has no %endif. */
  datatype Block =
    | Text(lines: seq<Line>)
    | Macro(lines: seq<Line>)
    | Section(header: Option<Line>, children: seq<Block>)
    | Cond(opener: Line, thn: seq<Block>, elseDirective: Option<Line>, els: seq<Block>, endif: Option<Line>)

  function OptLine(l: Option<Line>): seq<Line> {
    if l.Some? then [l.value] else []
  }

  function SerializeBlock(b: Block): seq<Line> {
    match b
    case Text(lines) => lines
    case Macro(lines) => lines
    case Section(header, children) => OptLine(header) + Serialize(children)
    case Cond(opener, thn, elseDirective, els, endif) => [opener] + SerializeBranches(b) + OptLine(endif)
  }

  function SerializeBranches(b: Block): seq<Line>
    requires b.Cond?
    decreases b, 0
  {
    Serialize(b.thn) + OptLine(b.elseDirective) + Serialize(b.els)
  }

  function Serialize(bs: seq<Block>): seq<Line> {
    if bs == [] then [] else SerializeBlock(bs[0]) + Serialize(bs[1..])
  }

  // ---------------------------------------------------------------- line scans

  predicate HasHeader(ls: seq<Line>) {
    exists l <- ls :: l.Heads()
  }

  /** The leading run of lines kept as raw text. */
  function TextRun(ls: seq<Line>): (n: nat)
    ensures n <= |ls|
    ensures n == 0 <==> ls == [] || ls[0].Heads() || ls[0].Opens() || ls[0].Defines()
  {
    if ls == [] || ls[0].Heads() || ls[0].Opens() || ls[0].Defines() then 0 else 1 + TextRun(ls[1..])
  }

  /** The leading run of macro-body lines. */
  function BodyRun(ls: seq<Line>): (n: nat)
    ensures n <= |ls|
    ensures forall i :: 0 <= i < n ==> ls[i].inBody
    ensures n < |ls| ==> !ls[n].inBody
  {
    if ls == [] || !ls[0].inBody then 0 else 1 + BodyRun(ls[1..])
  }

  /** Where a section ends: at the next header, or at a conditional that wraps sections. */
  function SectionEnd(ls: seq<Line>): (n: nat)
    ensures n <= |ls|
    decreases |ls|
  {
    if ls == [] || ls[0].Heads() then 0
    else if ls[0].Opens() && CloseAt(ls[1..], 1) < |ls| - 1 then
      var n := CloseAt(ls[1..], 1);
      if HasHeader(ls[1..][..n]) then 0 else n + 2 + SectionEnd(ls[n + 2..])
    else 1 + SectionEnd(ls[1..])
  }

  // ---------------------------------------------------------------- building

  function Build(ls: seq<Line>): seq<Block>
    decreases |ls|, 0
  {
    if ls == [] then []
    else if ls[0].Heads() then
      var n := SectionEnd(ls[1..]);
      [Section(Some(ls[0]), Build(ls[1..][..n]))] + Build(ls[n + 1..])
    else if ls[0].Opens() then
      var n := CloseAt(ls[1..], 1);
      if n == |ls| - 1 then [Text(ls)]
      else [BuildCond(ls[0], ls[1..][..n], Some(ls[n + 1]))] + Build(ls[n + 2..])
    else if ls[0].Defines() then
      var n := BodyRun(ls[1..]);
      [Macro(ls[..n + 1])] + Build(ls[n + 1..])
    else
      var n := TextRun(ls);
      [Text(ls[..n])] + Build(ls[n..])
  }

  function BuildCond(opener: Line, body: seq<Line>, endif: Option<Line>): (b: Block)
    ensures b.Cond? && b.opener == opener && b.endif == endif
    decreases |body|, 1
  {
    var n := BranchAt(body, 0);
    if n == |body| then Cond(opener, Build(body), None, [], endif)
    else if body[n].IsElif() then
      Cond(opener, Build(body[..n]), None, [BuildCond(body[n], body[n + 1..], None)], endif)
    else
      Cond(opener, Build(body[..n]), Some(body[n]), Build(body[n + 1..]), endif)
  }

  // ---------------------------------------------------------------- one block at a time

  lemma {:induction false} BuildIs(ls: seq<Line>)
    requires ls != []
    ensures Build(ls) ==
            if ls[0].Heads() then
              [Section(Some(ls[0]), Build(ls[1..][..SectionEnd(ls[1..])]))] + Build(ls[SectionEnd(ls[1..]) + 1..])
            else if ls[0].Opens() then
              if CloseAt(ls[1..], 1) == |ls| - 1 then [Text(ls)]
              else
                [BuildCond(ls[0], ls[1..][..CloseAt(ls[1..], 1)], Some(ls[CloseAt(ls[1..], 1) + 1]))]
                + Build(ls[CloseAt(ls[1..], 1) + 2..])
            else if ls[0].Defines() then [Macro(ls[..BodyRun(ls[1..]) + 1])] + Build(ls[BodyRun(ls[1..]) + 1..])
            else [Text(ls[..TextRun(ls)])] + Build(ls[TextRun(ls)..])
  {
    hide SectionEnd, CloseAt, TextRun, BodyRun, BuildCond, BranchAt;
  }

  lemma {:induction false} BuildUnfolds(ls: seq<Line>)
    requires ls != []
    ensures ls[0].Heads() ==>
              Build(ls) == [Section(Some(ls[0]), Build(ls[1..][..SectionEnd(ls[1..])]))]
                + Build(ls[SectionEnd(ls[1..]) + 1..])
    ensures ls[0].Defines() ==> Build(ls) == [Macro(ls[..BodyRun(ls[1..]) + 1])] + Build(ls[BodyRun(ls[1..]) + 1..])
  {
    hide SectionEnd, CloseAt, TextRun, BodyRun, Build, BuildCond;
    BuildIs(ls);
  }

  lemma {:induction false} BuildUnfoldsOpener(ls: seq<Line>)
    requires ls != [] && ls[0].Opens()
    ensures var n := CloseAt(ls[1..], 1);
            Build(ls) == if n == |ls| - 1 then [Text(ls)]
              else [BuildCond(ls[0], ls[1..][..n], Some(ls[n + 1]))] + Build(ls[n + 2..])
  {
    hide SectionEnd, CloseAt, TextRun, BodyRun, Build, BuildCond;
    BuildIs(ls);
  }

  lemma BodyRunIs(ls: seq<Line>, n: nat)
    requires n <= |ls| && (forall k :: 0 <= k < n ==> ls[k].inBody) && (n < |ls| ==> !ls[n].inBody)
    ensures BodyRun(ls) == n
  {
    hide BodyRun;
  }

  predicate IsText(l: Line) {
    !l.Heads() && !l.Opens() && !l.Defines()
  }

  lemma {:induction false} TextRunIs(ls: seq<Line>, n: nat)
    requires n <= |ls| && (forall l <- ls[..n] :: IsText(l)) && (n < |ls| ==> !IsText(ls[n]))
    ensures TextRun(ls) == n
  {
    if n > 0 {
      assert ls[..n][0] == ls[0] && ls[..n][1..] == ls[1..][..n - 1];
      assert IsText(ls[0]);
      TextRunIs(ls[1..], n - 1);
    }
  }

  lemma {:induction false} TextRunStops(ls: seq<Line>)
    ensures TextRun(ls) < |ls| ==> !IsText(ls[TextRun(ls)])
  {
    if TextRun(ls) > 0 {
      TextRunStops(ls[1..]);
    }
  }

  lemma BuildNone()
    ensures Build([]) == []
  {
  }

  lemma {:induction false} BuildText(ls: seq<Line>)
    requires ls != [] && IsText(ls[0])
    ensures Build(ls) == [Text(ls[..TextRun(ls)])] + Build(ls[TextRun(ls)..])
  {
    hide SectionEnd, CloseAt, TextRun, BodyRun, Build, BuildCond;
    BuildIs(ls);
  }

  // ---------------------------------------------------------------- round trip

  lemma {:induction false} SerializeConcat(a: seq<Block>, b: seq<Block>)
    ensures Serialize(a + b) == Serialize(a) + Serialize(b)
  {
    if a == [] {
      assert a + b == b;
    } else {
      assert (a + b)[1..] == a[1..] + b;
      SerializeConcat(a[1..], b);
    }
  }

  lemma SerializeOne(b: Block)
    ensures Serialize([b]) == SerializeBlock(b)
  {
    assert [b][1..] == [];
  }

  lemma SerializeCons(b: Block, bs: seq<Block>)
    ensures Serialize([b] + bs) == SerializeBlock(b) + Serialize(bs)
  {
    SerializeConcat([b], bs);
    SerializeOne(b);
  }

  /** Whatever lines the tree is built from, serializing it gives them back. */
  lemma {:induction false} SerializeBuild(ls: seq<Line>)
    ensures Serialize(Build(ls)) == ls
    decreases |ls|, 1
  {
    hide CloseAt, SectionEnd, TextRun, BodyRun, Serialize, Build;
    if ls == [] {
      BuildNone();
      SerializeNone();
    } else if ls[0].Heads() {
      var n := SectionEnd(ls[1..]);
      BuildUnfolds(ls);
      SerializeBuild(ls[1..][..n]);
      SerializeBuild(ls[n + 1..]);
      SerializeCons(Section(Some(ls[0]), Build(ls[1..][..n])), Build(ls[n + 1..]));
      assert ls == [ls[0]] + ls[1..][..n] + ls[n + 1..];
    } else if ls[0].Opens() {
      SerializeBuildOpener(ls);
    } else if ls[0].Defines() {
      var n := BodyRun(ls[1..]);
      BuildUnfolds(ls);
      SerializeBuild(ls[n + 1..]);
      SerializeCons(Macro(ls[..n + 1]), Build(ls[n + 1..]));
    } else {
      var n := TextRun(ls);
      BuildText(ls);
      SerializeBuild(ls[n..]);
      SerializeCons(Text(ls[..n]), Build(ls[n..]));
    }
  }

  lemma {:induction false} SerializeBuildOpener(ls: seq<Line>)
    requires ls != [] && ls[0].Opens()
    ensures Serialize(Build(ls)) == ls
    decreases |ls|, 0
  {
    hide CloseAt, Serialize, Build, BuildCond;
    var n := CloseAt(ls[1..], 1);
    BuildUnfoldsOpener(ls);
    if n == |ls| - 1 {
      SerializeOne(Text(ls));
    } else {
      var b := BuildCond(ls[0], ls[1..][..n], Some(ls[n + 1]));
      SerializeBuildCond(ls[0], ls[1..][..n], Some(ls[n + 1]));
      SerializeBuild(ls[n + 2..]);
      SerializeCons(b, Build(ls[n + 2..]));
      assert ls == [ls[0]] + ls[1..][..n] + [ls[n + 1]] + ls[n + 2..];
    }
  }

  lemma {:induction false} SerializeBuildCond(opener: Line, body: seq<Line>, endif: Option<Line>)
    ensures SerializeBranches(BuildCond(opener, body, endif)) == body
    decreases |body|, 2
  {
    hide BranchAt, Serialize, Build;
    var n := BranchAt(body, 0);
    if n == |body| {
      SerializeBuild(body);
      SerializeNone();
    } else if body[n].IsElif() {
      var inner := BuildCond(body[n], body[n + 1..], None);
      SerializeBuild(body[..n]);
      SerializeBuildCond(body[n], body[n + 1..], None);
      SerializeOne(inner);
      assert SerializeBlock(inner) == [body[n]] + body[n + 1..] + [];
    } else {
      SerializeBuild(body[..n]);
      SerializeBuild(body[n + 1..]);
    }
  }

  lemma SerializeNone()
    ensures Serialize([]) == []
  {
  }
}
