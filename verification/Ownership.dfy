/** Which section owns a line, on every choice of conditional branches, and the check that a
    removal hands no surviving line to another section. */
module Ownership {
  import opened Wrappers
  import opened Lines
  import opened Tree
  import opened Grammar
  import opened Parser

  // ---------------------------------------------------------------- meaning, on lines

  /** A line in effect and the section header in force above it. */
  datatype Owned = Owned(line: nat, owner: Option<nat>)

  /** An open conditional: is its current branch active, has one of its branches been taken. */
  datatype Level = Level(active: bool, done: bool)

  datatype Trace = Trace(owned: seq<Owned>, levels: seq<Level>, owner: Option<nat>)

  predicate Live(levels: seq<Level>) {
    forall v <- levels :: v.active
  }

  /** Not blank and not a comment. */
  predicate Meaningful(l: Line) {
    l.kind != Content(false)
  }

  /** Lines whose owner matters: meaningful text and every line of a macro definition. */
  predicate Matters(l: Line) {
    l.inBody || l.Defines() || (l.Plain() && Meaningful(l))
  }

  /** One line of a spec read with the conditions in `taken` true and all others false. */
  function ExecLine(l: Line, taken: set<nat>, levels: seq<Level>, owner: Option<nat>): Trace {
    var yes := l.no in taken;
    if l.Opens() then Trace([], levels + [Level(yes, yes)], owner)
    else if l.Closes() && levels != [] then Trace([], levels[..|levels| - 1], owner)
    else if l.Branches() && levels != [] then
      var v := levels[|levels| - 1];
      var v' := if v.done then Level(false, true) else if l.IsElse() then Level(true, true) else Level(yes, yes);
      Trace([], levels[..|levels| - 1] + [v'], owner)
    else if l.Heads() && Live(levels) then Trace([], levels, Some(l.no))
    else if Matters(l) && Live(levels) then Trace([Owned(l.no, owner)], levels, owner)
    else Trace([], levels, owner)
  }

  function Exec(ls: seq<Line>, taken: set<nat>, levels: seq<Level>, owner: Option<nat>): Trace {
    if ls == [] then Trace([], levels, owner)
    else
      var t := ExecLine(ls[0], taken, levels, owner);
      var r := Exec(ls[1..], taken, t.levels, t.owner);
      Trace(t.owned + r.owned, r.levels, r.owner)
  }

  /** The lines in effect and their owners, for one choice of conditions. */
  function OwnedOf(ls: seq<Line>, taken: set<nat>): seq<Owned> {
    Exec(ls, taken, [], None).owned
  }

  lemma {:induction false} ExecConcat(a: seq<Line>, b: seq<Line>, taken: set<nat>, levels: seq<Level>,
    owner: Option<nat>)
    ensures var t := Exec(a, taken, levels, owner);
            var r := Exec(b, taken, t.levels, t.owner);
            Exec(a + b, taken, levels, owner) == Trace(t.owned + r.owned, r.levels, r.owner)
  {
    hide ExecLine;
    if a == [] {
      assert a + b == b;
    } else {
      assert (a + b)[1..] == a[1..] + b;
      var t := ExecLine(a[0], taken, levels, owner);
      ExecConcat(a[1..], b, taken, t.levels, t.owner);
    }
  }

  lemma ExecOne(l: Line, taken: set<nat>, levels: seq<Level>, owner: Option<nat>)
    ensures Exec([l], taken, levels, owner) == ExecLine(l, taken, levels, owner)
  {
    assert [l][1..] == [];
  }

  // ---------------------------------------------------------------- meaning, on trees

  datatype Walked = Walked(owned: seq<Owned>, owner: Option<nat>)

  function OwnedLines(ls: seq<Line>, owner: Option<nat>): seq<Owned> {
    if ls == [] then []
    else (if Matters(ls[0]) then [Owned(ls[0].no, owner)] else []) + OwnedLines(ls[1..], owner)
  }

  function WalkBlock(b: Block, taken: set<nat>, owner: Option<nat>): Walked {
    match b
    case Text(lines) => Walked(OwnedLines(lines, owner), owner)
    case Macro(lines) => Walked(OwnedLines(lines, owner), owner)
    case Section(header, children) =>
      var own := if header.Some? then Some(header.value.no) else owner;
      Walked(Walk(children, taken, own).owned, own)
    case Cond(opener, thn, _, els, _) => if opener.no in taken then Walk(thn, taken, owner) else Walk(els, taken, owner)
  }

  function Walk(bs: seq<Block>, taken: set<nat>, owner: Option<nat>): Walked {
    if bs == [] then Walked([], owner)
    else
      var w := WalkBlock(bs[0], taken, owner);
      var r := Walk(bs[1..], taken, w.owner);
      Walked(w.owned + r.owned, r.owner)
  }

  lemma {:induction false} NoSectionsKeepOwner(bs: seq<Block>, taken: set<nat>, owner: Option<nat>)
    requires SectionsOf(bs) == []
    ensures Walk(bs, taken, owner).owner == owner
    decreases bs, 0
  {
    if bs != [] {
      assert SectionsIn(bs[0]) == [];
      match bs[0] {
        case Cond(opener, thn, _, els, _) =>
          NoSectionsKeepOwner(thn, taken, owner);
          NoSectionsKeepOwner(els, taken, owner);
        case _ =>
      }
      NoSectionsKeepOwner(bs[1..], taken, owner);
    }
  }

  // ------------------------------------------------------- the tree means what its lines mean

  /** Under an inactive branch nothing is in effect. */
  lemma {:induction false} ExecDead(bs: seq<Block>, taken: set<nat>, levels: seq<Level>, owner: Option<nat>)
    requires WellFormed(bs) && !Live(levels)
    ensures Exec(Serialize(bs), taken, levels, owner) == Trace([], levels, owner)
    decreases bs, 0
  {
    if bs != [] {
      hide Exec, WellFormed;
      WellFormedParts(bs);
      ExecDeadBlock(bs[0], taken, levels, owner);
      ExecDead(bs[1..], taken, levels, owner);
      ExecConcat(SerializeBlock(bs[0]), Serialize(bs[1..]), taken, levels, owner);
    }
  }

  lemma {:induction false} ExecInertDead(ls: seq<Line>, taken: set<nat>, levels: seq<Level>, owner: Option<nat>)
    requires !Live(levels) && forall l <- ls :: Inert(l)
    ensures Exec(ls, taken, levels, owner) == Trace([], levels, owner)
  {
    if ls != [] {
      assert Inert(ls[0]);
      ExecInertDead(ls[1..], taken, levels, owner);
    }
  }

  lemma {:induction false} ExecDeadBlock(b: Block, taken: set<nat>, levels: seq<Level>, owner: Option<nat>)
    requires WellFormedBlock(b) && !Live(levels)
    ensures Exec(SerializeBlock(b), taken, levels, owner) == Trace([], levels, owner)
    decreases b, 2
  {
    hide Exec;
    match b
    case Text(lines) => ExecInertDead(lines, taken, levels, owner);
    case Macro(lines) =>
      forall l | l in lines ensures Inert(l) {
        var i :| 0 <= i < |lines| && lines[i] == l;
      }
      ExecInertDead(lines, taken, levels, owner);
    case Section(header, children) =>
      ExecInertDead([header.value], taken, levels, owner);
      ExecDead(children, taken, levels, owner);
      ExecConcat([header.value], Serialize(children), taken, levels, owner);
    case Cond(opener, _, _, _, endif) =>
      var yes := opener.no in taken;
      var v := Level(yes, yes);
      ExecOne(opener, taken, levels, owner);
      var v' := ExecDeadBranches(b, taken, levels, v, owner);
      ExecOne(endif.value, taken, levels + [v'], owner);
      assert (levels + [v'])[..|levels|] == levels;
      ExecConcat([opener], SerializeBranches(b), taken, levels, owner);
      ExecConcat([opener] + SerializeBranches(b), [endif.value], taken, levels, owner);
  }

  /** Branches of a conditional that is in an inactive branch, or has already taken one. */
  lemma {:induction false} ExecDeadBranches(b: Block, taken: set<nat>, levels: seq<Level>, v: Level, owner: Option<nat>)
    returns (v': Level)
    requires b.Cond? && WellFormedBranches(b) && (!Live(levels) || (v.done && !v.active))
    ensures Exec(SerializeBranches(b), taken, levels + [v], owner) == Trace([], levels + [v'], owner)
    decreases b, 1
  {
    hide Exec, WellFormed;
    var thn, dir, els := Serialize(b.thn), OptLine(b.elseDirective), Serialize(b.els);
    assert SerializeBranches(b) == thn + (dir + els);
    NotLive(levels, v);
    ExecDead(b.thn, taken, levels + [v], owner);
    ExecConcat(thn, dir + els, taken, levels + [v], owner);
    if b.elseDirective.Some? {
      v' := if v.done then Level(false, true) else Level(true, true);
      ExecBranchLine(b.elseDirective.value, taken, levels, v, owner);
      NotLive(levels, v');
      ExecDead(b.els, taken, levels + [v'], owner);
      ExecConcat(dir, els, taken, levels + [v], owner);
    } else if b.els == [] {
      v' := v;
      assert dir + els == [];
      ExecNone(taken, levels + [v], owner);
    } else {
      var inner := b.els[0];
      assert b.els == [inner];
      SerializeOne(inner);
      assert dir + els == [inner.opener] + SerializeBranches(inner);
      var yes := inner.opener.no in taken;
      var v1 := if v.done then Level(false, true) else Level(yes, yes);
      ExecBranchLine(inner.opener, taken, levels, v, owner);
      v' := ExecDeadBranches(inner, taken, levels, v1, owner);
      ExecConcat([inner.opener], SerializeBranches(inner), taken, levels + [v], owner);
    }
  }

  lemma NotLive(levels: seq<Level>, v: Level)
    ensures Live(levels + [v]) <==> Live(levels) && v.active
  {
    assert (levels + [v])[|levels|] == v;
    assert forall u :: u in levels + [v] <==> u in levels || u == v;
  }

  lemma ExecNone(taken: set<nat>, levels: seq<Level>, owner: Option<nat>)
    ensures Exec([], taken, levels, owner) == Trace([], levels, owner)
  {
  }

  lemma ExecBranchLine(l: Line, taken: set<nat>, levels: seq<Level>, v: Level, owner: Option<nat>)
    requires l.Branches()
    ensures var yes := l.no in taken;
            var v' := if v.done then Level(false, true) else if l.IsElse() then Level(true, true) else Level(yes, yes);
            Exec([l], taken, levels + [v], owner) == Trace([], levels + [v'], owner)
  {
    ExecOne(l, taken, levels + [v], owner);
    assert (levels + [v])[..|levels|] == levels;
  }

  /** In effect, the tree and its lines say the same. */
  lemma {:induction false} ExecLive(bs: seq<Block>, taken: set<nat>, levels: seq<Level>, owner: Option<nat>)
    requires WellFormed(bs) && Live(levels)
    ensures var w := Walk(bs, taken, owner);
            Exec(Serialize(bs), taken, levels, owner) == Trace(w.owned, levels, w.owner)
    decreases bs, 0
  {
    if bs != [] {
      hide Exec, WellFormed;
      WellFormedParts(bs);
      ExecLiveBlock(bs[0], taken, levels, owner);
      var w := WalkBlock(bs[0], taken, owner);
      ExecLive(bs[1..], taken, levels, w.owner);
      ExecConcat(SerializeBlock(bs[0]), Serialize(bs[1..]), taken, levels, owner);
    }
  }

  lemma {:induction false} ExecLeaf(ls: seq<Line>, taken: set<nat>, levels: seq<Level>, owner: Option<nat>)
    requires Live(levels) && forall l <- ls :: Inert(l) && !l.Heads()
    ensures Exec(ls, taken, levels, owner) == Trace(OwnedLines(ls, owner), levels, owner)
  {
    if ls != [] {
      assert Inert(ls[0]) && !ls[0].Heads();
      ExecLeaf(ls[1..], taken, levels, owner);
    }
  }

  lemma {:induction false} ExecLiveBlock(b: Block, taken: set<nat>, levels: seq<Level>, owner: Option<nat>)
    requires WellFormedBlock(b) && Live(levels)
    ensures var w := WalkBlock(b, taken, owner);
            Exec(SerializeBlock(b), taken, levels, owner) == Trace(w.owned, levels, w.owner)
    decreases b, 2
  {
    hide Exec, Walk;
    match b
    case Text(lines) => ExecLeaf(lines, taken, levels, owner);
    case Macro(lines) =>
      forall l | l in lines ensures Inert(l) && !l.Heads() {
        var i :| 0 <= i < |lines| && lines[i] == l;
      }
      ExecLeaf(lines, taken, levels, owner);
    case Section(header, children) =>
      var own := Some(header.value.no);
      ExecOne(header.value, taken, levels, owner);
      ExecLive(children, taken, levels, own);
      NoSectionsKeepOwner(children, taken, own);
      ExecConcat([header.value], Serialize(children), taken, levels, owner);
    case Cond(opener, _, _, _, endif) =>
      var yes := opener.no in taken;
      ExecOne(opener, taken, levels, owner);
      var v' := ExecLiveBranches(b, taken, levels, owner);
      var w := WalkBlock(b, taken, owner);
      ExecOne(endif.value, taken, levels + [v'], w.owner);
      assert (levels + [v'])[..|levels|] == levels;
      ExecConcat([opener], SerializeBranches(b), taken, levels, owner);
      ExecConcat([opener] + SerializeBranches(b), [endif.value], taken, levels, owner);
  }

  lemma {:induction false} ExecLiveBranches(b: Block, taken: set<nat>, levels: seq<Level>, owner: Option<nat>)
    returns (v': Level)
    requires b.Cond? && WellFormedBranches(b) && Live(levels)
    ensures var yes := b.opener.no in taken;
            var w := WalkBlock(b, taken, owner);
            Exec(SerializeBranches(b), taken, levels + [Level(yes, yes)], owner)
              == Trace(w.owned, levels + [v'], w.owner)
    decreases b, 1
  {
    hide Exec, Walk, WellFormed;
    var yes := b.opener.no in taken;
    var v := Level(yes, yes);
    var thn, rest := Serialize(b.thn), OptLine(b.elseDirective) + Serialize(b.els);
    assert SerializeBranches(b) == thn + rest;
    NotLive(levels, v);
    ExecConcat(thn, rest, taken, levels + [v], owner);
    if yes {
      ExecLive(b.thn, taken, levels + [v], owner);
      var w := Walk(b.thn, taken, owner);
      v' := ExecAfterTaken(b, taken, levels, w.owner);
    } else {
      ExecDead(b.thn, taken, levels + [v], owner);
      v' := ExecElse(b, taken, levels, owner);
    }
  }

  /** The else part once a branch has been taken. */
  lemma {:induction false} ExecAfterTaken(b: Block, taken: set<nat>, levels: seq<Level>, owner: Option<nat>)
    returns (v': Level)
    requires b.Cond? && WellFormedBranches(b)
    ensures Exec(OptLine(b.elseDirective) + Serialize(b.els), taken, levels + [Level(true, true)], owner)
            == Trace([], levels + [v'], owner)
    decreases b, 0
  {
    hide Exec, WellFormed;
    var v := Level(true, true);
    var dir, els := OptLine(b.elseDirective), Serialize(b.els);
    v' := Level(false, true);
    NotLive(levels, v');
    if b.elseDirective.Some? {
      ExecBranchLine(b.elseDirective.value, taken, levels, v, owner);
      ExecDead(b.els, taken, levels + [v'], owner);
      ExecConcat(dir, els, taken, levels + [v], owner);
    } else if b.els == [] {
      v' := v;
      assert dir + els == [];
      ExecNone(taken, levels + [v], owner);
    } else {
      var inner := b.els[0];
      assert b.els == [inner];
      SerializeOne(inner);
      assert dir + els == [inner.opener] + SerializeBranches(inner);
      ExecBranchLine(inner.opener, taken, levels, v, owner);
      v' := ExecDeadBranches(inner, taken, levels, v', owner);
      ExecConcat([inner.opener], SerializeBranches(inner), taken, levels + [v], owner);
    }
  }

  /** The else part when the branch before it was not taken. */
  lemma {:induction false} ExecElse(b: Block, taken: set<nat>, levels: seq<Level>, owner: Option<nat>)
    returns (v': Level)
    requires b.Cond? && WellFormedBranches(b) && Live(levels)
    ensures var w := Walk(b.els, taken, owner);
            Exec(OptLine(b.elseDirective) + Serialize(b.els), taken, levels + [Level(false, false)], owner)
            == Trace(w.owned, levels + [v'], w.owner)
    decreases b, 0
  {
    hide Exec, WellFormed;
    var v := Level(false, false);
    var dir, els := OptLine(b.elseDirective), Serialize(b.els);
    if b.elseDirective.Some? {
      v' := Level(true, true);
      NotLive(levels, v');
      ExecBranchLine(b.elseDirective.value, taken, levels, v, owner);
      ExecLive(b.els, taken, levels + [v'], owner);
      ExecConcat(dir, els, taken, levels + [v], owner);
    } else if b.els == [] {
      v' := v;
      assert dir + els == [];
      ExecNone(taken, levels + [v], owner);
    } else {
      var inner := b.els[0];
      assert b.els == [inner];
      SerializeOne(inner);
      WalkOne(inner, taken, owner);
      assert dir + els == [inner.opener] + SerializeBranches(inner);
      ExecBranchLine(inner.opener, taken, levels, v, owner);
      v' := ExecLiveBranches(inner, taken, levels, owner);
      ExecConcat([inner.opener], SerializeBranches(inner), taken, levels + [v], owner);
    }
  }

  lemma WalkOne(b: Block, taken: set<nat>, owner: Option<nat>)
    ensures Walk([b], taken, owner) == WalkBlock(b, taken, owner)
  {
    assert [b][1..] == [];
  }

  /** Reading the lines of a spec and walking its tree find the same owners. */
  lemma RootMeaning(root: seq<Block>, taken: set<nat>)
    requires WellFormedRoot(root)
    ensures OwnedOf(Serialize(root), taken) == Walk(root, taken, None).owned
  {
    hide Exec, Serialize, WellFormed;
    var pre := root[0];
    RootHeads(root);
    ExecLive(pre.children, taken, [], None);
    NoSectionsKeepOwner(pre.children, taken, None);
    ExecLive(root[1..], taken, [], None);
    ExecConcat(Serialize(pre.children), Serialize(root[1..]), taken, [], None);
  }
}
