/** Removing sections from the tree, and what that does to the lines. */
module Removal {
  import opened Lines
  import opened Tree
  import opened Grammar

  /** Sections are removed by identity, which is the label of their header. */
  predicate IsRemoved(b: Block, doomed: set<nat>) {
    b.Section? && b.header.Some? && b.header.value.no in doomed
  }

  function RemoveIn(b: Block, doomed: set<nat>): Block {
    match b
    case Section(header, children) => Section(header, RemoveFrom(children, doomed))
    case Cond(opener, thn, elseDirective, els, endif) =>
      Cond(opener, RemoveFrom(thn, doomed), elseDirective, RemoveFrom(els, doomed), endif)
    case _ => b
  }

  function RemoveFrom(bs: seq<Block>, doomed: set<nat>): seq<Block> {
    if bs == [] then []
    else if IsRemoved(bs[0], doomed) then RemoveFrom(bs[1..], doomed)
    else [RemoveIn(bs[0], doomed)] + RemoveFrom(bs[1..], doomed)
  }

  // ---------------------------------------------------------------- the lines dropped

  function Labels(ls: seq<Line>): set<nat> {
    set l | l in ls :: l.no
  }

  predicate DistinctLabels(ls: seq<Line>) {
    forall i, j :: 0 <= i < j < |ls| ==> ls[i].no != ls[j].no
  }

  /** The lines whose label is not in `dropped`, in order. */
  function Keep(ls: seq<Line>, dropped: set<nat>): seq<Line> {
    if ls == [] then []
    else (if ls[0].no in dropped then [] else [ls[0]]) + Keep(ls[1..], dropped)
  }

  /** The labels of all lines of the removed sections of a tree. */
  function Dropped(bs: seq<Block>, doomed: set<nat>): set<nat> {
    set s, l | s in SectionsOf(bs) && IsRemoved(s, doomed) && l in SerializeBlock(s) :: l.no
  }

  /** `dropped` holds every line of a removed section and no line outside them. */
  ghost predicate Splits(bs: seq<Block>, doomed: set<nat>, dropped: set<nat>) {
    bs == [] || (SplitsBlock(bs[0], doomed, dropped) && Splits(bs[1..], doomed, dropped))
  }

  ghost predicate SplitsBlock(b: Block, doomed: set<nat>, dropped: set<nat>) {
    if IsRemoved(b, doomed) then Labels(SerializeBlock(b)) <= dropped
    else match b
      case Text(lines) => Labels(lines) !! dropped
      case Macro(lines) => Labels(lines) !! dropped
      case Section(header, children) => Labels(OptLine(header)) !! dropped && Splits(children, doomed, dropped)
      case Cond(opener, thn, elseDirective, els, endif) =>
        && opener.no !in dropped && Labels(OptLine(elseDirective)) !! dropped && Labels(OptLine(endif)) !! dropped
        && Splits(thn, doomed, dropped) && Splits(els, doomed, dropped)
  }

  lemma {:induction false} KeepConcat(a: seq<Line>, b: seq<Line>, dropped: set<nat>)
    ensures Keep(a + b, dropped) == Keep(a, dropped) + Keep(b, dropped)
  {
    if a == [] {
      assert a + b == b;
    } else {
      assert (a + b)[1..] == a[1..] + b;
      KeepConcat(a[1..], b, dropped);
      var head := if a[0].no in dropped then [] else [a[0]];
      assert Keep(a + b, dropped) == head + (Keep(a[1..], dropped) + Keep(b, dropped));
    }
  }

  lemma {:induction false} KeepAll(ls: seq<Line>, dropped: set<nat>)
    requires Labels(ls) !! dropped
    ensures Keep(ls, dropped) == ls
  {
    if ls != [] {
      assert ls[0].no in Labels(ls);
      assert Labels(ls[1..]) <= Labels(ls);
      KeepAll(ls[1..], dropped);
    }
  }

  lemma {:induction false} KeepNone(ls: seq<Line>, dropped: set<nat>)
    requires Labels(ls) <= dropped
    ensures Keep(ls, dropped) == []
  {
    if ls != [] {
      assert ls[0].no in Labels(ls);
      assert Labels(ls[1..]) <= Labels(ls);
      KeepNone(ls[1..], dropped);
    }
  }

  lemma {:induction false} KeepRemoves(bs: seq<Block>, doomed: set<nat>, dropped: set<nat>)
    requires Splits(bs, doomed, dropped)
    ensures Keep(Serialize(bs), dropped) == Serialize(RemoveFrom(bs, doomed))
    decreases bs, 0
  {
    if bs != [] {
      var b := bs[0];
      KeepConcat(SerializeBlock(b), Serialize(bs[1..]), dropped);
      KeepRemoves(bs[1..], doomed, dropped);
      if IsRemoved(b, doomed) {
        KeepNone(SerializeBlock(b), dropped);
      } else {
        KeepRemovesIn(b, doomed, dropped);
        SerializeCons(RemoveIn(b, doomed), RemoveFrom(bs[1..], doomed));
      }
    }
  }

  lemma {:induction false} KeepRemovesIn(b: Block, doomed: set<nat>, dropped: set<nat>)
    requires SplitsBlock(b, doomed, dropped) && !IsRemoved(b, doomed)
    ensures Keep(SerializeBlock(b), dropped) == SerializeBlock(RemoveIn(b, doomed))
    decreases b, 1
  {
    hide Keep, Serialize, RemoveFrom;
    match b
    case Text(lines) => KeepAll(lines, dropped);
    case Macro(lines) => KeepAll(lines, dropped);
    case Section(header, children) =>
      KeepAll(OptLine(header), dropped);
      KeepRemoves(children, doomed, dropped);
      KeepConcat(OptLine(header), Serialize(children), dropped);
    case Cond(opener, thn, elseDirective, els, endif) =>
      KeepRemoves(thn, doomed, dropped);
      KeepRemoves(els, doomed, dropped);
      KeepAll([opener], dropped);
      KeepAll(OptLine(elseDirective), dropped);
      KeepAll(OptLine(endif), dropped);
      KeepConcat([opener], SerializeBranches(b), dropped);
      KeepConcat([opener] + SerializeBranches(b), OptLine(endif), dropped);
      KeepConcat(Serialize(thn), OptLine(elseDirective), dropped);
      KeepConcat(Serialize(thn) + OptLine(elseDirective), Serialize(els), dropped);
  }

  // ---------------------------------------------------------------- Dropped splits

  lemma DistinctConcat(a: seq<Line>, b: seq<Line>)
    requires DistinctLabels(a + b)
    ensures DistinctLabels(a) && DistinctLabels(b) && Labels(a) !! Labels(b)
  {
    var all := a + b;
    forall i, j | 0 <= i < j < |a| ensures a[i].no != a[j].no {
      assert all[i] == a[i] && all[j] == a[j];
    }
    forall i, j | 0 <= i < j < |b| ensures b[i].no != b[j].no {
      assert all[|a| + i] == b[i] && all[|a| + j] == b[j];
    }
    forall i, j | 0 <= i < |a| && 0 <= j < |b| ensures a[i].no != b[j].no {
      assert all[i] == a[i] && all[|a| + j] == b[j];
    }
  }

  lemma LabelsConcat(a: seq<Line>, b: seq<Line>)
    ensures Labels(a + b) == Labels(a) + Labels(b)
  {
    assert forall l :: l in a + b <==> l in a || l in b;
  }

  lemma {:induction false} DroppedWithin(bs: seq<Block>, doomed: set<nat>)
    ensures Dropped(bs, doomed) <= Labels(Serialize(bs))
    decreases bs, 0
  {
    if bs != [] {
      DroppedCons(bs, doomed);
      DroppedWithinBlock(bs[0], doomed);
      DroppedWithin(bs[1..], doomed);
      LabelsConcat(SerializeBlock(bs[0]), Serialize(bs[1..]));
    }
  }

  function DroppedIn(b: Block, doomed: set<nat>): set<nat> {
    set s, l | s in SectionsIn(b) && IsRemoved(s, doomed) && l in SerializeBlock(s) :: l.no
  }

  lemma DroppedCons(bs: seq<Block>, doomed: set<nat>)
    requires bs != []
    ensures Dropped(bs, doomed) == DroppedIn(bs[0], doomed) + Dropped(bs[1..], doomed)
  {
    assert forall s :: s in SectionsOf(bs) <==> s in SectionsIn(bs[0]) || s in SectionsOf(bs[1..]);
  }

  lemma DroppedInCond(b: Block, doomed: set<nat>)
    requires b.Cond?
    ensures DroppedIn(b, doomed) == Dropped(b.thn, doomed) + Dropped(b.els, doomed)
  {
    assert forall s :: s in SectionsIn(b) <==> s in SectionsOf(b.thn) || s in SectionsOf(b.els);
  }

  lemma DroppedInSection(b: Block, doomed: set<nat>)
    requires b.Section?
    ensures DroppedIn(b, doomed) ==
            (if IsRemoved(b, doomed) then Labels(SerializeBlock(b)) else {}) + Dropped(b.children, doomed)
  {
    assert forall s :: s in SectionsIn(b) <==> s == b || s in SectionsOf(b.children);
  }

  lemma {:induction false} DroppedWithinBlock(b: Block, doomed: set<nat>)
    ensures DroppedIn(b, doomed) <= Labels(SerializeBlock(b))
    decreases b, 1
  {
    hide Serialize, SectionsOf;
    match b
    case Text(lines) =>
    case Macro(lines) =>
    case Section(header, children) =>
      DroppedInSection(b, doomed);
      DroppedWithin(children, doomed);
      LabelsConcat(OptLine(header), Serialize(children));
    case Cond(opener, thn, elseDirective, els, endif) =>
      DroppedInCond(b, doomed);
      DroppedWithin(thn, doomed);
      DroppedWithin(els, doomed);
      LabelsConcat([opener] + SerializeBranches(b), OptLine(endif));
      LabelsConcat([opener], SerializeBranches(b));
      LabelsConcat(Serialize(thn) + OptLine(elseDirective), Serialize(els));
      LabelsConcat(Serialize(thn), OptLine(elseDirective));
  }

  lemma Apart(a: set<nat>, b: set<nat>)
    requires a * b == {}
    ensures b !! a
  {
    assert forall n :: n in b && n in a ==> n in a * b;
  }

  /** With distinct labels, any set that agrees with Dropped on the tree's own lines splits it. */
  lemma {:induction false} DroppedSplits(bs: seq<Block>, doomed: set<nat>, dropped: set<nat>)
    requires DistinctLabels(Serialize(bs))
    requires dropped * Labels(Serialize(bs)) == Dropped(bs, doomed)
    ensures Splits(bs, doomed, dropped)
    decreases bs, 0
  {
    if bs != [] {
      var own, rest := SerializeBlock(bs[0]), Serialize(bs[1..]);
      DistinctConcat(own, rest);
      LabelsConcat(own, rest);
      DroppedCons(bs, doomed);
      DroppedWithinBlock(bs[0], doomed);
      DroppedWithin(bs[1..], doomed);
      assert dropped * Labels(own) == DroppedIn(bs[0], doomed);
      assert dropped * Labels(rest) == Dropped(bs[1..], doomed);
      DroppedSplitsBlock(bs[0], doomed, dropped);
      DroppedSplits(bs[1..], doomed, dropped);
    }
  }

  lemma {:induction false} DroppedSplitsBlock(b: Block, doomed: set<nat>, dropped: set<nat>)
    requires DistinctLabels(SerializeBlock(b))
    requires dropped * Labels(SerializeBlock(b)) == DroppedIn(b, doomed)
    ensures SplitsBlock(b, doomed, dropped)
    decreases b, 1
  {
    hide Serialize, SectionsOf;
    match b
    case Text(lines) =>
      assert DroppedIn(b, doomed) == {};
      Apart(dropped, Labels(lines));
    case Macro(lines) =>
      assert DroppedIn(b, doomed) == {};
      Apart(dropped, Labels(lines));
    case Section(header, children) =>
      DroppedInSection(b, doomed);
      if !IsRemoved(b, doomed) {
        DistinctConcat(OptLine(header), Serialize(children));
        LabelsConcat(OptLine(header), Serialize(children));
        DroppedWithin(children, doomed);
        assert dropped * Labels(Serialize(children)) == Dropped(children, doomed);
        DroppedSplits(children, doomed, dropped);
      }
    case Cond(_, _, _, _, _) =>
      DroppedSplitsCond(b, doomed, dropped);
  }

  lemma {:induction false} DroppedSplitsCond(b: Block, doomed: set<nat>, dropped: set<nat>)
    requires b.Cond? && DistinctLabels(SerializeBlock(b))
    requires dropped * Labels(SerializeBlock(b)) == DroppedIn(b, doomed)
    ensures SplitsBlock(b, doomed, dropped)
    decreases b, 0
  {
    hide Serialize, SectionsOf, Labels, DistinctLabels, Dropped, DroppedIn;
    var thn, dir, els, end := Serialize(b.thn), OptLine(b.elseDirective), Serialize(b.els), OptLine(b.endif);
    assert SerializeBlock(b) == [b.opener] + (thn + dir + els) + end;
    DroppedInCond(b, doomed);
    DroppedWithin(b.thn, doomed);
    DroppedWithin(b.els, doomed);
    DistinctConcat([b.opener] + (thn + dir + els), end);
    LabelsConcat([b.opener] + (thn + dir + els), end);
    DistinctConcat([b.opener], thn + dir + els);
    LabelsConcat([b.opener], thn + dir + els);
    DistinctConcat(thn + dir, els);
    LabelsConcat(thn + dir, els);
    DistinctConcat(thn, dir);
    LabelsConcat(thn, dir);
    LabelOfOne(b.opener);
    assert dropped * Labels(thn) == Dropped(b.thn, doomed);
    assert dropped * Labels(els) == Dropped(b.els, doomed);
    DroppedSplits(b.thn, doomed, dropped);
    DroppedSplits(b.els, doomed, dropped);
  }

  lemma LabelOfOne(l: Line)
    ensures Labels([l]) == {l.no}
  {
  }

  /** The serialized lines after a removal are the lines before it without exactly the lines
      of the removed sections, in the same order. */
  lemma RemovalKeepsTheRest(bs: seq<Block>, doomed: set<nat>)
    requires DistinctLabels(Serialize(bs))
    ensures Serialize(RemoveFrom(bs, doomed)) == Keep(Serialize(bs), Dropped(bs, doomed))
  {
    DroppedWithin(bs, doomed);
    DroppedSplits(bs, doomed, Dropped(bs, doomed));
    KeepRemoves(bs, doomed, Dropped(bs, doomed));
  }
}
