/** The check made before a removal, and that it is exact: it passes if and only if, on every
    choice of conditions, every surviving line that matters keeps its owner. */
module OwnershipCheck {
  import opened Wrappers
  import opened Lines
  import opened Tree
  import opened Grammar
  import opened Parser
  import opened Removal
  import opened Reparse
  import opened Ownership

  /** The block that may follow a removed section without a section boundary in between. */
  datatype SpansSections = SpansSections(block: Block)

  predicate HasMeaningfulText(ls: seq<Line>) {
    exists l <- ls :: Meaningful(l)
  }

  /** `needs` is true when a removed section may still be the one in force. */
  function Validate(bs: seq<Block>, doomed: set<nat>, needs: bool): Result<bool, SpansSections> {
    if bs == [] then Success(needs)
    else match ValidateBlock(bs[0], doomed, needs)
      case Failure(e) => Failure(e)
      case Success(needs') => Validate(bs[1..], doomed, needs')
  }

  function ValidateBlock(b: Block, doomed: set<nat>, needs: bool): Result<bool, SpansSections> {
    match b
    case Section(_, _) => Success(IsRemoved(b, doomed))
    case Macro(_) => if needs then Failure(SpansSections(b)) else Success(needs)
    case Text(lines) => if needs && HasMeaningfulText(lines) then Failure(SpansSections(b)) else Success(needs)
    case Cond(_, thn, elseDirective, els, _) =>
      match Validate(thn, doomed, needs)
      case Failure(e) => Failure(e)
      case Success(thenNeeds) =>
        if elseDirective.None? && els == [] then Success(thenNeeds || needs)
        else match Validate(els, doomed, needs)
          case Failure(e) => Failure(e)
          case Success(elseNeeds) => Success(thenNeeds || elseNeeds)
  }

  /** What is refused is a macro definition, or text that is not all blanks and comments. */
  predicate Refusable(b: Block) {
    b.Macro? || (b.Text? && exists l <- b.lines :: l.kind != Content(false))
  }

  /** The block that an error names is such a block of the tree. */
  lemma {:induction false} RefusedBlock(bs: seq<Block>, doomed: set<nat>, needs: bool)
    requires Validate(bs, doomed, needs).Failure?
    ensures Refusable(Validate(bs, doomed, needs).error.block)
    ensures forall l <- SerializeBlock(Validate(bs, doomed, needs).error.block) :: l in Serialize(bs)
    decreases bs, 0
  {
    hide SerializeBlock, ValidateBlock, Refusable;
    match ValidateBlock(bs[0], doomed, needs)
    case Failure(_) => RefusedInBlock(bs[0], doomed, needs);
    case Success(needs') => RefusedBlock(bs[1..], doomed, needs');
  }

  lemma {:induction false} RefusedInBlock(b: Block, doomed: set<nat>, needs: bool)
    requires ValidateBlock(b, doomed, needs).Failure?
    ensures Refusable(ValidateBlock(b, doomed, needs).error.block)
    ensures forall l <- SerializeBlock(ValidateBlock(b, doomed, needs).error.block) :: l in SerializeBlock(b)
    decreases b, 1
  {
    if b.Cond? {
      hide Serialize, Validate, Refusable;
      match Validate(b.thn, doomed, needs)
      case Failure(_) => RefusedBlock(b.thn, doomed, needs);
      case Success(_) => RefusedBlock(b.els, doomed, needs);
    }
  }

  // ---------------------------------------------------------------- soundness

  /** The owned lines that survive. */
  function Surviving(owned: seq<Owned>, dropped: set<nat>): seq<Owned> {
    if owned == [] then []
    else (if owned[0].line in dropped then [] else [owned[0]]) + Surviving(owned[1..], dropped)
  }

  lemma {:induction false} SurvivingConcat(a: seq<Owned>, b: seq<Owned>, dropped: set<nat>)
    ensures Surviving(a + b, dropped) == Surviving(a, dropped) + Surviving(b, dropped)
  {
    if a == [] {
      assert a + b == b;
    } else {
      assert (a + b)[1..] == a[1..] + b;
      SurvivingConcat(a[1..], b, dropped);
      var head := if a[0].line in dropped then [] else [a[0]];
      assert Surviving(a + b, dropped) == head + (Surviving(a[1..], dropped) + Surviving(b, dropped));
    }
  }

  predicate InDoomed(owner: Option<nat>, doomed: set<nat>) {
    owner.Some? && owner.value in doomed
  }

  /** The owners before and after a removal: the same unless the one before is removed, which
      is known to be possible. */
  predicate Related(before: Option<nat>, after: Option<nat>, doomed: set<nat>, needs: bool) {
    && (InDoomed(before, doomed) ==> needs)
    && (!InDoomed(before, doomed) ==> before == after)
  }

  lemma {:induction false} OwnedLinesSurvive(ls: seq<Line>, owner: Option<nat>, dropped: set<nat>)
    requires Labels(ls) !! dropped
    ensures Surviving(OwnedLines(ls, owner), dropped) == OwnedLines(ls, owner)
  {
    if ls != [] {
      assert ls[0].no in Labels(ls) && Labels(ls[1..]) <= Labels(ls);
      OwnedLinesSurvive(ls[1..], owner, dropped);
      var head := if Matters(ls[0]) then [Owned(ls[0].no, owner)] else [];
      SurvivingConcat(head, OwnedLines(ls[1..], owner), dropped);
      assert head != [] ==> head[1..] == [];
    }
  }

  lemma {:induction false} NothingOwned(ls: seq<Line>, owner: Option<nat>)
    requires forall l <- ls :: !Matters(l)
    ensures OwnedLines(ls, owner) == []
  {
    if ls != [] {
      assert !Matters(ls[0]);
      NothingOwned(ls[1..], owner);
    }
  }

  lemma {:induction false} AllDropped(bs: seq<Block>, taken: set<nat>, owner: Option<nat>, dropped: set<nat>)
    requires Labels(Serialize(bs)) <= dropped
    ensures Surviving(Walk(bs, taken, owner).owned, dropped) == []
    decreases bs, 0
  {
    if bs != [] {
      hide Walk, Surviving;
      LabelsConcat(SerializeBlock(bs[0]), Serialize(bs[1..]));
      AllDroppedBlock(bs[0], taken, owner, dropped);
      var w := WalkBlock(bs[0], taken, owner);
      AllDropped(bs[1..], taken, w.owner, dropped);
      WalkCons(bs, taken, owner);
      SurvivingConcat(w.owned, Walk(bs[1..], taken, w.owner).owned, dropped);
    }
  }

  lemma WalkCons(bs: seq<Block>, taken: set<nat>, owner: Option<nat>)
    requires bs != []
    ensures var w := WalkBlock(bs[0], taken, owner);
            var r := Walk(bs[1..], taken, w.owner);
            Walk(bs, taken, owner) == Walked(w.owned + r.owned, r.owner)
  {
  }

  lemma {:induction false} LinesDropped(ls: seq<Line>, owner: Option<nat>, dropped: set<nat>)
    requires Labels(ls) <= dropped
    ensures Surviving(OwnedLines(ls, owner), dropped) == []
  {
    if ls != [] {
      assert ls[0].no in Labels(ls) && Labels(ls[1..]) <= Labels(ls);
      LinesDropped(ls[1..], owner, dropped);
      var head := if Matters(ls[0]) then [Owned(ls[0].no, owner)] else [];
      SurvivingConcat(head, OwnedLines(ls[1..], owner), dropped);
      assert head != [] ==> head[1..] == [];
    }
  }

  lemma {:induction false} AllDroppedBlock(b: Block, taken: set<nat>, owner: Option<nat>, dropped: set<nat>)
    requires Labels(SerializeBlock(b)) <= dropped
    ensures Surviving(WalkBlock(b, taken, owner).owned, dropped) == []
    decreases b, 1
  {
    hide Walk, Surviving;
    match b
    case Text(lines) => LinesDropped(lines, owner, dropped);
    case Macro(lines) => LinesDropped(lines, owner, dropped);
    case Section(header, children) =>
      LabelsConcat(OptLine(header), Serialize(children));
      AllDropped(children, taken, if header.Some? then Some(header.value.no) else owner, dropped);
    case Cond(opener, thn, elseDirective, els, endif) =>
      LabelsConcat([opener] + SerializeBranches(b), OptLine(endif));
      LabelsConcat([opener], SerializeBranches(b));
      LabelsConcat(Serialize(thn) + OptLine(elseDirective), Serialize(els));
      LabelsConcat(Serialize(thn), OptLine(elseDirective));
      AllDropped(thn, taken, owner, dropped);
      AllDropped(els, taken, owner, dropped);
  }

  lemma {:induction false} NoSectionsSurvive(bs: seq<Block>, taken: set<nat>, owner: Option<nat>, doomed: set<nat>,
    dropped: set<nat>)
    requires SectionsOf(bs) == [] && Splits(bs, doomed, dropped)
    ensures Surviving(Walk(bs, taken, owner).owned, dropped) == Walk(bs, taken, owner).owned
    decreases bs, 0
  {
    if bs != [] {
      assert SectionsIn(bs[0]) == [];
      var w := WalkBlock(bs[0], taken, owner);
      match bs[0] {
        case Text(lines) => OwnedLinesSurvive(lines, owner, dropped);
        case Macro(lines) => OwnedLinesSurvive(lines, owner, dropped);
        case Section(_, _) =>
        case Cond(_, thn, _, els, _) =>
          NoSectionsSurvive(thn, taken, owner, doomed, dropped);
          NoSectionsSurvive(els, taken, owner, doomed, dropped);
      }
      NoSectionsSurvive(bs[1..], taken, w.owner, doomed, dropped);
      SurvivingConcat(w.owned, Walk(bs[1..], taken, w.owner).owned, dropped);
    }
  }

  /** What a section block of any tree looks like here: no sections inside it. */
  predicate FlatSections(bs: seq<Block>) {
    bs == [] || (FlatBlock(bs[0]) && FlatSections(bs[1..]))
  }

  predicate FlatBlock(b: Block) {
    match b
    case Section(header, children) => header.Some? && SectionsOf(children) == []
    case Cond(_, thn, _, els, _) => FlatSections(thn) && FlatSections(els)
    case Text(lines) => forall l <- lines :: l.Plain()
    case Macro(lines) => lines != [] && forall l <- lines :: Matters(l)
  }

  /** If the check passes, then on every path the surviving lines keep their owners. */
  lemma {:induction false} ValidateSound(bs: seq<Block>, doomed: set<nat>, dropped: set<nat>, needs: bool,
                                         taken: set<nat>, before: Option<nat>, after: Option<nat>)
    requires FlatSections(bs) && Splits(bs, doomed, dropped)
    requires Validate(bs, doomed, needs).Success? && Related(before, after, doomed, needs)
    ensures var w := Walk(bs, taken, before);
            var w' := Walk(RemoveFrom(bs, doomed), taken, after);
            && w'.owned == Surviving(w.owned, dropped)
            && Related(w.owner, w'.owner, doomed, Validate(bs, doomed, needs).value)
    decreases bs, 0
  {
    if bs != [] {
      hide Walk, Surviving, Related, SplitsBlock;
      var b := bs[0];
      var needs1 := ValidateBlock(b, doomed, needs).value;
      ValidateBlockSound(b, doomed, dropped, needs, taken, before, after);
      var w := WalkBlock(b, taken, before);
      WalkCons(bs, taken, before);
      SurvivingConcat(w.owned, Walk(bs[1..], taken, w.owner).owned, dropped);
      if IsRemoved(b, doomed) {
        ValidateSound(bs[1..], doomed, dropped, needs1, taken, w.owner, after);
      } else {
        var b' := RemoveIn(b, doomed);
        var rest' := RemoveFrom(bs[1..], doomed);
        var w' := WalkBlock(b', taken, after);
        assert ([b'] + rest')[1..] == rest';
        WalkCons([b'] + rest', taken, after);
        ValidateSound(bs[1..], doomed, dropped, needs1, taken, w.owner, w'.owner);
      }
    } else {
      WalkNone(taken, before);
      WalkNone(taken, after);
    }
  }

  lemma WalkNone(taken: set<nat>, owner: Option<nat>)
    ensures Walk([], taken, owner) == Walked([], owner)
  {
  }

  lemma {:induction false} ValidateBlockSound(b: Block, doomed: set<nat>, dropped: set<nat>, needs: bool,
                                              taken: set<nat>, before: Option<nat>, after: Option<nat>)
    requires FlatBlock(b) && SplitsBlock(b, doomed, dropped)
    requires ValidateBlock(b, doomed, needs).Success? && Related(before, after, doomed, needs)
    ensures var w := WalkBlock(b, taken, before);
            var needs' := ValidateBlock(b, doomed, needs).value;
            if IsRemoved(b, doomed) then
              Surviving(w.owned, dropped) == [] && Related(w.owner, after, doomed, needs')
            else
              var w' := WalkBlock(RemoveIn(b, doomed), taken, after);
              w'.owned == Surviving(w.owned, dropped) && Related(w.owner, w'.owner, doomed, needs')
    decreases b, 1
  {
    hide Walk, Surviving, RemoveFrom;
    match b
    case Text(lines) =>
      OwnedLinesSurvive(lines, before, dropped);
      if needs {
        NothingOwned(lines, before);
        NothingOwned(lines, after);
      }
    case Macro(lines) => OwnedLinesSurvive(lines, before, dropped);
    case Section(header, children) =>
      if IsRemoved(b, doomed) {
        AllDroppedBlock(b, taken, before, dropped);
      } else {
        NoSectionsUnchanged(children, doomed);
        SectionSound(b, doomed, dropped, taken, before, after);
      }
    case Cond(opener, thn, _, els, _) =>
      if opener.no in taken {
        ValidateSound(thn, doomed, dropped, needs, taken, before, after);
      } else if b.elseDirective.None? && els == [] {
        WalkNone(taken, before);
        WalkNone(taken, after);
        NothingSurvives(dropped);
        RemoveNone(doomed);
      } else {
        ValidateSound(els, doomed, dropped, needs, taken, before, after);
      }
  }

  lemma NothingSurvives(dropped: set<nat>)
    ensures Surviving([], dropped) == []
  {
  }

  lemma RemoveNone(doomed: set<nat>)
    ensures RemoveFrom([], doomed) == []
  {
  }

  lemma SectionSound(b: Block, doomed: set<nat>, dropped: set<nat>, taken: set<nat>, before: Option<nat>,
    after: Option<nat>)
    requires b.Section? && !IsRemoved(b, doomed) && SectionsOf(b.children) == [] && SplitsBlock(b, doomed, dropped)
    requires b.header.Some?
    ensures var w := WalkBlock(b, taken, before);
            var w' := WalkBlock(b, taken, after);
            w == w' && w.owned == Surviving(w.owned, dropped) && w.owner == Some(b.header.value.no)
  {
    NoSectionsSurvive(b.children, taken, Some(b.header.value.no), doomed, dropped);
  }

  // ---------------------------------------------------------------- exactness

  /** With these conditions, a removed section is in force after `bs`, for every owner before
      it that `needs` allows for. */
  ghost predicate Reaches(bs: seq<Block>, taken: set<nat>, doomed: set<nat>, needs: bool) {
    forall o: Option<nat> :: (needs ==> InDoomed(o, doomed)) ==> InDoomed(Walk(bs, taken, o).owner, doomed)
  }

  ghost predicate ReachesBlock(b: Block, taken: set<nat>, doomed: set<nat>, needs: bool) {
    forall o: Option<nat> :: (needs ==> InDoomed(o, doomed)) ==> InDoomed(WalkBlock(b, taken, o).owner, doomed)
  }

  /** A surviving line is owned by a removed section. */
  predicate Exposed(owned: seq<Owned>, doomed: set<nat>, dropped: set<nat>) {
    exists e <- owned :: e.line !in dropped && InDoomed(e.owner, doomed)
  }

  ghost predicate Exposes(bs: seq<Block>, taken: set<nat>, doomed: set<nat>, dropped: set<nat>, needs: bool) {
    forall o: Option<nat> :: (needs ==> InDoomed(o, doomed)) ==> Exposed(Walk(bs, taken, o).owned, doomed, dropped)
  }

  ghost predicate ExposesBlock(b: Block, taken: set<nat>, doomed: set<nat>, dropped: set<nat>, needs: bool) {
    forall o: Option<nat> :: (needs ==> InDoomed(o, doomed)) ==> Exposed(WalkBlock(b, taken, o).owned, doomed, dropped)
  }

  /** Only conditions of the tree's own directives matter. */
  lemma {:induction false} WalkFrame(bs: seq<Block>, t: set<nat>, u: set<nat>, owner: Option<nat>)
    requires t * Labels(Serialize(bs)) == u * Labels(Serialize(bs))
    ensures Walk(bs, t, owner) == Walk(bs, u, owner)
    decreases bs, 0
  {
    if bs != [] {
      hide Walk, Serialize, WalkBlock;
      var own, rest := Labels(SerializeBlock(bs[0])), Labels(Serialize(bs[1..]));
      SerializeParts(bs);
      LabelsConcat(SerializeBlock(bs[0]), Serialize(bs[1..]));
      Subproduct(t, u, own, own + rest);
      Subproduct(t, u, rest, own + rest);
      WalkFrameBlock(bs[0], t, u, owner);
      WalkFrame(bs[1..], t, u, WalkBlock(bs[0], t, owner).owner);
      WalkCons(bs, t, owner);
      WalkCons(bs, u, owner);
    } else {
      WalkNone(t, owner);
      WalkNone(u, owner);
    }
  }

  lemma SerializeParts(bs: seq<Block>)
    requires bs != []
    ensures Serialize(bs) == SerializeBlock(bs[0]) + Serialize(bs[1..])
  {
  }

  lemma Subproduct(t: set<nat>, u: set<nat>, part: set<nat>, whole: set<nat>)
    requires part <= whole && t * whole == u * whole
    ensures t * part == u * part
  {
    assert t * part == (t * whole) * part && u * part == (u * whole) * part;
  }

  lemma CondLabels(b: Block)
    requires b.Cond?
    ensures b.opener.no in Labels(SerializeBlock(b))
    ensures Labels(Serialize(b.thn)) <= Labels(SerializeBlock(b))
    ensures Labels(Serialize(b.els)) <= Labels(SerializeBlock(b))
    ensures DistinctLabels(SerializeBlock(b)) ==>
              && b.opener.no !in Labels(Serialize(b.thn)) && b.opener.no !in Labels(Serialize(b.els))
              && DistinctLabels(Serialize(b.thn)) && DistinctLabels(Serialize(b.els))
  {
    hide Serialize, DistinctLabels, Labels;
    var thn, dir, els, end := Serialize(b.thn), OptLine(b.elseDirective), Serialize(b.els), OptLine(b.endif);
    var body := thn + dir + els;
    assert SerializeBlock(b) == [b.opener] + body + end;
    LabelsConcat([b.opener] + body, end);
    LabelsConcat([b.opener], body);
    LabelsConcat(thn + dir, els);
    LabelsConcat(thn, dir);
    LabelOfOne(b.opener);
    if DistinctLabels(SerializeBlock(b)) {
      DistinctConcat([b.opener] + body, end);
      DistinctConcat([b.opener], body);
      DistinctConcat(thn + dir, els);
      DistinctConcat(thn, dir);
    }
  }

  lemma {:induction false} WalkFrameBlock(b: Block, t: set<nat>, u: set<nat>, owner: Option<nat>)
    requires t * Labels(SerializeBlock(b)) == u * Labels(SerializeBlock(b))
    ensures WalkBlock(b, t, owner) == WalkBlock(b, u, owner)
    decreases b, 1
  {
    hide Walk, Serialize, Labels;
    match b
    case Text(_) =>
    case Macro(_) =>
    case Section(header, children) =>
      LabelsConcat(OptLine(header), Serialize(children));
      Subproduct(t, u, Labels(Serialize(children)), Labels(SerializeBlock(b)));
      WalkFrame(children, t, u, if header.Some? then Some(header.value.no) else owner);
    case Cond(opener, thn, _, els, _) =>
      CondLabels(b);
      assert opener.no in t * Labels(SerializeBlock(b)) <==> opener.no in u * Labels(SerializeBlock(b));
      Subproduct(t, u, Labels(Serialize(thn)), Labels(SerializeBlock(b)));
      Subproduct(t, u, Labels(Serialize(els)), Labels(SerializeBlock(b)));
      WalkFrame(thn, t, u, owner);
      WalkFrame(els, t, u, owner);
  }

  /** The conditions of t on the first block and of u on the rest. */
  ghost function Mix(bs: seq<Block>, t: set<nat>, u: set<nat>): set<nat>
    requires bs != []
  {
    (t * Labels(SerializeBlock(bs[0]))) + (u * Labels(Serialize(bs[1..])))
  }

  lemma MixWalks(bs: seq<Block>, t: set<nat>, u: set<nat>, owner: Option<nat>)
    requires bs != [] && DistinctLabels(Serialize(bs))
    ensures WalkBlock(bs[0], Mix(bs, t, u), owner) == WalkBlock(bs[0], t, owner)
    ensures Walk(bs[1..], Mix(bs, t, u), owner) == Walk(bs[1..], u, owner)
  {
    hide Walk, WalkBlock, Serialize, Labels, DistinctLabels;
    var own, rest := Labels(SerializeBlock(bs[0])), Labels(Serialize(bs[1..]));
    SerializeParts(bs);
    DistinctConcat(SerializeBlock(bs[0]), Serialize(bs[1..]));
    assert Mix(bs, t, u) * own == t * own && Mix(bs, t, u) * rest == u * rest;
    WalkFrameBlock(bs[0], Mix(bs, t, u), t, owner);
    WalkFrame(bs[1..], Mix(bs, t, u), u, owner);
  }

  lemma DistinctParts(bs: seq<Block>)
    requires bs != [] && DistinctLabels(Serialize(bs))
    ensures DistinctLabels(SerializeBlock(bs[0])) && DistinctLabels(Serialize(bs[1..]))
  {
    DistinctConcat(SerializeBlock(bs[0]), Serialize(bs[1..]));
  }

  /** When the check says a removed section may be in force, some path shows it is. */
  lemma {:induction false} NeedsIsReached(bs: seq<Block>, doomed: set<nat>, needs: bool) returns (taken: set<nat>)
    requires DistinctLabels(Serialize(bs)) && Validate(bs, doomed, needs) == Success(true)
    ensures Reaches(bs, taken, doomed, needs)
    decreases bs, 0
  {
    hide Walk, WalkBlock, Labels, DistinctLabels, Serialize, InDoomed;
    if bs == [] {
      taken := {};
      forall o: Option<nat> ensures Walk(bs, taken, o).owner == o {
        WalkNone(taken, o);
      }
    } else {
      var b := bs[0];
      DistinctParts(bs);
      var needs1 := ValidateBlock(b, doomed, needs).value;
      var t := {};
      if needs1 {
        t := NeedsIsReachedBlock(b, doomed, needs);
      }
      var u := NeedsIsReached(bs[1..], doomed, needs1);
      taken := Mix(bs, t, u);
      forall o: Option<nat> | needs ==> InDoomed(o, doomed)
        ensures InDoomed(Walk(bs, taken, o).owner, doomed)
      {
        var o1 := WalkBlock(b, t, o).owner;
        MixWalks(bs, t, u, o);
        MixWalks(bs, t, u, o1);
        WalkCons(bs, taken, o);
        assert needs1 ==> InDoomed(o1, doomed);
      }
    }
  }

  lemma {:induction false} NeedsIsReachedBlock(b: Block, doomed: set<nat>, needs: bool) returns (taken: set<nat>)
    requires DistinctLabels(SerializeBlock(b)) && ValidateBlock(b, doomed, needs) == Success(true)
    ensures ReachesBlock(b, taken, doomed, needs)
    decreases b, 1
  {
    hide Walk, Labels, DistinctLabels, Serialize, Validate;
    taken := {};
    match b
    case Text(_) =>
    case Macro(_) =>
    case Section(_, _) =>
    case Cond(opener, thn, elseDirective, els, _) =>
      CondLabels(b);
      if Validate(thn, doomed, needs) == Success(true) {
        var t := NeedsIsReached(thn, doomed, needs);
        taken := TakeThen(b, t);
      } else if elseDirective.None? && els == [] {
        forall o: Option<nat> ensures WalkBlock(b, {}, o).owner == o {
          WalkNone({}, o);
        }
      } else {
        var u := NeedsIsReached(els, doomed, needs);
        taken := TakeElse(b, u);
      }
  }

  /** Conditions that enter the then branch and follow t in it. */
  lemma TakeThen(b: Block, t: set<nat>) returns (taken: set<nat>)
    requires b.Cond? && DistinctLabels(SerializeBlock(b))
    ensures forall o: Option<nat> :: WalkBlock(b, taken, o) == Walk(b.thn, t, o)
  {
    hide Walk, Labels, DistinctLabels, Serialize;
    CondLabels(b);
    var own := Labels(Serialize(b.thn));
    taken := (t * own) + {b.opener.no};
    assert taken * own == t * own;
    forall o: Option<nat> ensures WalkBlock(b, taken, o) == Walk(b.thn, t, o) {
      WalkFrame(b.thn, taken, t, o);
    }
  }

  lemma TakeElse(b: Block, u: set<nat>) returns (taken: set<nat>)
    requires b.Cond? && DistinctLabels(SerializeBlock(b))
    ensures forall o: Option<nat> :: WalkBlock(b, taken, o) == Walk(b.els, u, o)
  {
    hide Walk, Labels, DistinctLabels, Serialize;
    CondLabels(b);
    var own := Labels(Serialize(b.els));
    taken := u * own;
    assert taken * own == u * own;
    forall o: Option<nat> ensures WalkBlock(b, taken, o) == Walk(b.els, u, o) {
      WalkFrame(b.els, taken, u, o);
    }
  }

  /** When the check fails, some path leaves a surviving line to a removed section. */
  lemma {:induction false} FailureIsExposed(bs: seq<Block>, doomed: set<nat>, dropped: set<nat>, needs: bool)
    returns (taken: set<nat>)
    requires DistinctLabels(Serialize(bs)) && FlatSections(bs) && Splits(bs, doomed, dropped)
    requires Validate(bs, doomed, needs).Failure?
    ensures Exposes(bs, taken, doomed, dropped, needs)
    decreases bs, 0
  {
    hide Walk, WalkBlock, Labels, DistinctLabels, Serialize, InDoomed, SplitsBlock, FlatBlock, Exposed, ValidateBlock;
    var b := bs[0];
    DistinctParts(bs);
    var t, u := {}, {};
    if ValidateBlock(b, doomed, needs).Failure? {
      t := FailureIsExposedBlock(b, doomed, dropped, needs);
    } else {
      var needs1 := ValidateBlock(b, doomed, needs).value;
      if needs1 {
        t := NeedsIsReachedBlock(b, doomed, needs);
      }
      u := FailureIsExposed(bs[1..], doomed, dropped, needs1);
    }
    taken := Mix(bs, t, u);
    forall o: Option<nat> | needs ==> InDoomed(o, doomed)
      ensures Exposed(Walk(bs, taken, o).owned, doomed, dropped)
    {
      var w := WalkBlock(b, t, o);
      MixWalks(bs, t, u, o);
      MixWalks(bs, t, u, w.owner);
      WalkCons(bs, taken, o);
      ExposedConcat(w.owned, Walk(bs[1..], u, w.owner).owned, doomed, dropped);
      if ValidateBlock(b, doomed, needs).Success? {
        assert ValidateBlock(b, doomed, needs).value ==> InDoomed(w.owner, doomed);
      }
    }
  }

  lemma ExposedConcat(a: seq<Owned>, b: seq<Owned>, doomed: set<nat>, dropped: set<nat>)
    ensures Exposed(a, doomed, dropped) || Exposed(b, doomed, dropped) ==> Exposed(a + b, doomed, dropped)
  {
    assert forall e :: e in a || e in b ==> e in a + b;
  }

  lemma {:induction false} FailureIsExposedBlock(b: Block, doomed: set<nat>, dropped: set<nat>, needs: bool)
    returns (taken: set<nat>)
    requires DistinctLabels(SerializeBlock(b)) && FlatBlock(b) && SplitsBlock(b, doomed, dropped)
    requires ValidateBlock(b, doomed, needs).Failure?
    ensures ExposesBlock(b, taken, doomed, dropped, needs)
    decreases b, 1
  {
    hide Walk, DistinctLabels, Serialize, Validate, Exposed, OwnedLines;
    taken := {};
    match b
    case Text(lines) =>
      var l :| l in lines && Meaningful(l);
      LinesExposed(lines, l, doomed, dropped);
    case Macro(lines) =>
      assert lines[0] in lines;
      LinesExposed(lines, lines[0], doomed, dropped);
    case Section(_, _) =>
    case Cond(opener, thn, elseDirective, els, _) =>
      CondLabels(b);
      if Validate(thn, doomed, needs).Failure? {
        var t := FailureIsExposed(thn, doomed, dropped, needs);
        taken := TakeThen(b, t);
      } else {
        var u := FailureIsExposed(els, doomed, dropped, needs);
        taken := TakeElse(b, u);
      }
  }

  lemma LinesExposed(ls: seq<Line>, l: Line, doomed: set<nat>, dropped: set<nat>)
    requires l in ls && Matters(l) && Labels(ls) !! dropped
    ensures forall o: Option<nat> :: InDoomed(o, doomed) ==> Exposed(OwnedLines(ls, o), doomed, dropped)
  {
    assert l.no in Labels(ls);
    forall o: Option<nat> | InDoomed(o, doomed)
      ensures Exposed(OwnedLines(ls, o), doomed, dropped)
    {
      OwnedLineIn(ls, l, o);
      assert Owned(l.no, o) in OwnedLines(ls, o);
    }
  }

  lemma {:induction false} OwnedLineIn(ls: seq<Line>, l: Line, o: Option<nat>)
    requires l in ls && Matters(l)
    ensures Owned(l.no, o) in OwnedLines(ls, o)
  {
    if ls[0] != l {
      OwnedLineIn(ls[1..], l, o);
    }
  }

  /** After a removal no line is owned by a removed section. */
  lemma {:induction false} SurvivorsOwn(bs: seq<Block>, doomed: set<nat>, taken: set<nat>, owner: Option<nat>)
    requires FlatSections(bs) && !InDoomed(owner, doomed)
    ensures var w := Walk(RemoveFrom(bs, doomed), taken, owner);
            !InDoomed(w.owner, doomed) && forall e <- w.owned :: !InDoomed(e.owner, doomed)
    decreases bs, 0
  {
    hide Walk, InDoomed;
    if bs == [] {
      WalkNone(taken, owner);
    } else if IsRemoved(bs[0], doomed) {
      SurvivorsOwn(bs[1..], doomed, taken, owner);
    } else {
      var b' := RemoveIn(bs[0], doomed);
      var rest' := RemoveFrom(bs[1..], doomed);
      SurvivorsOwnBlock(bs[0], doomed, taken, owner);
      SurvivorsOwn(bs[1..], doomed, taken, WalkBlock(b', taken, owner).owner);
      assert ([b'] + rest')[1..] == rest';
      WalkCons([b'] + rest', taken, owner);
    }
  }

  lemma {:induction false} OwnedLinesOwner(ls: seq<Line>, owner: Option<nat>)
    ensures forall e <- OwnedLines(ls, owner) :: e.owner == owner
  {
    if ls != [] {
      OwnedLinesOwner(ls[1..], owner);
    }
  }

  lemma {:induction false} NoSectionsOneOwner(bs: seq<Block>, taken: set<nat>, owner: Option<nat>)
    requires SectionsOf(bs) == []
    ensures forall e <- Walk(bs, taken, owner).owned :: e.owner == owner
    decreases bs, 0
  {
    if bs != [] {
      assert SectionsIn(bs[0]) == [];
      assert SectionsOf([bs[0]]) == [] by { SectionsOne(bs[0]); }
      NoSectionsKeepOwner([bs[0]], taken, owner);
      WalkOne(bs[0], taken, owner);
      match bs[0] {
        case Text(lines) => OwnedLinesOwner(lines, owner);
        case Macro(lines) => OwnedLinesOwner(lines, owner);
        case Section(_, _) =>
        case Cond(_, thn, _, els, _) =>
          NoSectionsOneOwner(thn, taken, owner);
          NoSectionsOneOwner(els, taken, owner);
      }
      NoSectionsOneOwner(bs[1..], taken, owner);
    }
  }

  lemma {:induction false} SurvivorsOwnBlock(b: Block, doomed: set<nat>, taken: set<nat>, owner: Option<nat>)
    requires FlatBlock(b) && !IsRemoved(b, doomed) && !InDoomed(owner, doomed)
    ensures var w := WalkBlock(RemoveIn(b, doomed), taken, owner);
            !InDoomed(w.owner, doomed) && forall e <- w.owned :: !InDoomed(e.owner, doomed)
    decreases b, 1
  {
    hide Walk;
    match b
    case Text(lines) => OwnedLinesOwner(lines, owner);
    case Macro(lines) => OwnedLinesOwner(lines, owner);
    case Section(header, children) =>
      NoSectionsUnchanged(children, doomed);
      NoSectionsOneOwner(children, taken, Some(header.value.no));
    case Cond(_, thn, _, els, _) =>
      SurvivorsOwn(thn, doomed, taken, owner);
      SurvivorsOwn(els, doomed, taken, owner);
  }

  // ---------------------------------------------------------------- the theorem

  lemma {:induction false} WellFormedIsFlat(bs: seq<Block>)
    requires WellFormed(bs)
    ensures FlatSections(bs)
    decreases bs, 0
  {
    if bs != [] {
      WellFormedIsFlat(bs[1..]);
      match bs[0]
      case Text(lines) =>
      case Macro(lines) =>
        forall l | l in lines ensures Matters(l) {
          var i :| 0 <= i < |lines| && lines[i] == l;
        }
      case Section(_, _) =>
      case Cond(_, _, _, _, _) => BranchesAreFlat(bs[0]);
    }
  }

  lemma {:induction false} BranchesAreFlat(b: Block)
    requires b.Cond? && WellFormedBranches(b)
    ensures FlatBlock(b)
    decreases b, 0
  {
    WellFormedIsFlat(b.thn);
    if b.elseDirective.Some? {
      WellFormedIsFlat(b.els);
    } else if b.els != [] {
      BranchesAreFlat(b.els[0]);
      assert b.els[1..] == [];
    }
  }

  /** For every choice of conditions, removing the sections keeps the owner of every line that
      survives and matters. */
  ghost predicate OwnersKept(root: seq<Block>, doomed: set<nat>) {
    forall taken: set<nat> ::
      OwnedOf(Serialize(RemoveFrom(root, doomed)), taken)
      == Surviving(OwnedOf(Serialize(root), taken), Dropped(root, doomed))
  }

  lemma {:induction false} SurvivingHolds(owned: seq<Owned>, e: Owned, dropped: set<nat>)
    requires e in owned && e.line !in dropped
    ensures e in Surviving(owned, dropped)
  {
    if owned[0] != e {
      SurvivingHolds(owned[1..], e, dropped);
    }
  }

  /** A preamble without sections changes neither the check nor the owners after it. */
  lemma RootWalk(root: seq<Block>, doomed: set<nat>, taken: set<nat>)
    requires WellFormedRoot(root)
    ensures var pre, rest := root[0], root[1..];
            var p := Walk(pre.children, taken, None);
            && Walk(root, taken, None) == Walked(p.owned + Walk(rest, taken, None).owned, Walk(rest, taken, None).owner)
            && RemoveFrom(root, doomed) == [pre] + RemoveFrom(rest, doomed)
            && Walk(RemoveFrom(root, doomed), taken, None).owned
               == p.owned + Walk(RemoveFrom(rest, doomed), taken, None).owned
            && Validate(root, doomed, false) == Validate(rest, doomed, false)
  {
    var pre, rest := root[0], root[1..];
    NoSectionsUnchanged(pre.children, doomed);
    NoSectionsKeepOwner(pre.children, taken, None);
    var rest' := RemoveFrom(rest, doomed);
    assert RemoveIn(pre, doomed) == pre;
    assert ([pre] + rest')[1..] == rest';
    hide Walk, RemoveFrom;
    WalkCons(root, taken, None);
    WalkCons([pre] + rest', taken, None);
  }

  /** The check passes exactly when no choice of conditions hands a surviving line to another
      section. */
  lemma CheckIsExact(root: seq<Block>, doomed: set<nat>)
    requires WellFormedRoot(root) && DistinctLabels(Serialize(root))
    ensures Validate(root, doomed, false).Success? <==> OwnersKept(root, doomed)
  {
    hide Walk, Serialize, Validate, Exec, WellFormed, DistinctLabels, Dropped, FlatSections, Splits, Labels;
    var rest, dropped := root[1..], Dropped(root, doomed);
    RootSplits(root, doomed);
    WellFormedIsFlat(rest);
    RootWalk(root, doomed, {});
    if Validate(rest, doomed, false).Success? {
      forall taken: set<nat>
        ensures OwnedOf(Serialize(RemoveFrom(root, doomed)), taken)
                == Surviving(OwnedOf(Serialize(root), taken), dropped)
      {
        OwnersKeptFor(root, doomed, taken);
      }
    } else {
      var taken := FailureIsExposed(rest, doomed, dropped, false);
      OwnersLostFor(root, doomed, taken);
    }
  }

  lemma RootSplits(root: seq<Block>, doomed: set<nat>)
    requires WellFormedRoot(root) && DistinctLabels(Serialize(root))
    ensures Splits(root[1..], doomed, Dropped(root, doomed)) && DistinctLabels(Serialize(root[1..]))
    ensures Splits(root[0].children, doomed, Dropped(root, doomed))
  {
    hide WellFormed, Serialize;
    DroppedWithin(root, doomed);
    assert Dropped(root, doomed) * Labels(Serialize(root)) == Dropped(root, doomed);
    DroppedSplits(root, doomed, Dropped(root, doomed));
    DistinctParts(root);
  }

  lemma OwnersKeptFor(root: seq<Block>, doomed: set<nat>, taken: set<nat>)
    requires WellFormedRoot(root) && DistinctLabels(Serialize(root))
    requires Validate(root[1..], doomed, false).Success?
    ensures OwnedOf(Serialize(RemoveFrom(root, doomed)), taken)
         == Surviving(OwnedOf(Serialize(root), taken), Dropped(root, doomed))
  {
    hide Walk, Serialize, Validate, Exec, WellFormed, DistinctLabels, Dropped, FlatSections, Splits, Surviving;
    var pre, rest, dropped := root[0], root[1..], Dropped(root, doomed);
    RootSplits(root, doomed);
    WellFormedIsFlat(rest);
    RemoveFromRoot(root, doomed);
    RootMeaning(root, taken);
    RootMeaning(RemoveFrom(root, doomed), taken);
    RootWalk(root, doomed, taken);
    ValidateSound(rest, doomed, dropped, false, taken, None, None);
    NoSectionsSurvive(pre.children, taken, None, doomed, dropped);
    SurvivingConcat(Walk(pre.children, taken, None).owned, Walk(rest, taken, None).owned, dropped);
  }

  lemma OwnersLostFor(root: seq<Block>, doomed: set<nat>, taken: set<nat>)
    requires WellFormedRoot(root) && DistinctLabels(Serialize(root))
    requires Exposes(root[1..], taken, doomed, Dropped(root, doomed), false)
    ensures OwnedOf(Serialize(RemoveFrom(root, doomed)), taken)
         != Surviving(OwnedOf(Serialize(root), taken), Dropped(root, doomed))
  {
    hide Walk, Serialize, Exec, WellFormed, DistinctLabels, Dropped, FlatSections, Surviving, InDoomed;
    var pre, rest, dropped := root[0], root[1..], Dropped(root, doomed);
    RemoveFromRoot(root, doomed);
    RootMeaning(root, taken);
    RootMeaning(RemoveFrom(root, doomed), taken);
    RootWalk(root, doomed, taken);
    NoneNotDoomed(doomed);
    assert Exposed(Walk(rest, taken, None).owned, doomed, dropped);
    var e :| e in Walk(rest, taken, None).owned && e.line !in dropped && InDoomed(e.owner, doomed);
    SurvivingHolds(Walk(root, taken, None).owned, e, dropped);
    WellFormedIsFlat(rest);
    SurvivorsOwn(rest, doomed, taken, None);
    NoSectionsOneOwner(pre.children, taken, None);
    assert e !in Walk(RemoveFrom(root, doomed), taken, None).owned;
  }

  lemma NoneNotDoomed(doomed: set<nat>)
    ensures !InDoomed(None, doomed)
  {
  }
}
