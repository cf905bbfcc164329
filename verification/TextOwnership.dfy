/** The check before a removal, told on the text of the lines. */
module TextOwnership {
  import opened Wrappers
  import opened Lines
  import opened Scanning
  import opened Tree
  import opened Grammar
  import opened Conditionals
  import opened Parser
  import opened Removal
  import opened Reparse
  import opened Ownership
  import opened OwnershipCheck
  import opened StructuralSpec
  import opened EnginesAgree

  /** A line that matters: one in the body of a macro, or any that is not blank, a comment, a
      directive of a conditional or a section header. */
  predicate MattersOnText(text: string, hidden: bool) {
    hidden || !(IsBlankOrComment(text) || ConditionalDepthChange(text) != 0 || IsConditionalBranchDirective(text)
                || IsSectionHeaderLine(text))
  }

  /** The open conditionals and the section in force. */
  datatype Scope = Scope(levels: seq<Level>, owner: Option<nat>)

  /** What a line makes of the scope, for one choice of conditions. */
  function ScopeAfter(l: Line, taken: set<nat>, s: Scope): Scope {
    var text, holds, n := l.text, l.no in taken, |s.levels|;
    if l.inBody then s
    else if ConditionalDepthChange(text) == 1 then s.(levels := s.levels + [Level(holds, holds)])
    else if ConditionalDepthChange(text) == -1 then if n == 0 then s else s.(levels := s.levels[..n - 1])
    else if IsConditionalBranchDirective(text) then
      if n == 0 then s
      else
        var done := s.levels[n - 1].done;
        var chosen := !done && (holds || !IsElifDirective(text));
        s.(levels := s.levels[..n - 1] + [Level(chosen, done || chosen)])
    else if IsSectionHeaderLine(text) && InEffect(s) then s.(owner := Some(l.no))
    else s
  }

  predicate InEffect(s: Scope) {
    forall v <- s.levels :: v.active
  }

  function ScopeAt(ls: seq<Line>, k: nat, taken: set<nat>): Scope
    requires k <= |ls|
  {
    if k == 0 then Scope([], None) else ScopeAfter(ls[k - 1], taken, ScopeAt(ls, k - 1, taken))
  }

  /** Line i is in effect, and belongs to one of some sections. */
  predicate BelongsTo(ls: seq<Line>, i: nat, taken: set<nat>, sections: set<nat>)
    requires i < |ls|
  {
    var s := ScopeAt(ls, i, taken);
    InEffect(s) && s.owner.Some? && s.owner.value in sections
  }

  lemma LineOnText(l: Line, taken: set<nat>, s: Scope)
    requires l.kind == Classify(l.text)
    ensures var t := ExecLine(l, taken, s.levels, s.owner);
            && ScopeAfter(l, taken, s) == Scope(t.levels, t.owner)
            && t.owned == if MattersOnText(l.text, l.inBody) && InEffect(s) then [Owned(l.no, s.owner)] else []
  {
    hide Classify, ConditionalDepthChange, IsConditionalBranchDirective, IsElifDirective, IsSectionHeaderLine,
      IsBlankOrComment;
    ClassifyAgrees(l.text);
  }

  /** What is owned after k lines, read off the text. */
  lemma {:induction false} OwnedOnText(ls: seq<Line>, k: nat, taken: set<nat>)
    requires Classified(ls) && k <= |ls|
    ensures var t := Exec(ls[..k], taken, [], None);
            && ScopeAt(ls, k, taken) == Scope(t.levels, t.owner)
            && forall e :: e in t.owned <==> exists i :: 0 <= i < k && OwnsAt(ls, i, taken, e)
  {
    hide ExecLine, Exec, ScopeAfter, MattersOnText, OwnsAt, Classify;
    if k > 0 {
      OwnedOnText(ls, k - 1, taken);
      var l := ls[k - 1];
      var t := Exec(ls[..k - 1], taken, [], None);
      assert ls[..k] == ls[..k - 1] + [l] && l in ls;
      ExecConcat(ls[..k - 1], [l], taken, [], None);
      ExecOne(l, taken, t.levels, t.owner);
      LineOnText(l, taken, ScopeAt(ls, k - 1, taken));
      OwnedHere(ls, k - 1, taken);
      var t' := Exec(ls[..k], taken, [], None);
      forall e ensures e in t'.owned <==> exists i :: 0 <= i < k && OwnsAt(ls, i, taken, e) {
        assert e in t'.owned <==> e in t.owned || OwnsAt(ls, k - 1, taken, e);
        if i :| 0 <= i < k && OwnsAt(ls, i, taken, e) {
          assert i == k - 1 || (0 <= i < k - 1 && OwnsAt(ls, i, taken, e));
        }
      }
    } else {
      assert ls[..0] == [];
      ExecNone(taken, [], None);
    }
  }

  /** The line that is owned, and the section that owns it. */
  predicate OwnsAt(ls: seq<Line>, i: nat, taken: set<nat>, e: Owned)
    requires i < |ls|
  {
    var s := ScopeAt(ls, i, taken);
    MattersOnText(ls[i].text, ls[i].inBody) && InEffect(s) && e == Owned(ls[i].no, s.owner)
  }

  lemma OwnedHere(ls: seq<Line>, i: nat, taken: set<nat>)
    requires i < |ls|
    ensures var s := ScopeAt(ls, i, taken);
            var owned := if MattersOnText(ls[i].text, ls[i].inBody) && InEffect(s) then [Owned(ls[i].no, s.owner)]
              else [];
            forall e :: e in owned <==> OwnsAt(ls, i, taken, e)
  {
    hide MattersOnText;
  }

  /** A surviving line belongs to a removed section, and matters. */
  predicate LostAt(ls: seq<Line>, i: nat, taken: set<nat>, doomed: set<nat>, dropped: set<nat>)
    requires i < |ls|
  {
    ls[i].no !in dropped && BelongsTo(ls, i, taken, doomed) && MattersOnText(ls[i].text, ls[i].inBody)
  }

  /** No line is lost, whatever conditions hold. */
  ghost predicate NothingLost(ls: seq<Line>, doomed: set<nat>, dropped: set<nat>) {
    forall taken: set<nat>, i: nat :: i < |ls| ==> !LostAt(ls, i, taken, doomed, dropped)
  }

  lemma ExposedOnText(ls: seq<Line>, taken: set<nat>, doomed: set<nat>, dropped: set<nat>)
    requires Classified(ls)
    ensures Exposed(OwnedOf(ls, taken), doomed, dropped) <==>
              exists i: nat :: i < |ls| && LostAt(ls, i, taken, doomed, dropped)
  {
    hide Exec, MattersOnText, ScopeAt, Classify;
    assert ls[..|ls|] == ls;
    OwnedOnText(ls, |ls|, taken);
    if Exposed(OwnedOf(ls, taken), doomed, dropped) {
      var e :| e in OwnedOf(ls, taken) && e.line !in dropped && InDoomed(e.owner, doomed);
      var i :| 0 <= i < |ls| && OwnsAt(ls, i, taken, e);
      assert LostAt(ls, i, taken, doomed, dropped);
    }
    if i: nat :| i < |ls| && LostAt(ls, i, taken, doomed, dropped) {
      var e := Owned(ls[i].no, ScopeAt(ls, i, taken).owner);
      assert OwnsAt(ls, i, taken, e);
    }
  }

  /** Owners are kept exactly when none of them was removed. */
  lemma KeptUnlessExposed(root: seq<Block>, doomed: set<nat>)
    requires WellFormedRoot(root) && DistinctLabels(Serialize(root))
    ensures OwnersKept(root, doomed) <==>
              forall taken: set<nat> :: !Exposed(OwnedOf(Serialize(root), taken), doomed, Dropped(root, doomed))
  {
    hide Walk, Serialize, Validate, Exec, WellFormed, DistinctLabels, Dropped, FlatSections, Splits, WellFormedRoot,
      Exposed, OwnersKept, OwnedOf;
    CheckIsExact(root, doomed);
    if OwnersKept(root, doomed) {
      forall taken: set<nat> ensures !Exposed(OwnedOf(Serialize(root), taken), doomed, Dropped(root, doomed)) {
        KeptNotExposed(root, doomed, taken);
      }
    } else {
      var taken := LostIsExposed(root, doomed);
    }
  }

  lemma KeptNotExposed(root: seq<Block>, doomed: set<nat>, taken: set<nat>)
    requires WellFormedRoot(root) && DistinctLabels(Serialize(root)) && OwnersKept(root, doomed)
    ensures !Exposed(OwnedOf(Serialize(root), taken), doomed, Dropped(root, doomed))
  {
    hide Walk, Serialize, Exec, WellFormed, DistinctLabels, Dropped, FlatSections, Surviving, InDoomed, Validate;
    var pre, rest, dropped := root[0], root[1..], Dropped(root, doomed);
    var owned, left := OwnedOf(Serialize(root), taken), OwnedOf(Serialize(RemoveFrom(root, doomed)), taken);
    RemoveFromRoot(root, doomed);
    RootMeaning(RemoveFrom(root, doomed), taken);
    RootWalk(root, doomed, taken);
    NoneNotDoomed(doomed);
    WellFormedIsFlat(rest);
    SurvivorsOwn(rest, doomed, taken, None);
    NoSectionsOneOwner(pre.children, taken, None);
    forall e | e in owned && e.line !in dropped ensures !InDoomed(e.owner, doomed) {
      SurvivingHolds(owned, e, dropped);
      assert e in left;
    }
  }

  lemma LostIsExposed(root: seq<Block>, doomed: set<nat>) returns (taken: set<nat>)
    requires WellFormedRoot(root) && DistinctLabels(Serialize(root)) && Validate(root, doomed, false).Failure?
    ensures Exposed(OwnedOf(Serialize(root), taken), doomed, Dropped(root, doomed))
  {
    hide Walk, Serialize, Validate, Exec, WellFormed, DistinctLabels, Dropped, FlatSections, Splits, InDoomed;
    var rest, dropped := root[1..], Dropped(root, doomed);
    RootSplits(root, doomed);
    WellFormedIsFlat(rest);
    RootWalk(root, doomed, {});
    taken := FailureIsExposed(rest, doomed, dropped, false);
    RootMeaning(root, taken);
    RootWalk(root, doomed, taken);
    assert Exposed(Walk(rest, taken, None).owned, doomed, dropped);
  }

  /** A removal from a spec that parses succeeds if and only if, whatever conditions hold, every
      line left that belonged to a removed section is blank, a comment, a directive or a header. */
  lemma RemovalOnText(raw: seq<string>, doomed: set<nat>)
    requires Parse(raw).Success?
    ensures Mutated(raw, RemovalOf(doomed)).Success? <==>
              NothingLost(Masked(raw), doomed, Dropped(Parse(raw).value, doomed))
  {
    hide Parse, Masked, Serialize, RemoveFrom, Dropped, WellFormedRoot, Closed, Classified, OwnersKept, DistinctLabels,
      Mutated, OwnedOf, Exposed, LostAt;
    var root, m := Parse(raw).value, Masked(raw);
    ParsedFacts(raw);
    RemovalTransaction(raw, doomed);
    KeptUnlessExposed(root, doomed);
    var dropped := Dropped(root, doomed);
    if NothingLost(m, doomed, dropped) {
      forall taken: set<nat> ensures !Exposed(OwnedOf(m, taken), doomed, dropped) {
        ExposedOnText(m, taken, doomed, dropped);
      }
      assert OwnersKept(root, doomed);
    } else {
      var taken: set<nat>, i: nat :| i < |m| && LostAt(m, i, taken, doomed, dropped);
      ExposedOnText(m, taken, doomed, dropped);
      assert Exposed(OwnedOf(m, taken), doomed, dropped);
      assert !OwnersKept(root, doomed);
    }
  }

  /** The lines removed are those from each header removed to the end of its section, read off the
      file. */
  lemma RemovedLines(raw: seq<string>, doomed: set<nat>, n: nat)
    requires Parse(raw).Success?
    ensures n in Dropped(Parse(raw).value, doomed) <==>
              exists h: nat :: h in doomed && h < |Masked(raw)| && Masked(raw)[h].Heads()
                && h <= n < ExtentFrom(Masked(raw), h + 1)
  {
    hide Parse, Masked, SectionsOf, SerializeBlock, ExtentFrom, StopsAt, Balanced, HasHeader, Classify;
    var root, m := Parse(raw).value, Masked(raw);
    MaskedInOrder(raw);
    ParsedExtents(raw);
    if n in Dropped(root, doomed) {
      var s, l :| s in SectionsOf(root) && IsRemoved(s, doomed) && l in SerializeBlock(s) && l.no == n;
      LinesOfSection(m, s, n);
    }
    if h: nat :| h in doomed && h < |m| && m[h].Heads() && h <= n < ExtentFrom(m, h + 1) {
      var s := SectionStartingAt(raw, h);
      StandsOnExtent(m, s, h);
      LinesOfSection(m, s, n);
      var l :| l in SerializeBlock(s) && l.no == n;
      assert IsRemoved(s, doomed);
    }
  }
}
