/** A tree with sections removed still is a tree of its own lines: parsing those lines again
    always succeeds and finds exactly the surviving sections. */
module Reparse {
  import opened Wrappers
  import opened Lines
  import opened Scanning
  import opened Conditionals
  import opened Tree
  import opened Grammar
  import opened Parser
  import opened NormalForm
  import opened Removal

  // ---------------------------------------------------------------- shape after removal

  lemma {:induction false} NoSectionsUnchanged(bs: seq<Block>, doomed: set<nat>)
    requires SectionsOf(bs) == []
    ensures RemoveFrom(bs, doomed) == bs
    decreases bs, 0
  {
    if bs != [] {
      NoSectionsUnchangedIn(bs[0], doomed);
      NoSectionsUnchanged(bs[1..], doomed);
      assert bs == [bs[0]] + bs[1..];
    }
  }

  lemma {:induction false} NoSectionsUnchangedIn(b: Block, doomed: set<nat>)
    requires SectionsIn(b) == []
    ensures RemoveIn(b, doomed) == b && !IsRemoved(b, doomed)
    decreases b, 0
  {
    match b
    case Text(_) =>
    case Macro(_) =>
    case Section(_, _) =>
    case Cond(_, thn, _, els, _) =>
      NoSectionsUnchanged(thn, doomed);
      NoSectionsUnchanged(els, doomed);
  }

  /** Removal keeps the tree well formed; its sections are the survivors, in order. */
  lemma {:induction false} RemoveWellFormed(bs: seq<Block>, doomed: set<nat>)
    requires WellFormed(bs)
    ensures WellFormed(RemoveFrom(bs, doomed))
    ensures HeadersOf(SectionsOf(RemoveFrom(bs, doomed))) == Keep(HeadersOf(SectionsOf(bs)), doomed)
    decreases bs, 0
  {
    if bs != [] {
      hide WellFormed;
      WellFormedParts(bs);
      var b, rest := bs[0], bs[1..];
      RemoveWellFormed(rest, doomed);
      HeadersOfConcat(SectionsIn(b), SectionsOf(rest));
      KeepConcat(HeadersOf(SectionsIn(b)), HeadersOf(SectionsOf(rest)), doomed);
      if IsRemoved(b, doomed) {
        SectionHeader(b);
        KeepNone([b.header.value], doomed);
      } else {
        var b' := RemoveIn(b, doomed);
        RemoveInWellFormed(b, doomed);
        WellFormedCons(b', RemoveFrom(rest, doomed));
        assert ([b'] + RemoveFrom(rest, doomed))[1..] == RemoveFrom(rest, doomed);
        HeadersOfConcat(SectionsIn(b'), SectionsOf(RemoveFrom(rest, doomed)));
      }
    } else {
      HeadsOfNone();
    }
  }

  lemma SectionHeader(b: Block)
    requires b.Section? && WellFormedBlock(b)
    ensures HeadersOf(SectionsIn(b)) == [b.header.value]
  {
    assert SectionsIn(b) == [b] + [] == [b] && [b][1..] == [];
  }

  lemma {:induction false} RemoveInWellFormed(b: Block, doomed: set<nat>)
    requires WellFormedBlock(b) && !IsRemoved(b, doomed)
    ensures WellFormedBlock(RemoveIn(b, doomed))
    ensures HeadersOf(SectionsIn(RemoveIn(b, doomed))) == Keep(HeadersOf(SectionsIn(b)), doomed)
    decreases b, 2
  {
    match b
    case Text(_) => HeadsOfNone();
    case Macro(_) => HeadsOfNone();
    case Section(header, children) =>
      NoSectionsUnchanged(children, doomed);
      SectionHeader(b);
      KeepAll([header.value], doomed);
    case Cond(_, _, _, _, _) =>
      RemoveBranchesWellFormed(b, doomed);
  }

  lemma {:induction false} RemoveBranchesWellFormed(b: Block, doomed: set<nat>)
    requires b.Cond? && WellFormedBranches(b)
    ensures WellFormedBranches(RemoveIn(b, doomed))
    ensures HeadersOf(SectionsIn(RemoveIn(b, doomed))) == Keep(HeadersOf(SectionsIn(b)), doomed)
    decreases b, 1
  {
    hide Keep, HeadersOf, SectionsOf, WellFormed;
    RemoveWellFormed(b.thn, doomed);
    if b.elseDirective.Some? {
      RemoveWellFormed(b.els, doomed);
    } else {
      RemoveElifWellFormed(b.els, doomed);
    }
    var b' := RemoveIn(b, doomed);
    HeadersOfConcat(SectionsOf(b.thn), SectionsOf(b.els));
    HeadersOfConcat(SectionsOf(b'.thn), SectionsOf(b'.els));
    KeepConcat(HeadersOf(SectionsOf(b.thn)), HeadersOf(SectionsOf(b.els)), doomed);
  }

  lemma {:induction false} RemoveElifWellFormed(els: seq<Block>, doomed: set<nat>)
    requires els == [] || IsElifChain(els)
    ensures RemoveFrom(els, doomed) == [] || IsElifChain(RemoveFrom(els, doomed))
    ensures HeadersOf(SectionsOf(RemoveFrom(els, doomed))) == Keep(HeadersOf(SectionsOf(els)), doomed)
    decreases els, 0
  {
    if els != [] {
      var inner := els[0];
      assert els == [inner];
      RemoveOne(inner, doomed);
      RemoveBranchesWellFormed(inner, doomed);
      SectionsOne(inner);
      SectionsOne(RemoveIn(inner, doomed));
    } else {
      HeadsOfNone();
    }
  }

  lemma RemoveOne(b: Block, doomed: set<nat>)
    requires !IsRemoved(b, doomed)
    ensures RemoveFrom([b], doomed) == [RemoveIn(b, doomed)]
  {
    assert [b][1..] == [];
  }

  // ---------------------------------------------------------------- macro bodies stay whole

  lemma {:induction false} SerializeStartsOutside(bs: seq<Block>)
    requires WellFormed(bs)
    ensures Serialize(bs) != [] ==> !Serialize(bs)[0].inBody
  {
    SerializeShaped(bs);
  }

  lemma ClosedLine(l: Line)
    requires !l.inBody && !l.Defines()
    ensures Closed([l])
  {
    assert [l][1..] == [];
  }

  lemma {:induction false} RemoveClosed(bs: seq<Block>, doomed: set<nat>)
    requires WellFormed(bs) && Closed(Serialize(bs))
    ensures Closed(Serialize(RemoveFrom(bs, doomed)))
    decreases bs, 0
  {
    if bs != [] {
      hide WellFormed, Closed;
      WellFormedParts(bs);
      var own, rest := SerializeBlock(bs[0]), Serialize(bs[1..]);
      SerializeStartsOutside(bs[1..]);
      ClosedSplit(own, rest);
      RemoveClosed(bs[1..], doomed);
      if !IsRemoved(bs[0], doomed) {
        RemoveInClosed(bs[0], doomed);
        SerializeCons(RemoveIn(bs[0], doomed), RemoveFrom(bs[1..], doomed));
        ClosedConcat(SerializeBlock(RemoveIn(bs[0], doomed)), Serialize(RemoveFrom(bs[1..], doomed)));
      }
    }
  }

  lemma {:induction false} RemoveInClosed(b: Block, doomed: set<nat>)
    requires WellFormedBlock(b) && !IsRemoved(b, doomed) && Closed(SerializeBlock(b))
    ensures Closed(SerializeBlock(RemoveIn(b, doomed)))
    decreases b, 2
  {
    hide Closed;
    match b
    case Text(_) =>
    case Macro(_) =>
    case Section(_, children) =>
      NoSectionsUnchanged(children, doomed);
    case Cond(opener, _, _, _, endif) =>
      var body := SerializeBranches(b);
      ClosedSplit([opener] + body, [endif.value]);
      BranchesStartOutside(b);
      ClosedSplit([opener], body);
      RemoveBranchesClosed(b, doomed);
      ClosedLine(endif.value);
      ClosedConcat([opener], SerializeBranches(RemoveIn(b, doomed)));
      ClosedConcat([opener] + SerializeBranches(RemoveIn(b, doomed)), [endif.value]);
  }

  lemma BranchesStartOutside(b: Block)
    requires b.Cond? && WellFormedBranches(b)
    ensures SerializeBranches(b) != [] ==> !SerializeBranches(b)[0].inBody
  {
    SerializeBranchesShaped(b);
  }

  lemma {:induction false} RemoveBranchesClosed(b: Block, doomed: set<nat>)
    requires b.Cond? && WellFormedBranches(b) && Closed(SerializeBranches(b))
    ensures Closed(SerializeBranches(RemoveIn(b, doomed)))
    decreases b, 1
  {
    hide Closed, Serialize, RemoveFrom, WellFormed;
    var thn, dir, els := Serialize(b.thn), OptLine(b.elseDirective), Serialize(b.els);
    assert SerializeBranches(b) == thn + (dir + els);
    ElseStartsOutside(b);
    ClosedSplit(thn, dir + els);
    RemoveClosed(b.thn, doomed);
    var thn', els' := Serialize(RemoveFrom(b.thn, doomed)), Serialize(RemoveFrom(b.els, doomed));
    if b.elseDirective.Some? {
      SerializeStartsOutside(b.els);
      ClosedSplit(dir, els);
      RemoveClosed(b.els, doomed);
      ClosedConcat(dir, els');
    } else {
      assert dir + els == els && dir + els' == els';
      RemoveElifClosed(b.els, doomed);
    }
    ClosedConcat(thn', dir + els');
    assert SerializeBranches(RemoveIn(b, doomed)) == thn' + (dir + els');
  }

  lemma ElseStartsOutside(b: Block)
    requires b.Cond? && WellFormedBranches(b)
    ensures var after := OptLine(b.elseDirective) + Serialize(b.els); after != [] ==> !after[0].inBody
  {
    if b.elseDirective.None? && b.els != [] {
      assert b.els == [b.els[0]];
      SerializeOne(b.els[0]);
    }
  }

  lemma {:induction false} RemoveElifClosed(els: seq<Block>, doomed: set<nat>)
    requires els == [] || IsElifChain(els)
    requires Closed(Serialize(els))
    ensures Closed(Serialize(RemoveFrom(els, doomed)))
    decreases els, 0
  {
    if els != [] {
      hide Closed;
      var inner := els[0];
      assert els == [inner];
      RemoveOne(inner, doomed);
      SerializeOne(inner);
      SerializeOne(RemoveIn(inner, doomed));
      BranchesStartOutside(inner);
      assert SerializeBlock(inner) == [inner.opener] + SerializeBranches(inner);
      ClosedSplit([inner.opener], SerializeBranches(inner));
      RemoveBranchesClosed(inner, doomed);
      ClosedConcat([inner.opener], SerializeBranches(RemoveIn(inner, doomed)));
      assert SerializeBlock(RemoveIn(inner, doomed)) == [inner.opener] + SerializeBranches(RemoveIn(inner, doomed));
    }
  }

  // ---------------------------------------------------------------- parsing again

  predicate Classified(ls: seq<Line>) {
    forall l <- ls :: l.kind == Classify(l.text)
  }

  /** Same lines up to their labels. */
  predicate SameButLabels(a: seq<Line>, b: seq<Line>) {
    |a| == |b| && forall i :: 0 <= i < |a| ==> a[i].(no := b[i].no) == b[i]
  }

  lemma {:induction false} HeadsButLabels(a: seq<Line>, b: seq<Line>)
    requires SameButLabels(a, b)
    ensures SameButLabels(HeadsOf(a), HeadsOf(b))
  {
    if a != [] {
      HeadsButLabels(a[1..], b[1..]);
    }
  }

  lemma RescanClosed(ls: seq<Line>)
    requires Closed(ls) && Classified(ls)
    ensures SameButLabels(Masked(Texts(ls)), ls) && !EndsInMacro(Texts(ls))
  {
    hide Classify, ModeAfter, Mask, ModeEnd, Lexed;
    var again := Label(Texts(ls));
    forall i | 0 <= i < |ls|
      ensures again[i].text == ls[i].text && again[i].kind == ls[i].kind
    {
      assert ls[i] in ls;
    }
    LexedIsMask(ls, again, Outside);
  }

  lemma BalancedAnyLabels(a: seq<Line>, b: seq<Line>)
    requires SameButLabels(a, b) && Balanced(b)
    ensures Balanced(a)
  {
    RunAnyLabels(a, [], b, []);
  }

  lemma HeadersReparse(root: seq<Block>)
    requires WellFormedRoot(root) && Closed(Serialize(root)) && Classified(Serialize(root))
    ensures var again := Parse(Texts(Serialize(root)));
            again.Success? && SameButLabels(HeadersOf(SectionsOf(again.value)), HeadersOf(SectionsOf(root)))
  {
    var ls := Serialize(root);
    hide Classified, Closed, Masked, EndsInMacro, Balanced, Matching, Serialize, WellFormed, SectionsOf, HeadersOf,
      HeadsOf;
    RescanClosed(ls);
    RootHeads(root);
    SerializeBalanced(root[0].children);
    SerializeBalanced(root[1..]);
    BalancedConcat(Serialize(root[0].children), Serialize(root[1..]));
    BalancedAnyLabels(Masked(Texts(ls)), ls);
    MatchingIsBalanced(Masked(Texts(ls)));
    ParsedSections(Texts(ls));
    HeadsButLabels(Masked(Texts(ls)), ls);
  }

  lemma SameErased(a: seq<Line>, b: seq<Line>)
    requires SameButLabels(a, b)
    ensures EraseLines(a) == EraseLines(b)
  {
    forall i | 0 <= i < |a| ensures EraseLines(a)[i] == EraseLines(b)[i] {
      assert a[i].(no := b[i].no) == b[i];
    }
  }

  /** The lines of a well-formed tree, closed and classified, parse. The sections found are the
      sections of the tree, and the tree found is the tree itself, up to labels, exactly when it
      is in normal form. */
  lemma TreeReparses(root: seq<Block>)
    requires WellFormedRoot(root) && Closed(Serialize(root)) && Classified(Serialize(root))
    ensures var again := Parse(Texts(Serialize(root)));
            && again.Success?
            && SameButLabels(HeadersOf(SectionsOf(again.value)), HeadersOf(SectionsOf(root)))
            && (Erase(again.value) == Erase(root) <==> NormalRoot(root))
  {
    hide Parse, Masked, Serialize, SectionsOf, HeadersOf, WellFormedRoot, NormalRoot, Erase, EraseLines, Closed,
      Classified, EndsInMacro, SameButLabels;
    HeadersReparse(root);
    RescanClosed(Serialize(root));
    SameErased(Masked(Texts(Serialize(root))), Serialize(root));
    ParsedAgain(root, Texts(Serialize(root)));
  }

  // ---------------------------------------------------------------- removal, end to end

  lemma RemoveFromRoot(root: seq<Block>, doomed: set<nat>)
    requires WellFormedRoot(root)
    ensures var after := RemoveFrom(root, doomed);
            && WellFormedRoot(after)
            && HeadersOf(SectionsOf(after)) == Keep(HeadersOf(SectionsOf(root)), doomed)
            && (Closed(Serialize(root)) ==> Closed(Serialize(after)))
  {
    hide WellFormed, Closed, HeadersOf, Keep, SectionsOf, Serialize;
    var pre, rest := root[0], root[1..];
    var rest' := RemoveFrom(rest, doomed);
    NoSectionsUnchanged(pre.children, doomed);
    RemoveWellFormed(rest, doomed);
    var after := RemoveFrom(root, doomed);
    assert RemoveIn(pre, doomed) == Section(None, RemoveFrom(pre.children, doomed)) == pre;
    assert after == [pre] + rest' && after[1..] == rest' && root == [pre] + rest;
    RootSections(root);
    RootSections(after);
    RootHeads(root);
    RootHeads(after);
    if Closed(Serialize(root)) {
      SerializeStartsOutside(rest);
      ClosedSplit(Serialize(pre.children), Serialize(rest));
      RemoveClosed(rest, doomed);
      ClosedConcat(Serialize(pre.children), Serialize(rest'));
    }
  }

  lemma RootSections(root: seq<Block>)
    requires WellFormedRoot(root)
    ensures HeadersOf(SectionsOf(root)) == HeadersOf(SectionsOf(root[1..]))
  {
    assert SectionsIn(root[0]) == [root[0]];
    assert ([root[0]] + SectionsOf(root[1..]))[1..] == SectionsOf(root[1..]);
  }

  /** Whatever sections of a parsed spec are removed, the lines left are the original lines
      without exactly theirs, they parse again, and the sections found then are the
      survivors in document order. The tree found is the one the removal left, up to labels,
      exactly when that is in normal form. */
  lemma RemovalReparses(raw: seq<string>, doomed: set<nat>)
    requires Parse(raw).Success?
    ensures var root := Parse(raw).value;
            var after := RemoveFrom(root, doomed);
            var again := Parse(Texts(Serialize(after)));
            && Serialize(after) == Keep(Masked(raw), Dropped(root, doomed))
            && again.Success?
            && SameButLabels(HeadersOf(SectionsOf(again.value)), Keep(HeadersOf(SectionsOf(root)), doomed))
            && (Erase(again.value) == Erase(after) <==> NormalRoot(after))
  {
    hide Parse, Masked, Serialize, RemoveFrom, Dropped, WellFormedRoot, Closed, Classified, Keep, HeadersOf,
      SectionsOf, DistinctLabels, Erase, NormalRoot;
    var root := Parse(raw).value;
    ParsedFacts(raw);
    RemovalKeepsTheRest(root, doomed);
    RemoveFromRoot(root, doomed);
    KeepClassified(Masked(raw), Dropped(root, doomed));
    TreeReparses(RemoveFrom(root, doomed));
  }

  lemma {:induction false} KeepClassified(ls: seq<Line>, dropped: set<nat>)
    requires Classified(ls)
    ensures Classified(Keep(ls, dropped))
  {
    hide Classify;
    if ls != [] {
      assert ls[0] in ls;
      KeepClassified(ls[1..], dropped);
    }
  }

  lemma ParsedFacts(raw: seq<string>)
    requires Parse(raw).Success?
    ensures var root := Parse(raw).value;
            && WellFormedRoot(root) && Serialize(root) == Masked(raw)
            && Closed(Masked(raw)) && Classified(Masked(raw)) && DistinctLabels(Masked(raw))
  {
    ParsedIsWellFormed(raw);
    RoundTrip(raw);
    MaskedClosed(raw);
    MaskedClassified(raw);
    MaskedDistinct(raw);
  }

  lemma MaskedClosed(raw: seq<string>)
    requires !EndsInMacro(raw)
    ensures Closed(Masked(raw))
  {
    hide Mask, ModeEnd, Lexed, Label;
    MaskedFacts(raw);
  }

  lemma MaskedClassified(raw: seq<string>)
    ensures Classified(Masked(raw))
  {
    hide Mask, Classify;
    var ls := Label(raw);
    forall l | l in Masked(raw)
      ensures l.kind == Classify(l.text)
    {
      var i :| 0 <= i < |ls| && Masked(raw)[i] == l;
      assert l == ls[i].(inBody := l.inBody);
    }
  }

  lemma MaskedDistinct(raw: seq<string>)
    ensures DistinctLabels(Masked(raw))
  {
    hide Masked, Shaped, Lexed;
    MaskedFacts(raw);
  }
}
