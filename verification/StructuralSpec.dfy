/** The structural editing API: handles to sections of one tree, removal as a transaction, and
    edits of a spec that leave its lines alone unless the result parses. */
module StructuralSpec {
  import opened Wrappers
  import opened Lines
  import opened Scanning
  import opened Conditionals
  import opened Tree
  import opened Grammar
  import opened Parser
  import opened TreeBuilder
  import opened Removal
  import opened Reparse
  import opened OwnershipCheck

  datatype EditError = ForeignHandle | PreambleRemoval | WouldSpanSections(block: Block)

  function NameOf(b: Block): string {
    if b.Section? && b.header.Some? && b.header.value.kind.SectionHeader? then b.header.value.kind.name else ""
  }

  function PackageNameOf(b: Block): string {
    if b.Section? && b.header.Some? && b.header.value.kind.SectionHeader? then b.header.value.kind.pkg else ""
  }

  // ---------------------------------------------------------------- looking sections up

  /** The sections picked, in document order. */
  function Picked(ss: seq<Block>, pick: Block -> bool): seq<Block> {
    if ss == [] then [] else (if pick(ss[0]) then [ss[0]] else []) + Picked(ss[1..], pick)
  }

  lemma {:induction false} PickedConcat(a: seq<Block>, b: seq<Block>, pick: Block -> bool)
    ensures Picked(a + b, pick) == Picked(a, pick) + Picked(b, pick)
  {
    if a == [] {
      assert a + b == b;
    } else {
      assert (a + b)[1..] == a[1..] + b;
      PickedConcat(a[1..], b, pick);
      var head := if pick(a[0]) then [a[0]] else [];
      assert Picked(a + b, pick) == head + (Picked(a[1..], pick) + Picked(b, pick));
    }
  }

  /** Walks over blocks and all they hold, and collects the sections picked. */
  method CollectSections(bs: seq<Block>, pick: Block -> bool) returns (found: seq<Block>)
    ensures found == Picked(SectionsOf(bs), pick)
    decreases bs, 0
  {
    hide SectionsOf, Picked;
    found := [];
    CollectedNone(pick);
    for i := 0 to |bs|
      invariant found == Picked(SectionsOf(bs[..i]), pick)
    {
      var more := CollectIn(bs[i], pick);
      found := found + more;
      assert bs[..i + 1] == bs[..i] + [bs[i]];
      SectionsOfConcat(bs[..i], [bs[i]]);
      SectionsOne(bs[i]);
      PickedConcat(SectionsOf(bs[..i]), SectionsIn(bs[i]), pick);
    }
    assert bs[..|bs|] == bs;
  }

  lemma CollectedNone(pick: Block -> bool)
    ensures SectionsOf([]) == [] && Picked([], pick) == []
  {
  }

  method CollectIn(b: Block, pick: Block -> bool) returns (found: seq<Block>)
    ensures found == Picked(SectionsIn(b), pick)
    decreases b, 1
  {
    found := [];
    if b.Section? {
      if pick(b) {
        found := [b];
      }
      var more := CollectSections(b.children, pick);
      found := found + more;
      assert ([b] + SectionsOf(b.children))[1..] == SectionsOf(b.children);
    } else if b.Cond? {
      var more := CollectSections(b.thn, pick);
      var others := CollectSections(b.els, pick);
      PickedConcat(SectionsOf(b.thn), SectionsOf(b.els), pick);
      found := more + others;
    }
  }

  function IsNamed(name: string, pkg: string): Block -> bool {
    (b: Block) => NameOf(b) == name && PackageNameOf(b) == pkg
  }

  function OfPackage(pkg: string): Block -> bool {
    (b: Block) => PackageNameOf(b) == pkg
  }

  /** The header lines of a name and package. */
  function HeadersNamed(heads: seq<Line>, name: string, pkg: string): seq<Line> {
    if heads == [] then []
    else
      var kind := heads[0].kind;
      (if kind.SectionHeader? && kind.name == name && kind.pkg == pkg then [heads[0]] else [])
        + HeadersNamed(heads[1..], name, pkg)
  }

  lemma {:induction false} PickedHeaders(ss: seq<Block>, name: string, pkg: string)
    requires forall s <- ss :: s.Section? && s.header.Some? && s.header.value.kind.SectionHeader?
    ensures HeadersOf(Picked(ss, IsNamed(name, pkg))) == HeadersNamed(HeadersOf(ss), name, pkg)
    ensures |Picked(ss, IsNamed(name, pkg))| == |HeadersNamed(HeadersOf(ss), name, pkg)|
  {
    if ss != [] {
      assert ss[0] in ss && forall s <- ss[1..] :: s in ss;
      PickedHeaders(ss[1..], name, pkg);
      var rest := Picked(ss[1..], IsNamed(name, pkg));
      if IsNamed(name, pkg)(ss[0]) {
        assert ([ss[0]] + rest)[1..] == rest;
      } else {
        assert [] + rest == rest;
      }
      assert HeadersOf(ss)[1..] == HeadersOf(ss[1..]);
    }
  }

  /** Looking up a section of a parsed spec finds one for each header line of its name and
      package that no macro body hides, in the order of the file; the preamble is found, before
      them, for the empty name and package. */
  lemma LookupFindsHeaders(raw: seq<string>, name: string, pkg: string)
    requires Parse(raw).Success?
    ensures FindsHeaders(Parse(raw).value, HeadersNamed(HeadsOf(Masked(raw)), name, pkg), name, pkg)
  {
    hide Parse, Masked, SectionsOf, HeadersOf, HeadsOf, HeadersNamed, WellFormedRoot, FindsHeaders;
    ParsedSections(raw);
    ParsedIsWellFormed(raw);
    RootFindsHeaders(Parse(raw).value, name, pkg);
  }

  /** The sections found are those of some header lines, behind the preamble for the empty name
      and package. */
  ghost predicate FindsHeaders(root: seq<Block>, heads: seq<Line>, name: string, pkg: string) {
    && root != [] && root[0].Section? && root[0].header.None?
    && exists headed ::
         && Picked(SectionsOf(root), IsNamed(name, pkg)) == (if name == "" && pkg == "" then [root[0]] else []) + headed
         && |headed| == |heads| && HeadersOf(headed) == heads
  }

  lemma RootFindsHeaders(root: seq<Block>, name: string, pkg: string)
    requires WellFormedRoot(root)
    ensures FindsHeaders(root, HeadersNamed(HeadersOf(SectionsOf(root)), name, pkg), name, pkg)
  {
    hide SectionsOf, HeadersOf, Picked, HeadersNamed, WellFormedRoot, IsNamed;
    RootSectionsHead(root);
    PreambleIsRoot(root);
    var rest := SectionsOf(root)[1..];
    PickedHeaders(rest, name, pkg);
    PickedPreamble(root[0], rest, name, pkg);
    assert SectionsOf(root) == [root[0]] + rest;
    assert HeadersOf(Picked(rest, IsNamed(name, pkg))) == HeadersNamed(HeadersOf(SectionsOf(root)), name, pkg);
  }

  lemma PreambleIsRoot(root: seq<Block>)
    requires WellFormedRoot(root)
    ensures root != [] && root[0].Section? && root[0].header.None?
  {
  }

  /** The preamble has no header, and the empty name and package. */
  lemma PickedPreamble(pre: Block, rest: seq<Block>, name: string, pkg: string)
    requires pre.Section? && pre.header.None?
    ensures Picked([pre] + rest, IsNamed(name, pkg))
         == (if name == "" && pkg == "" then [pre] else []) + Picked(rest, IsNamed(name, pkg))
    ensures HeadersOf([pre] + rest) == HeadersOf(rest)
  {
    assert ([pre] + rest)[1..] == rest;
    assert [] + HeadersOf(rest) == HeadersOf(rest);
  }

  lemma RootSectionsHead(root: seq<Block>)
    requires WellFormedRoot(root)
    ensures SectionsOf(root) == [root[0]] + SectionsOf(root[1..])
    ensures forall s <- SectionsOf(root)[1..] :: s.Section? && s.header.Some? && s.header.value.kind.SectionHeader?
  {
    hide SectionsOf, WellFormed;
    var pre := root[0];
    assert root == [pre] + root[1..];
    SectionsOfConcat([pre], root[1..]);
    SectionsOne(pre);
    SectionsHeadLines(root[1..]);
    assert SectionsIn(pre) == [pre] + [] == [pre];
  }

  lemma {:induction false} SectionsHeadLines(bs: seq<Block>)
    requires WellFormed(bs)
    ensures forall s <- SectionsOf(bs) :: s.Section? && s.header.Some? && s.header.value.kind.SectionHeader?
  {
    hide HeadsOf, HeadersOf, WellFormed, Serialize, SectionsOf;
    SectionsHaveHeaders(bs);
    HeadsOfSerialize(bs);
    AllHead(Serialize(bs));
    forall s | s in SectionsOf(bs) ensures s.header.value.kind.SectionHeader? {
      HeaderListed(SectionsOf(bs), s);
    }
  }

  lemma {:induction false} AllHead(ls: seq<Line>)
    ensures forall l <- HeadsOf(ls) :: l.Heads()
  {
    if ls != [] {
      AllHead(ls[1..]);
    }
  }

  lemma {:induction false} HeaderListed(ss: seq<Block>, s: Block)
    requires s in ss && s.Section? && s.header.Some?
    ensures s.header.value in HeadersOf(ss)
  {
    if s != ss[0] {
      HeaderListed(ss[1..], s);
    }
  }

  /** The same for all sections of a package: the headers of the package, behind the preamble for
      the empty one. */
  lemma PackageLookupFindsHeaders(raw: seq<string>, pkg: string)
    requires Parse(raw).Success?
    ensures forall s <- SectionsOf(Parse(raw).value) :: s in Picked(SectionsOf(Parse(raw).value), OfPackage(pkg)) <==>
              s.Section? && if s.header.None? then pkg == ""
                else s.header.value.kind.SectionHeader? && s.header.value.kind.pkg == pkg
  {
    hide Parse, Masked, SectionsOf, WellFormedRoot;
    var ss := SectionsOf(Parse(raw).value);
    ParsedIsWellFormed(raw);
    RootSectionsHead(Parse(raw).value);
    PreambleIsRoot(Parse(raw).value);
    forall s | s in ss
      ensures s in Picked(ss, OfPackage(pkg)) <==>
                s.Section? && if s.header.None? then pkg == ""
                  else s.header.value.kind.SectionHeader? && s.header.value.kind.pkg == pkg
    {
      PickedHas(ss, OfPackage(pkg), s);
      assert s == ss[0] || s in ss[1..];
    }
  }

  lemma {:induction false} PickedHas(ss: seq<Block>, pick: Block -> bool, s: Block)
    requires s in ss
    ensures s in Picked(ss, pick) <==> pick(s)
  {
    if s in ss[1..] {
      PickedHas(ss[1..], pick, s);
    } else {
      PickedWithin(ss[1..], pick, s);
    }
  }

  lemma {:induction false} PickedWithin(ss: seq<Block>, pick: Block -> bool, s: Block)
    requires s !in ss
    ensures s !in Picked(ss, pick)
  {
    if ss != [] {
      PickedWithin(ss[1..], pick, s);
    }
  }

  // ---------------------------------------------------------------- removal

  /** Refers to one section of one tree; nil handles are None. */
  datatype Handle = Handle(tree: SpecTree, section: Block)

  class SpecTree {
    var root: seq<Block>

    constructor (root: seq<Block>)
      ensures this.root == root
    {
      this.root := root;
    }

    /** All sections of a name and package, in document order. */
    method Sections(name: string, pkg: string) returns (handles: seq<Handle>)
      ensures |handles| == |Picked(SectionsOf(root), IsNamed(name, pkg))|
      ensures forall i :: 0 <= i < |handles| ==>
              handles[i] == Handle(this, Picked(SectionsOf(root), IsNamed(name, pkg))[i])
    {
      var found := CollectSections(root, IsNamed(name, pkg));
      handles := seq(|found|, i requires 0 <= i < |found| => Handle(this, found[i]));
    }

    /** The first such section, if there is one. */
    method Section(name: string, pkg: string) returns (handle: Option<Handle>)
      ensures var found := Picked(SectionsOf(root), IsNamed(name, pkg));
              handle == if found == [] then None else Some(Handle(this, found[0]))
    {
      var handles := Sections(name, pkg);
      handle := if |handles| == 0 then None else Some(handles[0]);
    }

    method SectionsByPackage(pkg: string) returns (handles: seq<Handle>)
      ensures |handles| == |Picked(SectionsOf(root), OfPackage(pkg))|
      ensures forall i :: 0 <= i < |handles| ==> handles[i] == Handle(this, Picked(SectionsOf(root), OfPackage(pkg))[i])
    {
      var found := CollectSections(root, OfPackage(pkg));
      handles := seq(|found|, i requires 0 <= i < |found| => Handle(this, found[i]));
    }

    /** Removes sections as one transaction. */
    method RemoveSections(handles: seq<Option<Handle>>) returns (r: Result<(), EditError>)
      requires forall h <- handles :: h.Some? ==> h.value.section.Section?
      modifies this
      ensures match FirstBadHandle(handles, this)
              case Some(e) => r == Failure(e) && root == old(root)
              case None =>
                match Validate(old(root), Doomed(handles), false)
                case Failure(e) => r == Failure(WouldSpanSections(e.block)) && root == old(root)
                case Success(_) => r == Success(()) && root == RemoveFrom(old(root), Doomed(handles))
    {
      var doomed: set<nat> := {};
      for i := 0 to |handles|
        invariant FirstBadHandle(handles, this) == FirstBadHandle(handles[i..], this)
        invariant Doomed(handles) == doomed + Doomed(handles[i..])
      {
        assert handles[i..][0] == handles[i] && handles[i..][1..] == handles[i + 1..];
        if handles[i].None? || handles[i].value.tree != this {
          return Failure(ForeignHandle);
        }
        var section := handles[i].value.section;
        if NameOf(section) == "" && PackageNameOf(section) == "" {
          return Failure(PreambleRemoval);
        }
        doomed := doomed + {section.header.value.no};
      }
      assert handles[|handles|..] == [];
      var valid := Validate(root, doomed, false);
      if valid.Failure? {
        return Failure(WouldSpanSections(valid.error.block));
      }
      root := RemoveFrom(root, doomed);
      return Success(());
    }
  }

  /** The first handle that may not be removed, if any. */
  function FirstBadHandle(handles: seq<Option<Handle>>, tree: SpecTree): Option<EditError> {
    if handles == [] then None
    else if handles[0].None? || handles[0].value.tree != tree then Some(ForeignHandle)
    else if NameOf(handles[0].value.section) == "" && PackageNameOf(handles[0].value.section) == "" then
      Some(PreambleRemoval)
    else FirstBadHandle(handles[1..], tree)
  }

  function Doomed(handles: seq<Option<Handle>>): set<nat> {
    if handles == [] then {}
    else
      (if handles[0].Some? && handles[0].value.section.Section? && handles[0].value.section.header.Some?
       then {handles[0].value.section.header.value.no} else {})
      + Doomed(handles[1..])
  }

  /** A handle of the tree, to a section with a header. */
  predicate Removable(h: Option<Handle>, tree: SpecTree) {
    h.Some? && h.value.tree == tree && h.value.section.Section? && h.value.section.header.Some?
  }

  /** The first handle that is none, of another tree or of the preamble decides the error. */
  lemma {:induction false} BadHandle(handles: seq<Option<Handle>>, tree: SpecTree)
    requires forall h <- handles :: h.Some? ==> Handled(h.value.section)
    ensures FirstBadHandle(handles, tree) == None <==> forall h <- handles :: Removable(h, tree)
    ensures FirstBadHandle(handles, tree).Some? ==>
              exists i :: 0 <= i < |handles| && IsBad(handles, i, tree, FirstBadHandle(handles, tree).value)
  {
    if handles != [] {
      var rest := handles[1..];
      assert handles[0] in handles && forall h <- rest :: h in handles;
      BadHandle(rest, tree);
      assert forall h <- handles :: h == handles[0] || h in rest;
      if !Removable(handles[0], tree) {
        assert IsBad(handles, 0, tree, FirstBadHandle(handles, tree).value);
      } else if FirstBadHandle(rest, tree).Some? {
        var i :| 0 <= i < |rest| && IsBad(rest, i, tree, FirstBadHandle(rest, tree).value);
        assert IsBad(handles, i + 1, tree, FirstBadHandle(handles, tree).value);
      }
    }
  }

  /** What lookups hand out: sections whose header, if there is one, has a name. */
  predicate Handled(s: Block) {
    s.Section? && (s.header.Some? ==> s.header.value.kind.SectionHeader? && s.header.value.kind.name != "")
  }

  predicate IsBad(handles: seq<Option<Handle>>, i: nat, tree: SpecTree, e: EditError)
    requires i < |handles|
  {
    && (forall k :: 0 <= k < i ==> Removable(handles[k], tree)) && !Removable(handles[i], tree)
    && e == if handles[i].None? || handles[i].value.tree != tree then ForeignHandle else PreambleRemoval
  }

  /** The sections to remove are those of the handles. */
  lemma {:induction false} DoomedAre(handles: seq<Option<Handle>>, n: nat)
    ensures n in Doomed(handles) <==>
              exists h <- handles :: h.Some? && h.value.section.Section? && h.value.section.header.Some?
                                     && h.value.section.header.value.no == n
  {
    if handles != [] {
      DoomedAre(handles[1..], n);
      assert forall h <- handles :: h == handles[0] || h in handles[1..];
      assert forall h <- handles[1..] :: h in handles;
    }
  }

  // ---------------------------------------------------------------- transactions on a spec

  datatype MutateError<+E> =
    | ParseFailed(parseError: ParseError)
    | EditFailed(edit: E)
    | ResultInvalid(parseError: ParseError)

  /** What an edit of the tree makes of the lines. */
  function Mutated<E>(raw: seq<string>, mutate: seq<Block> -> Result<seq<Block>, E>)
    : Result<seq<string>, MutateError<E>>
  {
    match Parse(raw)
    case Failure(e) => Failure(ParseFailed(e))
    case Success(root) =>
      match mutate(root)
      case Failure(e) => Failure(EditFailed(e))
      case Success(root') =>
        var lines := Texts(Serialize(root'));
        if Parse(lines).Failure? then Failure(ResultInvalid(Parse(lines).error)) else Success(lines)
  }

  /** The lines of a spec, as structural edits change them. */
  class StructuralSpec {
    var rawLines: seq<string>

    /** Parses, edits, serializes and parses again; any error leaves the lines unchanged. */
    method MutateTree<E>(mutate: seq<Block> -> Result<seq<Block>, E>) returns (r: Result<(), MutateError<E>>)
      modifies this
      ensures match Mutated(old(rawLines), mutate)
              case Failure(e) => r == Failure(e) && rawLines == old(rawLines)
              case Success(lines) => r == Success(()) && rawLines == lines && Parse(rawLines).Success?
    {
      hide Parse, Serialize;
      var parsed := ParseTree(rawLines);
      if parsed.Failure? {
        return Failure(ParseFailed(parsed.error));
      }
      var edited := mutate(parsed.value);
      if edited.Failure? {
        return Failure(EditFailed(edited.error));
      }
      var lines := Texts(Serialize(edited.value));
      var again := ParseTree(lines);
      if again.Failure? {
        return Failure(ResultInvalid(again.error));
      }
      rawLines := lines;
      return Success(());
    }
  }

  /** The removal of the sections in `doomed`, as an edit of the root's children. */
  function RemovalOf(doomed: set<nat>): seq<Block> -> Result<seq<Block>, EditError> {
    (root: seq<Block>) =>
      match Validate(root, doomed, false)
      case Failure(e) => Failure(WouldSpanSections(e.block))
      case Success(_) => Success(RemoveFrom(root, doomed))
  }

  /** Removing sections of a spec that parses: it is refused exactly when some choice of
      conditions would hand a surviving line to another section; otherwise the new lines are
      the old ones without exactly the removed sections, and the final parse cannot fail. */
  lemma RemovalTransaction(raw: seq<string>, doomed: set<nat>)
    requires Parse(raw).Success?
    ensures var root := Parse(raw).value;
            match Mutated(raw, RemovalOf(doomed))
            case Failure(e) => e.EditFailed? && !OwnersKept(root, doomed)
            case Success(lines) => OwnersKept(root, doomed) && lines == Texts(Keep(Masked(raw), Dropped(root, doomed)))
  {
    hide Parse, Masked, Serialize, RemoveFrom, Dropped, WellFormedRoot, Closed, Classified, Keep, OwnersKept,
      Validate, DistinctLabels;
    var root := Parse(raw).value;
    ParsedFacts(raw);
    CheckIsExact(root, doomed);
    RemovalReparses(raw, doomed);
  }
}
