/** The structural parser: what it accepts, and the tree it returns. */
module Parser {
  import opened Wrappers
  import opened Lines
  import opened Scanning
  import opened Conditionals
  import opened Tree
  import opened Grammar

  // ---------------------------------------------------------------- specification

  function Masked(raw: seq<string>): seq<Line> {
    Mask(Label(raw), Outside)
  }

  predicate EndsInMacro(raw: seq<string>) {
    ModeEnd(Label(raw), Outside).Inside?
  }

  /** The label of the last macro definition. */
  function LastDefinition(ls: seq<Line>): nat {
    if ls == [] then 0 else if ls[|ls| - 1].Defines() then ls[|ls| - 1].no else LastDefinition(ls[..|ls| - 1])
  }

  /** How conditional matching ends: on an error, or with every conditional closed. */
  function Matching(ls: seq<Line>): Result<(), ParseError> {
    match RunFrames(ls, [])
    case Failure(e) => Failure(e)
    case Success(s) => if s == [] then Success(()) else Failure(UnmatchedIf(s[0].ifLine))
  }

  /** The number of leading blocks that belong to the preamble. */
  function PreambleEnd(bs: seq<Block>): (n: nat)
    ensures n <= |bs|
    ensures forall i :: 0 <= i < n ==> !WrapsSections(bs[i])
    ensures n < |bs| ==> WrapsSections(bs[n])
  {
    if bs == [] || WrapsSections(bs[0]) then 0 else 1 + PreambleEnd(bs[1..])
  }

  function WrapPreamble(bs: seq<Block>): seq<Block> {
    [Section(None, bs[..PreambleEnd(bs)])] + bs[PreambleEnd(bs)..]
  }

  /** The children of the root of the tree, or why there is none. */
  function Parse(raw: seq<string>): Result<seq<Block>, ParseError> {
    var ls := Masked(raw);
    match Matching(ls)
    case Failure(e) => Failure(e)
    case Success(_) =>
      if EndsInMacro(raw) then Failure(UnterminatedMacro(LastDefinition(ls))) else Success(WrapPreamble(Build(ls)))
  }

  // ---------------------------------------------------------------- theorems

  /** Root children: an implicit preamble without sections, then well-formed blocks. */
  predicate WellFormedRoot(root: seq<Block>) {
    && root != [] && root[0].Section? && root[0].header.None?
    && WellFormed(root[0].children) && SectionsOf(root[0].children) == []
    && WellFormed(root[1..])
  }

  lemma MaskedFacts(raw: seq<string>)
    ensures Shaped(Masked(raw)) && Texts(Masked(raw)) == raw
    ensures Lexed(Masked(raw), Outside)
    ensures ModeEnd(Masked(raw), Outside) == ModeEnd(Label(raw), Outside)
    ensures forall i :: 0 <= i < |raw| ==> Masked(raw)[i].no == i
  {
    hide Mask, ModeAfter, ModeEnd, Lexed, Shaped, Label;
    NothingMaskedYet(raw);
    MaskedTexts(raw);
    MaskLexed(Label(raw), Outside);
    MaskShapedOutside(Label(raw));
  }

  lemma NothingMaskedYet(raw: seq<string>)
    ensures forall l <- Label(raw) :: !l.inBody
  {
  }

  lemma MaskedTexts(raw: seq<string>)
    ensures Texts(Masked(raw)) == raw
    ensures forall i :: 0 <= i < |raw| ==> Masked(raw)[i].no == i
  {
    hide Mask;
  }

  lemma MaskShapedOutside(ls: seq<Line>)
    requires forall l <- ls :: !l.inBody
    ensures Shaped(Mask(ls, Outside))
  {
    hide ModeAfter;
    MaskShaped(ls, Outside);
  }

  lemma {:induction false} NoSectionsPrefix(bs: seq<Block>, n: nat)
    requires n <= |bs| && forall i :: 0 <= i < n ==> !WrapsSections(bs[i])
    ensures SectionsOf(bs[..n]) == []
  {
    if n > 0 {
      assert bs[..n][1..] == bs[1..][..n - 1];
      NoSectionsPrefix(bs[1..], n - 1);
    }
  }

  lemma WrapPreambleKeeps(bs: seq<Block>)
    ensures Serialize(WrapPreamble(bs)) == Serialize(bs)
    ensures WellFormed(bs) ==> WellFormedRoot(WrapPreamble(bs))
  {
    hide Serialize, WellFormed, SectionsOf;
    var n := PreambleEnd(bs);
    assert bs == bs[..n] + bs[n..];
    SerializeConcat(bs[..n], bs[n..]);
    SerializeCons(Section(None, bs[..n]), bs[n..]);
    WellFormedConcat(bs[..n], bs[n..]);
    NoSectionsPrefix(bs, n);
    assert WrapPreamble(bs)[1..] == bs[n..];
  }

  /** Serializing a parsed tree gives back exactly the lines that were parsed. */
  lemma RoundTrip(raw: seq<string>)
    requires Parse(raw).Success?
    ensures Serialize(Parse(raw).value) == Masked(raw)
    ensures Texts(Serialize(Parse(raw).value)) == raw
  {
    MaskedFacts(raw);
    SerializeBuild(Masked(raw));
    WrapPreambleKeeps(Build(Masked(raw)));
  }

  /** No directive and no section header is ever parsed as raw text, macro bodies are whole,
      sections do not nest, and every conditional has its own directives. */
  lemma ParsedIsWellFormed(raw: seq<string>)
    requires Parse(raw).Success?
    ensures WellFormedRoot(Parse(raw).value)
  {
    MaskedFacts(raw);
    BuildWellFormed(Masked(raw));
    WrapPreambleKeeps(Build(Masked(raw)));
  }

  /** Parsing fails exactly when the lines, with macro bodies masked, spell no well-formed
      tree, or when they end inside a macro body. */
  lemma AcceptsExactly(raw: seq<string>)
    ensures Parse(raw).Success? <==>
              !EndsInMacro(raw) && exists bs :: WellFormed(bs) && Serialize(bs) == Masked(raw)
  {
    MaskedFacts(raw);
    MatchingIsBalanced(Masked(raw));
    hide Masked, EndsInMacro, WellFormed, Serialize, Build, Shaped, Matching, Balanced;
    BalancedIffGrammatical(Masked(raw));
  }

  lemma MatchingIsBalanced(ls: seq<Line>)
    ensures Matching(ls).Success? <==> Balanced(ls)
  {
  }

  lemma ParsedSections(raw: seq<string>)
    requires Parse(raw).Success?
    ensures HeadersOf(SectionsOf(Parse(raw).value)) == HeadsOf(Masked(raw))
  {
    ParsedIsWellFormed(raw);
    RoundTrip(raw);
    RootHeads(Parse(raw).value);
  }

  lemma RootHeads(root: seq<Block>)
    requires WellFormedRoot(root)
    ensures HeadsOf(Serialize(root)) == HeadersOf(SectionsOf(root))
    ensures Serialize(root) == Serialize(root[0].children) + Serialize(root[1..])
  {
    var pre := root[0];
    assert root == [pre] + root[1..];
    SerializeCons(pre, root[1..]);
    assert SerializeBlock(pre) == Serialize(pre.children);
    HeadsOfSerialize(pre.children);
    HeadsOfSerialize(root[1..]);
    HeadsOfConcat(Serialize(pre.children), Serialize(root[1..]));
    HeadersOfConcat(SectionsIn(pre), SectionsOf(root[1..]));
    assert SectionsIn(pre) == [pre] + [] == [pre] && [pre][1..] == [];
    HeadsOfNone();
  }
}
