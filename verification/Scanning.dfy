/** Labelling raw lines and masking the bodies of multi-line macro definitions. */
module Scanning {
  import opened Lines
  import opened MacroLexer

  /** Whether the next line is inside a macro body, and in which lexer state. */
  datatype Mode = Outside | Inside(state: MacroState)

  function ModeAfter(l: Line, m: Mode): Mode {
    if m.Outside? && !l.kind.MacroDefinition? then Outside
    else
      var (state, continues) := BodyAfter(l.text, if m.Inside? then m.state else START);
      if continues then Inside(state) else Outside
  }

  function ModeEnd(ls: seq<Line>, m: Mode): Mode {
    if ls == [] then m else ModeEnd(ls[1..], ModeAfter(ls[0], m))
  }

  function Mask(ls: seq<Line>, m: Mode): (r: seq<Line>)
    ensures |r| == |ls|
    ensures forall i :: 0 <= i < |ls| ==> r[i] == ls[i].(inBody := r[i].inBody)
  {
    if ls == [] then []
    else [ls[0].(inBody := m.Inside?)] + Mask(ls[1..], ModeAfter(ls[0], m))
  }

  /** Raw lines with their positions and kinds, no macro body masked yet. */
  function Label(raw: seq<string>): (ls: seq<Line>)
    ensures |ls| == |raw|
    ensures forall i :: 0 <= i < |raw| ==> ls[i] == Line(i, raw[i], Classify(raw[i]), false)
  {
    seq(|raw|, i requires 0 <= i < |raw| => Line(i, raw[i], Classify(raw[i]), false))
  }

  function Texts(ls: seq<Line>): (raw: seq<string>)
    ensures |raw| == |ls|
    ensures forall i :: 0 <= i < |ls| ==> raw[i] == ls[i].text
  {
    seq(|ls|, i requires 0 <= i < |ls| => ls[i].text)
  }

  lemma {:induction false} ModeEndConcat(a: seq<Line>, b: seq<Line>, m: Mode)
    ensures ModeEnd(a + b, m) == ModeEnd(b, ModeEnd(a, m))
  {
    hide ModeAfter;
    if a == [] {
      assert a + b == b;
    } else {
      assert (a + b)[1..] == a[1..] + b;
      ModeEndConcat(a[1..], b, ModeAfter(a[0], m));
    }
  }

  lemma {:induction false} MaskConcat(a: seq<Line>, b: seq<Line>, m: Mode)
    ensures Mask(a + b, m) == Mask(a, m) + Mask(b, ModeEnd(a, m))
  {
    hide ModeAfter;
    if a == [] {
      assert a + b == b;
    } else {
      assert (a + b)[1..] == a[1..] + b;
      MaskConcat(a[1..], b, ModeAfter(a[0], m));
    }
  }

  /** Any suffix of a masked list is the masked suffix, from the mode reached there. */
  lemma MaskSuffix(ls: seq<Line>, m: Mode, k: nat)
    requires k <= |ls|
    ensures Mask(ls, m)[k..] == Mask(ls[k..], ModeEnd(ls[..k], m))
    ensures ModeEnd(ls, m) == ModeEnd(ls[k..], ModeEnd(ls[..k], m))
    ensures k < |ls| ==> Mask(ls, m)[k].inBody == ModeEnd(ls[..k], m).Inside?
  {
    hide ModeAfter, ModeEnd;
    assert ls == ls[..k] + ls[k..];
    MaskConcat(ls[..k], ls[k..], m);
    ModeEndConcat(ls[..k], ls[k..], m);
    MaskHead(ls[k..], ModeEnd(ls[..k], m));
  }

  lemma MaskHead(ls: seq<Line>, m: Mode)
    ensures ls != [] ==> Mask(ls, m)[0].inBody == m.Inside?
  {
  }

  /** A scan that starts afresh at a line outside every macro body sees the same mask. */
  lemma ScanAfresh(ls: seq<Line>, k: nat)
    requires k <= |ls| && (k < |ls| ==> !Mask(ls, Outside)[k].inBody)
    ensures Mask(ls, Outside)[k..] == Mask(ls[k..], Outside)
    ensures k < |ls| ==> ModeEnd(ls, Outside) == ModeEnd(ls[k..], Outside)
  {
    hide Mask, ModeEnd, ModeAfter;
    MaskSuffix(ls, Outside, k);
  }

  /** Masked lines follow a macro definition or another masked line. */
  predicate Shaped(ls: seq<Line>) {
    forall i :: 0 <= i < |ls| && ls[i].inBody ==> i > 0 && (ls[i - 1].inBody || ls[i - 1].Defines())
  }

  lemma {:induction false} MaskShaped(ls: seq<Line>, m: Mode)
    requires forall l <- ls :: !l.inBody
    ensures forall i :: 0 < i < |ls| && Mask(ls, m)[i].inBody ==>
            Mask(ls, m)[i - 1].inBody || Mask(ls, m)[i - 1].Defines()
  {
    if ls != [] {
      MaskShaped(ls[1..], ModeAfter(ls[0], m));
      var rest := Mask(ls[1..], ModeAfter(ls[0], m));
      forall i | 0 < i < |ls| && Mask(ls, m)[i].inBody
        ensures Mask(ls, m)[i - 1].inBody || Mask(ls, m)[i - 1].Defines()
      {
        if i == 1 {
          assert ls[1..][0] == ls[1];
        }
        assert Mask(ls, m)[i] == rest[i - 1];
      }
    }
  }

  // ------------------------------------------------------- lists already masked

  /** The mask of `ls` is what scanning it from mode `m` would produce. */
  predicate Lexed(ls: seq<Line>, m: Mode) {
    ls == [] || (ls[0].inBody == m.Inside? && Lexed(ls[1..], ModeAfter(ls[0], m)))
  }

  /** Complete on its own: correctly masked, and no macro body left open. */
  predicate Closed(ls: seq<Line>) {
    Lexed(ls, Outside) && ModeEnd(ls, Outside) == Outside
  }

  lemma {:induction false} MaskLexed(ls: seq<Line>, m: Mode)
    ensures Lexed(Mask(ls, m), m)
    ensures ModeEnd(Mask(ls, m), m) == ModeEnd(ls, m)
  {
    if ls != [] {
      MaskLexed(ls[1..], ModeAfter(ls[0], m));
    }
  }

  lemma {:induction false} LexedConcat(a: seq<Line>, b: seq<Line>, m: Mode)
    ensures Lexed(a + b, m) <==> Lexed(a, m) && Lexed(b, ModeEnd(a, m))
    ensures ModeEnd(a + b, m) == ModeEnd(b, ModeEnd(a, m))
  {
    if a == [] {
      assert a + b == b;
    } else {
      assert (a + b)[1..] == a[1..] + b;
      LexedConcat(a[1..], b, ModeAfter(a[0], m));
    }
  }

  /** Splitting a closed list where the second part does not start inside a body. */
  lemma ClosedSplit(a: seq<Line>, b: seq<Line>)
    requires Closed(a + b) && (b != [] ==> !b[0].inBody)
    ensures Closed(a) && Closed(b)
  {
    LexedConcat(a, b, Outside);
  }

  lemma ClosedConcat(a: seq<Line>, b: seq<Line>)
    requires Closed(a) && Closed(b)
    ensures Closed(a + b)
  {
    LexedConcat(a, b, Outside);
  }

  /** A closed list is recovered by scanning its own lines again. */
  lemma {:induction false} LexedIsMask(ls: seq<Line>, again: seq<Line>, m: Mode)
    requires Lexed(ls, m) && |again| == |ls|
    requires forall i :: 0 <= i < |ls| ==> again[i].text == ls[i].text && again[i].kind == ls[i].kind
    ensures forall i :: 0 <= i < |ls| ==> Mask(again, m)[i].inBody == ls[i].inBody
    ensures ModeEnd(again, m) == ModeEnd(ls, m)
  {
    if ls != [] {
      LexedIsMask(ls[1..], again[1..], ModeAfter(ls[0], m));
    }
  }
}
