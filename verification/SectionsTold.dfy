/** When the section a visitor is told is the one in force. */
module SectionsTold {
  import opened Wrappers
  import opened Lines
  import opened SpecLines
  import opened SpecWalk
  import opened SampleLines

  /** The section of the last header before the cursor. */
  function InForce<V, E>(c: Config<V, E>): Section
    requires c.Walking?
  {
    SectionBefore(c.lines, if c.p < |c.lines| then c.p else |c.lines|)
  }

  /** The next visit tells the visitor the section in force. */
  predicate TellsInForce<V, E>(c: Config<V, E>) {
    c.Walking? ==> Told(c.lines, c.p, c.note) == InForce(c)
  }

  /** The next visit reads the line in the section in force. */
  predicate ReadsInForce<V, E>(c: Config<V, E>) {
    c.Walking? ==> ReadIn(c.lines, c.p, c.note) == InForce(c)
  }

  predicate Truthful<V, E>(c: Config<V, E>) {
    TellsInForce(c) && ReadsInForce(c)
  }

  /** The section of the header under the cursor is not the one in force before it. */
  predicate OpensAnother<V, E>(c: Config<V, E>)
    requires c.Walking? && c.p < |c.lines|
  {
    SectionOfHeader(c.lines[c.p]).Some? && SectionOfHeader(c.lines[c.p]).value != InForce(c)
  }

  /** At the start of a section, the visitor removes its header or puts another line that is no
      header in its place. */
  predicate Unseats<V, E>(c: Config<V, E>, visit: Visitor<V, E>)
    requires c.Walking? && c.p < |c.lines|
  {
    var line := c.lines[c.p];
    var (v1, a1) := visit(c.v, Event(SectionEnd, Told(c.lines, c.p, c.note), c.p));
    var (_, a2) := visit(v1, Event(SectionStart(Some(line)), SectionBefore(c.lines, c.p + 1), c.p));
    && !a1.Inserts() && !a1.Replace? && !a1.Remove? && !a1.GiveUp?
    && (a2.Remove? || (a2.Replace? && SectionOfHeader(a2.text).None?))
  }

  /** At a header of another section, the visitor takes it away at the start of that section. */
  predicate Misleads<V, E>(c: Config<V, E>, visit: Visitor<V, E>) {
    c.Walking? && c.p < |c.lines| && OpensAnother(c) && Unseats(c, visit)
  }

  /** A header of another section is visited a second time. */
  predicate Rereads<V, E>(c: Config<V, E>, visit: Visitor<V, E>) {
    c.Walking? && c.p < |c.lines| && OpensAnother(c) && Repeats(c, visit)
  }

  predicate Astray<V, E>(c: Config<V, E>, visit: Visitor<V, E>) {
    Misleads(c, visit) || Rereads(c, visit)
  }

  ghost predicate AlwaysTruthful<V, E>(c: Config<V, E>, visit: Visitor<V, E>) {
    forall n: nat :: Truthful(After(c, n, visit))
  }

  ghost predicate NeverAstray<V, E>(c: Config<V, E>, visit: Visitor<V, E>) {
    forall n: nat :: !Astray(After(c, n, visit), visit)
  }

  /** After one visit the section told is the one in force exactly unless the visitor has taken
      the header of another section away at its start, or such a header is about to be visited a
      second time; and only the latter has a line read in another section. */
  lemma TellsAfterMove<V, E>(c: Config<V, E>, visit: Visitor<V, E>)
    requires Truthful(c) && c.Walking?
    ensures TellsInForce(Move(c, visit)) <==> !Astray(c, visit)
    ensures ReadsInForce(Move(c, visit)) <==> !Rereads(c, visit)
  {
    hide Move, SectionOfHeader, SectionBefore, ParseLine, Unseats, Repeats;
    if Move(c, visit).Walking? {
      LastMove(c, visit);
      if SectionOfHeader(c.lines[c.p]).Some? {
        TellsAfterHeader(c, visit);
      } else {
        TellsAfterLine(c, visit);
      }
    } else {
      AstrayGoesOn(c, visit);
    }
  }

  lemma AstrayGoesOn<V, E>(c: Config<V, E>, visit: Visitor<V, E>)
    ensures Astray(c, visit) ==> Move(c, visit).Walking?
  {
    hide SectionOfHeader, SectionBefore, ParseLine, Told, ReadIn;
  }

  /** A walk whose first visit tells the section in force tells it at every visit, and reads every
      line in it, exactly when no visit takes the header of another section away at its start, or
      leaves such a header to a second visit. */
  lemma TruthfulWalks<V, E>(c: Config<V, E>, visit: Visitor<V, E>)
    requires Truthful(c)
    ensures AlwaysTruthful(c, visit) <==> NeverAstray(c, visit)
  {
    hide Move, After, Truthful, Astray;
    if AlwaysTruthful(c, visit) {
      forall n: nat ensures !Astray(After(c, n, visit), visit) {
        AfterNext(c, n, visit);
        assert Truthful(After(c, n, visit)) && Truthful(After(c, n + 1, visit));
        TruthfulNext(After(c, n, visit), visit);
      }
    }
    if NeverAstray(c, visit) {
      forall n: nat ensures Truthful(After(c, n, visit)) {
        TruthfulAfter(c, n, visit);
      }
    }
  }

  /** The same for one visit, or none when the walk is over. */
  lemma TruthfulNext<V, E>(c: Config<V, E>, visit: Visitor<V, E>)
    requires Truthful(c)
    ensures Truthful(Move(c, visit)) <==> !Astray(c, visit)
  {
    hide Move, OpensAnother, Unseats, Repeats, TellsInForce, ReadsInForce;
    if c.Walking? {
      TellsAfterMove(c, visit);
    } else {
      AfterStays(c, 1, visit);
      AfterNext(c, 0, visit);
      AfterNone(c, visit);
    }
  }

  lemma {:induction false} TruthfulAfter<V, E>(c: Config<V, E>, n: nat, visit: Visitor<V, E>)
    requires Truthful(c) && NeverAstray(c, visit)
    ensures Truthful(After(c, n, visit))
    decreases n
  {
    hide Move, After, Truthful, Astray;
    if n == 0 {
      AfterNone(c, visit);
    } else {
      TruthfulAfter(c, n - 1, visit);
      assert !Astray(After(c, n - 1, visit), visit);
      AfterNext(c, n - 1, visit);
      TruthfulNext(After(c, n - 1, visit), visit);
    }
  }

  /** Every walk starts out with the section in force. */
  lemma StartIsTruthful<V, E>(lines: seq<string>, v: V, visit: Visitor<V, E>)
    ensures Truthful(Start(lines, v, visit))
  {
    hide SectionBefore, RunOf, AtStart;
  }

  /** The visitors of a file that are always told the section in force. */
  lemma WalkIsTruthful<V, E>(lines: seq<string>, v: V, visit: Visitor<V, E>)
    ensures AlwaysTruthful(Start(lines, v, visit), visit) <==> NeverAstray(Start(lines, v, visit), visit)
  {
    hide Start, Truthful, AlwaysTruthful, NeverAstray;
    StartIsTruthful(lines, v, visit);
    TruthfulWalks(Start(lines, v, visit), visit);
  }

  /** What an edit makes of a remembered section: it is the one in force at the next stop exactly
      when it was where parsing goes on, or a header is parsed on the way. */
  lemma EditTells<V, E>(lines: seq<string>, k: nat, note: Note, v: V, a: Action<E>)
    requires k < |lines| && Edited(lines, k, note, v, a).Walking?
    ensures var c := Edited(lines, k, note, v, a);
            var from := SectionBefore(lines, ParseNext(a, k, if note.again then k else k + 1));
            var settles := HasHeaderLine(ParsedNext(lines, k, a));
            && (Told(c.lines, c.p, c.note) == InForce(c) <==> settles || note.stale.None? || note.stale.value == from)
            && (ReadIn(c.lines, c.p, c.note) == InForce(c)
               <==> settles || note.reread.None? || note.reread.value == from)
  {
    hide SectionOfHeader, SectionBefore, SectionAt, HasHeaderLine, Edited, EditedLines, ParseNext, VisitNext,
      ParsedNext;
    var toParse := if note.again then k else k + 1;
    EditCounts(lines, k, note, v, a, toParse);
    var c := Edited(lines, k, note, v, a);
    var next := ParseNext(a, k, toParse);
    SamePrefix(lines, c.lines, next);
    LeadsFromHere(c.lines, next, c.p);
    if !HasHeaderLine(ParsedNext(lines, k, a)) {
      NoHeaderNoChange(ParsedNext(lines, k, a), SectionBefore(lines, next));
    }
  }

  lemma TellsAfterLine<V, E>(c: Config<V, E>, visit: Visitor<V, E>)
    requires Truthful(c) && c.Walking? && c.p < |c.lines| && Move(c, visit).Walking?
    requires SectionOfHeader(c.lines[c.p]).None?
    ensures TellsInForce(Move(c, visit)) && ReadsInForce(Move(c, visit))
  {
    hide Move, SectionOfHeader, SectionBefore, ParseLine, Edited, HasHeaderLine, ParsedNext;
    LineMoves(c, visit);
    var parsed := ParseLine(c.lines[c.p], ReadIn(c.lines, c.p, c.note));
    var (v, a) := visit(c.v, Event(SectionLine(c.lines[c.p], parsed), Told(c.lines, c.p, c.note), c.p));
    OneMore(c.lines, c.p);
    EditTells(c.lines, c.p, c.note, v, a);
  }

  lemma TellsAfterHeader<V, E>(c: Config<V, E>, visit: Visitor<V, E>)
    requires Truthful(c) && c.Walking? && c.p < |c.lines| && Move(c, visit).Walking?
    requires SectionOfHeader(c.lines[c.p]).Some?
    ensures TellsInForce(Move(c, visit)) <==> !Astray(c, visit)
    ensures ReadsInForce(Move(c, visit)) <==> !Rereads(c, visit)
  {
    hide Move, SectionOfHeader, SectionBefore, Edited, HasHeaderLine, ParsedNext, ParseLine;
    HeaderMoves(c, visit);
    OneMore(c.lines, c.p);
    var (v1, a1) := visit(c.v, Event(SectionEnd, Told(c.lines, c.p, c.note), c.p));
    if a1.GiveUp? {
      EditFails(c.lines, c.p, EndNote(c.note, a1), v1, a1);
      assert false;
    } else if a1.Inserts() || a1.Replace? {
      EditTells(c.lines, c.p, EndNote(c.note, a1), v1, a1);
      HeaderParsed(c.lines, c.p, a1);
    } else if a1.Remove? {
      var (v2, a2) := visit(v1, Event(SectionStart(Some(c.lines[c.p])), ReadIn(c.lines, c.p, c.note), c.p));
      EditTells(c.lines, c.p, EndNote(c.note, a1), v2, a1);
    } else {
      var (v2, a2) := visit(v1, Event(SectionStart(Some(c.lines[c.p])), SectionBefore(c.lines, c.p + 1), c.p));
      EditTells(c.lines, c.p, HeaderNote(c.note, a1.Keep?, a2, SectionOfHeader(c.lines[c.p])), v2, a2);
      HeaderParsed(c.lines, c.p, a2);
    }
  }

  lemma HeaderParsed(lines: seq<string>, k: nat, a: Action)
    requires k < |lines| && SectionOfHeader(lines[k]).Some?
    ensures a.InsertBefore? ==> HasHeaderLine(ParsedNext(lines, k, a))
    ensures a.Replace? ==> (HasHeaderLine(ParsedNext(lines, k, a)) <==> SectionOfHeader(a.text).Some?)
    ensures a.Keep? || a.Remove? ==> !HasHeaderLine(ParsedNext(lines, k, a))
  {
    hide SectionOfHeader;
    if a.InsertBefore? {
      LastIsHeader(a.lines, lines[k]);
    }
    if a.Replace? && SectionOfHeader(a.text).Some? {
      LastIsHeader([], a.text);
      assert [] + [a.text] == [a.text];
    }
  }

  // ---------------------------------------------------------------- two walks

  const DESCRIPTION := Section("%description", RawSection, "foo")

  /** Writes down the sections it is told, and removes every header at the start of its section. */
  function HeaderRemover(): Visitor<seq<Section>, ()> {
    (told: seq<Section>, e: Event) =>
      (told + [e.section], if e.target.SectionStart? && e.target.header.Some? then Remove else Keep)
  }

  /** Writes down the sections it is told, and removes the first line at the start of the spec. */
  function FirstRemover(): Visitor<seq<Section>, ()> {
    (told: seq<Section>, e: Event) => (told + [e.section], if e.target.SpecStart? then Remove else Keep)
  }

  lemma SampleSections()
    ensures SectionOfHeader("%description foo") == Some(DESCRIPTION) && SectionOfHeader("text") == None
  {
    hide Classify;
    DescriptionLine("foo");
    assert "%description " + "foo" == "%description foo";
    TextLine();
  }

  lemma SampleForce()
    ensures forall lines: seq<string> :: SectionBefore(lines, 0) == PREAMBLE
    ensures SectionBefore(["%description foo", "text"], 1) == DESCRIPTION
    ensures SectionBefore(["%description foo"], 1) == DESCRIPTION
  {
    hide SectionOfHeader, SectionBefore;
    SampleSections();
    forall lines: seq<string> ensures SectionBefore(lines, 0) == PREAMBLE {
      NothingBefore(lines);
    }
    OneMore(["%description foo", "text"], 0);
    OneMore(["%description foo"], 0);
  }

  /** A visitor that writes down what it is told and only removes headers at their start. */
  lemma RemoverMoves(lines: seq<string>, p: nat, note: Note, told: seq<Section>)
    requires p <= |lines| && !note.again && note.own == 0
    ensures var c := Move(Walking(lines, p, note, told), HeaderRemover());
            var now := Told(lines, p, note);
            c == if p == |lines| then Done(lines, told + [now] + [now])
                 else if SectionOfHeader(lines[p]).Some? then
                   Walking(lines[..p] + lines[p + 1..], p,
                     Note(0, false, SectionOfHeader(lines[p]), note.reread, false),
                           told + [now] + [SectionBefore(lines, p + 1)])
                 else Walking(lines, p + 1, note.(after := false), told + [now])
  {
    hide SectionOfHeader, SectionBefore, ParseLine, Told, ReadIn;
  }

  lemma RemoverStart(lines: seq<string>)
    ensures Start(lines, [], HeaderRemover()) == Walking(lines, 0, PLAIN, [PREAMBLE, PREAMBLE])
  {
    var o := FileOpening(lines);
    assert [] + [PREAMBLE] + [PREAMBLE] == [PREAMBLE, PREAMBLE];
    assert o.inserted[0..] == o.inserted && RunOf(o.inserted) == 0;
    assert FirstNote(o) == PLAIN;
  }

  /** The header is gone, and "text" and the end of the file are announced as parts of the
      description, though only the preamble is left. */
  lemma RemovedHeaderStays()
    ensures var c := Start(["%description foo", "text"], [], HeaderRemover());
            && Astray(c, HeaderRemover())
            && After(c, 3, HeaderRemover())
            == Done(["text"], [PREAMBLE, PREAMBLE, PREAMBLE] + [DESCRIPTION, DESCRIPTION, DESCRIPTION, DESCRIPTION])
            && SectionBefore(["text"], 1) == PREAMBLE
  {
    hide SectionOfHeader, SectionBefore, Move, Astray;
    var visit := HeaderRemover();
    var lines := ["%description foo", "text"];
    var c0 := Start(lines, [], visit);
    SampleSections();
    SampleForce();
    OneMore(["text"], 0);
    RemoverStart(lines);
    RemoverMoves(lines, 0, PLAIN, [PREAMBLE, PREAMBLE]);
    var c1 := Move(c0, visit);
    RemoverMoves(c1.lines, 0, c1.note, c1.v);
    var c2 := Move(c1, visit);
    RemoverMoves(c2.lines, 1, c2.note, c2.v);
    assert c2 == Walking(["text"], 1, Note(0, false, Some(DESCRIPTION), None, false), c2.v);
    var told := c2.v + [DESCRIPTION] + [DESCRIPTION];
    assert Move(c2, visit) == Done(["text"], told);
    assert told == [PREAMBLE, PREAMBLE, PREAMBLE] + [DESCRIPTION, DESCRIPTION, DESCRIPTION, DESCRIPTION];
    AfterNone(c0, visit);
    AfterNext(c0, 0, visit);
    AfterNext(c0, 1, visit);
    AfterNext(c0, 2, visit);
    TruthfulNext(c0, visit);
  }

  lemma FirstRemoverMoves(lines: seq<string>, p: nat, note: Note, told: seq<Section>)
    requires p <= |lines| && note.own == 0
    ensures var c := Move(Walking(lines, p, note, told), FirstRemover());
            var now := Told(lines, p, note);
            if p == |lines| then c == Done(lines, told + [now] + [now])
            else if SectionOfHeader(lines[p]).None? then true
            else c.Walking? && c.lines == lines && c.v == told + [now] + [SectionBefore(lines, p + 1)]
                 && c.p == (if note.again then p else p + 1)
                 && c.note == if note.again then
                    note.(stale := SectionOfHeader(lines[p]), reread := SectionOfHeader(lines[p]), again := false)
                              else Note(0, false, None, None, false)
  {
    hide SectionOfHeader, SectionBefore, ParseLine, Told, ReadIn;
  }

  lemma FirstRemoverStart(lines: seq<string>)
    requires lines != []
    ensures Start(lines, [], FirstRemover()) == Walking(lines[1..], 0, PLAIN.(again := true), [PREAMBLE, PREAMBLE])
  {
    assert [] + [PREAMBLE] + [PREAMBLE] == [PREAMBLE, PREAMBLE];
    var o := Opening(lines[1..], 0, Marks(|lines|, false)[1..], 0);
    assert o.inserted[0..] == o.inserted && RunOf(o.inserted) == 0;
    assert FirstNote(o) == PLAIN.(again := true);
  }

  /** After "text" is removed at the start of the spec, the header behind it is offered twice, and
      the preamble it ends is announced as the description the second time. */
  lemma HeaderVisitedTwice()
    ensures var c := Start(["text", "%description foo"], [], FirstRemover());
            && Astray(c, FirstRemover()) && Offered(c, 3, FirstRemover()) == ["%description foo", "%description foo"]
            && After(c, 3, FirstRemover())
            == Done(["%description foo"], [PREAMBLE, PREAMBLE, PREAMBLE]
               + [DESCRIPTION, DESCRIPTION, DESCRIPTION, DESCRIPTION, DESCRIPTION])
  {
    hide SectionOfHeader, SectionBefore, Move, Astray, After;
    var visit := FirstRemover();
    var lines := ["%description foo"];
    var c0 := Start(["text", "%description foo"], [], visit);
    SampleSections();
    SampleForce();
    FirstRemoverStart(["text", "%description foo"]);
    assert c0 == Walking(lines, 0, PLAIN.(again := true), [PREAMBLE, PREAMBLE]);
    FirstRemoverMoves(lines, 0, c0.note, c0.v);
    var c1 := Move(c0, visit);
    FirstRemoverMoves(lines, 0, c1.note, c1.v);
    var c2 := Move(c1, visit);
    FirstRemoverMoves(lines, 1, c2.note, c2.v);
    var told := c2.v + [DESCRIPTION] + [DESCRIPTION];
    assert Move(c2, visit) == Done(lines, told);
    assert told == [PREAMBLE, PREAMBLE, PREAMBLE] + [DESCRIPTION, DESCRIPTION, DESCRIPTION, DESCRIPTION, DESCRIPTION];
    AfterNone(c0, visit);
    AfterNext(c0, 0, visit);
    AfterNext(c0, 1, visit);
    AfterNext(c0, 2, visit);
    TruthfulNext(c0, visit);
  }
}
