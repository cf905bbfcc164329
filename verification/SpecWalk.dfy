/** The cursor walk over a spec, during which a visitor may insert, remove and replace lines. */
module SpecWalk {
  import opened Wrappers
  import opened SpecFile
  import opened SpecLines

  // ---------------------------------------------------------------- visitors

  datatype Target =
    | SpecStart
    | SectionStart(header: Option<string>)
    | SectionLine(text: string, parsed: Parsed)
    | SectionEnd
    | SpecEnd

  datatype Event = Event(target: Target, section: Section, lineNum: nat)

  /** What a visitor does to the current line: at most one edit, or it gives up. */
  datatype Action<+E> =
    | Keep
    | InsertBefore(lines: seq<string>)
    | InsertAfter(lines: seq<string>)
    | Remove
    | Replace(text: string)
    | GiveUp(error: E)
  {
    predicate Inserts() { (InsertBefore? || InsertAfter?) && (InsertAfter? ==> lines != []) }
  }

  /** A visitor and the variables it has captured. */
  type Visitor<!V, !E> = (V, Event) -> (V, Action<E>)

  // ---------------------------------------------------------------- the walk, as a cursor

  /** What a walk remembers on its way to a line: how many of the next lines are the visitor's
      own insertions; whether the line was inserted after the one visited before it; the section
      the visitor is told and the one the line is read in, where they differ from the section in
      force; and whether the line is to be visited again if the visitor keeps it. */
  datatype Note = Note(own: nat, after: bool, stale: Option<Section>, reread: Option<Section>, again: bool)

  const PLAIN := Note(0, false, None, None, false)

  /** `Walking`: the next line to visit is lines[p]. `Misused`: the visitor broke its contract. */
  datatype Config<V, E> =
    | Walking(lines: seq<string>, p: nat, note: Note, v: V)
    | Done(lines: seq<string>, v: V)
    | Failed(lines: seq<string>, v: V, error: E)
    | Misused

  /** The lines before the cursor decide the section. */
  function SectionBefore(lines: seq<string>, p: nat): Section
    requires p <= |lines|
  {
    SectionAt(lines[..p], PREAMBLE)
  }

  predicate HasHeaderLine(lines: seq<string>) {
    exists l <- lines :: SectionOfHeader(l).Some?
  }

  /** The section in force, unless another one is remembered. */
  function SectionOr(lines: seq<string>, p: nat, other: Option<Section>): Section {
    if other.Some? then other.value else SectionBefore(lines, if p < |lines| then p else |lines|)
  }

  /** The section the visitor is told at a line. */
  function Told(lines: seq<string>, p: nat, note: Note): Section {
    SectionOr(lines, p, note.stale)
  }

  /** The section a line is read in. */
  function ReadIn(lines: seq<string>, p: nat, note: Note): Section {
    SectionOr(lines, p, note.reread)
  }

  /** The start of a walk: its first stop, which lines the visitor has inserted, and the line to
      parse after the first one. */
  datatype Opening = Opening(lines: seq<string>, next: nat, inserted: seq<bool>, toParse: nat)

  function Marks(n: nat, inserted: bool): (marks: seq<bool>)
    ensures |marks| == n && forall i :: 0 <= i < n ==> marks[i] == inserted
  {
    seq(n, i => inserted)
  }

  /** Visiting the start, where the first line is taken for the current one. */
  function AtStart(o: Opening, a: Action): (r: Option<Opening>)
    requires |o.inserted| == |o.lines|
    ensures r.Some? ==> |r.value.inserted| == |r.value.lines|
  {
    match a
    case Keep => Some(o)
    case GiveUp(_) => Some(o)
    case InsertBefore(more) => Some(Opening(more + o.lines, |more| + 1, Marks(|more|, true) + o.inserted, 0))
    case InsertAfter(more) =>
      if o.lines == [] then None
      else
        var inserted := o.inserted[..1] + Marks(|more|, true) + o.inserted[1..];
        Some(Opening(o.lines[..1] + more + o.lines[1..], o.next + |more|, inserted, 1))
    case Replace(text) => if o.lines == [] then None else Some(Opening(o.lines[0 := text], 1, o.inserted, 0))
    case Remove => if o.lines == [] then None else Some(Opening(o.lines[1..], 0, o.inserted[1..], 0))
  }

  function FileOpening(lines: seq<string>): (o: Opening)
    ensures |o.inserted| == |o.lines|
  {
    Opening(lines, 0, Marks(|lines|, false), 1)
  }

  /** The length of the leading run of marked lines. */
  function RunOf(marks: seq<bool>): (n: nat)
    ensures n <= |marks| && (forall i :: 0 <= i < n ==> marks[i]) && (n < |marks| ==> !marks[n])
  {
    if marks == [] || !marks[0] then 0 else 1 + RunOf(marks[1..])
  }

  function FirstNote(o: Opening): Note {
    var own := if o.next < |o.inserted| then RunOf(o.inserted[o.next..]) else 0;
    Note(own, false, None, None, o.toParse == 0 && o.next == 0)
  }

  function Start<V, E>(lines: seq<string>, v: V, visit: Visitor<V, E>): Config<V, E> {
    var (v1, a1) := visit(v, Event(SpecStart, PREAMBLE, 0));
    match AtStart(FileOpening(lines), a1)
    case None => Misused
    case Some(o1) =>
      if a1.GiveUp? then Failed(lines, v1, a1.error)
      else
        var (v2, a2) := visit(v1, Event(SectionStart(None), PREAMBLE, 0));
        match AtStart(o1, a2)
        case None => Misused
        case Some(o2) =>
          if a2.GiveUp? then Failed(o1.lines, v2, a2.error) else Walking(o2.lines, o2.next, FirstNote(o2), v2)
  }

  predicate CanEdit(lines: seq<string>, p: nat, a: Action) {
    if a.Keep? || a.GiveUp? then true else if a.InsertBefore? then p <= |lines| else p < |lines|
  }

  /** The lines after one edit at line p. */
  function EditedLines(lines: seq<string>, p: nat, a: Action): seq<string>
    requires CanEdit(lines, p, a)
  {
    match a
    case Keep => lines
    case GiveUp(_) => lines
    case InsertBefore(more) => lines[..p] + more + lines[p..]
    case InsertAfter(more) => lines[..p + 1] + more + lines[p + 1..]
    case Remove => lines[..p] + lines[p + 1..]
    case Replace(text) => lines[p := text]
  }

  /** The note after a visit, when `parsed` are the lines parsed before the next one. */
  function NextNote(note: Note, after: bool, parsed: seq<string>): Note {
    var settles := HasHeaderLine(parsed);
    Note((if note.own > 0 then note.own - 1 else 0) + (if after then 1 else 0), after,
         if settles then None else note.stale, if settles then None else note.reread, false)
  }

  /** One edit at line p, and where the walk goes on: past the line, or where it was removed, or
      at the last of the lines inserted after it, or once more at the line. */
  function Edited<V, E>(lines: seq<string>, p: nat, note: Note, v: V, a: Action<E>): Config<V, E>
    requires p < |lines|
  {
    var lines' := EditedLines(lines, p, a);
    match a
    case Keep =>
      if note.again then Walking(lines', p, note.(again := false), v)
      else Walking(lines', p + 1, NextNote(note, false, []), v)
    case GiveUp(e) => Failed(lines', v, e)
    case InsertBefore(more) => Walking(lines', p + |more| + 1, NextNote(note, false, more + [lines[p]]), v)
    case InsertAfter(more) =>
      if more == [] then Walking(lines', p + 1, NextNote(note, false, []), v)
      else Walking(lines', p + |more|, NextNote(note, true, more[..|more| - 1]), v)
    case Remove => Walking(lines', p, NextNote(note, false, []), v)
    case Replace(text) => Walking(lines', p + 1, NextNote(note, false, [text]), v)
  }

  /** The note for the edit at the start of a section, whose end was kept or not. A header that
      is removed or replaced there goes on naming the section the visitor is told. */
  function HeaderNote(note: Note, kept: bool, a: Action, header: Option<Section>): Note {
    var again := note.again && kept;
    if a.Remove? || a.Replace? then note.(stale := header, again := again)
    else if a.Keep? && again then note.(stale := header, reread := header)
    else note.(stale := None, reread := None, again := again)
  }

  /** The note for the edit at the end of the section before a header. */
  function EndNote(note: Note, a: Action): Note {
    if a.InsertAfter? then note.(stale := None, reread := None) else note.(stale := note.reread)
  }

  /** A header ends a section and starts one; the visitor is offered both, the second unless its
      first edit already led past the header. A header removed at the end of the section before
      it still is announced, as a start of that section. */
  function AtHeader<V, E>(lines: seq<string>, p: nat, note: Note, v: V, visit: Visitor<V, E>): Config<V, E>
    requires p < |lines|
  {
    var header := Some(lines[p]);
    var (v1, a1) := visit(v, Event(SectionEnd, Told(lines, p, note), p));
    if a1.Inserts() || a1.Replace? || a1.GiveUp? then Edited(lines, p, EndNote(note, a1), v1, a1)
    else if a1.Remove? then
      var (v2, a2) := visit(v1, Event(SectionStart(header), ReadIn(lines, p, note), p));
      match a2
      case Keep => Edited(lines, p, EndNote(note, a1), v2, a1)
      case GiveUp(e) => Failed(EditedLines(lines, p, a1), v2, e)
      case _ => Misused
    else
      var (v2, a2) := visit(v1, Event(SectionStart(header), SectionBefore(lines, p + 1), p));
      Edited(lines, p, HeaderNote(note, a1.Keep?, a2, SectionOfHeader(lines[p])), v2, a2)
  }

  /** At the end lines may still be inserted before the end. */
  function AtEnd<V, E>(lines: seq<string>, section: Section, v: V, visit: Visitor<V, E>): Config<V, E> {
    var n := |lines|;
    var (v1, a1) := visit(v, Event(SectionEnd, section, n));
    match a1
    case GiveUp(e) => Failed(lines, v1, e)
    case InsertAfter(_) => Misused
    case Remove => Misused
    case Replace(_) => Misused
    case _ =>
      var more1 := if a1.InsertBefore? then a1.lines else [];
      var (v2, a2) := visit(v1, Event(SpecEnd, section, n));
      match a2
      case Keep => Done(lines + more1, v2)
      case InsertBefore(more2) => Done(lines + more2 + more1, v2)
      case GiveUp(e) => Failed(lines + more1, v2, e)
      case _ => Misused
  }

  /** One visit. */
  function Move<V, E>(c: Config<V, E>, visit: Visitor<V, E>): Config<V, E> {
    if !c.Walking? then c
    else if c.p >= |c.lines| then AtEnd(c.lines, Told(c.lines, c.p, c.note), c.v, visit)
    else if SectionOfHeader(c.lines[c.p]).Some? then AtHeader(c.lines, c.p, c.note, c.v, visit)
    else
      var line := c.lines[c.p];
      var parsed := ParseLine(line, ReadIn(c.lines, c.p, c.note));
      var (v, a) := visit(c.v, Event(SectionLine(line, parsed), Told(c.lines, c.p, c.note), c.p));
      Edited(c.lines, c.p, c.note, v, a)
  }

  /** A number of visits. */
  function After<V, E>(c: Config<V, E>, n: nat, visit: Visitor<V, E>): Config<V, E>
    decreases n
  {
    if n == 0 then c else After(Move(c, visit), n - 1, visit)
  }

  /** The walk ends: the end of the file is reached, or the visitor gives up. */
  ghost predicate Ends<V, E>(c: Config<V, E>, visit: Visitor<V, E>) {
    exists m: nat :: EndsBy(c, m, visit)
  }

  predicate EndsBy<V, E>(c: Config<V, E>, m: nat, visit: Visitor<V, E>) {
    After(c, m, visit).Done? || After(c, m, visit).Failed?
  }

  /** The contract of visitors: edits fit where they are made, and nothing is inserted after a
      line the visitor has just inserted after another. */
  predicate Breaks<V, E>(c: Config<V, E>, visit: Visitor<V, E>) {
    c.Misused? || (c.Walking? && c.note.after && Move(c, visit).Walking? && Move(c, visit).note.after)
  }

  ghost predicate Disciplined<V, E>(c: Config<V, E>, visit: Visitor<V, E>) {
    forall n: nat :: !Breaks(After(c, n, visit), visit)
  }

  lemma {:induction false} AfterMore<V, E>(c: Config<V, E>, n: nat, k: nat, visit: Visitor<V, E>)
    ensures After(After(c, n, visit), k, visit) == After(c, n + k, visit)
    decreases n
  {
    hide Move;
    if n > 0 {
      AfterMore(Move(c, visit), n - 1, k, visit);
    }
  }

  lemma {:induction false} AfterStays<V, E>(c: Config<V, E>, n: nat, visit: Visitor<V, E>)
    requires !c.Walking?
    ensures After(c, n, visit) == c
    decreases n
  {
    if n > 0 {
      AfterStays(c, n - 1, visit);
    }
  }

  lemma DisciplinedMove<V, E>(c: Config<V, E>, visit: Visitor<V, E>)
    requires Disciplined(c, visit)
    ensures !Breaks(c, visit) && Disciplined(Move(c, visit), visit)
  {
    hide Move, Breaks;
    assert !Breaks(After(c, 0, visit), visit);
    forall n: nat ensures !Breaks(After(Move(c, visit), n, visit), visit) {
      assert !Breaks(After(c, n + 1, visit), visit);
    }
  }

  // ---------------------------------------------------------------- termination

  /** The lines still to visit; one that may get an insertion after it counts twice, and one more
      for a line that may be visited again. */
  function Left<V, E>(c: Config<V, E>): nat {
    if !c.Walking? then 0
    else if c.p >= |c.lines| then 1
    else 2 * (|c.lines| - c.p) + (if c.note.after then 0 else 1) + (if c.note.again then 1 else 0)
  }

  lemma MoveDecreases<V, E>(c: Config<V, E>, visit: Visitor<V, E>)
    requires c.Walking? && !Breaks(c, visit) && !Move(c, visit).Misused?
    ensures Left(Move(c, visit)) < Left(c)
  {
    hide Move, Edited;
    if Move(c, visit).Walking? {
      LastMove(c, visit);
      var v, a, note := MoveEdits(c, visit);
      EditDecreases(c.lines, c.p, note, v, a);
    }
  }

  lemma EditDecreases<V, E>(lines: seq<string>, p: nat, note: Note, v: V, a: Action<E>)
    requires p < |lines|
    ensures var c := Edited(lines, p, note, v, a);
            c.Walking? && !(note.after && c.note.after) ==>
              Left(c) < 2 * (|lines| - p) + (if note.after then 0 else 1) + if note.again then 1 else 0
  {
  }

  /** The walk of every disciplined visitor ends, within a number of visits fixed by the lines
      left when it starts. */
  lemma {:induction false} Terminates<V, E>(c: Config<V, E>, visit: Visitor<V, E>)
    requires Disciplined(c, visit)
    ensures EndsBy(c, Left(c), visit)
    decreases Left(c)
  {
    hide Move, Left, Breaks;
    DisciplinedMove(c, visit);
    NotMisused(c, visit);
    if c.Walking? {
      var next := Move(c, visit);
      DisciplinedMove(next, visit);
      NotMisused(next, visit);
      MoveDecreases(c, visit);
      Terminates(next, visit);
      var k := Left(c) - 1 - Left(next);
      AfterMore(next, Left(next), k, visit);
      AfterStays(After(next, Left(next), visit), k, visit);
    } else {
      AfterStays(c, Left(c), visit);
    }
  }

  lemma NotMisused<V, E>(c: Config<V, E>, visit: Visitor<V, E>)
    requires !Breaks(c, visit)
    ensures !c.Misused?
  {
  }

  /** A walk ends in one way. */
  lemma EndsOnce<V, E>(c: Config<V, E>, m: nat, n: nat, visit: Visitor<V, E>)
    requires !After(c, m, visit).Walking? && !After(c, n, visit).Walking?
    ensures After(c, m, visit) == After(c, n, visit)
  {
    hide Move;
    AfterMore(c, m, n, visit);
    AfterMore(c, n, m, visit);
    AfterStays(After(c, m, visit), n, visit);
    AfterStays(After(c, n, visit), m, visit);
  }

  lemma EndsLater<V, E>(c: Config<V, E>, n: nat, m: nat, visit: Visitor<V, E>)
    requires EndsBy(c, m, visit) && After(c, n, visit).Walking?
    ensures n < m && !After(c, n + 1, visit).Misused?
  {
    hide Move;
    if n < m {
      AfterMore(c, n + 1, m - n - 1, visit);
      if After(c, n + 1, visit).Misused? {
        AfterStays(After(c, n + 1, visit), m - n - 1, visit);
      }
    } else {
      AfterMore(c, m, n - m, visit);
      AfterStays(After(c, m, visit), n - m, visit);
    }
  }

  lemma EndsUnmisused<V, E>(c: Config<V, E>, m: nat, visit: Visitor<V, E>)
    requires EndsBy(c, m, visit)
    ensures !c.Misused?
  {
    hide Move;
    if c.Misused? {
      AfterStays(c, m, visit);
    }
  }

  // ---------------------------------------------------------------- exactly once

  /** The lines offered during n visits, without those the visitor had inserted. */
  function Offered<V, E>(c: Config<V, E>, n: nat, visit: Visitor<V, E>): seq<string>
    decreases n
  {
    if n == 0 || !c.Walking? then []
    else (if c.p < |c.lines| && c.note.own == 0 then [c.lines[c.p]] else []) + Offered(Move(c, visit), n - 1, visit)
  }

  /** The lines not offered yet, without those the visitor has inserted. */
  function Pending<V, E>(c: Config<V, E>): seq<string> {
    if !c.Walking? || c.p + c.note.own >= |c.lines| then [] else c.lines[c.p + c.note.own..]
  }

  lemma EditedOffersOne<V, E>(lines: seq<string>, p: nat, note: Note, v: V, a: Action<E>)
    requires p < |lines| && Edited(lines, p, note, v, a).Walking? && !(note.again && a.Keep?)
    ensures var next := p + if note.own > 0 then note.own else 1;
            Pending(Edited(lines, p, note, v, a)) == if next < |lines| then lines[next..] else []
    ensures !Edited(lines, p, note, v, a).note.again
  {
    hide HasHeaderLine;
    var c := Edited(lines, p, note, v, a);
    var next := p + if note.own > 0 then note.own else 1;
    var shift := |c.lines| - |lines|;
    assert c.p + c.note.own == next + shift;
    if next < |lines| {
      assert c.lines[next + shift..] == lines[next..];
    }
  }

  /** The visitor keeps the line, at a header both the end and the start of a section. */
  predicate KeepsLine<V, E>(c: Config<V, E>, visit: Visitor<V, E>)
    requires c.Walking? && c.p < |c.lines|
  {
    var line, told := c.lines[c.p], Told(c.lines, c.p, c.note);
    if SectionOfHeader(line).Some? then
      var (v1, a1) := visit(c.v, Event(SectionEnd, told, c.p));
      a1.Keep? && visit(v1, Event(SectionStart(Some(line)), SectionBefore(c.lines, c.p + 1), c.p)).1.Keep?
    else visit(c.v, Event(SectionLine(line, ParseLine(line, ReadIn(c.lines, c.p, c.note))), told, c.p)).1.Keep?
  }

  /** The line is offered a second time. */
  predicate Repeats<V, E>(c: Config<V, E>, visit: Visitor<V, E>) {
    c.Walking? && c.p < |c.lines| && c.note.again && KeepsLine(c, visit)
  }

  /** What a visit of a line comes down to: one edit. */
  lemma MoveEdits<V, E>(c: Config<V, E>, visit: Visitor<V, E>) returns (v: V, a: Action<E>, note: Note)
    requires c.Walking? && c.p < |c.lines| && Move(c, visit).Walking?
    ensures Move(c, visit) == Edited(c.lines, c.p, note, v, a)
    ensures note.own == c.note.own && note.after == c.note.after && (note.again ==> c.note.again)
    ensures note.again && a.Keep? <==> Repeats(c, visit)
  {
    hide ParseLine, SectionBefore, SectionOfHeader, Edited, Told, ReadIn;
    var line := c.lines[c.p];
    note := c.note;
    if SectionOfHeader(line).Some? {
      var (v1, a1) := visit(c.v, Event(SectionEnd, Told(c.lines, c.p, c.note), c.p));
      v, a, note := v1, a1, EndNote(c.note, a1);
      if a1.Remove? {
        v := visit(v1, Event(SectionStart(Some(line)), ReadIn(c.lines, c.p, c.note), c.p)).0;
      } else if !a1.Inserts() && !a1.Replace? && !a1.GiveUp? {
        var (v2, a2) := visit(v1, Event(SectionStart(Some(line)), SectionBefore(c.lines, c.p + 1), c.p));
        v, a, note := v2, a2, HeaderNote(c.note, a1.Keep?, a2, SectionOfHeader(line));
      }
    } else {
      var parsed := ParseLine(line, ReadIn(c.lines, c.p, c.note));
      var (v1, a1) := visit(c.v, Event(SectionLine(line, parsed), Told(c.lines, c.p, c.note), c.p));
      v, a := v1, a1;
    }
  }

  lemma MoveOffersOne<V, E>(c: Config<V, E>, visit: Visitor<V, E>)
    requires c.Walking? && c.p < |c.lines| && Move(c, visit).Walking?
    ensures !Repeats(c, visit) ==>
            Pending(c) == (if c.note.own > 0 then [] else [c.lines[c.p]]) + Pending(Move(c, visit))
    ensures Repeats(c, visit) ==> Pending(c) == Pending(Move(c, visit))
    ensures !Move(c, visit).note.again
  {
    hide Move, Repeats, Edited, Pending;
    var v, a, note := MoveEdits(c, visit);
    if Repeats(c, visit) {
      VisitedAgain<V, E>(c.lines, c.p, note, v);
      SamePending(c, Move(c, visit));
    } else {
      EditedOffersOne(c.lines, c.p, note, v, a);
      PendingFrom(c);
    }
  }

  lemma VisitedAgain<V, E>(lines: seq<string>, p: nat, note: Note, v: V)
    requires p < |lines| && note.again
    ensures Edited<V, E>(lines, p, note, v, Keep) == Walking(lines, p, note.(again := false), v)
  {
  }

  lemma SamePending<V, E>(c: Config<V, E>, d: Config<V, E>)
    requires c.Walking? && d.Walking? && c.lines == d.lines && c.p == d.p && c.note.own == d.note.own
    ensures Pending(c) == Pending(d)
  {
  }

  lemma PendingFrom<V, E>(c: Config<V, E>)
    requires c.Walking? && c.p < |c.lines|
    ensures var next := c.p + if c.note.own > 0 then c.note.own else 1;
            Pending(c) == (if c.note.own > 0 then [] else [c.lines[c.p]])
                          + if next < |c.lines| then c.lines[next..] else []
  {
  }

  lemma LastMove<V, E>(c: Config<V, E>, visit: Visitor<V, E>)
    requires c.Walking?
    ensures Move(c, visit).Walking? ==> c.p < |c.lines|
    ensures Move(c, visit).Done? ==> c.p >= |c.lines|
  {
    hide ParseLine, SectionBefore, SectionOfHeader, Told;
  }

  /** The line offered twice, unless it is one the visitor has inserted. */
  function Repeated<V, E>(c: Config<V, E>, visit: Visitor<V, E>): seq<string> {
    if Repeats(c, visit) && c.note.own == 0 then [c.lines[c.p]] else []
  }

  /** Every line the walk starts with, from its first stop on, is offered exactly once and in
      order, whatever the visitor inserts, removes or replaces on the way; only the first one may
      be offered twice. */
  lemma {:induction false} OfferedOnce<V, E>(c: Config<V, E>, n: nat, visit: Visitor<V, E>)
    requires c.Walking? && (After(c, n, visit).Walking? || After(c, n, visit).Done?)
    ensures (if n > 0 then Repeated(c, visit) else []) + Pending(c)
            == Offered(c, n, visit) + Pending(After(c, n, visit))
    decreases n
  {
    hide Move, Pending, Repeats, Repeated;
    if n > 0 {
      var next := Move(c, visit);
      LastMove(c, visit);
      if next.Walking? {
        MoveOffersOne(c, visit);
        OfferedOnce(next, n - 1, visit);
        NotRepeated(next, visit);
        RepeatedIs(c, visit);
        var one := if c.note.own > 0 then [] else [c.lines[c.p]];
        assert [] + Pending(next) == Pending(next) && [] + Pending(c) == Pending(c);
        assert one + Pending(next) == one + Offered(next, n - 1, visit) + Pending(After(next, n - 1, visit));
      } else {
        AfterStays(next, n - 1, visit);
        NothingRepeated(c, visit);
        NothingPending(c);
        NothingPending(next);
      }
    }
  }

  lemma NotRepeated<V, E>(c: Config<V, E>, visit: Visitor<V, E>)
    requires c.Walking? && !c.note.again
    ensures Repeated(c, visit) == []
  {
  }

  lemma NothingRepeated<V, E>(c: Config<V, E>, visit: Visitor<V, E>)
    requires c.Walking? && c.p >= |c.lines|
    ensures Repeated(c, visit) == []
  {
  }

  lemma RepeatedIs<V, E>(c: Config<V, E>, visit: Visitor<V, E>)
    requires c.Walking? && c.p < |c.lines|
    ensures Repeated(c, visit) == if Repeats(c, visit) && c.note.own == 0 then [c.lines[c.p]] else []
  {
    hide KeepsLine;
  }

  lemma NothingPending<V, E>(c: Config<V, E>)
    requires !c.Walking? || c.p >= |c.lines|
    ensures Pending(c) == []
  {
  }

  /** Nothing is inserted, replaced or removed. */
  predicate Quiet(a: Action) {
    a.Keep? || (a.InsertAfter? && a.lines == [])
  }

  /** How many lines at the front of the file are not offered, from what the visitor does at the
      start of the spec and at the start of the preamble. */
  function SkippedFirst(a1: Action, a2: Action): nat {
    if a1.Remove? then if Quiet(a2) then 1 else 2
    else if Quiet(a1) && Quiet(a2) then 0
    else if a1.InsertBefore? && a1.lines != [] && (a2.InsertBefore? || a2.Replace? || a2.Remove?) then 0
    else 1
  }

  /** Whether the first line to be visited is visited again if it is kept. */
  predicate RereadsFirst(a1: Action, a2: Action) {
    a2.Remove? || (a1.Remove? && a2.Keep?)
  }

  function Skipping(lines: seq<string>, n: nat): seq<string> {
    if n < |lines| then lines[n..] else []
  }

  /** The first stop, for every pair of start actions: which lines are to be offered from there
      on, none of them inserted by the visitor, and whether the first one may be offered twice. */
  lemma FirstStop<V, E>(lines: seq<string>, v: V, visit: Visitor<V, E>)
    requires Start(lines, v, visit).Walking?
    ensures var (v1, a1) := visit(v, Event(SpecStart, PREAMBLE, 0));
            var (_, a2) := visit(v1, Event(SectionStart(None), PREAMBLE, 0));
            && Pending(Start(lines, v, visit)) == Skipping(lines, SkippedFirst(a1, a2))
            && (Start(lines, v, visit).note.again <==> RereadsFirst(a1, a2))
  {
    var (v1, a1) := visit(v, Event(SpecStart, PREAMBLE, 0));
    var (_, a2) := visit(v1, Event(SectionStart(None), PREAMBLE, 0));
    OpeningPending(lines, a1, a2);
  }

  /** What follows the marked lines from the first stop on. */
  function Unmarked(o: Opening): seq<string>
    requires |o.inserted| == |o.lines|
  {
    Skipping(o.lines, o.next + FirstNote(o).own)
  }

  /** The start after both actions. */
  function Opened<E>(lines: seq<string>, a1: Action<E>, a2: Action<E>): (r: Option<Opening>)
    ensures r.Some? ==> |r.value.inserted| == |r.value.lines|
  {
    var o := AtStart(FileOpening(lines), a1);
    if o.None? then None else AtStart(o.value, a2)
  }

  lemma OpeningPending<E>(lines: seq<string>, a1: Action<E>, a2: Action<E>)
    requires Opened(lines, a1, a2).Some? && !a1.GiveUp? && !a2.GiveUp?
    ensures var o := Opened(lines, a1, a2).value;
            && Unmarked(o) == Skipping(lines, SkippedFirst(a1, a2))
            && (FirstNote(o).again <==> RereadsFirst(a1, a2))
  {
    hide Opened, Unmarked, Skipping, FirstNote, SkippedFirst, RereadsFirst;
    OpeningMarks(lines, a1, a2);
    OpeningRest(lines, a1, a2);
    UnmarkedIs(Opened(lines, a1, a2).value, OwnAhead(a1, a2));
    OpeningAgain(lines, a1, a2);
  }

  lemma OpeningAgain<E>(lines: seq<string>, a1: Action<E>, a2: Action<E>)
    requires Opened(lines, a1, a2).Some? && !a1.GiveUp? && !a2.GiveUp?
    ensures FirstNote(Opened(lines, a1, a2).value).again <==> RereadsFirst(a1, a2)
  {
    hide RunOf;
  }

  lemma UnmarkedIs(o: Opening, own: nat)
    requires |o.inserted| == |o.lines| && MarksAhead(o, own)
    ensures Unmarked(o) == Skipping(o.lines, o.next + own)
  {
    hide RunOf;
    if o.next < |o.lines| {
      var ahead := o.inserted[o.next..];
      RunIs(ahead, own);
    }
  }

  /** Exactly the next `own` lines are marked. */
  predicate MarksAhead(o: Opening, own: nat)
    requires |o.inserted| == |o.lines|
  {
    o.next < |o.lines| ==>
      && o.next + own <= |o.lines| && (forall i :: o.next <= i < o.next + own ==> o.inserted[i])
      && (o.next + own < |o.lines| ==> !o.inserted[o.next + own])
  }

  /** The marks after the first action. */
  lemma FirstMarks<E>(lines: seq<string>, a1: Action<E>)
    requires AtStart(FileOpening(lines), a1).Some? && !a1.GiveUp?
    ensures var o := AtStart(FileOpening(lines), a1).value;
            var n := if a1.InsertBefore? || a1.InsertAfter? then |a1.lines| else 0;
            var from := if a1.InsertAfter? then 1 else 0;
            && (forall i :: 0 <= i < |o.inserted| ==> (o.inserted[i] <==> from <= i < from + n))
            && from + n <= |o.inserted| == |o.lines|
            && o.next
               == (match a1 case InsertBefore(_) => n + 1 case InsertAfter(_) => n case Replace(_) => 1 case _ => 0)
  {
  }

  /** The second action leaves the lines inserted by the first one where they are, or moves them
      behind the lines it inserts itself. */
  lemma SecondMarks<E>(o: Opening, from: nat, n: nat, a1: Action<E>, a2: Action<E>)
    requires |o.inserted| == |o.lines| && from + n <= |o.lines| && from == (if a1.InsertAfter? then 1 else 0)
    requires forall i :: 0 <= i < |o.inserted| ==> (o.inserted[i] <==> from <= i < from + n)
    requires n == if a1.InsertBefore? || a1.InsertAfter? then |a1.lines| else 0
    requires o.next == match a1 case InsertBefore(_) => n + 1 case InsertAfter(_) => n case Replace(_) => 1 case _ => 0
    requires AtStart(o, a2).Some? && !a1.GiveUp? && !a2.GiveUp?
    ensures MarksAhead(AtStart(o, a2).value, OwnAhead(a1, a2))
  {
  }

  lemma OpeningMarks<E>(lines: seq<string>, a1: Action<E>, a2: Action<E>)
    requires Opened(lines, a1, a2).Some? && !a1.GiveUp? && !a2.GiveUp?
    ensures MarksAhead(Opened(lines, a1, a2).value, OwnAhead(a1, a2))
  {
    hide AtStart, MarksAhead, OwnAhead;
    FirstMarks(lines, a1);
    var n := if a1.InsertBefore? || a1.InsertAfter? then |a1.lines| else 0;
    SecondMarks(AtStart(FileOpening(lines), a1).value, if a1.InsertAfter? then 1 else 0, n, a1, a2);
  }

  /** What is left of the file behind the first stop. */
  predicate RestIs(lines: seq<string>, o: Opening, a1: Action, a2: Action) {
    Skipping(o.lines, o.next + OwnAhead(a1, a2)) == Skipping(lines, SkippedFirst(a1, a2))
  }

  lemma RestAfterBefore<E>(lines: seq<string>, a1: Action<E>, a2: Action<E>)
    requires Opened(lines, a1, a2).Some? && a1.InsertBefore? && !a2.GiveUp?
    ensures RestIs(lines, Opened(lines, a1, a2).value, a1, a2)
  {
  }

  lemma RestAfterBehind<E>(lines: seq<string>, a1: Action<E>, a2: Action<E>)
    requires Opened(lines, a1, a2).Some? && a1.InsertAfter? && !a2.GiveUp?
    ensures RestIs(lines, Opened(lines, a1, a2).value, a1, a2)
  {
  }

  lemma RestAfterOther<E>(lines: seq<string>, a1: Action<E>, a2: Action<E>)
    requires Opened(lines, a1, a2).Some? && !a1.InsertBefore? && !a1.InsertAfter? && !a1.GiveUp? && !a2.GiveUp?
    ensures RestIs(lines, Opened(lines, a1, a2).value, a1, a2)
  {
  }

  lemma OpeningRest<E>(lines: seq<string>, a1: Action<E>, a2: Action<E>)
    requires Opened(lines, a1, a2).Some? && !a1.GiveUp? && !a2.GiveUp?
    ensures RestIs(lines, Opened(lines, a1, a2).value, a1, a2)
  {
    hide Opened, RestIs;
    if a1.InsertBefore? {
      RestAfterBefore(lines, a1, a2);
    } else if a1.InsertAfter? {
      RestAfterBehind(lines, a1, a2);
    } else {
      RestAfterOther(lines, a1, a2);
    }
  }

  /** An edit at the place of the first line, which moves the lines inserted there before. */
  predicate EditsFirst(a: Action) {
    a.InsertBefore? || a.Replace? || a.Remove?
  }

  /** How many of the lines inserted at the start lie behind the first stop. */
  function OwnAhead(a1: Action, a2: Action): nat {
    var first := if a1.InsertBefore? || a1.InsertAfter? then |a1.lines| else 0;
    var second := if a2.InsertAfter? then |a2.lines| else 0;
    if a1.InsertBefore? then if EditsFirst(a2) && first > 0 then first - 1 else 0
    else if a1.InsertAfter? then if EditsFirst(a2) then first else if first + second > 0 then 1 else 0
    else if a1.Replace? then 0
    else if second > 0 then 1 else 0
  }

  lemma RunIs(marks: seq<bool>, n: nat)
    requires n <= |marks| && (forall i :: 0 <= i < n ==> marks[i]) && (n < |marks| ==> !marks[n])
    ensures RunOf(marks) == n
  {
    hide RunOf;
  }

  /** A whole walk that ends at the end of the file offers each line of the file exactly once and
      in order, except for the lines at the front that the start actions skip; and except that,
      after a removal there, the first line offered is offered twice if the visitor keeps it. */
  lemma WholeWalk<V, E>(lines: seq<string>, v: V, n: nat, visit: Visitor<V, E>)
    requires Start(lines, v, visit).Walking? && After(Start(lines, v, visit), n, visit).Done?
    ensures var (v1, a1) := visit(v, Event(SpecStart, PREAMBLE, 0));
            var (_, a2) := visit(v1, Event(SectionStart(None), PREAMBLE, 0));
            var start := Start(lines, v, visit);
            && Offered(start, n, visit) == Repeated(start, visit) + Skipping(lines, SkippedFirst(a1, a2))
            && (Repeats(start, visit) <==> start.p < |start.lines| && RereadsFirst(a1, a2) && KeepsLine(start, visit))
  {
    hide Start, After, Offered, Pending, SkippedFirst, RereadsFirst, Skipping, KeepsLine;
    var start := Start(lines, v, visit);
    FirstStop(lines, v, visit);
    OfferedOnce(start, n, visit);
    AfterNone(start, visit);
    NothingPending(After(start, n, visit));
    assert Offered(start, n, visit) + [] == Offered(start, n, visit);
  }

  // ---------------------------------------------------------------- the walk, as it is done

  /** The state of a walk, which the edits of the visitor update. */
  class Context {
    const spec: Spec
    var currentSection: Section
    var parsedBefore: Section
    var parsed: Section
    var currentLine: nat
    var nextToParse: nat
    var nextToVisit: nat

    constructor (spec: Spec)
      ensures this.spec == spec && currentSection == parsed == parsedBefore == PREAMBLE
      ensures currentLine == 0 && nextToParse == 1 && nextToVisit == 0
    {
      this.spec := spec;
      currentSection, parsedBefore, parsed := PREAMBLE, PREAMBLE, PREAMBLE;
      currentLine, nextToParse, nextToVisit := 0, 1, 0;
    }

    method InsertLinesBefore(lines: seq<string>)
      requires currentLine <= |spec.rawLines|
      modifies this`parsed, this`nextToParse, this`nextToVisit, spec
      ensures spec.rawLines == old(spec.rawLines[..currentLine]) + lines + old(spec.rawLines[currentLine..])
      ensures parsed == parsedBefore && nextToParse == currentLine && nextToVisit == currentLine + |lines| + 1
    {
      spec.rawLines := spec.rawLines[..currentLine] + lines + spec.rawLines[currentLine..];
      parsed := parsedBefore;
      nextToParse := currentLine;
      nextToVisit := currentLine + |lines| + 1;
    }

    method InsertLinesAfter(lines: seq<string>)
      requires currentLine < |spec.rawLines|
      modifies this`nextToParse, this`nextToVisit, spec
      ensures spec.rawLines == old(spec.rawLines[..currentLine + 1]) + lines + old(spec.rawLines[currentLine + 1..])
      ensures nextToParse == currentLine + 1 && nextToVisit == old(nextToVisit) + |lines|
    {
      spec.rawLines := spec.rawLines[..currentLine + 1] + lines + spec.rawLines[currentLine + 1..];
      nextToParse := currentLine + 1;
      nextToVisit := nextToVisit + |lines|;
    }

    method RemoveLine()
      requires currentLine < |spec.rawLines|
      modifies this`parsed, this`nextToParse, this`nextToVisit, spec
      ensures spec.rawLines == old(spec.rawLines[..currentLine]) + old(spec.rawLines[currentLine + 1..])
      ensures parsed == parsedBefore && nextToParse == currentLine && nextToVisit == currentLine
    {
      spec.rawLines := spec.rawLines[..currentLine] + spec.rawLines[currentLine + 1..];
      parsed := parsedBefore;
      nextToParse := currentLine;
      nextToVisit := currentLine;
    }

    method ReplaceLine(replacement: string)
      requires currentLine < |spec.rawLines|
      modifies this`parsed, this`nextToParse, this`nextToVisit, spec
      ensures spec.rawLines == old(spec.rawLines)[currentLine := replacement]
      ensures parsed == parsedBefore && nextToParse == currentLine && nextToVisit == currentLine + 1
    {
      spec.rawLines := spec.rawLines[currentLine := replacement];
      parsed := parsedBefore;
      nextToParse := currentLine;
      nextToVisit := currentLine + 1;
    }

    /** The edit a visitor asks for. */
    method Do<E>(a: Action<E>)
      requires CanEdit(spec.rawLines, currentLine, a)
      modifies this`parsed, this`nextToParse, this`nextToVisit, spec
      ensures spec.rawLines == EditedLines(old(spec.rawLines), currentLine, a)
      ensures parsed == if RollsBack(a) then parsedBefore else old(parsed)
      ensures nextToParse == ParseNext(a, currentLine, old(nextToParse))
      ensures nextToVisit == VisitNext(a, currentLine, old(nextToVisit))
    {
      match a
      case Keep =>
      case GiveUp(_) =>
      case InsertBefore(lines) => InsertLinesBefore(lines);
      case InsertAfter(lines) => InsertLinesAfter(lines);
      case Remove => RemoveLine();
      case Replace(text) => ReplaceLine(text);
    }

    /** Goes on to the next line to parse. */
    method Advance<V, E>(ghost c: Config<V, E>)
      requires c.Walking? && c.lines == spec.rawLines
      requires c.p == if nextToParse < nextToVisit then nextToVisit else nextToParse
      requires nextToParse <= |c.lines|
      requires !c.note.again
      requires Leads(c.lines, nextToParse, c.p, parsed, ReadIn(c.lines, c.p, c.note))
      requires Leads(c.lines, nextToParse, c.p, currentSection, Told(c.lines, c.p, c.note))
      modifies this`currentLine, this`nextToParse, this`nextToVisit
      ensures StandsAt(c) && nextToParse == old(nextToParse) + 1
    {
      hide Leads, Told, ReadIn;
      currentLine := nextToParse;
      nextToParse := nextToParse + 1;
      nextToVisit := if currentLine < nextToVisit then nextToVisit else currentLine;
    }

    /** The counters stand at a configuration of the cursor: what is still to be parsed before
        the next visit leads to the section the cursor is in. */
    ghost predicate StandsAt<V, E>(c: Config<V, E>)
      reads this, spec
    {
      && c.Walking? && c.lines == spec.rawLines && c.p == nextToVisit
      && currentLine <= |c.lines| && currentLine <= nextToVisit
      && (if c.note.again then nextToParse == currentLine == nextToVisit == 0
          else nextToParse == currentLine + 1 || (nextToParse == currentLine == 0 < nextToVisit))
      && Leads(c.lines, currentLine, nextToVisit, parsed, ReadIn(c.lines, c.p, c.note))
      && Leads(c.lines, currentLine, nextToVisit, currentSection, Told(c.lines, c.p, c.note))
    }
  }

  /** Parsing from line k to line p in a section gets to another section. */
  ghost predicate Leads(lines: seq<string>, k: nat, p: nat, section: Section, target: Section)
    requires k <= |lines| && k <= p
  {
    SectionAt(lines[k..if p < |lines| then p else |lines|], section) == target
  }

  lemma LeadsFromHere(lines: seq<string>, k: nat, p: nat)
    requires k <= |lines| && k <= p
    ensures Leads(lines, k, p, SectionBefore(lines, k), SectionOr(lines, p, None))
  {
    var q := if p < |lines| then p else |lines|;
    assert lines[..q] == lines[..k] + lines[k..q];
    SectionAtConcat(lines[..k], lines[k..q], PREAMBLE);
  }

  lemma LeadsNowhere(lines: seq<string>, k: nat, s: Section, target: Section)
    requires k <= |lines| && Leads(lines, k, k, s, target)
    ensures s == target
  {
  }

  lemma SamePrefix(lines: seq<string>, other: seq<string>, k: nat)
    requires k <= |lines| && k <= |other| && lines[..k] == other[..k]
    ensures SectionBefore(lines, k) == SectionBefore(other, k)
  {
  }

  lemma OneMore(lines: seq<string>, k: nat)
    requires k < |lines|
    ensures SectionBefore(lines, k + 1) == SectionAfter(lines[k], SectionBefore(lines, k))
  {
    assert lines[..k + 1] == lines[..k] + [lines[k]];
    SectionAtConcat(lines[..k], [lines[k]], PREAMBLE);
    SectionAtOne(lines[k], SectionBefore(lines, k));
  }

  /** Parsing a header on the way makes it irrelevant where parsing starts. */
  lemma {:induction false} HeaderDecides(lines: seq<string>, s: Section, t: Section)
    requires HasHeaderLine(lines)
    ensures SectionAt(lines, s) == SectionAt(lines, t)
  {
    hide SectionOfHeader;
    if SectionOfHeader(lines[0]).None? {
      assert HasHeaderLine(lines[1..]) by {
        var l :| l in lines && SectionOfHeader(l).Some?;
        assert l in lines[1..];
      }
      HeaderDecides(lines[1..], s, t);
    }
  }

  lemma {:induction false} NoHeaderNoChange(lines: seq<string>, s: Section)
    requires !HasHeaderLine(lines)
    ensures SectionAt(lines, s) == s
  {
    hide SectionOfHeader;
    if lines != [] {
      assert lines[0] in lines && forall l <- lines[1..] :: l in lines;
      NoHeaderNoChange(lines[1..], s);
    }
  }

  /** Parsing a line on the way to the next visit, once or twice. */
  lemma LeadsOn(lines: seq<string>, k: nat, p: nat, s: Section, target: Section)
    requires k < p && k < |lines| && Leads(lines, k, p, s, target)
    ensures Leads(lines, k + 1, p, SectionAfter(lines[k], s), target)
            && Leads(lines, k, p, SectionAfter(lines[k], s), target)
    ensures SectionOfHeader(lines[k]).Some? ==> forall t :: Leads(lines, k, p, t, target)
  {
    hide SectionOfHeader;
    var q := if p < |lines| then p else |lines|;
    assert lines[k..q][1..] == lines[k + 1..q];
  }

  /** Whether the current line must be parsed again after an edit. */
  predicate RollsBack(a: Action) {
    a.InsertBefore? || a.Remove? || a.Replace?
  }

  function ParseNext(a: Action, current: nat, next: nat): nat {
    if RollsBack(a) then current else if a.InsertAfter? then current + 1 else next
  }

  function VisitNext(a: Action, current: nat, next: nat): nat {
    match a
    case Keep => next
    case GiveUp(_) => next
    case InsertBefore(lines) => current + |lines| + 1
    case InsertAfter(lines) => next + |lines|
    case Remove => current
    case Replace(_) => current + 1
  }

  /** The lines parsed after an edit at line k before the next visit. */
  function ParsedNext(lines: seq<string>, k: nat, a: Action): seq<string>
    requires k < |lines|
  {
    match a
    case InsertBefore(more) => more + [lines[k]]
    case InsertAfter(more) => if more == [] then [] else more[..|more| - 1]
    case Replace(text) => [text]
    case _ => []
  }

  /** Where an edit at line k leaves the counters: at the line to parse next, from which the
      lines up to the next stop are those to be parsed. `toParse` is the line to parse after the
      current one before the edit: that line itself when it is to be visited again. */
  lemma EditCounts<V, E>(lines: seq<string>, k: nat, note: Note, v: V, a: Action<E>, toParse: nat)
    requires k < |lines| && Edited(lines, k, note, v, a).Walking? && toParse == if note.again then k else k + 1
    ensures var c := Edited(lines, k, note, v, a);
            var next := ParseNext(a, k, toParse);
            && c.v == v && c.lines == EditedLines(lines, k, a) && !c.note.again
            && c.note.stale == (if HasHeaderLine(ParsedNext(lines, k, a)) then None else note.stale)
            && c.note.reread == (if HasHeaderLine(ParsedNext(lines, k, a)) then None else note.reread)
            && k <= next <= k + 1 && next <= c.p <= |c.lines|
            && c.p == (if next < VisitNext(a, k, k) then VisitNext(a, k, k) else next)
            && c.lines[next..c.p] == ParsedNext(lines, k, a)
            && next <= |lines| && lines[..next] == c.lines[..next]
  {
  }

  /** Parsing on after an edit leads from a section to the one in force, or past no header to
      itself. */
  lemma EditLeads<V, E>(lines: seq<string>, k: nat, note: Note, v: V, a: Action<E>, toParse: nat, known: Section,
    other: Option<Section>)
    requires k < |lines| && Edited(lines, k, note, v, a).Walking? && toParse == if note.again then k else k + 1
    requires ParseNext(a, k, toParse) <= |lines|
    requires if other.Some? then known == other.value
             else known == SectionBefore(lines, ParseNext(a, k, toParse))
                  || (a.InsertBefore? && SectionOfHeader(lines[k]).Some?)
    ensures var c := Edited(lines, k, note, v, a);
            var next := ParseNext(a, k, toParse);
            && next <= |c.lines| && next <= c.p
            && Leads(c.lines, next, c.p, known,
               SectionOr(c.lines, c.p, if HasHeaderLine(ParsedNext(lines, k, a)) then None else other))
  {
    hide SectionOfHeader, SectionBefore, SectionAt, HasHeaderLine, Edited, EditedLines, ParseNext, VisitNext;
    var c := Edited(lines, k, note, v, a);
    EditCounts(lines, k, note, v, a, toParse);
    var next := ParseNext(a, k, toParse);
    var parsed := ParsedNext(lines, k, a);
    SamePrefix(lines, c.lines, next);
    LeadsFromHere(c.lines, next, c.p);
    if a.InsertBefore? && SectionOfHeader(lines[k]).Some? {
      LastIsHeader(a.lines, lines[k]);
    }
    if HasHeaderLine(parsed) {
      HeaderDecides(parsed, known, SectionBefore(lines, next));
    } else {
      NoHeaderNoChange(parsed, known);
    }
  }

  /** An edit leaves the walk where its counters say, in the sections it is told and read in. */
  lemma EditStands<V, E>(lines: seq<string>, k: nat, note: Note, v: V, a: Action<E>, toParse: nat, told: Section,
    read: Section)
    requires k < |lines| && Edited(lines, k, note, v, a).Walking? && toParse == if note.again then k else k + 1
    requires ParseNext(a, k, toParse) <= |lines|
    requires Fits(lines, k, a, toParse, told, note.stale) && Fits(lines, k, a, toParse, read, note.reread)
    ensures var c := Edited(lines, k, note, v, a);
            var next := ParseNext(a, k, toParse);
            && c.v == v && c.lines == EditedLines(lines, k, a) && !c.note.again && next <= |c.lines| && k <= next <= c.p
            && c.p == (if next < VisitNext(a, k, k) then VisitNext(a, k, k) else next)
            && Leads(c.lines, next, c.p, told, Told(c.lines, c.p, c.note))
            && Leads(c.lines, next, c.p, read, ReadIn(c.lines, c.p, c.note))
  {
    hide SectionBefore, HasHeaderLine, Edited, EditedLines, ParseNext, VisitNext, SectionOr, Leads, ParsedNext,
      SectionOfHeader;
    EditCounts(lines, k, note, v, a, toParse);
    EditLeads(lines, k, note, v, a, toParse, told, note.stale);
    EditLeads(lines, k, note, v, a, toParse, read, note.reread);
  }

  /** A section remembered, or the one in force where parsing goes on, or any before a header. */
  ghost predicate Fits(lines: seq<string>, k: nat, a: Action, toParse: nat, known: Section, other: Option<Section>)
    requires k < |lines| && ParseNext(a, k, toParse) <= |lines|
  {
    if other.Some? then known == other.value
    else known == SectionBefore(lines, ParseNext(a, k, toParse)) || (a.InsertBefore? && SectionOfHeader(lines[k]).Some?)
  }

  lemma LastIsHeader(lines: seq<string>, header: string)
    requires SectionOfHeader(header).Some?
    ensures HasHeaderLine(lines + [header])
  {
    hide SectionOfHeader;
    assert header in lines + [header];
  }

  lemma EditFails<V, E>(lines: seq<string>, k: nat, note: Note, v: V, a: Action<E>)
    requires k < |lines|
    ensures CanEdit(lines, k, a)
    ensures a.GiveUp? ==> Edited(lines, k, note, v, a) == Failed(lines, v, a.error)
    ensures !a.GiveUp? ==> Edited(lines, k, note, v, a).Walking?
  {
  }

  /** Insertions and replacements end the visit of a line, and so does nothing else. */
  lemma EditSkips(lines: seq<string>, k: nat, a: Action, toParse: nat)
    requires k < |lines| && k <= toParse <= k + 1
    ensures if a.Inserts() || a.Replace? then VisitNext(a, k, k) > k else VisitNext(a, k, k) == k
    ensures !a.Inserts() && !a.Replace? && !a.Remove? ==>
              EditedLines(lines, k, a) == lines
                && ParseNext(a, k, toParse) == (if a.Keep? || a.GiveUp? then toParse else k + 1)
    ensures a.Remove? ==> ParseNext(a, k, toParse) == k
    ensures k <= ParseNext(a, k, toParse) <= k + 1
    ensures RollsBack(a) ==> ParseNext(a, k, toParse) == k
  {
  }

  /** Goes over one line: parses it, and offers it unless it is before the next stop. */
  method VisitLine<V, E>(ctx: Context, visit: Visitor<V, E>, v0: V, ghost c: Config<V, E>)
    returns (v: V, error: Option<E>)
    requires ctx.StandsAt(c) && v0 == c.v && ctx.currentLine < |c.lines| && !Move(c, visit).Misused?
    modifies ctx, ctx.spec
    ensures old(ctx.currentLine < ctx.nextToVisit) ==>
              error.None? && v == v0 && ctx.StandsAt(c) && ctx.nextToParse == old(ctx.nextToParse) + 1
    ensures old(ctx.currentLine == ctx.nextToVisit) ==>
              match error
              case None => ctx.StandsAt(Move(c, visit)) && v == Move(c, visit).v
              case Some(e) => Move(c, visit) == Failed(ctx.spec.rawLines, v, e)
  {
    hide SectionOfHeader, ParseLine, SectionAt, Leads, SectionBefore, Told, ReadIn, Edited, EditedLines, ParseNext,
      VisitNext, Move, NextNote, CanEdit, Fits, HeaderNote, EndNote;
    v, error := v0, None;
    ghost var k, edit: Action<E>, note, toParse := ctx.currentLine, Keep, c.note, ctx.nextToParse;
    ghost var told, read := Told(c.lines, c.p, c.note), ReadIn(c.lines, c.p, c.note);
    var line := ctx.spec.rawLines[ctx.currentLine];
    ctx.parsedBefore := ctx.parsed;
    ctx.parsed := SectionAfter(line, ctx.parsedBefore);
    if k < ctx.nextToVisit {
      LeadsOn(c.lines, k, ctx.nextToVisit, ctx.parsedBefore, read);
      LeadsOn(c.lines, k, ctx.nextToVisit, ctx.currentSection, told);
    } else {
      LeadsNowhere(c.lines, k, ctx.parsedBefore, read);
      LeadsNowhere(c.lines, k, ctx.currentSection, told);
      OneMore(c.lines, k);
    }
    if SectionOfHeader(line).Some? {
      if ctx.currentLine >= ctx.nextToVisit {
        HeaderMoves(c, visit);
        var (v1, a1) := visit(v, Event(SectionEnd, ctx.currentSection, ctx.currentLine));
        v := v1;
        note := EndNote(c.note, a1);
        EditFails(c.lines, k, note, v, a1);
        if a1.GiveUp? {
          return v, Some(a1.error);
        }
        EditSkips(c.lines, k, a1, toParse);
        EndFits(c.lines, k, c.note, a1, toParse);
        ctx.Do(a1);
        edit := a1;
      }
      ctx.currentSection := ctx.parsed;
      if ctx.currentLine >= ctx.nextToVisit {
        var (v2, a2) := visit(v, Event(SectionStart(Some(line)), ctx.currentSection, ctx.currentLine));
        v := v2;
        KeepDoesNothing(ctx.spec.rawLines, k, ctx.nextToParse, ctx.nextToVisit, a2);
        if !edit.Remove? {
          note := HeaderNote(c.note, edit.Keep?, a2, SectionOfHeader(line));
        }
        EditFails(c.lines, k, note, v, a2);
        if a2.GiveUp? {
          return v, Some(a2.error);
        }
        if !edit.Remove? {
          toParse := ctx.nextToParse;
          StartFits(c.lines, k, c.note, edit.Keep?, a2, toParse);
        }
        ctx.Do(a2);
        edit := if edit.Remove? then edit else a2;
        EditFails(c.lines, k, note, v, edit);
        EditSkips(c.lines, k, edit, toParse);
      }
    } else if ctx.currentLine >= ctx.nextToVisit {
      LineMoves(c, visit);
      var (v1, a1) := visit(v, Event(SectionLine(line, ParseLine(line, ctx.parsedBefore)), ctx.currentSection,
        ctx.currentLine));
      v := v1;
      EditFails(c.lines, k, note, v, a1);
      if a1.GiveUp? {
        return v, Some(a1.error);
      }
      EditSkips(c.lines, k, a1, toParse);
      LineFits(c.lines, k, c.note, a1, toParse);
      ctx.Do(a1);
      edit := a1;
    }
    if k == c.p {
      EditStands(c.lines, k, note, v, edit, toParse, ctx.currentSection, ctx.parsed);
    }
    ctx.Advance(if k == c.p then Edited(c.lines, k, note, v, edit) else c);
  }

  /** What fits after an edit at a line that is no header. */
  lemma LineFits(lines: seq<string>, k: nat, note: Note, a: Action, toParse: nat)
    requires k < |lines| && SectionOfHeader(lines[k]).None? && k <= ParseNext(a, k, toParse) <= k + 1
    ensures Fits(lines, k, a, toParse, Told(lines, k, note), note.stale)
            && Fits(lines, k, a, toParse, ReadIn(lines, k, note), note.reread)
  {
    hide SectionOfHeader, SectionBefore, ParseNext;
    OneMore(lines, k);
  }

  /** What fits after an edit at the end of the section before a header. */
  lemma EndFits(lines: seq<string>, k: nat, note: Note, a: Action, toParse: nat)
    requires k < |lines| && SectionOfHeader(lines[k]).Some? && k <= ParseNext(a, k, toParse) <= k + 1
    ensures EndNote(note, a).again == note.again
    ensures RollsBack(a) ==>
              && Fits(lines, k, a, toParse, ReadIn(lines, k, note), EndNote(note, a).stale)
              && Fits(lines, k, a, toParse, ReadIn(lines, k, note), EndNote(note, a).reread)
    ensures a.InsertAfter? ==>
              && Fits(lines, k, a, toParse, SectionBefore(lines, k + 1), EndNote(note, a).stale)
              && Fits(lines, k, a, toParse, SectionBefore(lines, k + 1), EndNote(note, a).reread)
  {
    hide SectionOfHeader, SectionBefore;
  }

  /** What fits after an edit at the start of the section of a header. */
  lemma StartFits(lines: seq<string>, k: nat, note: Note, kept: bool, a: Action, toParse: nat)
    requires k < |lines| && SectionOfHeader(lines[k]).Some? && !a.GiveUp?
    requires toParse == if kept && note.again then k else k + 1
    ensures HeaderNote(note, kept, a, SectionOfHeader(lines[k])).again <==> kept && note.again
    ensures k <= ParseNext(a, k, toParse) <= k + 1
    ensures var next := HeaderNote(note, kept, a, SectionOfHeader(lines[k]));
            && Fits(lines, k, a, toParse, SectionBefore(lines, k + 1), next.stale)
            && Fits(lines, k, a, toParse,
                    if RollsBack(a) then ReadIn(lines, k, note) else SectionBefore(lines, k + 1), next.reread)
  {
    hide SectionOfHeader, SectionBefore;
    OneMore(lines, k);
  }

  lemma LineMoves<V, E>(c: Config<V, E>, visit: Visitor<V, E>)
    requires c.Walking? && c.p < |c.lines| && SectionOfHeader(c.lines[c.p]).None?
    ensures var parsed := ParseLine(c.lines[c.p], ReadIn(c.lines, c.p, c.note));
            var (v, a) := visit(c.v, Event(SectionLine(c.lines[c.p], parsed), Told(c.lines, c.p, c.note), c.p));
            Move(c, visit) == Edited(c.lines, c.p, c.note, v, a)
  {
    hide ParseLine, SectionBefore, SectionOfHeader, Told, ReadIn, Edited;
  }

  lemma HeaderMoves<V, E>(c: Config<V, E>, visit: Visitor<V, E>)
    requires c.Walking? && c.p < |c.lines| && SectionOfHeader(c.lines[c.p]).Some? && !Move(c, visit).Misused?
    ensures var (v1, a1) := visit(c.v, Event(SectionEnd, Told(c.lines, c.p, c.note), c.p));
            if a1.Inserts() || a1.Replace? || a1.GiveUp? then
              Move(c, visit) == Edited(c.lines, c.p, EndNote(c.note, a1), v1, a1)
            else if a1.Remove? then
              var (v2, a2) := visit(v1, Event(SectionStart(Some(c.lines[c.p])), ReadIn(c.lines, c.p, c.note), c.p));
              if a2.GiveUp? then Move(c, visit) == Failed(EditedLines(c.lines, c.p, a1), v2, a2.error)
              else a2.Keep? && Move(c, visit) == Edited(c.lines, c.p, EndNote(c.note, a1), v2, a1)
            else
              var (v2, a2) := visit(v1, Event(SectionStart(Some(c.lines[c.p])), SectionBefore(c.lines, c.p + 1), c.p));
              Move(c, visit)
              == Edited(c.lines, c.p, HeaderNote(c.note, a1.Keep?, a2, SectionOfHeader(c.lines[c.p])), v2, a2)
  {
    hide ParseLine, SectionBefore, SectionOfHeader, Told, ReadIn, Edited, EditedLines;
    assert Move(c, visit) == AtHeader(c.lines, c.p, c.note, c.v, visit);
    var (v1, a1) := visit(c.v, Event(SectionEnd, Told(c.lines, c.p, c.note), c.p));
    if a1.Remove? {
      var (v2, a2) := visit(v1, Event(SectionStart(Some(c.lines[c.p])), ReadIn(c.lines, c.p, c.note), c.p));
    }
  }

  lemma KeepDoesNothing(lines: seq<string>, k: nat, toParse: nat, toVisit: nat, a: Action)
    ensures a.Keep? ==>
              CanEdit(lines, k, a) && EditedLines(lines, k, a) == lines && ParseNext(a, k, toParse) == toParse
              && VisitNext(a, k, toVisit) == toVisit && !RollsBack(a)
  {
  }

  lemma StartIsEdit<E>(o: Opening, a: Action<E>)
    requires |o.inserted| == |o.lines| && AtStart(o, a).Some? && o.toParse <= 1
    ensures var o' := AtStart(o, a).value;
            && CanEdit(o.lines, 0, a) && o'.lines == EditedLines(o.lines, 0, a) && o'.next == VisitNext(a, 0, o.next)
            && o'.toParse == ParseNext(a, 0, o.toParse) && o'.toParse <= 1 && |o'.inserted| == |o'.lines|
            && (o'.toParse == 0 ==> RollsBack(a) || o.toParse == 0)
  {
    assert o.lines[..0] == [] && o.lines[0..] == o.lines;
    if a.InsertBefore? {
      assert [] + a.lines + o.lines == a.lines + o.lines;
    }
    if a.Remove? {
      assert [] + o.lines[1..] == o.lines[1..];
    }
  }

  /** The start of a walk leaves its counters at the first stop, or the visitor gave up. */
  method VisitStart<V, E>(ctx: Context, visit: Visitor<V, E>, v0: V) returns (v: V, error: Option<E>)
    requires ctx.currentSection == ctx.parsed == ctx.parsedBefore == PREAMBLE
    requires ctx.currentLine == 0 && ctx.nextToParse == 1 && ctx.nextToVisit == 0
    requires !Start(ctx.spec.rawLines, v0, visit).Misused?
    modifies ctx, ctx.spec
    ensures match error
            case None => ctx.StandsAt(old(Start(ctx.spec.rawLines, v0, visit)))
              && v == old(Start(ctx.spec.rawLines, v0, visit)).v
            case Some(e) => old(Start(ctx.spec.rawLines, v0, visit)) == Failed(ctx.spec.rawLines, v, e)
  {
    hide SectionAt, AtStart, EditedLines, VisitNext, ParseNext, Leads, Told, ReadIn, FirstNote;
    ghost var o := FileOpening(ctx.spec.rawLines);
    var (v1, a1) := visit(v0, Event(SpecStart, PREAMBLE, 0));
    StartIsEdit(o, a1);
    if a1.GiveUp? {
      return v1, Some(a1.error);
    }
    ctx.Do(a1);
    ghost var o1 := AtStart(o, a1).value;
    StartIsEdit(o1, visit(v1, Event(SectionStart(None), PREAMBLE, 0)).1);
    var (v2, a2) := visit(v1, Event(SectionStart(None), PREAMBLE, 0));
    if a2.GiveUp? {
      return v2, Some(a2.error);
    }
    ctx.Do(a2);
    FromStart(AtStart(o1, a2).value);
    return v2, None;
  }

  lemma FromStart(o: Opening)
    ensures Leads(o.lines, 0, o.next, PREAMBLE, ReadIn(o.lines, o.next, FirstNote(o)))
    ensures Leads(o.lines, 0, o.next, PREAMBLE, Told(o.lines, o.next, FirstNote(o)))
    ensures FirstNote(o).again <==> o.toParse == 0 && o.next == 0
  {
    hide SectionBefore, RunOf, SectionOr, Leads;
    LeadsFromHere(o.lines, 0, o.next);
    NothingBefore(o.lines);
  }

  lemma NothingBefore(lines: seq<string>)
    ensures SectionBefore(lines, 0) == PREAMBLE
  {
    assert lines[..0] == [];
  }

  method VisitEnd<V, E>(ctx: Context, visit: Visitor<V, E>, v0: V) returns (v: V, error: Option<E>)
    requires ctx.currentLine == |ctx.spec.rawLines|
    requires !AtEnd(ctx.spec.rawLines, ctx.currentSection, v0, visit).Misused?
    modifies ctx, ctx.spec
    ensures match error
            case None => old(AtEnd(ctx.spec.rawLines, ctx.currentSection, v0, visit)) == Done(ctx.spec.rawLines, v)
            case Some(e) =>
              old(AtEnd(ctx.spec.rawLines, ctx.currentSection, v0, visit)) == Failed(ctx.spec.rawLines, v, e)
  {
    ghost var lines := ctx.spec.rawLines;
    assert lines[|lines|..] == [];
    var (v1, a1) := visit(v0, Event(SectionEnd, ctx.currentSection, ctx.currentLine));
    if a1.GiveUp? {
      return v1, Some(a1.error);
    }
    ctx.Do(a1);
    ghost var more := if a1.InsertBefore? then a1.lines else [];
    assert ctx.spec.rawLines == lines + more;
    assert (lines + more)[..|lines|] == lines && (lines + more)[|lines|..] == more;
    var (v2, a2) := visit(v1, Event(SpecEnd, ctx.currentSection, ctx.currentLine));
    if a2.GiveUp? {
      return v2, Some(a2.error);
    }
    ctx.Do(a2);
    return v2, None;
  }

  /** Walks over a spec. The walk ends whenever that of the cursor does, and ends the same. */
  method Visit<V, E>(spec: Spec, visit: Visitor<V, E>, v0: V) returns (v: V, r: Result<(), E>, ghost n: nat)
    requires Ends(Start(spec.rawLines, v0, visit), visit)
    modifies spec
    ensures After(Start(old(spec.rawLines), v0, visit), n, visit)
         == match r case Success(_) => Done(spec.rawLines, v) case Failure(e) => Failed(spec.rawLines, v, e)
  {
    hide Start, Move, After, Leads, Told, ReadIn, SectionBefore, AtEnd;
    var ctx := new Context(spec);
    ghost var start := Start(spec.rawLines, v0, visit);
    ghost var m: nat :| EndsBy(start, m, visit);
    EndsUnmisused(start, m, visit);
    var error;
    v, error := VisitStart(ctx, visit, v0);
    AfterNone(start, visit);
    n := 0;
    if error.Some? {
      return v, Failure(error.value), n;
    }
    ghost var c := start;
    while ctx.currentLine < |spec.rawLines|
      invariant ctx.spec == spec && ctx.StandsAt(c) && v == c.v && c == After(start, n, visit) && n <= m
      decreases m - n, |c.lines| + 1 - ctx.nextToParse
    {
      EndsLater(start, n, m, visit);
      AfterNext(start, n, visit);
      ghost var visited := ctx.currentLine == ctx.nextToVisit;
      v, error := VisitLine(ctx, visit, v, c);
      if visited {
        c, n := Move(c, visit), n + 1;
      }
      if error.Some? {
        return v, Failure(error.value), n;
      }
    }
    LeadsEnd(spec.rawLines, ctx.nextToVisit, ctx.currentSection, Told(c.lines, c.p, c.note));
    EndsLater(start, n, m, visit);
    AfterNext(start, n, visit);
    LastVisit(c, visit);
    v, error := VisitEnd(ctx, visit, v);
    return v, if error.Some? then Failure(error.value) else Success(()), n + 1;
  }

  lemma LeadsEnd(lines: seq<string>, p: nat, s: Section, target: Section)
    requires |lines| <= p && Leads(lines, |lines|, p, s, target)
    ensures s == target
  {
  }

  lemma AfterNone<V, E>(c: Config<V, E>, visit: Visitor<V, E>)
    ensures After(c, 0, visit) == c
  {
  }

  lemma AfterNext<V, E>(c: Config<V, E>, n: nat, visit: Visitor<V, E>)
    ensures After(c, n + 1, visit) == Move(After(c, n, visit), visit)
  {
    hide Move;
    AfterMore(c, n, 1, visit);
    assert After(After(c, n, visit), 1, visit) == After(Move(After(c, n, visit), visit), 0, visit);
  }

  lemma LastVisit<V, E>(c: Config<V, E>, visit: Visitor<V, E>)
    requires c.Walking? && c.p >= |c.lines|
    ensures Move(c, visit) == AtEnd(c.lines, Told(c.lines, c.p, c.note), c.v, visit)
  {
  }
}
