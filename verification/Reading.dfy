/** Walks that only read: a fold over the events of a file. */
module Reading {
  import opened Wrappers
  import opened SpecFile
  import opened SpecLines
  import opened SpecWalk

  type Reader<!V> = (V, Event) -> V

  function ReadingVisitor<V>(f: Reader<V>): Visitor<V, ()> {
    (v: V, e: Event) => (f(v, e), Keep)
  }

  function ReadLine<V>(lines: seq<string>, p: nat, v: V, f: Reader<V>): V
    requires p < |lines|
  {
    var before := SectionBefore(lines, p);
    var line := lines[p];
    if SectionOfHeader(line).Some? then
      f(f(v, Event(SectionEnd, before, p)), Event(SectionStart(Some(line)), SectionBefore(lines, p + 1), p))
    else f(v, Event(SectionLine(line, ParseLine(line, before)), before, p))
  }

  function ReadEnd<V>(lines: seq<string>, v: V, f: Reader<V>): V {
    var n := |lines|;
    var section := SectionBefore(lines, n);
    f(f(v, Event(SectionEnd, section, n)), Event(SpecEnd, section, n))
  }

  function ReadFrom<V>(lines: seq<string>, p: nat, v: V, f: Reader<V>): V
    requires p <= |lines|
    decreases |lines| - p
  {
    if p == |lines| then ReadEnd(lines, v, f) else ReadFrom(lines, p + 1, ReadLine(lines, p, v, f), f)
  }

  function ReadStart<V>(v: V, f: Reader<V>): V {
    f(f(v, Event(SpecStart, PREAMBLE, 0)), Event(SectionStart(None), PREAMBLE, 0))
  }

  lemma ReaderMoves<V>(lines: seq<string>, p: nat, v: V, f: Reader<V>)
    requires p <= |lines|
    ensures Move(Walking(lines, p, PLAIN, v), ReadingVisitor(f))
         == if p == |lines| then Done(lines, ReadEnd(lines, v, f))
            else Walking(lines, p + 1, PLAIN, ReadLine(lines, p, v, f))
  {
    hide SectionBefore, SectionOfHeader, ParseLine;
    assert lines + [] + [] == lines;
  }

  lemma {:induction false} ReaderReads<V>(lines: seq<string>, p: nat, v: V, f: Reader<V>)
    requires p <= |lines|
    ensures After(Walking(lines, p, PLAIN, v), |lines| - p + 1, ReadingVisitor(f))
            == Done(lines, ReadFrom(lines, p, v, f))
    decreases |lines| - p
  {
    hide Move, ReadLine, ReadEnd;
    ReaderMoves(lines, p, v, f);
    if p == |lines| {
      AfterNone(Move(Walking(lines, p, PLAIN, v), ReadingVisitor(f)), ReadingVisitor(f));
    } else {
      ReaderReads(lines, p + 1, ReadLine(lines, p, v, f), f);
    }
  }

  method Read<V>(spec: Spec, f: Reader<V>, v0: V) returns (v: V)
    modifies spec
    ensures spec.rawLines == old(spec.rawLines)
    ensures v == ReadFrom(spec.rawLines, 0, ReadStart(v0, f), f)
  {
    hide Move, After, ReadFrom;
    ghost var lines := spec.rawLines;
    var visit := ReadingVisitor(f);
    assert Start(lines, v0, visit) == Walking(lines, 0, PLAIN, ReadStart(v0, f));
    ReaderReads(lines, 0, ReadStart(v0, f), f);
    assert EndsBy(Start(lines, v0, visit), |lines| + 1, visit);
    var walked;
    ghost var n;
    v, walked, n := Visit(spec, visit, v0);
    EndsOnce(Start(lines, v0, visit), |lines| + 1, n, visit);
  }
}
