/** Calls on one lock store from several threads: each is a few atomic steps on the cache and
    the disk, and the steps of different calls interleave. */
module LockInterleavings {
  import opened Wrappers
  import opened LockStore

  datatype Op = Get | Exists | Save(lock: Lock) | Remove

  /** How far a call is: begun, past a miss in the cache, with a lock read from disk, or with
      its change on disk but not in the cache yet. */
  datatype Stage = Begun | Missed | Read(lock: Lock) | OnDisk

  datatype Call = Call(name: Name, op: Op, stage: Stage) {
    predicate Writes() { op.Save? || op.Remove? }
  }

  datatype Answer = Got(lock: Lock) | Found(exists_: bool) | Finished | Failed

  type Thread = nat

  datatype State = State(disk: map<Name, File>, cache: map<Name, Lock>, running: map<Thread, Call>,
    answers: map<Thread, Answer>)

  function Finish(s: State, t: Thread, a: Answer): State {
    s.(running := s.running - {t}, answers := s.answers[t := a])
  }

  function Reach(s: State, t: Thread, stage: Stage): State
    requires t in s.running
  {
    s.(running := s.running[t := s.running[t].(stage := stage)])
  }

  /** One atomic step of a call; `ok` tells whether the disk works. */
  function Advance(s: State, t: Thread, ok: bool): State
    requires t in s.running
  {
    var Call(name, op, stage) := s.running[t];
    match op
    case Get =>
      if stage.Begun? then if name in s.cache then Finish(s, t, Got(s.cache[name])) else Reach(s, t, Missed)
      else if stage.Read? then Finish(s.(cache := s.cache[name := stage.lock]), t, Got(stage.lock))
      else if ok && Loaded(s.disk, name).Success? then Reach(s, t, Read(Loaded(s.disk, name).value))
      else Finish(s, t, Failed)
    case Exists =>
      if stage.Begun? then if name in s.cache then Finish(s, t, Found(true)) else Reach(s, t, Missed)
      else Finish(s, t, if ok then Found(name in s.disk) else Failed)
    case Save(lock) =>
      if stage.OnDisk? then Finish(s.(cache := s.cache[name := lock]), t, Finished)
      else if ok then Reach(s.(disk := s.disk[name := Holds(lock)]), t, OnDisk)
      else Finish(s, t, Failed)
    case Remove =>
      if stage.OnDisk? then Finish(s.(cache := s.cache - {name}), t, Finished)
      else if ok && name in s.disk then Reach(s.(disk := s.disk - {name}), t, OnDisk)
      else Finish(s, t, Failed)
  }

  datatype Step = Begin(t: Thread, name: Name, op: Op) | Go(t: Thread, ok: bool)

  predicate Possible(s: State, step: Step) {
    if step.Begin? then step.t !in s.running else step.t in s.running
  }

  function Next(s: State, step: Step): State
    requires Possible(s, step)
  {
    match step
    case Begin(t, name, op) => s.(running := s.running[t := Call(name, op, Begun)])
    case Go(t, ok) => Advance(s, t, ok)
  }

  /** The state after some steps, if they are possible. */
  function Run(s: State, steps: seq<Step>): Option<State>
    decreases |steps|
  {
    if steps == [] then Some(s)
    else if !Possible(s, steps[0]) then None
    else Run(Next(s, steps[0]), steps[1..])
  }

  // ---------------------------------------------------------------- the discipline

  /** Calls begin only beside compatible calls of the same component, and locks are saved in
      the current version. */
  predicate Allowed(s: State, step: Step) {
    step.Begin? ==>
      && Current(step.op)
      && forall t <- s.running :: s.running[t].name == step.name ==> Compatible(step.op, s.running[t].op)
  }

  predicate Current(op: Op) {
    op.Save? ==> op.lock.version == CURRENT_VERSION
  }

  /** Looking for a file goes with everything; other calls of a component only with their like. */
  predicate Compatible(a: Op, b: Op) {
    a.Exists? || b.Exists? || a == b
  }

  predicate Disciplined(s: State, steps: seq<Step>)
    decreases |steps|
  {
    steps == [] || (Possible(s, steps[0]) && Allowed(s, steps[0]) && Disciplined(Next(s, steps[0]), steps[1..]))
  }

  /** A change of the component is on disk, but not in the cache yet. */
  predicate HalfWritten(s: State, name: Name) {
    exists t <- s.running :: s.running[t].name == name && s.running[t].stage.OnDisk?
  }

  /** The cached lock of a component, if any, is what loading its file would give. */
  predicate Fresh(s: State, name: Name) {
    name in s.cache ==> Loaded(s.disk, name) == Success(s.cache[name])
  }

  /** What a running call relies on. */
  predicate CallOk(s: State, c: Call) {
    && (c.stage.Read? ==> c.op.Get? && Loaded(s.disk, c.name) == Success(c.stage.lock))
    && (c.stage.Missed? ==> !c.Writes())
    && (c.stage.OnDisk? ==> c.Writes())
    && (c.op.Save? ==> c.op.lock.version == CURRENT_VERSION)
    && (c.op.Save? && c.stage.OnDisk? ==> Loaded(s.disk, c.name) == Success(c.op.lock))
    && (c.op.Remove? && c.stage.OnDisk? ==> c.name !in s.disk)
  }

  ghost predicate Inv(s: State) {
    && (forall t <- s.running :: CallOk(s, s.running[t]))
    && (forall t, u :: t in s.running && u in s.running && t != u && s.running[t].name == s.running[u].name
                       ==> Compatible(s.running[t].op, s.running[u].op))
    && (forall name <- s.cache :: Fresh(s, name) || HalfWritten(s, name))
  }

  lemma BeginKeeps(s: State, t: Thread, name: Name, op: Op)
    requires Inv(s) && Possible(s, Begin(t, name, op)) && Allowed(s, Begin(t, name, op))
    ensures Inv(Next(s, Begin(t, name, op)))
  {
    var s' := Next(s, Begin(t, name, op));
    forall n | n in s'.cache ensures Fresh(s', n) || HalfWritten(s', n) {
      if HalfWritten(s, n) {
        var u :| u in s.running && s.running[u].name == n && s.running[u].stage.OnDisk?;
        assert s'.running[u] == s.running[u];
      }
    }
  }

  /** What a step leaves alone: every other call, and every other component. */
  ghost predicate OnlyTouches(s: State, s': State, t: Thread)
    requires t in s.running
  {
    var c := s.running[t];
    && (s'.running == s.running - {t}
        || (t in s'.running && s'.running == s.running[t := s'.running[t]] && s'.running[t].name == c.name
           && s'.running[t].op == c.op))
    && s'.disk - {c.name} == s.disk - {c.name} && s'.cache - {c.name} == s.cache - {c.name}
    && DiskStep(s.disk, s'.disk, c)
  }

  /** A call changes the disk only to save or remove its file. */
  predicate DiskStep(disk: map<Name, File>, disk': map<Name, File>, c: Call) {
    || disk' == disk
    || (c.op.Save? && disk' == disk[c.name := Holds(c.op.lock)])
    || (c.op.Remove? && disk' == disk - {c.name})
  }

  lemma AdvanceTouches(s: State, t: Thread, ok: bool)
    requires t in s.running
    ensures OnlyTouches(s, Advance(s, t, ok), t)
  {
    hide OnlyTouches, Finish, Reach, Loaded;
    var Call(name, op, stage) := s.running[t];
    match op {
      case Get =>
        Touches(s, s, t);
        if stage.Read? {
          UpdatedElsewhere(s.cache, name, stage.lock);
          Touches(s, s.(cache := s.cache[name := stage.lock]), t);
        }
      case Exists =>
        Touches(s, s, t);
      case Save(lock) =>
        Touches(s, s, t);
        UpdatedElsewhere(s.cache, name, lock);
        UpdatedElsewhere(s.disk, name, Holds(lock));
        Touches(s, s.(cache := s.cache[name := lock]), t);
        Touches(s, s.(disk := s.disk[name := Holds(lock)]), t);
      case Remove =>
        Touches(s, s, t);
        RemovedElsewhere(s.cache, name);
        RemovedElsewhere(s.disk, name);
        Touches(s, s.(cache := s.cache - {name}), t);
        Touches(s, s.(disk := s.disk - {name}), t);
    }
  }

  /** A change of the entries of a component, before its call moves on or finishes. */
  lemma Touches(s: State, s1: State, t: Thread)
    requires t in s.running && s1.running == s.running && DiskStep(s.disk, s1.disk, s.running[t])
    requires var name := s.running[t].name; s1.disk - {name} == s.disk - {name} && s1.cache - {name} == s.cache - {name}
    ensures forall a :: OnlyTouches(s, Finish(s1, t, a), t)
    ensures forall stage :: OnlyTouches(s, Reach(s1, t, stage), t)
  {
  }

  lemma UpdatedElsewhere<V>(m: map<Name, V>, name: Name, v: V)
    ensures m[name := v] - {name} == m - {name}
  {
  }

  lemma RemovedElsewhere<V>(m: map<Name, V>, name: Name)
    ensures m - {name} - {name} == m - {name}
  {
  }

  lemma Elsewhere<V>(m: map<Name, V>, m': map<Name, V>, name: Name, n: Name)
    requires m - {name} == m' - {name} && n != name
    ensures n in m <==> n in m'
    ensures n in m ==> m[n] == m'[n]
  {
    assert n in m <==> n in m - {name};
    assert n in m' <==> n in m' - {name};
    if n in m {
      assert m[n] == (m - {name})[n] && m'[n] == (m' - {name})[n];
    }
  }

  /** The call that moves keeps its own part of the invariant. */
  lemma AdvanceOwn(s: State, t: Thread, ok: bool)
    requires t in s.running && CallOk(s, s.running[t])
    ensures var s', name := Advance(s, t, ok), s.running[t].name;
            && (t in s'.running ==> CallOk(s', s'.running[t]))
            && (name in s'.cache ==>
                  || Fresh(s', name) || (t in s'.running && s'.running[t].stage.OnDisk?)
                  || (name in s.cache && s.cache[name] == s'.cache[name] && s.disk == s'.disk
                     && !s.running[t].stage.OnDisk?))
  {
    match s.running[t].op
    case Get =>
    case Exists =>
    case Save(lock) =>
    case Remove =>
  }

  lemma AdvanceKeeps(s: State, t: Thread, ok: bool)
    requires Inv(s) && t in s.running
    ensures Inv(Advance(s, t, ok))
  {
    hide Advance, CallOk, Fresh;
    var s' := Advance(s, t, ok);
    var name := s.running[t].name;
    AdvanceTouches(s, t, ok);
    AdvanceOwn(s, t, ok);
    forall u | u in s'.running ensures CallOk(s', s'.running[u]) {
      if u != t {
        OthersOk(s, s', t, u);
      }
    }
    forall n | n in s'.cache ensures Fresh(s', n) || HalfWritten(s', n) {
      if n == name {
        OwnEntry(s, t, ok);
      } else {
        Elsewhere(s.cache, s'.cache, name, n);
        OtherEntries(s, s', t, n);
      }
    }
  }

  lemma OtherEntries(s: State, s': State, t: Thread, n: Name)
    requires t in s.running && OnlyTouches(s, s', t) && n != s.running[t].name && n in s.cache
    requires Fresh(s, n) || HalfWritten(s, n)
    ensures Fresh(s', n) || HalfWritten(s', n)
  {
    Elsewhere(s.disk, s'.disk, s.running[t].name, n);
    Elsewhere(s.cache, s'.cache, s.running[t].name, n);
    if HalfWritten(s, n) {
      var u :| u in s.running && s.running[u].name == n && s.running[u].stage.OnDisk?;
      assert u in s'.running && s'.running[u] == s.running[u];
    }
  }

  /** The entry of the component whose call moves. */
  lemma OwnEntry(s: State, t: Thread, ok: bool)
    requires Inv(s) && t in s.running && s.running[t].name in Advance(s, t, ok).cache
    ensures var s', name := Advance(s, t, ok), s.running[t].name;
            Fresh(s', name) || HalfWritten(s', name)
  {
    hide Advance, CallOk, Fresh;
    var s', name := Advance(s, t, ok), s.running[t].name;
    AdvanceTouches(s, t, ok);
    AdvanceOwn(s, t, ok);
    if t in s'.running && s'.running[t].stage.OnDisk? {
      assert HalfWritten(s', name);
    } else if !Fresh(s', name) {
      SameFresh(s, s', name);
      var u :| u in s.running && s.running[u].name == name && s.running[u].stage.OnDisk?;
      assert u in s'.running && s'.running[u] == s.running[u];
    }
  }

  lemma SameFresh(s: State, s': State, name: Name)
    requires name in s.cache && name in s'.cache && s.cache[name] == s'.cache[name] && s.disk == s'.disk
    ensures Fresh(s, name) <==> Fresh(s', name)
  {
  }

  lemma OthersOk(s: State, s': State, t: Thread, u: Thread)
    requires t in s.running && u in s.running && t != u && OnlyTouches(s, s', t) && CallOk(s, s.running[u])
    requires s.running[t].name == s.running[u].name ==> Compatible(s.running[t].op, s.running[u].op)
    ensures CallOk(s', s.running[u])
  {
    if s.running[t].name != s.running[u].name {
      Elsewhere(s.disk, s'.disk, s.running[t].name, s.running[u].name);
    }
  }

  lemma {:induction false} RunKeeps(s: State, steps: seq<Step>)
    requires Inv(s) && Disciplined(s, steps)
    ensures Run(s, steps).Some? && Inv(Run(s, steps).value)
    decreases |steps|
  {
    hide Inv, Advance, Allowed, Possible, Next;
    if steps != [] {
      StepIs(s, steps[0]);
      match steps[0] {
        case Begin(t, name, op) => BeginKeeps(s, t, name, op);
        case Go(t, ok) => AdvanceKeeps(s, t, ok);
      }
      RunKeeps(Next(s, steps[0]), steps[1..]);
    }
  }

  lemma StepIs(s: State, step: Step)
    requires Possible(s, step)
    ensures match step
            case Begin(t, name, op) => true
            case Go(t, ok) => t in s.running && Next(s, step) == Advance(s, t, ok)
  {
  }

  /** Whatever the interleaving of disciplined calls: at every moment the cached lock of every
      component is what loading its file would give, unless a change of it is half written. */
  lemma CacheStaysCoherent(disk: map<Name, File>, steps: seq<Step>)
    requires Disciplined(State(disk, map[], map[], map[]), steps)
    ensures var r := Run(State(disk, map[], map[], map[]), steps);
            r.Some? && forall name :: !HalfWritten(r.value, name) ==> Fresh(r.value, name)
  {
    RunKeeps(State(disk, map[], map[], map[]), steps);
  }

  /** The answer of a call, if its next step is the last. */
  function AnswerOf(s: State, t: Thread, ok: bool): Option<Answer>
    requires t in s.running
  {
    var s' := Advance(s, t, ok);
    if t in s'.running || t !in s'.answers then None else Some(s'.answers[t])
  }

  /** And every lock handed out is the one on disk at that moment; a component is said to exist
      exactly when it has a file, unless a change of it is half written. */
  lemma AnswersAreTrue(s: State, t: Thread, ok: bool)
    requires Inv(s) && t in s.running
    ensures var name := s.running[t].name;
            match AnswerOf(s, t, ok)
            case Some(Got(lock)) => Loaded(s.disk, name) == Success(lock)
            case Some(Found(found)) => !HalfWritten(s, name) ==> (found <==> name in s.disk)
            case _ => true
  {
    hide HalfWritten, Inv;
    var c := s.running[t];
    CallIsOk(s, t);
    if c.op.Get? {
      NotHalfWritten(s, t);
    }
    if c.name in s.cache && !HalfWritten(s, c.name) {
      EntryIsFresh(s, c.name);
    }
  }

  lemma CallIsOk(s: State, t: Thread)
    requires Inv(s) && t in s.running
    ensures CallOk(s, s.running[t])
  {
  }

  lemma EntryIsFresh(s: State, name: Name)
    requires Inv(s) && name in s.cache && !HalfWritten(s, name)
    ensures Fresh(s, name)
  {
  }

  /** No change is half written while a lock is being read. */
  lemma NotHalfWritten(s: State, t: Thread)
    requires Inv(s) && t in s.running && s.running[t].op.Get?
    ensures !HalfWritten(s, s.running[t].name)
  {
    hide Fresh;
    forall u | u in s.running && s.running[u].name == s.running[t].name ensures !s.running[u].stage.OnDisk? {
      assert CallOk(s, s.running[u]) && CallOk(s, s.running[t]);
      assert u != t ==> Compatible(s.running[t].op, s.running[u].op);
    }
  }

  // ---------------------------------------------------------------- why the discipline is needed

  /** A store that starts with an empty cache. */
  function Idle(disk: map<Name, File>): State {
    State(disk, map[], map[], map[])
  }

  /** No call is running, yet some cached lock is not what its file holds. */
  predicate LeftStale(r: Option<State>, name: Name) {
    r.Some? && r.value.running == map[] && !Fresh(r.value, name)
  }

  lemma RunStep(s: State, step: Step, rest: seq<Step>)
    requires Possible(s, step)
    ensures Run(s, [step] + rest) == Run(Next(s, step), rest)
  {
    assert ([step] + rest)[1..] == rest;
  }

  /** A read that overlaps a save of another lock can cache the old one for good. */
  lemma GetOverlapsSave(disk: map<Name, File>, name: Name, t: Thread, u: Thread, was: Lock, now: Lock)
    returns (steps: seq<Step>)
    requires t != u && Loaded(disk, name) == Success(was) && now.version == CURRENT_VERSION && now != was
    ensures OfTwo(steps, name, t, Get, u, Save(now)) && LeftStale(Run(Idle(disk), steps), name)
  {
    var read := [Begin(t, name, Get), Go(t, true), Go(t, true)];
    var save := [Begin(u, name, Save(now)), Go(u, true), Go(u, true)];
    var rest := save + [Go(t, true)];
    steps := read + rest;
    var reading := State(disk, map[], map[t := Call(name, Get, Read(was))], map[]);
    ReadsLock(Idle(disk), t, name, rest);
    Saves(reading, u, name, now, [Go(t, true)]);
    var saved := State(disk[name := Holds(now)], map[name := now], reading.running, map[u := Finished]);
    RunStep(saved, Go(t, true), []);
    assert Next(saved, Go(t, true)).cache[name] == was;
  }

  /** A read that overlaps a removal can cache a lock that has no file any more. */
  lemma GetOverlapsRemove(disk: map<Name, File>, name: Name, t: Thread, u: Thread, was: Lock) returns (steps: seq<Step>)
    requires t != u && Loaded(disk, name) == Success(was)
    ensures OfTwo(steps, name, t, Get, u, Remove) && LeftStale(Run(Idle(disk), steps), name)
  {
    var read := [Begin(t, name, Get), Go(t, true), Go(t, true)];
    var remove := [Begin(u, name, Remove), Go(u, true), Go(u, true)];
    var rest := remove + [Go(t, true)];
    steps := read + rest;
    var reading := State(disk, map[], map[t := Call(name, Get, Read(was))], map[]);
    ReadsLock(Idle(disk), t, name, rest);
    Removes(reading, u, name, [Go(t, true)]);
    var removed := State(disk - {name}, map[] - {name}, reading.running, map[u := Finished]);
    RunStep(removed, Go(t, true), []);
  }

  /** Two overlapping saves of different locks can leave the cache with the one that lost. */
  lemma SaveOverlapsSave(disk: map<Name, File>, name: Name, t: Thread, u: Thread, a: Lock, b: Lock)
    returns (steps: seq<Step>)
    requires t != u && b.version == CURRENT_VERSION && a != b
    ensures OfTwo(steps, name, t, Save(a), u, Save(b)) && LeftStale(Run(Idle(disk), steps), name)
  {
    var second := [Begin(u, name, Save(b)), Go(u, true), Go(u, true)];
    var rest := second + [Go(t, true)];
    steps := [Begin(t, name, Save(a)), Go(t, true)] + rest;
    Writes(Idle(disk), t, name, a, rest);
    var written := State(disk[name := Holds(a)], map[], map[t := Call(name, Save(a), OnDisk)], map[]);
    Saves(written, u, name, b, [Go(t, true)]);
    var saved := State(written.disk[name := Holds(b)], map[name := b], written.running, map[u := Finished]);
    RunStep(saved, Go(t, true), []);
    assert Next(saved, Go(t, true)).cache[name] == a;
  }

  /** A removal that overlaps a save can leave a cached lock without a file. */
  lemma SaveOverlapsRemove(disk: map<Name, File>, name: Name, t: Thread, u: Thread, lock: Lock)
    returns (steps: seq<Step>)
    requires t != u
    ensures OfTwo(steps, name, t, Save(lock), u, Remove) && LeftStale(Run(Idle(disk), steps), name)
  {
    var remove := [Begin(u, name, Remove), Go(u, true), Go(u, true)];
    var rest := remove + [Go(t, true)];
    steps := [Begin(t, name, Save(lock)), Go(t, true)] + rest;
    Writes(Idle(disk), t, name, lock, rest);
    var written := State(disk[name := Holds(lock)], map[], map[t := Call(name, Save(lock), OnDisk)], map[]);
    Removes(written, u, name, [Go(t, true)]);
    var removed := State(written.disk - {name}, map[] - {name}, written.running, map[u := Finished]);
    RunStep(removed, Go(t, true), []);
  }

  /** A lock of another version is cached although its file does not load. */
  lemma SaveOfOtherVersion(disk: map<Name, File>, name: Name, t: Thread, lock: Lock) returns (steps: seq<Step>)
    requires lock.version != CURRENT_VERSION
    ensures steps == [Begin(t, name, Save(lock)), Go(t, true), Go(t, true)] && LeftStale(Run(Idle(disk), steps), name)
  {
    steps := [Begin(t, name, Save(lock)), Go(t, true), Go(t, true)] + [];
    Saves(Idle(disk), t, name, lock, []);
  }

  /** Only two calls of one component, each any number of times, one after the other. */
  predicate OfTwo(steps: seq<Step>, name: Name, t: Thread, a: Op, u: Thread, b: Op) {
    forall s <- steps :: s.Begin? ==> s == Begin(t, name, a) || s == Begin(u, name, b)
  }

  predicate RunsTwo(s: State, name: Name, t: Thread, a: Op, u: Thread, b: Op) {
    forall r <- s.running :: s.running[r].name == name
      && ((r == t && s.running[r].op == a) || (r == u && s.running[r].op == b))
  }

  lemma {:induction false} TwoAreDisciplined(s: State, steps: seq<Step>, name: Name, t: Thread, a: Op, u: Thread, b: Op)
    requires t != u && OfTwo(steps, name, t, a, u, b) && RunsTwo(s, name, t, a, u, b)
    requires Compatible(a, b) && Current(a) && Current(b) && Run(s, steps).Some?
    ensures Disciplined(s, steps)
    decreases |steps|
  {
    if steps != [] {
      var step := steps[0];
      assert step in steps && forall r <- steps[1..] :: r in steps;
      TwoGoOn(s, step, name, t, a, u, b);
      TwoAreDisciplined(Next(s, step), steps[1..], name, t, a, u, b);
    }
  }

  lemma TwoGoOn(s: State, step: Step, name: Name, t: Thread, a: Op, u: Thread, b: Op)
    requires t != u && (step.Begin? ==> step == Begin(t, name, a) || step == Begin(u, name, b))
             && RunsTwo(s, name, t, a, u, b)
    requires Compatible(a, b) && Current(a) && Current(b) && Possible(s, step)
    ensures Allowed(s, step) && RunsTwo(Next(s, step), name, t, a, u, b)
  {
    hide Advance;
    if step.Go? {
      AdvanceTouches(s, step.t, step.ok);
    }
  }

  /** Two calls of a component may overlap exactly when they are compatible and save nothing
      but the current version: else some interleaving of the two, from an empty cache and some
      file, leaves the cache stale when both are done. */
  lemma OverlapIsSafe(name: Name, a: Op, b: Op)
    ensures (forall disk, steps :: OfTwo(steps, name, 0, a, 1, b) ==> !LeftStale(Run(Idle(disk), steps), name))
            <==> Compatible(a, b) && Current(a) && Current(b)
  {
    hide OfTwo, LeftStale, Run, Loaded, Disciplined;
    if Compatible(a, b) && Current(a) && Current(b) {
      forall disk, steps | OfTwo(steps, name, 0, a, 1, b) ensures !LeftStale(Run(Idle(disk), steps), name) {
        NotLeftStale(disk, steps, name, a, b);
      }
    } else {
      var disk, steps := Clash(name, a, b);
      assert OfTwo(steps, name, 0, a, 1, b) && LeftStale(Run(Idle(disk), steps), name);
    }
  }

  lemma NotLeftStale(disk: map<Name, File>, steps: seq<Step>, name: Name, a: Op, b: Op)
    requires OfTwo(steps, name, 0, a, 1, b) && Compatible(a, b) && Current(a) && Current(b)
    ensures !LeftStale(Run(Idle(disk), steps), name)
  {
    hide OfTwo, Run, Loaded, Disciplined, Fresh;
    if Run(Idle(disk), steps).Some? {
      TwoAreDisciplined(Idle(disk), steps, name, 0, a, 1, b);
      CacheStaysCoherent(disk, steps);
    }
  }

  lemma Clash(name: Name, a: Op, b: Op) returns (disk: map<Name, File>, steps: seq<Step>)
    requires !(Compatible(a, b) && Current(a) && Current(b))
    ensures OfTwo(steps, name, 0, a, 1, b) && LeftStale(Run(Idle(disk), steps), name)
  {
    hide LeftStale, Run;
    disk := map[name := Holds(NEW_LOCK)];
    if !Current(a) {
      steps := SaveOfOtherVersion(disk, name, 0, a.lock);
    } else if !Current(b) {
      steps := SaveOfOtherVersion(disk, name, 1, b.lock);
    } else if a.Get? && b.Save? {
      disk := map[name := Holds(OtherThan(b.lock))];
      steps := GetOverlapsSave(disk, name, 0, 1, OtherThan(b.lock), b.lock);
    } else if b.Get? && a.Save? {
      disk := map[name := Holds(OtherThan(a.lock))];
      steps := GetOverlapsSave(disk, name, 1, 0, OtherThan(a.lock), a.lock);
    } else if a.Get? && b.Remove? {
      steps := GetOverlapsRemove(disk, name, 0, 1, NEW_LOCK);
    } else if b.Get? && a.Remove? {
      steps := GetOverlapsRemove(disk, name, 1, 0, NEW_LOCK);
    } else if a.Save? && b.Save? {
      steps := SaveOverlapsSave(disk, name, 0, 1, a.lock, b.lock);
    } else if a.Save? {
      steps := SaveOverlapsRemove(disk, name, 0, 1, a.lock);
    } else {
      steps := SaveOverlapsRemove(disk, name, 1, 0, b.lock);
    }
  }

  function OtherThan(lock: Lock): (other: Lock)
    ensures other != lock && other.version == lock.version
  {
    lock.(manualBump := lock.manualBump + 1)
  }

  lemma ReadsLock(s: State, t: Thread, name: Name, rest: seq<Step>)
    requires t !in s.running && name !in s.cache && Loaded(s.disk, name).Success?
    ensures Run(s, [Begin(t, name, Get), Go(t, true), Go(t, true)] + rest)
         == Run(s.(running := s.running[t := Call(name, Get, Read(Loaded(s.disk, name).value))]), rest)
  {
    hide Loaded, Run;
    var steps := [Begin(t, name, Get), Go(t, true), Go(t, true)] + rest;
    assert steps == [steps[0]] + ([steps[1]] + ([steps[2]] + rest));
    RunStep(s, steps[0], [steps[1]] + ([steps[2]] + rest));
    var s1 := s.(running := s.running[t := Call(name, Get, Begun)]);
    RunStep(s1, steps[1], [steps[2]] + rest);
    var s2 := s.(running := s.running[t := Call(name, Get, Missed)]);
    assert Next(s1, steps[1]) == s2 by {
      assert s1.running[t := Call(name, Get, Missed)] == s2.running;
    }
    RunStep(s2, steps[2], rest);
    var s3 := s.(running := s.running[t := Call(name, Get, Read(Loaded(s.disk, name).value))]);
    assert s2.running[t := s3.running[t]] == s3.running;
  }

  lemma Saves(s: State, t: Thread, name: Name, lock: Lock, rest: seq<Step>)
    requires t !in s.running
    ensures Run(s, [Begin(t, name, Save(lock)), Go(t, true), Go(t, true)] + rest)
         == Run(State(s.disk[name := Holds(lock)], s.cache[name := lock], s.running, s.answers[t := Finished]), rest)
  {
    hide Loaded, Run;
    var steps := [Begin(t, name, Save(lock)), Go(t, true), Go(t, true)] + rest;
    assert steps == [steps[0]] + ([steps[1]] + ([steps[2]] + rest));
    RunStep(s, steps[0], [steps[1]] + ([steps[2]] + rest));
    var s1 := s.(running := s.running[t := Call(name, Save(lock), Begun)]);
    RunStep(s1, steps[1], [steps[2]] + rest);
    var s2 := State(s.disk[name := Holds(lock)], s.cache, s.running[t := Call(name, Save(lock), OnDisk)], s.answers);
    assert s1.running[t := s2.running[t]] == s2.running;
    RunStep(s2, steps[2], rest);
    assert s2.running - {t} == s.running;
  }

  lemma Removes(s: State, t: Thread, name: Name, rest: seq<Step>)
    requires t !in s.running && name in s.disk
    ensures Run(s, [Begin(t, name, Remove), Go(t, true), Go(t, true)] + rest)
         == Run(State(s.disk - {name}, s.cache - {name}, s.running, s.answers[t := Finished]), rest)
  {
    hide Loaded, Run;
    var steps := [Begin(t, name, Remove), Go(t, true), Go(t, true)] + rest;
    assert steps == [steps[0]] + ([steps[1]] + ([steps[2]] + rest));
    RunStep(s, steps[0], [steps[1]] + ([steps[2]] + rest));
    var s1 := s.(running := s.running[t := Call(name, Remove, Begun)]);
    RunStep(s1, steps[1], [steps[2]] + rest);
    var s2 := State(s.disk - {name}, s.cache, s.running[t := Call(name, Remove, OnDisk)], s.answers);
    assert s1.running[t := s2.running[t]] == s2.running;
    RunStep(s2, steps[2], rest);
    assert s2.running - {t} == s.running;
  }

  lemma Writes(s: State, t: Thread, name: Name, lock: Lock, rest: seq<Step>)
    requires t !in s.running
    ensures Run(s, [Begin(t, name, Save(lock)), Go(t, true)] + rest)
         == Run(State(s.disk[name := Holds(lock)], s.cache, s.running[t := Call(name, Save(lock), OnDisk)], s.answers),
            rest)
  {
    hide Loaded, Run;
    var steps := [Begin(t, name, Save(lock)), Go(t, true)] + rest;
    assert steps == [steps[0]] + ([steps[1]] + rest);
    RunStep(s, steps[0], [steps[1]] + rest);
    var s1 := s.(running := s.running[t := Call(name, Save(lock), Begun)]);
    RunStep(s1, steps[1], rest);
    var call := Call(name, Save(lock), OnDisk);
    assert s1.running[t := call] == s.running[t := call];
  }

  // ---------------------------------------------------------------- one call on its own

  /** The rest of a call that nothing interrupts. */
  function Completed(s: State, t: Thread, ok: bool, steps: nat): State
    decreases steps
  {
    if steps == 0 || t !in s.running then s else Completed(Advance(s, t, ok), t, ok, steps - 1)
  }

  /** A call begun and completed on its own. */
  function Alone(s: State, t: Thread, name: Name, op: Op, ok: bool): State {
    Completed(s.(running := s.running[t := Call(name, op, Begun)]), t, ok, 3)
  }

  lemma StepAlone(s: State, t: Thread, ok: bool, steps: nat)
    requires t in s.running && steps > 0
    ensures Completed(s, t, ok, steps) == Completed(Advance(s, t, ok), t, ok, steps - 1)
  {
  }

  lemma OverAlone(s: State, t: Thread, ok: bool, steps: nat)
    requires t !in s.running
    ensures Completed(s, t, ok, steps) == s
  {
  }

  lemma NoLongerRunning(s: State, t: Thread, c: Call, d: Call, e: Call)
    requires t !in s.running
    ensures s.running[t := c] - {t} == s.running && s.running[t := c][t := d] - {t} == s.running
    ensures s.running[t := c][t := d][t := e] - {t} == s.running
  {
  }

  /** A call on its own does to the cache and the disk what the method of the store does, and
      gives the same answer: here looking a lock up. */
  lemma GetAlone(s: State, t: Thread, name: Name, ok: bool)
    requires t !in s.running
    ensures var r := Alone(s, t, name, Get, ok);
            && r.running == s.running && r.disk == s.disk
            && if name in s.cache then r.cache == s.cache && r.answers == s.answers[t := Got(s.cache[name])]
               else if ok && Loaded(s.disk, name).Success? then
                 && r.cache == s.cache[name := Loaded(s.disk, name).value]
                 && r.answers == s.answers[t := Got(Loaded(s.disk, name).value)]
               else r.cache == s.cache && r.answers == s.answers[t := Failed]
  {
    hide Completed, Loaded;
    var c := Call(name, Get, Begun);
    var s1 := s.(running := s.running[t := c]);
    StepAlone(s1, t, ok, 3);
    var s2 := Advance(s1, t, ok);
    if name in s.cache {
      OverAlone(s2, t, ok, 2);
      NoLongerRunning(s, t, c, c, c);
    } else {
      var d := Call(name, Get, Missed);
      assert s2 == s1.(running := s.running[t := c][t := d]);
      StepAlone(s2, t, ok, 2);
      var s3 := Advance(s2, t, ok);
      if ok && Loaded(s.disk, name).Success? {
        var e := Call(name, Get, Read(Loaded(s.disk, name).value));
        NoLongerRunning(s, t, c, d, e);
        assert s3 == s1.(running := s.running[t := c][t := d][t := e]);
        StepAlone(s3, t, ok, 1);
        OverAlone(Advance(s3, t, ok), t, ok, 0);
      } else {
        NoLongerRunning(s, t, c, d, d);
        OverAlone(s3, t, ok, 1);
      }
    }
  }

  /** Looking for a file. */
  lemma ExistsAlone(s: State, t: Thread, name: Name, ok: bool)
    requires t !in s.running
    ensures var r := Alone(s, t, name, Exists, ok);
            && r.running == s.running && r.disk == s.disk && r.cache == s.cache
            && r.answers
               == s.answers[t := if name in s.cache then Found(true) else if ok then Found(name in s.disk) else Failed]
  {
    hide Completed;
    var c := Call(name, Exists, Begun);
    var s1 := s.(running := s.running[t := c]);
    StepAlone(s1, t, ok, 3);
    var s2 := Advance(s1, t, ok);
    if name in s.cache {
      OverAlone(s2, t, ok, 2);
      NoLongerRunning(s, t, c, c, c);
    } else {
      var d := Call(name, Exists, Missed);
      NoLongerRunning(s, t, c, d, d);
      assert s2 == s1.(running := s.running[t := c][t := d]);
      StepAlone(s2, t, ok, 2);
      OverAlone(Advance(s2, t, ok), t, ok, 1);
    }
  }

  /** Saving and removing. */
  lemma ChangeAlone(s: State, t: Thread, name: Name, op: Op, ok: bool)
    requires t !in s.running && (op.Save? || op.Remove?)
    ensures var r := Alone(s, t, name, op, ok);
            && r.running == s.running
            && if op.Save? && ok then
                 && r.disk == s.disk[name := Holds(op.lock)] && r.cache == s.cache[name := op.lock]
                 && r.answers == s.answers[t := Finished]
               else if op.Remove? && ok && name in s.disk then
                 r.disk == s.disk - {name} && r.cache == s.cache - {name} && r.answers == s.answers[t := Finished]
               else r.disk == s.disk && r.cache == s.cache && r.answers == s.answers[t := Failed]
  {
    hide Completed;
    var c, d := Call(name, op, Begun), Call(name, op, OnDisk);
    var s1 := s.(running := s.running[t := c]);
    StepAlone(s1, t, ok, 3);
    var s2 := Advance(s1, t, ok);
    NoLongerRunning(s, t, c, d, d);
    if ok && (op.Save? || name in s.disk) {
      assert s2.running == s.running[t := c][t := d];
      StepAlone(s2, t, ok, 2);
      OverAlone(Advance(s2, t, ok), t, ok, 1);
    } else {
      OverAlone(s2, t, ok, 2);
    }
  }
}
