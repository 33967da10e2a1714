/** The handle registry under concurrent use: load, parse and free interleaved step by step, under
    a read-write lock for the table and one lock an instance. */
module Registry {
  import opened Text

  /** Where a thread stands in the call it makes. */
  datatype Place =
    | Idle
    | Loading(made: nat)                     // an instance made, the write lock wanted
    | LoadRead(made: nat, last: nat)         // write lock held, the counter read
    | LoadBumped(made: nat, id: nat)         // counter written
    | LoadStored(id: nat)                    // table written; the lock is given back next
    | Looking(handle: nat)                   // the read lock wanted
    | Reading(handle: nat)                   // read lock held
    | Looked(handle: nat, found: Option<nat>) // table read; the lock is given back next
    | Waiting(handle: nat, on: nat)          // past lookup: the instance's lock wanted
    | Parsing(handle: nat, on: nat)          // the instance's lock held
    | Freeing(handle: nat)                   // the write lock wanted
    | FreeHeld(handle: nat)                  // write lock held
    | FreeDone(handle: nat)                  // entry deleted; the lock is given back next

  datatype Call = Load | Parse(handle: nat) | Free(handle: nat)

  datatype Answer = Loaded(handle: nat) | BadHandle(handle: nat) | Parsed(handle: nat, on: nat) | Freed(handle: nat)

  /** The table and its locks, the threads, and what the calls have answered so far. `born` is the
      instance each issued handle was stored with; `gone` the issued handles a free has deleted. */
  datatype State = State(
    nextID: nat, table: map<nat, nat>, made: nat,
    writer: Option<nat>, readers: set<nat>, holders: map<nat, nat>,
    places: map<nat, Place>, answers: seq<Answer>,
    born: map<nat, nat>, gone: set<nat>)

  const START: State := State(0, map[], 0, None, {}, map[], map[], [], map[], {})

  function PlaceOf(s: State, t: nat): (p: Place) { if t in s.places then s.places[t] else Idle }

  function MoveTo(s: State, t: nat, p: Place): (r: State) { s.(places := s.places[t := p]) }

  function AnswerWith(s: State, t: nat, a: Answer): (r: State) {
    MoveTo(s, t, Idle).(answers := s.answers + [a])
  }

  /** An idle thread begins a call. */
  function Begin(s: State, t: nat, call: Call): (r: Option<State>) {
    if PlaceOf(s, t) != Idle then None
    else match call
      case Load => Some(MoveTo(s, t, Loading(s.made)).(made := s.made + 1))
      case Parse(handle) => Some(MoveTo(s, t, Looking(handle)))
      case Free(handle) => Some(MoveTo(s, t, Freeing(handle)))
  }

  /** A thread takes its next step; `None` where it waits for a lock. */
  function Advance(s: State, t: nat): (r: Option<State>) {
    match PlaceOf(s, t)
    case Idle => None
    case Loading(made) =>
      if s.writer.Some? || s.readers != {} then None else Some(MoveTo(s, t, LoadRead(made, s.nextID)).(writer := Some(t)))
    case LoadRead(made, last) => Some(MoveTo(s, t, LoadBumped(made, last + 1)).(nextID := last + 1))
    case LoadBumped(made, id) =>
      Some(MoveTo(s, t, LoadStored(id)).(table := s.table[id := made], born := s.born[id := made]))
    case LoadStored(id) => Some(AnswerWith(s, t, Loaded(id)).(writer := None))
    case Looking(handle) =>
      if s.writer.Some? then None else Some(MoveTo(s, t, Reading(handle)).(readers := s.readers + {t}))
    case Reading(handle) =>
      Some(MoveTo(s, t, Looked(handle, if handle in s.table then Some(s.table[handle]) else None)))
    case Looked(handle, found) =>
      var left := s.(readers := s.readers - {t});
      Some(if found.None? then AnswerWith(left, t, BadHandle(handle)) else MoveTo(left, t, Waiting(handle, found.value)))
    case Waiting(handle, on) =>
      if on in s.holders then None else Some(MoveTo(s, t, Parsing(handle, on)).(holders := s.holders[on := t]))
    case Parsing(handle, on) => Some(AnswerWith(s, t, Parsed(handle, on)).(holders := s.holders - {on}))
    case Freeing(handle) =>
      if s.writer.Some? || s.readers != {} then None else Some(MoveTo(s, t, FreeHeld(handle)).(writer := Some(t)))
    case FreeHeld(handle) =>
      Some(MoveTo(s, t, FreeDone(handle)).(
        table := s.table - {handle}, gone := if handle in s.born then s.gone + {handle} else s.gone))
    case FreeDone(handle) => Some(AnswerWith(s, t, Freed(handle)).(writer := None))
  }

  /** One step of some thread: a call begun, or a call carried on. */
  datatype Event = Begun(thread: nat, call: Call) | Ran(thread: nat)

  function Step(s: State, e: Event): (r: Option<State>) {
    match e
    case Begun(t, call) => Begin(s, t, call)
    case Ran(t) => Advance(s, t)
  }

  /** Any interleaving: events that cannot happen yet are passed over. */
  function Run(s: State, es: seq<Event>): (r: State)
    decreases |es|
  {
    if es == [] then s
    else Run(if Step(s, es[0]).Some? then Step(s, es[0]).value else s, es[1..])
  }

  // ---- the invariant

  predicate Writes(p: Place) { p.LoadRead? || p.LoadBumped? || p.LoadStored? || p.FreeHeld? || p.FreeDone? }

  predicate Reads(p: Place) { p.Reading? || p.Looked? }

  /** What each thread's place says of the shared state. */
  predicate Fits(s: State, t: nat, p: Place) {
    && (Writes(p) <==> s.writer == Some(t))
    && (Reads(p) <==> t in s.readers)
    && (p.LoadRead? ==> p.last == s.nextID)
    && (p.LoadBumped? ==> p.id == s.nextID && p.id !in s.born)
    && (p.LoadStored? ==> p.id in s.born && p.id !in Issued(s.answers))
    && (p.Looked? && p.found.Some? ==> p.handle in s.born && s.born[p.handle] == p.found.value)
    && (p.Looked? && p.found.None? ==> p.handle in s.born ==> p.handle in s.gone)
    && (p.Waiting? || p.Parsing? ==> p.handle in s.born && s.born[p.handle] == p.on)
    && (p.Parsing? ==> p.on in s.holders && s.holders[p.on] == t)
  }

  function Issued(answers: seq<Answer>): (hs: seq<nat>) {
    if answers == [] then []
    else
      var front := Issued(answers[..|answers| - 1]);
      var last := answers[|answers| - 1];
      if last.Loaded? then front + [last.handle] else front
  }

  predicate NoRepeat(hs: seq<nat>) { forall i, j :: 0 <= i < j < |hs| ==> hs[i] != hs[j] }

  predicate Tables(s: State) {
    && (forall id :: id in s.born ==> id <= s.nextID)
    && (forall id :: id in s.table ==> id in s.born && s.table[id] == s.born[id] && id !in s.gone)
    && (forall id :: id in s.born && id !in s.gone ==> id in s.table)
    && (forall id :: id in s.gone ==> id in s.born)
    && (s.writer.Some? ==> s.readers == {})
    && (forall id :: id in Issued(s.answers) ==> id in s.born)
    && NoRepeat(Issued(s.answers))
    && (forall i :: 0 <= i < |s.answers| && s.answers[i].Parsed? ==>
          s.answers[i].handle in s.born && s.born[s.answers[i].handle] == s.answers[i].on)
  }

  ghost predicate Inv(s: State) {
    Tables(s) && forall t: nat :: Fits(s, t, PlaceOf(s, t))
  }

  lemma IssuedMore(answers: seq<Answer>, a: Answer)
    ensures Issued(answers + [a]) == if a.Loaded? then Issued(answers) + [a.handle] else Issued(answers)
  {
    assert (answers + [a])[..|answers|] == answers;
  }

  lemma BeginKeeps(s: State, t: nat, call: Call)
    requires Inv(s) && Begin(s, t, call).Some?
    ensures Inv(Begin(s, t, call).value)
  {
    hide Issued, NoRepeat;
    var n := Begin(s, t, call).value;
    forall u: nat ensures Fits(n, u, PlaceOf(n, u)) { assert Fits(s, u, PlaceOf(s, u)); }
  }

  lemma LoadLocks(s: State, t: nat)
    requires Inv(s) && Advance(s, t).Some? && PlaceOf(s, t).Loading?
    ensures Inv(Advance(s, t).value)
  {
    hide Issued, NoRepeat;
    var n, p := Advance(s, t).value, PlaceOf(s, t);
    assert Fits(s, t, p);
    forall u: nat ensures Fits(n, u, PlaceOf(n, u)) { assert Fits(s, u, PlaceOf(s, u)); }
  }

  lemma LoadCounts(s: State, t: nat)
    requires Inv(s) && Advance(s, t).Some? && PlaceOf(s, t).LoadRead?
    ensures Inv(Advance(s, t).value)
  {
    hide Issued, NoRepeat;
    var n, p := Advance(s, t).value, PlaceOf(s, t);
    assert Fits(s, t, p);
    forall u: nat ensures Fits(n, u, PlaceOf(n, u)) { assert Fits(s, u, PlaceOf(s, u)); }
  }

  lemma LoadStores(s: State, t: nat)
    requires Inv(s) && Advance(s, t).Some? && PlaceOf(s, t).LoadBumped?
    ensures Inv(Advance(s, t).value)
  {
    hide Issued, NoRepeat;
    var n, p := Advance(s, t).value, PlaceOf(s, t);
    assert Fits(s, t, p);
    forall u: nat ensures Fits(n, u, PlaceOf(n, u)) { assert Fits(s, u, PlaceOf(s, u)); }
  }

  lemma LoadAnswers(s: State, t: nat)
    requires Inv(s) && Advance(s, t).Some? && PlaceOf(s, t).LoadStored?
    ensures Inv(Advance(s, t).value)
  {
    hide Issued, NoRepeat;
    var n, p := Advance(s, t).value, PlaceOf(s, t);
    assert Fits(s, t, p);
    IssuedMore(s.answers, Loaded(p.id));
    NoRepeatMore(s, p.id);
    forall u: nat ensures Fits(n, u, PlaceOf(n, u)) { assert Fits(s, u, PlaceOf(s, u)); }
  }

  lemma LookLocks(s: State, t: nat)
    requires Inv(s) && Advance(s, t).Some? && PlaceOf(s, t).Looking?
    ensures Inv(Advance(s, t).value)
  {
    hide Issued, NoRepeat;
    var n, p := Advance(s, t).value, PlaceOf(s, t);
    assert Fits(s, t, p);
    forall u: nat ensures Fits(n, u, PlaceOf(n, u)) { assert Fits(s, u, PlaceOf(s, u)); }
  }

  lemma LookReads(s: State, t: nat)
    requires Inv(s) && Advance(s, t).Some? && PlaceOf(s, t).Reading?
    ensures Inv(Advance(s, t).value)
  {
    hide Issued, NoRepeat;
    var n, p := Advance(s, t).value, PlaceOf(s, t);
    assert Fits(s, t, p);
    forall u: nat ensures Fits(n, u, PlaceOf(n, u)) { assert Fits(s, u, PlaceOf(s, u)); }
  }

  lemma LookAnswers(s: State, t: nat)
    requires Inv(s) && Advance(s, t).Some? && PlaceOf(s, t).Looked?
    ensures Inv(Advance(s, t).value)
  {
    hide Issued, NoRepeat;
    var n, p := Advance(s, t).value, PlaceOf(s, t);
    assert Fits(s, t, p);
    IssuedMore(s.answers, BadHandle(p.handle));
    forall u: nat ensures Fits(n, u, PlaceOf(n, u)) { assert Fits(s, u, PlaceOf(s, u)); }
  }

  lemma ParseLocks(s: State, t: nat)
    requires Inv(s) && Advance(s, t).Some? && PlaceOf(s, t).Waiting?
    ensures Inv(Advance(s, t).value)
  {
    hide Issued, NoRepeat;
    var n, p := Advance(s, t).value, PlaceOf(s, t);
    assert Fits(s, t, p);
    forall u: nat ensures Fits(n, u, PlaceOf(n, u)) { assert Fits(s, u, PlaceOf(s, u)); }
  }

  lemma ParseAnswers(s: State, t: nat)
    requires Inv(s) && Advance(s, t).Some? && PlaceOf(s, t).Parsing?
    ensures Inv(Advance(s, t).value)
  {
    hide Issued, NoRepeat;
    var n, p := Advance(s, t).value, PlaceOf(s, t);
    assert Fits(s, t, p);
    IssuedMore(s.answers, Parsed(p.handle, p.on));
    forall u: nat ensures Fits(n, u, PlaceOf(n, u)) { assert Fits(s, u, PlaceOf(s, u)); }
  }

  lemma FreeLocks(s: State, t: nat)
    requires Inv(s) && Advance(s, t).Some? && PlaceOf(s, t).Freeing?
    ensures Inv(Advance(s, t).value)
  {
    hide Issued, NoRepeat;
    var n, p := Advance(s, t).value, PlaceOf(s, t);
    assert Fits(s, t, p);
    forall u: nat ensures Fits(n, u, PlaceOf(n, u)) { assert Fits(s, u, PlaceOf(s, u)); }
  }

  lemma FreeDeletes(s: State, t: nat)
    requires Inv(s) && Advance(s, t).Some? && PlaceOf(s, t).FreeHeld?
    ensures Inv(Advance(s, t).value)
  {
    hide Issued, NoRepeat;
    var n, p := Advance(s, t).value, PlaceOf(s, t);
    assert Fits(s, t, p);
    forall u: nat ensures Fits(n, u, PlaceOf(n, u)) { assert Fits(s, u, PlaceOf(s, u)); }
  }

  lemma FreeAnswers(s: State, t: nat)
    requires Inv(s) && Advance(s, t).Some? && PlaceOf(s, t).FreeDone?
    ensures Inv(Advance(s, t).value)
  {
    hide Issued, NoRepeat;
    var n, p := Advance(s, t).value, PlaceOf(s, t);
    assert Fits(s, t, p);
    IssuedMore(s.answers, Freed(p.handle));
    forall u: nat ensures Fits(n, u, PlaceOf(n, u)) { assert Fits(s, u, PlaceOf(s, u)); }
  }

  lemma AdvanceKeeps(s: State, t: nat)
    requires Inv(s) && Advance(s, t).Some?
    ensures Inv(Advance(s, t).value)
  {
    hide Inv;
    match PlaceOf(s, t) {
      case Idle =>
      case Loading(_) => LoadLocks(s, t);
      case LoadRead(_, _) => LoadCounts(s, t);
      case LoadBumped(_, _) => LoadStores(s, t);
      case LoadStored(_) => LoadAnswers(s, t);
      case Looking(_) => LookLocks(s, t);
      case Reading(_) => LookReads(s, t);
      case Looked(_, _) => LookAnswers(s, t);
      case Waiting(_, _) => ParseLocks(s, t);
      case Parsing(_, _) => ParseAnswers(s, t);
      case Freeing(_) => FreeLocks(s, t);
      case FreeHeld(_) => FreeDeletes(s, t);
      case FreeDone(_) => FreeAnswers(s, t);
    }
  }

  lemma NoRepeatMore(s: State, id: nat)
    requires NoRepeat(Issued(s.answers)) && id !in Issued(s.answers)
    ensures NoRepeat(Issued(s.answers) + [id])
  {
  }

  /** Every interleaving keeps the invariant. */
  lemma {:induction false} RunKeeps(s: State, es: seq<Event>)
    requires Inv(s)
    ensures Inv(Run(s, es))
    decreases |es|
  {
    hide Inv, Begin, Advance;
    if es != [] {
      var e := es[0];
      if Step(s, e).Some? {
        match e {
          case Begun(t, call) => BeginKeeps(s, t, call);
          case Ran(t) => AdvanceKeeps(s, t);
        }
        RunKeeps(Step(s, e).value, es[1..]);
      } else {
        RunKeeps(s, es[1..]);
      }
    }
  }

  // ---- what callers see

  /** A handle is answered once: over any interleaving no two loads get the same one. */
  lemma HandlesOnce(es: seq<Event>)
    ensures NoRepeat(Issued(Run(START, es).answers))
  {
    RunKeeps(START, es);
    hide NoRepeat, Run;
  }

  /** Two parses are never inside one instance at once. */
  lemma OneParseInside(es: seq<Event>, t: nat, u: nat)
    requires var s := Run(START, es);
             PlaceOf(s, t).Parsing? && PlaceOf(s, u).Parsing? && PlaceOf(s, t).on == PlaceOf(s, u).on
    ensures t == u
  {
    RunKeeps(START, es);
    hide Run;
    var s := Run(START, es);
    assert Fits(s, t, PlaceOf(s, t)) && Fits(s, u, PlaceOf(s, u));
  }

  /** The one writer of the table is alone with it. */
  lemma WriterAlone(es: seq<Event>, t: nat, u: nat)
    requires var s := Run(START, es); Writes(PlaceOf(s, t)) && (Writes(PlaceOf(s, u)) || Reads(PlaceOf(s, u)))
    ensures t == u
  {
    RunKeeps(START, es);
    hide Run;
    var s := Run(START, es);
    assert Fits(s, t, PlaceOf(s, t)) && Fits(s, u, PlaceOf(s, u));
  }

  /** A lookup finds an instance exactly when the handle was issued and no free has deleted it. */
  lemma LookupExact(es: seq<Event>, t: nat)
    requires PlaceOf(Run(START, es), t).Reading?
    ensures var s := Run(START, es); var handle := PlaceOf(s, t).handle; var n := Advance(s, t).value;
            Advance(s, t).Some? && PlaceOf(n, t) ==
              Looked(handle, if handle in s.born && handle !in s.gone then Some(s.born[handle]) else None)
  {
    RunKeeps(START, es);
    hide Run;
  }

  /** Once an issued handle is freed it stays freed: every later lookup answers that it is bad. */
  lemma {:induction false} GoneForGood(s: State, es: seq<Event>, handle: nat)
    requires Inv(s) && handle in s.gone
    ensures handle in Run(s, es).gone && handle !in Run(s, es).table
    decreases |es|
  {
    RunKeeps(s, es);
    if es != [] && Step(s, es[0]).Some? {
      StepMonotone(s, es[0]);
      StepKeeps(s, es[0]);
      GoneForGood(Step(s, es[0]).value, es[1..], handle);
    } else if es != [] {
      GoneForGood(s, es[1..], handle);
    }
  }

  lemma StepKeeps(s: State, e: Event)
    requires Inv(s) && Step(s, e).Some?
    ensures Inv(Step(s, e).value)
  {
    hide Inv, Begin, Advance;
    match e {
      case Begun(t, call) => BeginKeeps(s, t, call);
      case Ran(t) => AdvanceKeeps(s, t);
    }
  }

  /** What was issued with an instance keeps it, and what is gone stays gone. */
  lemma StepMonotone(s: State, e: Event)
    requires Inv(s) && Step(s, e).Some?
    ensures var n := Step(s, e).value;
            s.gone <= n.gone && s.born.Keys <= n.born.Keys && forall id :: id in s.born ==> n.born[id] == s.born[id]
  {
    hide Issued, NoRepeat;
    if e.Ran? { assert Fits(s, e.thread, PlaceOf(s, e.thread)); }
  }

  /** A parse past its lookup is moved by no other thread, waits only for its own instance, and
      answers from it, whatever has become of its handle. */
  lemma ParseFinishes(s: State, t: nat, e: Event)
    requires Inv(s) && (PlaceOf(s, t).Waiting? || PlaceOf(s, t).Parsing?)
    ensures Step(s, e).Some? && (e.Begun? || e.thread != t) ==> PlaceOf(Step(s, e).value, t) == PlaceOf(s, t)
    ensures PlaceOf(s, t).Waiting? ==> (Advance(s, t).None? <==> PlaceOf(s, t).on in s.holders)
    ensures PlaceOf(s, t).Parsing? ==>
              Advance(s, t).Some? &&
              Advance(s, t).value.answers == s.answers + [Parsed(PlaceOf(s, t).handle, PlaceOf(s, t).on)]
    ensures PlaceOf(s, t).handle in s.born && s.born[PlaceOf(s, t).handle] == PlaceOf(s, t).on
  {
    assert Fits(s, t, PlaceOf(s, t));
    hide Inv, Fits;
    OthersStay(s, t, e);
  }

  lemma OthersStay(s: State, t: nat, e: Event)
    requires PlaceOf(s, t) != Idle
    ensures Step(s, e).Some? && (e.Begun? || e.thread != t) ==> PlaceOf(Step(s, e).value, t) == PlaceOf(s, t)
  {
    hide Advance, Begin;
    match e {
      case Begun(u, call) => if Begin(s, u, call).Some? { BeginMoves(s, u, call, t); }
      case Ran(u) => if Advance(s, u).Some? && u != t { AdvanceMoves(s, u, t); }
    }
  }

  lemma BeginMoves(s: State, u: nat, call: Call, t: nat)
    requires Begin(s, u, call).Some? && PlaceOf(s, t) != Idle
    ensures PlaceOf(Begin(s, u, call).value, t) == PlaceOf(s, t)
  {
  }

  lemma LoadMoves(s: State, u: nat, t: nat)
    requires Advance(s, u).Some? && u != t
    requires PlaceOf(s, u).Loading? || PlaceOf(s, u).LoadRead? || PlaceOf(s, u).LoadBumped? || PlaceOf(s, u).LoadStored?
    ensures PlaceOf(Advance(s, u).value, t) == PlaceOf(s, t)
  {
  }

  lemma LookMoves(s: State, u: nat, t: nat)
    requires Advance(s, u).Some? && u != t
    requires PlaceOf(s, u).Looking? || PlaceOf(s, u).Reading? || PlaceOf(s, u).Looked?
    ensures PlaceOf(Advance(s, u).value, t) == PlaceOf(s, t)
  {
  }

  lemma ParseMoves(s: State, u: nat, t: nat)
    requires Advance(s, u).Some? && u != t
    requires PlaceOf(s, u).Waiting? || PlaceOf(s, u).Parsing?
    ensures PlaceOf(Advance(s, u).value, t) == PlaceOf(s, t)
  {
  }

  lemma FreeMoves(s: State, u: nat, t: nat)
    requires Advance(s, u).Some? && u != t
    requires PlaceOf(s, u).Freeing? || PlaceOf(s, u).FreeHeld? || PlaceOf(s, u).FreeDone?
    ensures PlaceOf(Advance(s, u).value, t) == PlaceOf(s, t)
  {
  }

  lemma NoneIdle(s: State, u: nat)
    requires Advance(s, u).Some?
    ensures !PlaceOf(s, u).Idle?
  {
  }

  lemma AdvanceMoves(s: State, u: nat, t: nat)
    requires Advance(s, u).Some? && u != t
    ensures PlaceOf(Advance(s, u).value, t) == PlaceOf(s, t)
  {
    hide Advance, PlaceOf;
    NoneIdle(s, u);
    match PlaceOf(s, u) {
      case Looking(_) => LookMoves(s, u, t);
      case Reading(_) => LookMoves(s, u, t);
      case Looked(_, _) => LookMoves(s, u, t);
      case Waiting(_, _) => ParseMoves(s, u, t);
      case Parsing(_, _) => ParseMoves(s, u, t);
      case Freeing(_) => FreeMoves(s, u, t);
      case FreeHeld(_) => FreeMoves(s, u, t);
      case FreeDone(_) => FreeMoves(s, u, t);
      case _ => LoadMoves(s, u, t);
    }
  }

  /** A free spends its handle exactly when the handle has been issued; before that it changes
      nothing, and the load that issues the handle later answers with one that works. */
  lemma FreeExact(s: State, t: nat)
    requires Inv(s) && PlaceOf(s, t).FreeHeld?
    ensures var n := Advance(s, t).value; var handle := PlaceOf(s, t).handle;
            && handle !in n.table
            && (handle in n.gone <==> handle in s.born)
            && (handle !in s.born ==> n.table == s.table && n.gone == s.gone)
            && (forall id :: id in s.table && id != handle ==> id in n.table && n.table[id] == s.table[id])
  {
    hide Issued, NoRepeat, Fits;
  }

  // ---- every handle has an instance of its own

  /** A load that has made its instance and not yet stored it. */
  predicate Carries(p: Place) { p.Loading? || p.LoadRead? || p.LoadBumped? }

  ghost predicate InstancesApart(s: State) {
    && (forall t: nat :: Carries(PlaceOf(s, t)) ==> PlaceOf(s, t).made < s.made)
    && (forall t: nat, u: nat :: t != u && Carries(PlaceOf(s, t)) && Carries(PlaceOf(s, u)) ==> PlaceOf(s, t).made != PlaceOf(s, u).made)
    && (forall id :: id in s.born ==> s.born[id] < s.made)
    && (forall id, t: nat :: id in s.born && Carries(PlaceOf(s, t)) ==> s.born[id] != PlaceOf(s, t).made)
    && (forall id, jd :: id in s.born && jd in s.born && id != jd ==> s.born[id] != s.born[jd])
  }

  lemma BeginApart(s: State, t: nat, call: Call)
    requires InstancesApart(s) && Begin(s, t, call).Some?
    ensures InstancesApart(Begin(s, t, call).value)
  {
    var n := Begin(s, t, call).value;
    BeginCarries(s, t, call);
    forall u: nat | u != t ensures PlaceOf(n, u) == PlaceOf(s, u) { BeginOthers(s, t, call, u); }
    hide Begin, PlaceOf;
  }

  lemma BeginOthers(s: State, t: nat, call: Call, u: nat)
    requires Begin(s, t, call).Some? && u != t
    ensures PlaceOf(Begin(s, t, call).value, u) == PlaceOf(s, u)
  {
  }

  lemma BeginCarries(s: State, t: nat, call: Call)
    requires Begin(s, t, call).Some?
    ensures var n := Begin(s, t, call).value;
            && n.born == s.born && s.made <= n.made
            && (Carries(PlaceOf(n, t)) ==> PlaceOf(n, t).made == s.made < n.made)
  {
  }

  lemma AdvanceApart(s: State, t: nat)
    requires InstancesApart(s) && Advance(s, t).Some?
    ensures InstancesApart(Advance(s, t).value)
  {
    var n, p := Advance(s, t).value, PlaceOf(s, t);
    AdvanceCarries(s, t);
    forall u: nat | u != t ensures PlaceOf(n, u) == PlaceOf(s, u) { AdvanceMoves(s, t, u); }
    hide Advance, PlaceOf;
    assert n.born == if p.LoadBumped? then s.born[p.id := p.made] else s.born;
  }

  predicate CarriedOn(s: State, t: nat, n: State) {
    && n.made == s.made
    && n.born == (if PlaceOf(s, t).LoadBumped? then s.born[PlaceOf(s, t).id := PlaceOf(s, t).made] else s.born)
    && (Carries(PlaceOf(n, t)) ==> Carries(PlaceOf(s, t)) && !PlaceOf(s, t).LoadBumped? && PlaceOf(n, t).made == PlaceOf(s, t).made)
  }

  lemma LoadCarries(s: State, t: nat)
    requires Advance(s, t).Some? && (Carries(PlaceOf(s, t)) || PlaceOf(s, t).LoadStored?)
    ensures CarriedOn(s, t, Advance(s, t).value)
  {
  }

  lemma LookCarries(s: State, t: nat)
    requires Advance(s, t).Some? && (PlaceOf(s, t).Looking? || PlaceOf(s, t).Reading? || PlaceOf(s, t).Looked?)
    ensures CarriedOn(s, t, Advance(s, t).value)
  {
  }

  lemma RestCarries(s: State, t: nat)
    requires Advance(s, t).Some? && !(Carries(PlaceOf(s, t)) || PlaceOf(s, t).LoadStored?)
    requires !(PlaceOf(s, t).Looking? || PlaceOf(s, t).Reading? || PlaceOf(s, t).Looked?)
    ensures CarriedOn(s, t, Advance(s, t).value)
  {
  }

  /** A load carries its instance until it has stored it; no other step touches one. */
  lemma AdvanceCarries(s: State, t: nat)
    requires Advance(s, t).Some?
    ensures CarriedOn(s, t, Advance(s, t).value)
  {
    hide CarriedOn, Advance, PlaceOf;
    var p := PlaceOf(s, t);
    if Carries(p) || p.LoadStored? { LoadCarries(s, t); }
    else if p.Looking? || p.Reading? || p.Looked? { LookCarries(s, t); }
    else { RestCarries(s, t); }
  }

  lemma {:induction false} RunApart(s: State, es: seq<Event>)
    requires InstancesApart(s)
    ensures InstancesApart(Run(s, es))
    decreases |es|
  {
    hide InstancesApart, Begin, Advance;
    if es != [] {
      var e := es[0];
      if Step(s, e).Some? {
        match e {
          case Begun(t, call) => BeginApart(s, t, call);
          case Ran(t) => AdvanceApart(s, t);
        }
        RunApart(Step(s, e).value, es[1..]);
      } else {
        RunApart(s, es[1..]);
      }
    }
  }

  /** No two handles are issued with one instance. */
  lemma OwnInstance(es: seq<Event>, a: nat, b: nat)
    requires var s := Run(START, es); a in s.born && b in s.born && a != b
    ensures Run(START, es).born[a] != Run(START, es).born[b]
  {
    hide Run;
    RunApart(START, es);
  }

  // ---- what a lookup comes to

  lemma {:induction false} RunStays(s: State, t: nat, es: seq<Event>)
    requires PlaceOf(s, t) != Idle && forall i :: 0 <= i < |es| ==> es[i] != Ran(t)
    ensures PlaceOf(Run(s, es), t) == PlaceOf(s, t)
    decreases |es|
  {
    hide Step, PlaceOf;
    if es != [] {
      OthersStay(s, t, es[0]);
      RunStays(if Step(s, es[0]).Some? then Step(s, es[0]).value else s, t, es[1..]);
    }
  }

  /** However the others go on after a lookup has read the table, its call is answered that the handle
      is bad exactly when it had not been issued or had been freed; otherwise it waits for the
      instance the handle was issued with. */
  lemma LookupAnswered(es: seq<Event>, t: nat, others: seq<Event>)
    requires PlaceOf(Run(START, es), t).Reading? && forall i :: 0 <= i < |others| ==> others[i] != Ran(t)
    ensures var s := Run(START, es); var handle := PlaceOf(s, t).handle;
            && Advance(s, t).Some?
            && var m := Run(Advance(s, t).value, others);
            && Advance(m, t).Some?
            && var n := Advance(m, t).value;
            && PlaceOf(n, t) == (if handle in s.born && handle !in s.gone then Waiting(handle, s.born[handle]) else Idle)
            && n.answers == m.answers + (if handle in s.born && handle !in s.gone then [] else [BadHandle(handle)])
  {
    hide Run, Advance, PlaceOf;
    LookupExact(es, t);
    var s := Run(START, es);
    var handle := PlaceOf(s, t).handle;
    RunStays(Advance(s, t).value, t, others);
    LookedAnswers(Run(Advance(s, t).value, others), t, handle, if handle in s.born && handle !in s.gone then Some(s.born[handle]) else None);
  }

  lemma LookedAnswers(s: State, t: nat, handle: nat, found: Option<nat>)
    requires PlaceOf(s, t) == Looked(handle, found)
    ensures Advance(s, t).Some?
    ensures var n := Advance(s, t).value;
            && PlaceOf(n, t) == (if found.Some? then Waiting(handle, found.value) else Idle)
            && n.answers == s.answers + (if found.Some? then [] else [BadHandle(handle)])
  {
  }

  // ---- a free before its handle is issued

  /** No call is under way. */
  predicate Quiet(s: State) { s.writer.None? && s.readers == {} && s.holders == map[] }

  lemma RunOne(s: State, e: Event, es: seq<Event>)
    requires Step(s, e).Some?
    ensures Run(s, [e] + es) == Run(Step(s, e).value, es)
  {
    hide Step;
    assert ([e] + es)[0] == e && ([e] + es)[1..] == es;
  }

  /** A call of one thread, as many steps as it takes. */
  function Whole(t: nat, call: Call): (es: seq<Event>) {
    [Begun(t, call)] + Steps(t, match call case Load => 4 case Parse(_) => 5 case Free(_) => 3)
  }

  function Steps(t: nat, n: nat): (es: seq<Event>) { if n == 0 then [] else [Ran(t)] + Steps(t, n - 1) }

  lemma RunSteps(s: State, t: nat, n: nat, es: seq<Event>)
    requires n > 0 && Advance(s, t).Some?
    ensures Run(s, Steps(t, n) + es) == Run(Advance(s, t).value, Steps(t, n - 1) + es)
  {
    hide Advance, Run;
    assert Steps(t, n) + es == [Ran(t)] + (Steps(t, n - 1) + es);
    RunOne(s, Ran(t), Steps(t, n - 1) + es);
  }

  lemma RunBegun(s: State, t: nat, call: Call, es: seq<Event>)
    requires Begin(s, t, call).Some?
    ensures Run(s, Whole(t, call) + es) ==
            Run(Begin(s, t, call).value, Steps(t, match call case Load => 4 case Parse(_) => 5 case Free(_) => 3) + es)
  {
    hide Begin, Run, Steps;
    var n := match call case Load => 4 case Parse(_) => 5 case Free(_) => 3;
    assert Whole(t, call) + es == [Begun(t, call)] + (Steps(t, n) + es);
    RunOne(s, Begun(t, call), Steps(t, n) + es);
  }

  lemma NoSteps(s: State, t: nat, es: seq<Event>)
    ensures Run(s, Steps(t, 0) + es) == Run(s, es)
  {
    assert Steps(t, 0) + es == es;
  }

  /** Where one thread stands, and what the others share with it. */
  predicate Stands(s: State, t: nat, p: Place, table: map<nat, nat>, answers: seq<Answer>) {
    PlaceOf(s, t) == p && s.table == table && s.answers == answers
  }

  lemma FreeSteps(s: State, t: nat, handle: nat)
    requires Quiet(s) && PlaceOf(s, t) == Freeing(handle) && handle !in s.table
    ensures Advance(s, t).Some?
    ensures var held := Advance(s, t).value; Stands(held, t, FreeHeld(handle), s.table, s.answers) && held.(places := s.places, writer := None) == s
  {
  }

  lemma FreeHeldSteps(s: State, t: nat, handle: nat)
    requires PlaceOf(s, t) == FreeHeld(handle) && handle !in s.table && handle !in s.born
    ensures Advance(s, t).Some?
    ensures var n := Advance(s, t).value; Stands(n, t, FreeDone(handle), s.table, s.answers) && n.(places := s.places) == s
  {
    assert s.table - {handle} == s.table;
  }

  lemma FreeDoneSteps(s: State, t: nat, handle: nat)
    requires PlaceOf(s, t) == FreeDone(handle)
    ensures Advance(s, t).Some?
    ensures var n := Advance(s, t).value;
            Stands(n, t, Idle, s.table, s.answers + [Freed(handle)]) && n.(places := s.places, answers := s.answers) == s.(writer := None)
  {
  }

  lemma FreeBegins(s: State, t: nat, handle: nat)
    requires PlaceOf(s, t) == Idle
    ensures Begin(s, t, Free(handle)).Some?
    ensures var n := Begin(s, t, Free(handle)).value; Stands(n, t, Freeing(handle), s.table, s.answers) && n.(places := s.places) == s
  {
  }

  /** A free on its own. */
  lemma FreeAlone(s: State, t: nat, handle: nat, es: seq<Event>) returns (n: State)
    requires Quiet(s) && PlaceOf(s, t) == Idle && handle !in s.table && handle !in s.born
    ensures Run(s, Whole(t, Free(handle)) + es) == Run(n, es) && Quiet(n) && Stands(n, t, Idle, s.table, s.answers + [Freed(handle)])
    ensures n.nextID == s.nextID && n.made == s.made
  {
    hide Run, Steps, Whole, Advance, Begin, PlaceOf;
    FreeBegins(s, t, handle);
    RunBegun(s, t, Free(handle), es);
    var s1 := Begin(s, t, Free(handle)).value;
    FreeSteps(s1, t, handle);
    RunSteps(s1, t, 3, es);
    var s2 := Advance(s1, t).value;
    FreeHeldSteps(s2, t, handle);
    RunSteps(s2, t, 2, es);
    var s3 := Advance(s2, t).value;
    FreeDoneSteps(s3, t, handle);
    RunSteps(s3, t, 1, es);
    n := Advance(s3, t).value;
    NoSteps(n, t, es);
  }

  /** A load on its own. */
  lemma LoadAlone(s: State, t: nat, es: seq<Event>) returns (n: State)
    requires Quiet(s) && PlaceOf(s, t) == Idle
    ensures Run(s, Whole(t, Load) + es) == Run(n, es) && Quiet(n)
    ensures Stands(n, t, Idle, s.table[s.nextID + 1 := s.made], s.answers + [Loaded(s.nextID + 1)])
  {
    hide Run, Steps, Whole;
    RunBegun(s, t, Load, es);
    n := Begin(s, t, Load).value;
    RunSteps(n, t, 4, es);
    n := Advance(n, t).value;
    RunSteps(n, t, 3, es);
    n := Advance(n, t).value;
    RunSteps(n, t, 2, es);
    n := Advance(n, t).value;
    RunSteps(n, t, 1, es);
    n := Advance(n, t).value;
    NoSteps(n, t, es);
  }

  lemma LookSteps(s: State, t: nat, handle: nat)
    requires Quiet(s) && PlaceOf(s, t) == Looking(handle)
    ensures Advance(s, t).Some?
    ensures var n := Advance(s, t).value;
            Stands(n, t, Reading(handle), s.table, s.answers) && n.writer.None? && n.readers == {t} && n.holders == map[]
  {
  }

  lemma ReadSteps(s: State, t: nat, handle: nat)
    requires PlaceOf(s, t) == Reading(handle) && handle in s.table
    ensures Advance(s, t).Some?
    ensures var n := Advance(s, t).value;
            && Stands(n, t, Looked(handle, Some(s.table[handle])), s.table, s.answers)
            && n.writer == s.writer && n.readers == s.readers && n.holders == s.holders
  {
  }

  lemma LookedSteps(s: State, t: nat, handle: nat, on: nat)
    requires PlaceOf(s, t) == Looked(handle, Some(on)) && s.writer.None? && s.readers == {t} && s.holders == map[]
    ensures Advance(s, t).Some? && Quiet(Advance(s, t).value)
    ensures Stands(Advance(s, t).value, t, Waiting(handle, on), s.table, s.answers)
  {
  }

  lemma WaitSteps(s: State, t: nat, handle: nat, on: nat)
    requires Quiet(s) && PlaceOf(s, t) == Waiting(handle, on)
    ensures Advance(s, t).Some?
    ensures var n := Advance(s, t).value;
            Stands(n, t, Parsing(handle, on), s.table, s.answers) && n.writer.None? && n.readers == {} && n.holders == map[on := t]
  {
  }

  lemma ParseSteps(s: State, t: nat, handle: nat, on: nat)
    requires PlaceOf(s, t) == Parsing(handle, on) && s.writer.None? && s.readers == {} && s.holders == map[on := t]
    ensures Advance(s, t).Some? && Quiet(Advance(s, t).value)
    ensures Stands(Advance(s, t).value, t, Idle, s.table, s.answers + [Parsed(handle, on)])
  {
  }

  lemma LookAlone(s: State, t: nat, handle: nat, es: seq<Event>) returns (n: State)
    requires Quiet(s) && PlaceOf(s, t) == Looking(handle) && handle in s.table
    ensures Run(s, Steps(t, 5) + es) == Run(n, Steps(t, 2) + es) && Quiet(n)
    ensures Stands(n, t, Waiting(handle, s.table[handle]), s.table, s.answers)
  {
    hide Run, Steps, Advance, PlaceOf;
    LookSteps(s, t, handle);
    RunSteps(s, t, 5, es);
    var s2 := Advance(s, t).value;
    ReadSteps(s2, t, handle);
    RunSteps(s2, t, 4, es);
    var s3 := Advance(s2, t).value;
    LookedSteps(s3, t, handle, s.table[handle]);
    RunSteps(s3, t, 3, es);
    n := Advance(s3, t).value;
  }

  lemma WaitAlone(s: State, t: nat, handle: nat, on: nat, es: seq<Event>) returns (n: State)
    requires Quiet(s) && PlaceOf(s, t) == Waiting(handle, on)
    ensures Run(s, Steps(t, 2) + es) == Run(n, es) && Quiet(n) && Stands(n, t, Idle, s.table, s.answers + [Parsed(handle, on)])
  {
    hide Run, Steps, Advance, PlaceOf;
    WaitSteps(s, t, handle, on);
    RunSteps(s, t, 2, es);
    var s2 := Advance(s, t).value;
    ParseSteps(s2, t, handle, on);
    RunSteps(s2, t, 1, es);
    n := Advance(s2, t).value;
    NoSteps(n, t, es);
  }

  lemma ParseBegins(s: State, t: nat, handle: nat)
    requires Quiet(s) && PlaceOf(s, t) == Idle
    ensures Begin(s, t, Parse(handle)).Some?
    ensures var n := Begin(s, t, Parse(handle)).value; Quiet(n) && Stands(n, t, Looking(handle), s.table, s.answers)
  {
  }

  /** A parse on its own. */
  lemma ParseAlone(s: State, t: nat, handle: nat, es: seq<Event>) returns (n: State)
    requires Quiet(s) && PlaceOf(s, t) == Idle && handle in s.table
    ensures Run(s, Whole(t, Parse(handle)) + es) == Run(n, es) && Quiet(n)
    ensures Stands(n, t, Idle, s.table, s.answers + [Parsed(handle, s.table[handle])])
  {
    hide Run, Steps, Whole, Begin, PlaceOf, Quiet;
    ParseBegins(s, t, handle);
    RunBegun(s, t, Parse(handle), es);
    n := LookAlone(Begin(s, t, Parse(handle)).value, t, handle, es);
    n := WaitAlone(n, t, handle, s.table[handle], es);
  }

  /** Handle 1 is freed before any load, then the first load issues it, and it parses. */
  lemma EarlyFree(t: nat)
    ensures Run(START, Whole(t, Free(1)) + (Whole(t, Load) + (Whole(t, Parse(1)) + []))).answers ==
            [Freed(1), Loaded(1), Parsed(1, 0)]
  {
    hide Run, Steps, Whole;
    var s1 := FreeAlone(START, t, 1, Whole(t, Load) + (Whole(t, Parse(1)) + []));
    var s2 := LoadAlone(s1, t, Whole(t, Parse(1)) + []);
    var s3 := ParseAlone(s2, t, 1, []);
    RunNothing(s3);
  }

  lemma RunNothing(s: State)
    ensures Run(s, []) == s
  {
  }
}
