/**
 * The decider contract and the combinators that build new deciders out of
 * existing ones (src/deciders.rs).
 *
 * In Rust a decider is a type whose four associated functions take no `self`;
 * here a decider is a record of those four functions, and every combinator is
 * a function from deciders (and converters) to a decider.
 */
module Deciders {
  import opened Utilities

  /**
   * `decide` turns a command and the current state (of type `Si`) into the
   * events that occur; `evolve` folds one event into a state of type `So`;
   * `initialState` is the state before any event; `isTerminal` says whether
   * a state is an end state.
   *
   * `decide` is a partial function: a decider that aborts on some
   * command/state pair (a fatal programming error in Rust) leaves that pair
   * outside its precondition, and the combinators carry the precondition
   * through. `evolve` never fails.
   */
  datatype Decider<-C, !E, +So, -Si> = Decider(
    decide: (C, Si) --> seq<E>,
    evolve: (Si, E) -> So,
    initialState: So,
    isTerminal: Si -> bool)

  /** Folds `events` into `state` with `d.evolve`, first event first. */
  function Fold<C, E, S>(d: Decider<C, E, S, S>, state: S, events: seq<E>): (r: S)
    decreases |events|
  {
    if events == [] then state else Fold(d, d.evolve(state, events[0]), events[1..])
  }

  /** Folding two batches of events one after the other is folding their concatenation. */
  lemma {:induction false} FoldAppend<C, E, S>(d: Decider<C, E, S, S>, state: S, first: seq<E>, second: seq<E>)
    ensures Fold(d, state, first + second) == Fold(d, Fold(d, state, first), second)
    decreases |first|
  {
    if first == [] {
      assert first + second == second;
    } else {
      assert (first + second)[0] == first[0];
      assert (first + second)[1..] == first[1..] + second;
      FoldAppend(d, d.evolve(state, first[0]), first[1..], second);
    }
  }

  /*
   * ComposedDeciders: two independent deciders side by side. Commands and
   * events are tagged `Left` (first decider) or `Right` (second decider), and
   * the state is the pair of both states.
   */

  /** The precondition of the composed `decide`: that of the side the command is routed to. */
  ghost predicate ComposedCanDecide<C1(!new), E1(!new), S1(!new), C2(!new), E2(!new), S2(!new)>(
    d1: Decider<C1, E1, S1, S1>, d2: Decider<C2, E2, S2, S2>, c: Either<C1, C2>, s: (S1, S2))
  {
    match c
    case Left(l) => d1.decide.requires(l, s.0)
    case Right(r) => d2.decide.requires(r, s.1)
  }

  function Composed<C1(!new), E1(!new), S1(!new), C2(!new), E2(!new), S2(!new)>(d1: Decider<C1, E1, S1, S1>, d2: Decider<C2, E2, S2, S2>)
    : (r: Decider<Either<C1, C2>, Either<E1, E2>, (S1, S2), (S1, S2)>)
    ensures r.initialState == (d1.initialState, d2.initialState)
    ensures forall s: (S1, S2) :: r.isTerminal(s) == (d1.isTerminal(s.0) && d2.isTerminal(s.1))
    ensures forall c: C1, s: (S1, S2) | d1.decide.requires(c, s.0) ::
      r.decide.requires(Left(c), s) &&
      AllLeft(r.decide(Left(c), s)) && Lefts(r.decide(Left(c), s)) == d1.decide(c, s.0)
    ensures forall c: C2, s: (S1, S2) | d2.decide.requires(c, s.1) ::
      r.decide.requires(Right(c), s) &&
      AllRight(r.decide(Right(c), s)) && Rights(r.decide(Right(c), s)) == d2.decide(c, s.1)
    ensures forall s: (S1, S2), e: E1 :: r.evolve(s, Left(e)).0 == d1.evolve(s.0, e) && r.evolve(s, Left(e)).1 == s.1
    ensures forall s: (S1, S2), e: E2 :: r.evolve(s, Right(e)).0 == s.0 && r.evolve(s, Right(e)).1 == d2.evolve(s.1, e)
  {
    Decider(
      (c: Either<C1, C2>, s: (S1, S2)) requires ComposedCanDecide(d1, d2, c, s) =>
        match c
        case Left(l) => WrapLeft(d1.decide(l, s.0))
        case Right(r) => WrapRight(d2.decide(r, s.1)),
      (s: (S1, S2), e: Either<E1, E2>) =>
        match e
        case Left(l) => (d1.evolve(s.0, l), s.1)
        case Right(r) => (s.0, d2.evolve(s.1, r)),
      (d1.initialState, d2.initialState),
      (s: (S1, S2)) => d1.isTerminal(s.0) && d2.isTerminal(s.1))
  }

  /**
   * Folding a mixed history into the composed state folds the `Left` events
   * into the first state and the `Right` events into the second, with no
   * cross-talk between the two sides.
   */
  lemma {:induction false} ComposedFold<C1(!new), E1(!new), S1(!new), C2(!new), E2(!new), S2(!new)>(
    d1: Decider<C1, E1, S1, S1>, d2: Decider<C2, E2, S2, S2>, s: (S1, S2), events: seq<Either<E1, E2>>)
    ensures Fold(Composed(d1, d2), s, events) == (Fold(d1, s.0, Lefts(events)), Fold(d2, s.1, Rights(events)))
    decreases |events|
  {
    if events != [] {
      var r := Composed(d1, d2);
      var next := r.evolve(s, events[0]);
      ComposedFold(d1, d2, next, events[1..]);
      match events[0]
      case Left(l) =>
        assert Lefts(events) == [l] + Lefts(events[1..]);
        assert Rights(events) == Rights(events[1..]);
        assert ([l] + Lefts(events[1..]))[1..] == Lefts(events[1..]);
      case Right(x) =>
        assert Rights(events) == [x] + Rights(events[1..]);
        assert Lefts(events) == Lefts(events[1..]);
        assert ([x] + Rights(events[1..]))[1..] == Rights(events[1..]);
    }
  }

  /*
   * ManyDecider: any number of independent instances of one decider, each
   * under a name. The state maps names to instance states; a name that is
   * not in the map stands for a fresh instance.
   */

  /** The state of instance `id`: the stored one, or the initial state if `id` was never seen. */
  function Lookup<C, E, S>(d: Decider<C, E, S, S>, states: map<string, S>, id: string): S {
    if id in states then states[id] else d.initialState
  }

  /** The events of `tagged` that carry the name `id`, without the name, in order. */
  function EventsFor<E>(tagged: seq<(string, E)>, id: string): (r: seq<E>)
    ensures |r| <= |tagged|
  {
    if tagged == [] then []
    else (if tagged[0].0 == id then [tagged[0].1] else []) + EventsFor(tagged[1..], id)
  }

  /** The names that occur in `tagged`. */
  function Names<E>(tagged: seq<(string, E)>): set<string> {
    set i | 0 <= i < |tagged| :: tagged[i].0
  }

  /** Every element of `tagged` carries the name `id`. */
  predicate AllNamed<E>(tagged: seq<(string, E)>, id: string) {
    forall i | 0 <= i < |tagged| :: tagged[i].0 == id
  }

  /** Pairs every event with `id`; `EventsFor(_, id)` undoes it. */
  function Tag<E>(id: string, events: seq<E>): (r: seq<(string, E)>)
    ensures |r| == |events| && AllNamed(r, id)
    ensures EventsFor(r, id) == events
  {
    if events == [] then [] else [(id, events[0])] + Tag(id, events[1..])
  }

  /** A sequence whose elements all carry `id` is the tagging of its own events. */
  lemma {:induction false} AllNamedIsTagged<E>(tagged: seq<(string, E)>, id: string)
    requires AllNamed(tagged, id)
    ensures tagged == Tag(id, EventsFor(tagged, id))
  {
    if tagged != [] {
      AllNamedIsTagged(tagged[1..], id);
      assert EventsFor(tagged, id) == [tagged[0].1] + EventsFor(tagged[1..], id);
      assert ([tagged[0].1] + EventsFor(tagged[1..], id))[1..] == EventsFor(tagged[1..], id);
    }
  }

  function Many<C(!new), E(!new), S(!new)>(d: Decider<C, E, S, S>): (r: Decider<(string, C), (string, E), map<string, S>, map<string, S>>)
    ensures r.initialState == map[]
    ensures forall m: map<string, S> :: r.isTerminal(m) <==> (forall id | id in m :: d.isTerminal(m[id]))
    ensures forall id: string, c: C, m: map<string, S> | d.decide.requires(c, Lookup(d, m, id)) ::
      r.decide.requires((id, c), m) &&
      AllNamed(r.decide((id, c), m), id) && EventsFor(r.decide((id, c), m), id) == d.decide(c, Lookup(d, m, id))
    ensures forall m: map<string, S>, id: string, e: E ::
      r.evolve(m, (id, e)).Keys == m.Keys + {id} && r.evolve(m, (id, e))[id] == d.evolve(Lookup(d, m, id), e)
    ensures forall m: map<string, S>, id: string, e: E, k: string | k in m && k != id ::
      r.evolve(m, (id, e))[k] == m[k]
  {
    Decider(
      (c: (string, C), m: map<string, S>) requires d.decide.requires(c.1, Lookup(d, m, c.0)) =>
        Tag(c.0, d.decide(c.1, Lookup(d, m, c.0))),
      (m: map<string, S>, e: (string, E)) => m[e.0 := d.evolve(Lookup(d, m, e.0), e.1)],
      map[],
      (m: map<string, S>) => forall id | id in m :: d.isTerminal(m[id]))
  }

  /** One `ManyDecider::evolve` step, seen through `Lookup`: only instance `id` moves. */
  lemma ManyEvolveLookup<C(!new), E(!new), S(!new)>(d: Decider<C, E, S, S>, m: map<string, S>, id: string, e: E, k: string)
    ensures Lookup(d, Many(d).evolve(m, (id, e)), k) == if k == id then d.evolve(Lookup(d, m, id), e) else Lookup(d, m, k)
  {
  }

  lemma NamesCons<E>(events: seq<(string, E)>)
    requires events != []
    ensures Names(events) == {events[0].0} + Names(events[1..])
  {
    forall n | n in Names(events) ensures n in {events[0].0} + Names(events[1..]) {
      var i :| 0 <= i < |events| && events[i].0 == n;
      if i > 0 { assert events[1..][i - 1].0 == n; }
    }
    forall n | n in Names(events[1..]) ensures n in Names(events) {
      var i :| 0 <= i < |events[1..]| && events[1..][i].0 == n;
      assert events[i + 1].0 == n;
    }
  }

  /**
   * Folding a named history: instance `id` ends in the state that its own
   * events alone produce from its starting state, whatever the other
   * instances' events are.
   */
  lemma {:induction false} ManyFold<C(!new), E(!new), S(!new)>(d: Decider<C, E, S, S>, m: map<string, S>, events: seq<(string, E)>, id: string)
    ensures Lookup(d, Fold(Many(d), m, events), id) == Fold(d, Lookup(d, m, id), EventsFor(events, id))
    decreases |events|
  {
    if events != [] {
      var next := Many(d).evolve(m, events[0]);
      ManyFold(d, next, events[1..], id);
      ManyEvolveLookup(d, m, events[0].0, events[0].1, id);
      if events[0].0 == id {
        assert EventsFor(events, id) == [events[0].1] + EventsFor(events[1..], id);
        assert ([events[0].1] + EventsFor(events[1..], id))[1..] == EventsFor(events[1..], id);
      } else {
        assert EventsFor(events, id) == EventsFor(events[1..], id);
      }
    }
  }

  /** The names tracked after a history are those tracked before plus those the history names. */
  lemma {:induction false} ManyFoldKeys<C(!new), E(!new), S(!new)>(d: Decider<C, E, S, S>, m: map<string, S>, events: seq<(string, E)>)
    ensures Fold(Many(d), m, events).Keys == m.Keys + Names(events)
    decreases |events|
  {
    if events == [] {
      assert Names(events) == {};
    } else {
      var next := Many(d).evolve(m, events[0]);
      assert next.Keys == m.Keys + {events[0].0};
      ManyFoldKeys(d, next, events[1..]);
      NamesCons(events);
    }
  }

  /*
   * AdaptedDecider: a decider behind new command, event and state types,
   * using four converters. Its output state stays the wrapped decider's.
   */

  /** The precondition of the adapted `decide`. */
  ghost predicate AdaptedCanDecide<Cn(!new), Sn(!new), Cd(!new), Ed(!new), Sd(!new)>(
    d: Decider<Cd, Ed, Sd, Sd>, commandIn: FallibleConverter<Cn, Cd>, stateIn: InfallibleConverter<Sn, Sd>, c: Cn, s: Sn)
  {
    commandIn(c).Some? ==> d.decide.requires(commandIn(c).value, stateIn(s))
  }

  /**
   * `commandIn` and `eventIn` convert new commands and events into the
   * wrapped decider's and may fail; `eventOut` converts the wrapped decider's
   * events into new ones; `stateIn` converts a new state into the wrapped
   * decider's.
   */
  function Adapted<Cn(!new), En(!new), Sn(!new), Cd(!new), Ed(!new), Sd(!new)>(
    d: Decider<Cd, Ed, Sd, Sd>,
    commandIn: FallibleConverter<Cn, Cd>,
    eventIn: FallibleConverter<En, Ed>,
    eventOut: InfallibleConverter<Ed, En>,
    stateIn: InfallibleConverter<Sn, Sd>): (r: Decider<Cn, En, Sd, Sn>)
    ensures r.initialState == d.initialState
    ensures forall s: Sn :: r.isTerminal(s) == d.isTerminal(stateIn(s))
    ensures forall c: Cn, s: Sn | commandIn(c).None? :: r.decide.requires(c, s) && r.decide(c, s) == []
    ensures forall c: Cn, s: Sn | commandIn(c).Some? && d.decide.requires(commandIn(c).value, stateIn(s)) ::
      r.decide.requires(c, s) &&
      |r.decide(c, s)| == |d.decide(commandIn(c).value, stateIn(s))| &&
      forall i | 0 <= i < |r.decide(c, s)| :: r.decide(c, s)[i] == eventOut(d.decide(commandIn(c).value, stateIn(s))[i])
    ensures forall s: Sn, e: En | eventIn(e).None? :: r.evolve(s, e) == stateIn(s)
    ensures forall s: Sn, e: En | eventIn(e).Some? :: r.evolve(s, e) == d.evolve(stateIn(s), eventIn(e).value)
  {
    Decider(
      (c: Cn, s: Sn) requires AdaptedCanDecide(d, commandIn, stateIn, c, s) =>
        match commandIn(c)
        case Some(cd) => MapSeq(eventOut, d.decide(cd, stateIn(s)))
        case None => [],
      (s: Sn, e: En) =>
        match eventIn(e)
        case Some(ed) => d.evolve(stateIn(s), ed)
        case None => stateIn(s),
      d.initialState,
      (s: Sn) => d.isTerminal(stateIn(s)))
  }

  /*
   * MappedDecider: reshapes only the state a decider produces.
   */

  function Mapped<C(!new), E(!new), Sn(!new), Sdo(!new), Sdi(!new)>(d: Decider<C, E, Sdo, Sdi>, stateOut: InfallibleConverter<Sdo, Sn>)
    : (r: Decider<C, E, Sn, Sdi>)
    ensures r.decide == d.decide && r.isTerminal == d.isTerminal
    ensures forall s: Sdi, e: E :: r.evolve(s, e) == stateOut(d.evolve(s, e))
    ensures r.initialState == stateOut(d.initialState)
  {
    Decider(
      d.decide,
      (s: Sdi, e: E) => stateOut(d.evolve(s, e)),
      stateOut(d.initialState),
      d.isTerminal)
  }

  /**
   * An adapter whose output state is mapped back into the new state type
   * simulates the wrapped decider: when `stateOut` is undone by `stateIn`,
   * folding new events and converting the result gives what folding the
   * convertible events alone gives in the wrapped decider; the events that
   * do not convert are skipped.
   */
  lemma {:induction false} AdaptedMappedFold<Cn(!new), En(!new), Sn(!new), Cd(!new), Ed(!new), Sd(!new)>(
    d: Decider<Cd, Ed, Sd, Sd>,
    commandIn: FallibleConverter<Cn, Cd>,
    eventIn: FallibleConverter<En, Ed>,
    eventOut: InfallibleConverter<Ed, En>,
    stateIn: InfallibleConverter<Sn, Sd>,
    stateOut: InfallibleConverter<Sd, Sn>,
    s: Sn, events: seq<En>)
    requires forall x: Sd :: stateIn(stateOut(x)) == x
    ensures stateIn(Fold(Mapped(Adapted(d, commandIn, eventIn, eventOut, stateIn), stateOut), s, events))
         == Fold(d, stateIn(s), FilterMap(eventIn, events))
    decreases |events|
  {
    if events != [] {
      var am := Mapped(Adapted(d, commandIn, eventIn, eventOut, stateIn), stateOut);
      var next := am.evolve(s, events[0]);
      AdaptedMappedFold(d, commandIn, eventIn, eventOut, stateIn, stateOut, next, events[1..]);
      match eventIn(events[0])
      case Some(ed) =>
        assert FilterMap(eventIn, events) == [ed] + FilterMap(eventIn, events[1..]);
        assert ([ed] + FilterMap(eventIn, events[1..]))[1..] == FilterMap(eventIn, events[1..]);
        assert stateIn(next) == d.evolve(stateIn(s), ed);
      case None =>
        assert FilterMap(eventIn, events) == FilterMap(eventIn, events[1..]);
        assert stateIn(next) == stateIn(s);
    }
  }

  /*
   * Map2Deciders: two deciders over the same commands, events and input
   * state, run in lock-step; their output states are combined into one.
   */

  function Map2<C(!new), E(!new), Si(!new), S1(!new), S2(!new), So(!new)>(
    d1: Decider<C, E, S1, Si>, d2: Decider<C, E, S2, Si>, combine: InfallibleConverter<(S1, S2), So>)
    : (r: Decider<C, E, So, Si>)
    ensures forall c: C, s: Si | d1.decide.requires(c, s) && d2.decide.requires(c, s) ::
      r.decide.requires(c, s) &&
      |r.decide(c, s)| == |d1.decide(c, s)| + |d2.decide(c, s)| &&
      r.decide(c, s)[..|d1.decide(c, s)|] == d1.decide(c, s) &&
      r.decide(c, s)[|d1.decide(c, s)|..] == d2.decide(c, s)
    ensures forall s: Si, e: E :: r.evolve(s, e) == combine((d1.evolve(s, e), d2.evolve(s, e)))
    ensures r.initialState == combine((d1.initialState, d2.initialState))
    ensures forall s: Si :: r.isTerminal(s) == (d1.isTerminal(s) && d2.isTerminal(s))
  {
    Decider(
      (c: C, s: Si) requires d1.decide.requires(c, s) && d2.decide.requires(c, s) =>
        d1.decide(c, s) + d2.decide(c, s),
      (s: Si, e: E) => combine((d1.evolve(s, e), d2.evolve(s, e))),
      combine((d1.initialState, d2.initialState)),
      (s: Si) => d1.isTerminal(s) && d2.isTerminal(s))
  }

  /*
   * AppliedDecider: the first decider's state is a function, applied to the
   * second decider's state.
   */

  function Applied<C(!new), E(!new), Si(!new), Sd(!new), So(!new)>(fd: Decider<C, E, Sd -> So, Si>, d: Decider<C, E, Sd, Si>)
    : (r: Decider<C, E, So, Si>)
    ensures forall c: C, s: Si | fd.decide.requires(c, s) && d.decide.requires(c, s) ::
      r.decide.requires(c, s) &&
      |r.decide(c, s)| == |fd.decide(c, s)| + |d.decide(c, s)| &&
      r.decide(c, s)[..|fd.decide(c, s)|] == fd.decide(c, s) &&
      r.decide(c, s)[|fd.decide(c, s)|..] == d.decide(c, s)
    ensures forall s: Si, e: E :: r.evolve(s, e) == fd.evolve(s, e)(d.evolve(s, e))
    ensures r.initialState == fd.initialState(d.initialState)
    ensures forall s: Si :: r.isTerminal(s) == (fd.isTerminal(s) && d.isTerminal(s))
  {
    Decider(
      (c: C, s: Si) requires fd.decide.requires(c, s) && d.decide.requires(c, s) =>
        fd.decide(c, s) + d.decide(c, s),
      (s: Si, e: E) => fd.evolve(s, e)(d.evolve(s, e)),
      fd.initialState(d.initialState),
      (s: Si) => fd.isTerminal(s) && d.isTerminal(s))
  }

  /**
   * In this model Map2Deciders is AppliedDecider with a curried combiner:
   * mapping the first decider's output state to "combine with the second's
   * state" and applying it to the second decider behaves the same in all four
   * operations. The curried state captures the first state, so it is a
   * closure; Rust's AppliedDecider takes a plain `fn` pointer, which cannot
   * capture, so this equivalence has no Rust counterpart.
   */
  lemma Map2IsApplied<C(!new), E(!new), Si(!new), S1(!new), S2(!new), So(!new)>(
    d1: Decider<C, E, S1, Si>, d2: Decider<C, E, S2, Si>, combine: InfallibleConverter<(S1, S2), So>)
    ensures var m2 := Map2(d1, d2, combine);
            var ap := Applied(Mapped(d1, (s1: S1) => (s2: S2) => combine((s1, s2))), d2);
            && m2.initialState == ap.initialState
            && (forall s: Si :: m2.isTerminal(s) == ap.isTerminal(s))
            && (forall s: Si, e: E :: m2.evolve(s, e) == ap.evolve(s, e))
            && (forall c: C, s: Si | d1.decide.requires(c, s) && d2.decide.requires(c, s) ::
                  m2.decide.requires(c, s) && ap.decide.requires(c, s) && m2.decide(c, s) == ap.decide(c, s))
  {
    var m2 := Map2(d1, d2, combine);
    var ap := Applied(Mapped(d1, (s1: S1) => (s2: S2) => combine((s1, s2))), d2);
    forall c: C, s: Si | d1.decide.requires(c, s) && d2.decide.requires(c, s)
      ensures m2.decide.requires(c, s) && ap.decide.requires(c, s) && m2.decide(c, s) == ap.decide(c, s)
    {
      var x, y := d1.decide(c, s), d2.decide(c, s);
      assert m2.decide(c, s) == x + y;
      assert ap.decide(c, s) == x + y;
    }
  }
}
