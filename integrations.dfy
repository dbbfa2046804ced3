/**
 * The light bulb decider of tests/integrations.rs: a bulb is fitted with a
 * number of uses, is switched on and off, and blows when switched on with no
 * use left.
 */
module Bulb {
  import opened Utilities
  import opened Deciders

  datatype Command = Fit(maxUses: u64) | SwitchOn | SwitchOff
  datatype Event = Fitted(maxUses: u64) | SwitchedOn | SwitchedOff | Blew
  datatype Status = On | Off
  datatype State = NotFitted | Working(status: Status, remainingUses: u64) | Blown

  /** Fitting a bulb that is already fitted aborts; every other pair is decided. */
  predicate CanDecide(c: Command, s: State) {
    c.Fit? ==> s.NotFitted?
  }

  function Decide(c: Command, s: State): (events: seq<Event>)
    requires CanDecide(c, s)
    ensures |events| <= 1
    ensures c.Fit? ==> events == [Fitted(c.maxUses)]
    ensures events == [SwitchedOn] <==> c.SwitchOn? && s.Working? && s.status == Off && s.remainingUses > 0
    ensures events == [Blew] <==> c.SwitchOn? && s.Working? && s.status == Off && s.remainingUses == 0
    ensures events == [SwitchedOff] <==> c.SwitchOff? && s.Working? && s.status == On
    ensures events == [] <==> !c.Fit? && !(s.Working? && (c.SwitchOn? <==> s.status == Off))
  {
    match (c, s)
    case (Fit(n), NotFitted) => [Fitted(n)]
    case (SwitchOn, Working(Off, r)) => if r > 0 then [SwitchedOn] else [Blew]
    case (SwitchOff, Working(On, _)) => [SwitchedOff]
    case _ => []
  }

  /**
   * `remaining_uses - 1` on a `u64`. At 0 a checked build aborts and an
   * unchecked one wraps around; the wrap-around is modelled (see
   * `DecidedEventsNeverUnderflow`: decided events never get here).
   */
  function WrappingDecrement(n: u64): u64 {
    if n == 0 then U64_MAX else n - 1
  }

  /** An event that would decrement a zero use count. */
  predicate Underflows(s: State, e: Event) {
    s.Working? && s.remainingUses == 0 && e == SwitchedOn
  }

  function Evolve(s: State, e: Event): (r: State)
    ensures s.NotFitted? && e.Fitted? ==> r == Working(Off, e.maxUses)
    ensures s.Working? && e == SwitchedOn && s.remainingUses > 0 ==> r == Working(On, s.remainingUses - 1)
    ensures s.Working? && e == SwitchedOff ==> r == Working(Off, s.remainingUses)
    ensures s.Working? && e == Blew ==> r == Blown
    ensures !s.Working? && !(s.NotFitted? && e.Fitted?) ==> r == s
    ensures s.Working? && e.Fitted? ==> r == s
  {
    match (s, e)
    case (NotFitted, Fitted(n)) => Working(Off, n)
    case (Working(_, r), SwitchedOn) => Working(On, WrappingDecrement(r))
    case (Working(_, r), SwitchedOff) => Working(Off, r)
    case (Working(_, _), Blew) => Blown
    case _ => s
  }

  function IsTerminal(s: State): (r: bool)
    ensures r <==> s == Blown
  {
    s.Blown?
  }

  const Bulb: Decider<Command, Event, State, State> := Decider(Decide, Evolve, NotFitted, IsTerminal)

  /** The decider's `decide` is defined on every pair that `CanDecide` admits. */
  lemma DecideDefined(c: Command, s: State)
    requires CanDecide(c, s)
    ensures Bulb.decide.requires(c, s) && Bulb.decide(c, s) == Decide(c, s)
  {
  }

  /**
   * `decide` emits `SwitchedOn` only while uses remain, so folding the events
   * it decides never decrements a zero count.
   */
  lemma DecidedEventsNeverUnderflow(c: Command, s: State)
    requires CanDecide(c, s)
    ensures forall i | 0 <= i < |Decide(c, s)| :: !Underflows(s, Decide(c, s)[i])
  {
  }

  /** The state a decided command leads to. */
  lemma DecideThenEvolve(c: Command, s: State)
    requires CanDecide(c, s)
    ensures c.Fit? ==> Fold(Bulb, s, Decide(c, s)) == Working(Off, c.maxUses)
    ensures c.SwitchOn? && s.Working? && s.status == Off ==>
      Fold(Bulb, s, Decide(c, s)) == if s.remainingUses > 0 then Working(On, s.remainingUses - 1) else Blown
    ensures c.SwitchOff? && s.Working? && s.status == On ==> Fold(Bulb, s, Decide(c, s)) == Working(Off, s.remainingUses)
    ensures Decide(c, s) == [] ==> Fold(Bulb, s, Decide(c, s)) == s
  {
    var events := Decide(c, s);
    if events != [] {
      assert Fold(Bulb, s, events) == Fold(Bulb, Evolve(s, events[0]), []);
    }
  }

  /**
   * Switching on or off twice is the same as once: once the events of the
   * first command are folded in, the second yields no event.
   */
  lemma SwitchingIsIdempotent(c: Command, s: State)
    requires !c.Fit?
    ensures Decide(c, Fold(Bulb, s, Decide(c, s))) == []
  {
    DecideThenEvolve(c, s);
  }

  /** A blown bulb is final: it decides nothing and no event changes it. */
  lemma BlownIsAbsorbing(c: Command, e: Event)
    requires !c.Fit?
    ensures Decide(c, Blown) == [] && Evolve(Blown, e) == Blown && IsTerminal(Blown)
  {
  }
}

/** The cat decider of tests/integrations.rs: a cat is awake or asleep. */
module Cat {
  import opened Deciders

  datatype Command = WakeUp | GetToSleep
  datatype Event = WokeUp | GotToSleep
  datatype State = Awake | Asleep

  /** The state a command asks for. */
  function Target(c: Command): State {
    match c
    case WakeUp => Awake
    case GetToSleep => Asleep
  }

  function Decide(c: Command, s: State): (events: seq<Event>)
    ensures events == [] <==> s == Target(c)
    ensures events != [] ==> events == [if c == WakeUp then WokeUp else GotToSleep]
  {
    match (c, s)
    case (WakeUp, Asleep) => [WokeUp]
    case (GetToSleep, Awake) => [GotToSleep]
    case _ => []
  }

  function Evolve(s: State, e: Event): (r: State)
    ensures e == GotToSleep ==> r == Asleep
    ensures e == WokeUp ==> r == Awake
  {
    match (s, e)
    case (Awake, GotToSleep) => Asleep
    case (Asleep, WokeUp) => Awake
    case _ => s
  }

  function IsTerminal(s: State): (r: bool)
    ensures !r
  {
    false
  }

  const Cat: Decider<Command, Event, State, State> := Decider(Decide, Evolve, Awake, IsTerminal)

  /** Whatever the state, folding the events of a command puts the cat in the state the command asks for. */
  lemma CommandReachesTarget(c: Command, s: State)
    ensures Fold(Cat, s, Decide(c, s)) == Target(c)
  {
    var events := Decide(c, s);
    if events != [] {
      assert Fold(Cat, s, events) == Fold(Cat, Evolve(s, events[0]), []);
    }
  }

  /** A command repeated after its own events are folded in yields nothing. */
  lemma CommandsAreIdempotent(c: Command, s: State)
    ensures Decide(c, Fold(Cat, s, Decide(c, s))) == []
  {
    CommandReachesTarget(c, s);
  }
}

/**
 * The cat light process of tests/integrations.rs: switching the light on
 * while the cat sleeps should wake the cat.
 */
module CatLight {
  datatype Event = SwitchedOn | WokeUp
  datatype Command = WakeUp
  datatype State = Idle | WakingUp

  /** The new state depends on the event only. */
  function Evolve(s: State, e: Event): (r: State)
    ensures r == WakingUp <==> e == SwitchedOn
  {
    match e
    case SwitchedOn => WakingUp
    case WokeUp => Idle
  }

  /** The commands to issue given only the current state. */
  function Resume(s: State): (commands: seq<Command>)
    ensures commands != [] <==> s == WakingUp
    ensures commands == [] || commands == [WakeUp]
  {
    match s
    case Idle => []
    case WakingUp => [WakeUp]
  }

  /** The commands to issue in direct response to an event. */
  function React(s: State, e: Event): (commands: seq<Command>)
    ensures commands != [] <==> s == WakingUp && e == SwitchedOn
    ensures commands == [] || commands == [WakeUp]
  {
    match (s, e)
    case (WakingUp, SwitchedOn) => [WakeUp]
    case _ => []
  }

  function InitialState(): (s: State)
    ensures IsTerminal(s) && Resume(s) == []
  {
    Idle
  }

  function IsTerminal(s: State): (r: bool)
    ensures r <==> s == Idle
  {
    s.Idle?
  }

  /** The state an event leads to is the same from every state. */
  lemma EvolveIgnoresState(s: State, t: State, e: Event)
    ensures Evolve(s, e) == Evolve(t, e)
  {
  }

  /**
   * Once the light is switched on the process wants the cat woken, and once
   * the cat has woken the process is done.
   */
  lemma SwitchOnThenWake(s: State)
    ensures Resume(Evolve(s, SwitchedOn)) == [WakeUp] && !IsTerminal(Evolve(s, SwitchedOn))
    ensures IsTerminal(Evolve(Evolve(s, SwitchedOn), WokeUp)) && Resume(Evolve(s, WokeUp)) == []
  {
  }
}

/**
 * The test scaffolding of tests/integrations.rs: the neutral decider,
 * `run_decider`, and the scenario tests as lemmas.
 */
module Integrations {
  import opened Utilities
  import opened Deciders
  import B = Bulb
  import C = Cat
  import CatLight

  /** The decider over unit types that never decides anything and is always terminal. */
  const Neutral: Decider<(), (), (), ()> := Decider((c: (), s: ()) => [], (s: (), e: ()) => (), (), (s: ()) => true)

  /** `c` may be decided after replaying `events` from the initial state. */
  ghost predicate CanRun<C, E, S>(d: Decider<C, E, S, S>, events: seq<E>, c: C) {
    d.decide.requires(c, Fold(d, d.initialState, events))
  }

  /** Replays `events` from the initial state, then decides `c` against the result. */
  function RunDecider<C, E, S>(d: Decider<C, E, S, S>, events: seq<E>, c: C): seq<E>
    requires CanRun(d, events, c)
  {
    d.decide(c, Fold(d, d.initialState, events))
  }

  lemma NeutralTest()
    ensures Neutral.initialState == () && Neutral.isTerminal(())
    ensures Neutral.decide((), ()) == [] && Neutral.evolve((), ()) == ()
  {
  }

  /*
   * The general facts behind the scenario tests of the combinators.
   */

  /**
   * Running a composed decider on a `Left` command after a mixed history is
   * running the first decider on the `Left` part of the history, with every
   * event tagged `Left`.
   */
  lemma ComposedRunLeft<C1(!new), E1(!new), S1(!new), C2(!new), E2(!new), S2(!new)>(
    d1: Decider<C1, E1, S1, S1>, d2: Decider<C2, E2, S2, S2>, history: seq<Either<E1, E2>>, c: C1)
    requires CanRun(d1, Lefts(history), c)
    ensures CanRun(Composed(d1, d2), history, Left(c))
    ensures RunDecider(Composed(d1, d2), history, Left(c)) == WrapLeft(RunDecider(d1, Lefts(history), c))
  {
    var r := Composed(d1, d2);
    ComposedFold(d1, d2, r.initialState, history);
    AllLeftIsWrapped(RunDecider(r, history, Left(c)));
  }

  /** The same for a `Right` command and the second decider. */
  lemma ComposedRunRight<C1(!new), E1(!new), S1(!new), C2(!new), E2(!new), S2(!new)>(
    d1: Decider<C1, E1, S1, S1>, d2: Decider<C2, E2, S2, S2>, history: seq<Either<E1, E2>>, c: C2)
    requires CanRun(d2, Rights(history), c)
    ensures CanRun(Composed(d1, d2), history, Right(c))
    ensures RunDecider(Composed(d1, d2), history, Right(c)) == WrapRight(RunDecider(d2, Rights(history), c))
  {
    var r := Composed(d1, d2);
    ComposedFold(d1, d2, r.initialState, history);
    AllRightIsWrapped(RunDecider(r, history, Right(c)));
  }

  /**
   * Running the many-decider on a command for `id` after a named history is
   * running the decider on `id`'s own events, with every event named `id`:
   * the other instances' events play no part, and a name never seen behaves
   * as a fresh instance.
   */
  lemma ManyRun<C(!new), E(!new), S(!new)>(d: Decider<C, E, S, S>, history: seq<(string, E)>, id: string, c: C)
    requires CanRun(d, EventsFor(history, id), c)
    ensures CanRun(Many(d), history, (id, c))
    ensures RunDecider(Many(d), history, (id, c)) == Tag(id, RunDecider(d, EventsFor(history, id), c))
  {
    var r := Many(d);
    ManyFold(d, r.initialState, history, id);
    AllNamedIsTagged(RunDecider(r, history, (id, c)), id);
  }

  /*
   * Bulb scenarios.
   */

  lemma BulbTest1()
    ensures CanRun(B.Bulb, [], B.Fit(5)) && RunDecider(B.Bulb, [], B.Fit(5)) == [B.Fitted(5)]
  {
    B.DecideDefined(B.Fit(5), B.NotFitted);
  }

  lemma BulbTest2()
    ensures CanRun(B.Bulb, [B.Fitted(5)], B.SwitchOn) && RunDecider(B.Bulb, [B.Fitted(5)], B.SwitchOn) == [B.SwitchedOn]
  {
    assert Fold(B.Bulb, B.NotFitted, [B.Fitted(5)]) == B.Working(B.Off, 5);
    B.DecideDefined(B.SwitchOn, B.Working(B.Off, 5));
  }

  lemma BulbTest3()
    ensures CanRun(B.Bulb, [B.Fitted(5), B.SwitchedOn], B.SwitchOn) && RunDecider(B.Bulb, [B.Fitted(5), B.SwitchedOn], B.SwitchOn) == []
  {
    assert Fold(B.Bulb, B.NotFitted, [B.Fitted(5), B.SwitchedOn]) == B.Working(B.On, 4);
    B.DecideDefined(B.SwitchOn, B.Working(B.On, 4));
  }

  lemma BulbTest4()
    ensures CanRun(B.Bulb, [B.Fitted(5), B.SwitchedOn], B.SwitchOff) && RunDecider(B.Bulb, [B.Fitted(5), B.SwitchedOn], B.SwitchOff) == [B.SwitchedOff]
  {
    assert Fold(B.Bulb, B.NotFitted, [B.Fitted(5), B.SwitchedOn]) == B.Working(B.On, 4);
    B.DecideDefined(B.SwitchOff, B.Working(B.On, 4));
  }

  lemma BulbTest5()
    ensures CanRun(B.Bulb, [B.Fitted(5), B.SwitchedOn, B.SwitchedOff], B.SwitchOff) && RunDecider(B.Bulb, [B.Fitted(5), B.SwitchedOn, B.SwitchedOff], B.SwitchOff) == []
  {
    assert Fold(B.Bulb, B.NotFitted, [B.Fitted(5), B.SwitchedOn, B.SwitchedOff]) == B.Working(B.Off, 4);
    B.DecideDefined(B.SwitchOff, B.Working(B.Off, 4));
  }

  lemma BulbTest6()
    ensures CanRun(B.Bulb, [B.Fitted(1), B.SwitchedOn, B.SwitchedOff], B.SwitchOn) && RunDecider(B.Bulb, [B.Fitted(1), B.SwitchedOn, B.SwitchedOff], B.SwitchOn) == [B.Blew]
  {
    assert Fold(B.Bulb, B.NotFitted, [B.Fitted(1), B.SwitchedOn, B.SwitchedOff]) == B.Working(B.Off, 0);
    B.DecideDefined(B.SwitchOn, B.Working(B.Off, 0));
  }

  /*
   * Cat scenarios.
   */

  lemma CatTests()
    ensures RunDecider(C.Cat, [], C.GetToSleep) == [C.GotToSleep]
    ensures RunDecider(C.Cat, [C.GotToSleep], C.WakeUp) == [C.WokeUp]
    ensures RunDecider(C.Cat, [C.GotToSleep], C.GetToSleep) == []
    ensures RunDecider(C.Cat, [C.GotToSleep, C.WokeUp], C.WakeUp) == []
  {
    assert Fold(C.Cat, C.Awake, [C.GotToSleep]) == C.Asleep;
    assert Fold(C.Cat, C.Awake, [C.GotToSleep, C.WokeUp]) == C.Awake;
  }

  /** A cat and a bulb side by side: each command reaches only its own side. */
  lemma ComposeTest()
    ensures RunDecider(Composed(C.Cat, B.Bulb), [], Left(C.GetToSleep)) == [Left(C.GotToSleep)]
    ensures CanRun(Composed(C.Cat, B.Bulb), [], Right(B.Fit(5))) && RunDecider(Composed(C.Cat, B.Bulb), [], Right(B.Fit(5))) == [Right(B.Fitted(5))]
  {
    ComposedRunLeft(C.Cat, B.Bulb, [], C.GetToSleep);
    B.DecideDefined(B.Fit(5), B.NotFitted);
    assert Rights<C.Event, B.Event>([]) == [];
    ComposedRunRight(C.Cat, B.Bulb, [], B.Fit(5));
  }

  /**
   * Many cats: Floof falls asleep from no history, and after Floof's history
   * `GotToSleep, WokeUp` Shadow still falls asleep (`ManyRun` is the general fact).
   */
  lemma ManyTest()
    ensures RunDecider(Many(C.Cat), [], ("Floof", C.GetToSleep)) == [("Floof", C.GotToSleep)]
    ensures RunDecider(Many(C.Cat), [("Floof", C.GotToSleep), ("Floof", C.WokeUp)], ("Shadow", C.GetToSleep))
         == [("Shadow", C.GotToSleep)]
  {
    ManyRun(C.Cat, [], "Floof", C.GetToSleep);
    var history := [("Floof", C.GotToSleep), ("Floof", C.WokeUp)];
    assert EventsFor(history, "Shadow") == [] by {
      assert history[0].0 != "Shadow" && history[1].0 != "Shadow";
      assert EventsFor(history, "Shadow") == EventsFor(history[1..], "Shadow");
      assert EventsFor(history[1..], "Shadow") == EventsFor(history[2..], "Shadow");
    }
    ManyRun(C.Cat, history, "Shadow", C.GetToSleep);
  }

  /*
   * The adapted and mapped cat: the cat behind new command, event and state
   * types.
   */

  datatype AdaptedCommand = Sleep | Wake
  datatype AdaptedEvent = Slept | Woke
  datatype AdaptedState = Slep | Wake

  function CatCommandConverter(c: AdaptedCommand): Option<C.Command> {
    match c
    case Sleep => Some(C.GetToSleep)
    case Wake => Some(C.WakeUp)
  }

  function CatEventInConverter(e: AdaptedEvent): Option<C.Event> {
    match e
    case Slept => Some(C.GotToSleep)
    case Woke => Some(C.WokeUp)
  }

  function CatEventOutConverter(e: C.Event): AdaptedEvent {
    match e
    case GotToSleep => Slept
    case WokeUp => Woke
  }

  function CatStateInConverter(s: AdaptedState): C.State {
    match s
    case Slep => C.Asleep
    case Wake => C.Awake
  }

  function CatStateOutConverter(s: C.State): AdaptedState {
    match s
    case Asleep => Slep
    case Awake => AdaptedState.Wake
  }

  function AdaptedMappedCat(): Decider<AdaptedCommand, AdaptedEvent, AdaptedState, AdaptedState> {
    Mapped(Adapted(C.Cat, CatCommandConverter, CatEventInConverter, CatEventOutConverter, CatStateInConverter),
           CatStateOutConverter)
  }

  lemma AdaptedMappedTest()
    ensures RunDecider(AdaptedMappedCat(), [], Sleep) == [Slept]
    ensures RunDecider(AdaptedMappedCat(), [Slept], AdaptedCommand.Wake) == [Woke]
    ensures RunDecider(AdaptedMappedCat(), [Slept, Woke], Sleep) == [Slept]
  {
    var amc := AdaptedMappedCat();
    assert amc.initialState == AdaptedState.Wake;
    assert Fold(amc, AdaptedState.Wake, [Slept]) == Slep by {
      assert Fold(amc, AdaptedState.Wake, [Slept]) == Fold(amc, amc.evolve(AdaptedState.Wake, Slept), []);
    }
    assert Fold(amc, AdaptedState.Wake, [Slept, Woke]) == AdaptedState.Wake by {
      assert Fold(amc, AdaptedState.Wake, [Slept, Woke]) == Fold(amc, Slep, [Woke]);
      assert Fold(amc, Slep, [Woke]) == Fold(amc, amc.evolve(Slep, Woke), []);
    }
  }

  /** The cat light process test. */
  lemma ProcessTest()
    ensures CatLight.Evolve(CatLight.Idle, CatLight.SwitchedOn) == CatLight.WakingUp
    ensures CatLight.Evolve(CatLight.Idle, CatLight.WokeUp) == CatLight.Idle
    ensures CatLight.Evolve(CatLight.WakingUp, CatLight.SwitchedOn) == CatLight.WakingUp
    ensures CatLight.Evolve(CatLight.WakingUp, CatLight.WokeUp) == CatLight.Idle
    ensures CatLight.Resume(CatLight.Idle) == [] && CatLight.Resume(CatLight.WakingUp) == [CatLight.WakeUp]
    ensures CatLight.React(CatLight.Idle, CatLight.SwitchedOn) == []
    ensures CatLight.React(CatLight.Idle, CatLight.WokeUp) == []
    ensures CatLight.React(CatLight.WakingUp, CatLight.SwitchedOn) == [CatLight.WakeUp]
    ensures CatLight.React(CatLight.WakingUp, CatLight.WokeUp) == []
    ensures CatLight.InitialState() == CatLight.Idle
    ensures CatLight.IsTerminal(CatLight.Idle) && !CatLight.IsTerminal(CatLight.WakingUp)
  {
  }
}
