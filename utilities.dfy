/**
 * Glue types used by the decider combinators (src/utilities.rs):
 * `Either`, the two converter kinds, and Rust's `Option` and `u64`.
 */
module Utilities {

  /** Rust's `Option`. */
  datatype Option<+T> = None | Some(value: T)

  /** Rust's `u64`. */
  newtype u64 = x: int | 0 <= x < 0x1_0000_0000_0000_0000

  const U64_MAX: u64 := 0xFFFF_FFFF_FFFF_FFFF

  /** A value of one of two types. */
  datatype Either<+L, +R> = Left(left: L) | Right(right: R)

  /**
   * A converter that may fail: `None` means the input has no counterpart in
   * the output type. Converters carry no state, so a converter is a function.
   */
  type FallibleConverter<-I, +O> = I -> Option<O>

  /** A converter that always succeeds. */
  type InfallibleConverter<-I, +O> = I -> O

  /** The payloads of the `Left` values of `xs`, in order. */
  function Lefts<L, R>(xs: seq<Either<L, R>>): (r: seq<L>)
    ensures |r| <= |xs|
  {
    if xs == [] then [] else (if xs[0].Left? then [xs[0].left] else []) + Lefts(xs[1..])
  }

  /** The payloads of the `Right` values of `xs`, in order. */
  function Rights<L, R>(xs: seq<Either<L, R>>): (r: seq<R>)
    ensures |r| <= |xs|
  {
    if xs == [] then [] else (if xs[0].Right? then [xs[0].right] else []) + Rights(xs[1..])
  }

  predicate AllLeft<L, R>(xs: seq<Either<L, R>>) {
    forall i | 0 <= i < |xs| :: xs[i].Left?
  }

  predicate AllRight<L, R>(xs: seq<Either<L, R>>) {
    forall i | 0 <= i < |xs| :: xs[i].Right?
  }

  /** Tags every element as `Left`; `Lefts` undoes it. */
  function WrapLeft<L, R>(xs: seq<L>): (r: seq<Either<L, R>>)
    ensures |r| == |xs| && AllLeft(r)
    ensures Lefts(r) == xs && Rights(r) == []
  {
    if xs == [] then [] else [Left(xs[0])] + WrapLeft(xs[1..])
  }

  /** Tags every element as `Right`; `Rights` undoes it. */
  function WrapRight<L, R>(xs: seq<R>): (r: seq<Either<L, R>>)
    ensures |r| == |xs| && AllRight(r)
    ensures Rights(r) == xs && Lefts(r) == []
  {
    if xs == [] then [] else [Right(xs[0])] + WrapRight(xs[1..])
  }

  /** A sequence of `Left` values is the wrapping of its own payloads. */
  lemma {:induction false} AllLeftIsWrapped<L, R>(xs: seq<Either<L, R>>)
    requires AllLeft(xs)
    ensures xs == WrapLeft(Lefts(xs))
  {
    if xs != [] {
      AllLeftIsWrapped(xs[1..]);
      assert Lefts(xs) == [xs[0].left] + Lefts(xs[1..]);
      assert ([xs[0].left] + Lefts(xs[1..]))[1..] == Lefts(xs[1..]);
    }
  }

  /** A sequence of `Right` values is the wrapping of its own payloads. */
  lemma {:induction false} AllRightIsWrapped<L, R>(xs: seq<Either<L, R>>)
    requires AllRight(xs)
    ensures xs == WrapRight(Rights(xs))
  {
    if xs != [] {
      AllRightIsWrapped(xs[1..]);
      assert Rights(xs) == [xs[0].right] + Rights(xs[1..]);
      assert ([xs[0].right] + Rights(xs[1..]))[1..] == Rights(xs[1..]);
    }
  }

  /** `f` applied to every element of `xs`, in order (Rust's `.map(f).collect()`). */
  function MapSeq<X, Y>(f: X -> Y, xs: seq<X>): (r: seq<Y>)
    ensures |r| == |xs|
    ensures forall i | 0 <= i < |xs| :: r[i] == f(xs[i])
  {
    if xs == [] then [] else [f(xs[0])] + MapSeq(f, xs[1..])
  }

  /** The `Some` payloads of `f` over `xs`, in order. */
  function FilterMap<X, Y>(f: FallibleConverter<X, Y>, xs: seq<X>): (r: seq<Y>)
    ensures |r| <= |xs|
  {
    if xs == [] then [] else (if f(xs[0]).Some? then [f(xs[0]).value] else []) + FilterMap(f, xs[1..])
  }
}

/**
 * The in-memory runner of src/utilities.rs: it owns the current state of one
 * decider and folds the events of every command into it.
 */
module InMemory {
  import opened Deciders

  class InMemoryRunner<C, E, S> {
    /** The decider kind that the runner drives (a type parameter in Rust). */
    const decider: Decider<C, E, S, S>
    var state: S

    /** `InMemoryRunner::new`: starts at the decider's initial state. */
    constructor (d: Decider<C, E, S, S>)
      ensures decider == d && state == d.initialState
    {
      decider := d;
      state := d.initialState;
    }

    /** `InMemoryRunner::with_state`: starts exactly at `s`. */
    constructor WithState(d: Decider<C, E, S, S>, s: S)
      ensures decider == d && state == s
    {
      decider := d;
      state := s;
    }

    /** `Default::default`, which is `new`. */
    constructor Default(d: Decider<C, E, S, S>)
      ensures decider == d && state == d.initialState
    {
      decider := d;
      state := d.initialState;
    }

    /**
     * Decides `c` against the current state, then folds the returned events
     * into the state one by one, in order.
     */
    method Command(c: C) returns (events: seq<E>)
      requires decider.decide.requires(c, state)
      modifies this
      ensures events == decider.decide(c, old(state))
      ensures state == Fold(decider, old(state), events)
      ensures events == [] ==> state == old(state)
    {
      events := decider.decide(c, state);
      ghost var start := state;
      var i := 0;
      while i < |events|
        invariant 0 <= i <= |events|
        invariant state == Fold(decider, start, events[..i])
      {
        FoldAppend(decider, start, events[..i], [events[i]]);
        assert events[..i + 1] == events[..i] + [events[i]];
        state := decider.evolve(state, events[i]);
        i := i + 1;
      }
      assert events[..i] == events;
    }

    /** The current state; nothing changes. */
    method GetState() returns (s: S)
      ensures s == state
    {
      s := state;
    }
  }
}
