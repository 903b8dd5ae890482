/**
 The `Result` type of the application: a failure carrying a message, or a
 success carrying a value, with the curried helpers `map`, `flatMap`,
 `flatMapTo` and `withDefault`, here taking the function and the result as
 two arguments.
 */
module ResultMonad {

  datatype Result<+E, +A> = Err(message: E) | Ok(value: A)

  /** `map(mapper)(result)`: an `Err` is passed on, an `Ok` has its value mapped. */
  function Map<E, A, B>(mapper: A -> B, result: Result<E, A>): Result<E, B>
  {
    match result
    case Err(e) => Err(e)
    case Ok(v) => Ok(mapper(v))
  }

  /** `flatMap(mapper)(result)`: an `Err` is passed on, an `Ok` continues with `mapper`. */
  function FlatMap<E, A, B>(mapper: A -> Result<E, B>, result: Result<E, A>): Result<E, B>
  {
    match result
    case Err(e) => Err(e)
    case Ok(v) => mapper(v)
  }

  /** `flatMapTo(nextResult)(result)`: `flatMap` with a mapper that ignores the value. */
  function FlatMapTo<E, A, B>(nextResult: Result<E, B>, result: Result<E, A>): Result<E, B>
  {
    FlatMap((_: A) => nextResult, result)
  }

  /** `withDefault(defaultValue)(result)`. */
  function WithDefault<E, A>(defaultValue: A, result: Result<E, A>): A
  {
    match result
    case Err(_) => defaultValue
    case Ok(v) => v
  }

  lemma MapCases<E, A, B>(f: A -> B, e: E, v: A)
    ensures Map(f, Err(e)) == Err(e)
    ensures Map(f, Result<E, A>.Ok(v)) == Ok(f(v))
  {
  }

  /** Functor laws: mapping the identity changes nothing, and mapping a composition maps twice. */
  lemma MapIdentity<E, A>(r: Result<E, A>)
    ensures Map(x => x, r) == r
  {
  }

  lemma MapComposition<E, A, B, C>(f: A -> B, g: B -> C, r: Result<E, A>)
    ensures Map(x => g(f(x)), r) == Map(g, Map(f, r))
  {
  }

  /** Monad laws: `Ok` is a left and right identity of `flatMap`, and `flatMap` is associative. */
  lemma FlatMapLeftIdentity<E, A, B>(f: A -> Result<E, B>, a: A)
    ensures FlatMap(f, Ok(a)) == f(a)
  {
  }

  lemma FlatMapRightIdentity<E, A>(r: Result<E, A>)
    ensures FlatMap(x => Ok(x), r) == r
  {
  }

  lemma FlatMapAssociative<E, A, B, C>(f: A -> Result<E, B>, g: B -> Result<E, C>, r: Result<E, A>)
    ensures FlatMap(g, FlatMap(f, r)) == FlatMap(x => FlatMap(g, f(x)), r)
  {
  }

  /** An `Err` short-circuits every later step. */
  lemma FlatMapErr<E, A, B>(f: A -> Result<E, B>, e: E)
    ensures FlatMap(f, Err(e)) == Err(e)
  {
  }

  /** `map` is `flatMap` followed by `Ok`. */
  lemma MapIsFlatMapOk<E, A, B>(f: A -> B, r: Result<E, A>)
    ensures Map(f, r) == FlatMap(x => Ok(f(x)), r)
  {
  }

  lemma FlatMapToCases<E, A, B>(next: Result<E, B>, a: A, e: E)
    ensures FlatMapTo(next, Ok(a)) == next
    ensures FlatMapTo(next, Result<E, A>.Err(e)) == Err(e)
  {
  }

  lemma WithDefaultCases<E, A>(d: A, e: E, v: A)
    ensures WithDefault(d, Err(e)) == d
    ensures WithDefault(d, Result<E, A>.Ok(v)) == v
  {
  }

  /** On a success `withDefault` loses nothing: wrapping its value again gives the result back. */
  lemma WithDefaultRecovers<E, A>(d: A, r: Result<E, A>)
    ensures r.Ok? ==> Result<E, A>.Ok(WithDefault(d, r)) == r
    ensures r.Err? ==> WithDefault(d, r) == d
  {
  }
}
