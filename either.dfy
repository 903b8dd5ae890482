/**
 The part of the `Either` type of the fp-ts library (version 1, with `Left`
 and `Right` classes) that the header parser uses: `chain` and `map`. The
 library itself is not part of this model; this datatype is written so that
 `Chain` and `Map` behave as the library documents, which is what
 `flatMap` and `map` of the application's own `Result` do.
 */
module EitherMonad {
  import ResultMonad

  datatype Either<+L, +R> = Left(left: L) | Right(right: R) {

    /** `either.chain(f)`: a `Left` is passed on, a `Right` continues with `f`. */
    function Chain<U>(f: R -> Either<L, U>): Either<L, U>
    {
      match this
      case Left(l) => Left(l)
      case Right(r) => f(r)
    }

    /** `either.map(f)`: a `Left` is passed on, a `Right` has its value mapped. */
    function Map<U>(f: R -> U): Either<L, U>
    {
      match this
      case Left(l) => Left(l)
      case Right(r) => Right(f(r))
    }
  }

  /** Reading an `Either` as a `Result`: `Left` is the failure. */
  function ToResult<L, R>(e: Either<L, R>): ResultMonad.Result<L, R>
  {
    match e
    case Left(l) => ResultMonad.Err(l)
    case Right(r) => ResultMonad.Ok(r)
  }

  /** `chain` agrees with `Result.flatMap` under that reading... */
  lemma ChainIsFlatMap<L, R, U>(e: Either<L, R>, f: R -> Either<L, U>)
    ensures ToResult(e.Chain(f)) == ResultMonad.FlatMap(x => ToResult(f(x)), ToResult(e))
  {
  }

  /** ... and `map` with `Result.map`. */
  lemma MapIsResultMap<L, R, U>(e: Either<L, R>, f: R -> U)
    ensures ToResult(e.Map(f)) == ResultMonad.Map(f, ToResult(e))
  {
  }

  /** In a chain the first `Left` wins: nothing after it is consulted. */
  lemma ChainLeftWins<L, R, U>(l: L, f: R -> Either<L, U>)
    ensures Either<L, R>.Left(l).Chain(f) == Left(l)
  {
  }

  lemma ChainAssociative<L, R, U, W>(e: Either<L, R>, f: R -> Either<L, U>, g: U -> Either<L, W>)
    ensures e.Chain(f).Chain(g) == e.Chain(x => f(x).Chain(g))
  {
  }
}
