/**
 The `Maybe` type of the application: `Just` a value or the single `Nothing`,
 built from JavaScript values that may be `null` or `undefined`.
 */
module MaybeMonad {

  datatype Maybe<+A> = Just(value: A) | Nothing

  /** A JavaScript value of type `A | null`. */
  datatype Nullable<+A> = Null | NonNull(value: A)

  /** A JavaScript value of type `A | undefined`. */
  datatype Undefinable<+A> = Undefined | Defined(value: A)

  /** `fromNull(value)`: `null` becomes `Nothing`, anything else is wrapped. */
  function FromNull<A>(value: Nullable<A>): Maybe<A>
  {
    match value
    case Null => Nothing
    case NonNull(v) => Just(v)
  }

  /** `fromUndefined(value)`: `undefined` becomes `Nothing`, anything else is wrapped. */
  function FromUndefined<A>(value: Undefinable<A>): Maybe<A>
  {
    match value
    case Undefined => Nothing
    case Defined(v) => Just(v)
  }

  /** `map(mapper)(maybe)`. */
  function Map<A, B>(mapper: A -> B, maybe: Maybe<A>): Maybe<B>
  {
    match maybe
    case Nothing => Nothing
    case Just(v) => Just(mapper(v))
  }

  /** `flatMap(mapper)(maybe)`. */
  function FlatMap<A, B>(mapper: A -> Maybe<B>, maybe: Maybe<A>): Maybe<B>
  {
    match maybe
    case Nothing => Nothing
    case Just(v) => mapper(v)
  }

  /** `withDefault(defaultValue)(maybe)`. */
  function WithDefault<A>(defaultValue: A, maybe: Maybe<A>): A
  {
    match maybe
    case Nothing => defaultValue
    case Just(v) => v
  }

  /** The JavaScript value a `Maybe` stands for, with `Nothing` read as `null`. */
  function ToNullable<A>(maybe: Maybe<A>): Nullable<A>
  {
    match maybe
    case Nothing => Null
    case Just(v) => NonNull(v)
  }

  /** ... and with `Nothing` read as `undefined`. */
  function ToUndefinable<A>(maybe: Maybe<A>): Undefinable<A>
  {
    match maybe
    case Nothing => Undefined
    case Just(v) => Defined(v)
  }

  lemma FromNullCases<A>(v: A)
    ensures FromNull<A>(Null) == Nothing
    ensures FromNull(NonNull(v)) == Just(v)
  {
  }

  lemma FromUndefinedCases<A>(v: A)
    ensures FromUndefined<A>(Undefined) == Nothing
    ensures FromUndefined(Defined(v)) == Just(v)
  {
  }

  /** `fromNull` loses nothing: it is a bijection between nullable values and `Maybe`s. */
  lemma FromNullRoundTrip<A>(x: Nullable<A>, m: Maybe<A>)
    ensures ToNullable(FromNull(x)) == x
    ensures FromNull(ToNullable(m)) == m
  {
  }

  lemma FromUndefinedRoundTrip<A>(x: Undefinable<A>, m: Maybe<A>)
    ensures ToUndefinable(FromUndefined(x)) == x
    ensures FromUndefined(ToUndefinable(m)) == m
  {
  }

  lemma MapCases<A, B>(f: A -> B, v: A)
    ensures Map(f, Nothing) == Nothing
    ensures Map(f, Just(v)) == Just(f(v))
  {
  }

  /** Functor laws. */
  lemma MapIdentity<A>(m: Maybe<A>)
    ensures Map(x => x, m) == m
  {
  }

  lemma MapComposition<A, B, C>(f: A -> B, g: B -> C, m: Maybe<A>)
    ensures Map(x => g(f(x)), m) == Map(g, Map(f, m))
  {
  }

  /** Monad laws, and `Nothing` stays `Nothing`. */
  lemma FlatMapLeftIdentity<A, B>(f: A -> Maybe<B>, a: A)
    ensures FlatMap(f, Just(a)) == f(a)
  {
  }

  lemma FlatMapRightIdentity<A>(m: Maybe<A>)
    ensures FlatMap(x => Just(x), m) == m
  {
  }

  lemma FlatMapAssociative<A, B, C>(f: A -> Maybe<B>, g: B -> Maybe<C>, m: Maybe<A>)
    ensures FlatMap(g, FlatMap(f, m)) == FlatMap(x => FlatMap(g, f(x)), m)
  {
  }

  lemma FlatMapNothing<A, B>(f: A -> Maybe<B>)
    ensures FlatMap(f, Nothing) == Nothing
  {
  }

  /** Defaulting a converted nullable gives the default exactly for `null`. */
  lemma WithDefaultFromNull<A>(d: A, x: Nullable<A>)
    ensures WithDefault(d, FromNull(x)) == if x.Null? then d else x.value
  {
  }

  lemma WithDefaultCases<A>(d: A, v: A)
    ensures WithDefault(d, Nothing) == d
    ensures WithDefault(d, Just(v)) == v
  {
  }
}
