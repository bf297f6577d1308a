/** Small helpers shared by every module: an optional value and sequence flattening. */
module Common {

  /** A value that may be absent; stands for a Java reference that may be null. */
  datatype Option<+T> = None | Some(value: T)

  /** Concatenation of a sequence of byte strings, in order. */
  function Flatten<T>(xs: seq<seq<T>>): (r: seq<T>)
    decreases |xs|
  {
    if |xs| == 0 then [] else xs[0] + Flatten(xs[1..])
  }

  /** `suffix` is what remains of `whole` after dropping a prefix. */
  predicate IsSuffix<T(==)>(suffix: seq<T>, whole: seq<T>)
  {
    |suffix| <= |whole| && whole[|whole| - |suffix|..] == suffix
  }

  lemma FlattenCons<T>(x: seq<T>, xs: seq<seq<T>>)
    ensures Flatten([x] + xs) == x + Flatten(xs)
  {
    assert ([x] + xs)[1..] == xs;
  }

  /** Dropping the first part of a concatenation leaves the second. */
  lemma DropPrefix<T>(a: seq<T>, b: seq<T>)
    ensures (a + b)[|a|..] == b
  {
  }
}
