/**
 Lists that are picked out of a longer one: read from the front, each element gives nothing or exactly
 the next item.
 */
module Picking {

  ghost predicate ExactlyFrom<E, T(!new)>(source: seq<E>, gives: (E, T) -> bool, r: seq<T>)
    decreases |source|
  {
    if source == [] then r == []
    else
      || (ExactlyFrom(source[1..], gives, r) && forall t :: !gives(source[0], t))
      || (r != [] && ExactlyFrom(source[1..], gives, r[1..]) && forall t :: gives(source[0], t) <==> t == r[0])
  }

  lemma PickedNone<E, T(!new)>(source: seq<E>, gives: (E, T) -> bool)
    requires source == []
    ensures ExactlyFrom(source, gives, [])
  {
  }

  /** What the first element gives, at most one item, and then what the others give. */
  lemma PickedFirst<E, T(!new)>(source: seq<E>, gives: (E, T) -> bool, first: seq<T>, rest: seq<T>)
    requires source != [] && |first| <= 1
    requires forall t :: t in first <==> gives(source[0], t)
    requires ExactlyFrom(source[1..], gives, rest)
    ensures ExactlyFrom(source, gives, first + rest)
  {
    if first == [] {
      assert first + rest == rest;
    } else {
      assert (first + rest)[1..] == rest && first[0] in first;
    }
  }
}
