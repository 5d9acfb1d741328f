/** The optional value returned by intersection tests and by ray colouring. */
module Wrappers {

  datatype Option<+T> = None | Some(value: T) {

    /** `Option::or`: present when either side is, and then one of the two, this one
        taking precedence. */
    function Or(other: Option<T>): (r: Option<T>)
      ensures r.Some? <==> Some? || other.Some?
      ensures r == this || r == other
      ensures Some? ==> r == this
    {
      if Some? then this else other
    }
  }

  /** `None` is a two-sided identity of `or`. */
  lemma OrNoneIdentity<T>(a: Option<T>)
    ensures a.Or(None) == a && None.Or(a) == a
  {
  }

  /** Chained `or`s keep the first present value however they are grouped. */
  lemma OrAssociative<T>(a: Option<T>, b: Option<T>, c: Option<T>)
    ensures a.Or(b).Or(c) == a.Or(b.Or(c))
  {
  }
}
