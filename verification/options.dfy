/** The optional value the parser returns: Python's `None` or a record. */
module Options {

  datatype Option<+T> = None | Some(value: T)

  /** The values `f` produces for the elements of `xs`, in order, skipping the `None`s. */
  function FilterMap<A, B>(xs: seq<A>, f: A -> Option<B>): (ys: seq<B>)
    ensures |ys| <= |xs|
  {
    if xs == [] then []
    else
      var prev := FilterMap(xs[..|xs| - 1], f);
      match f(xs[|xs| - 1])
      case None => prev
      case Some(y) => prev + [y]
  }

  /** A value is in the result exactly when `f` produces it for some element. */
  lemma {:induction false} FilterMapMembers<A, B>(xs: seq<A>, f: A -> Option<B>)
    ensures forall y :: y in FilterMap(xs, f) ==> exists i :: 0 <= i < |xs| && f(xs[i]) == Some(y)
    ensures forall i :: 0 <= i < |xs| && f(xs[i]).Some? ==> f(xs[i]).value in FilterMap(xs, f)
  {
    if xs != [] {
      var n := |xs| - 1;
      var init := xs[..n];
      var prev := FilterMap(init, f);
      FilterMapMembers(init, f);
      forall y | y in FilterMap(xs, f)
        ensures exists i :: 0 <= i < |xs| && f(xs[i]) == Some(y)
      {
        if y in prev {
          var i :| 0 <= i < |init| && f(init[i]) == Some(y);
          assert init[i] == xs[i];
        } else {
          assert f(xs[n]) == Some(y);
        }
      }
      forall i | 0 <= i < |xs| && f(xs[i]).Some?
        ensures f(xs[i]).value in FilterMap(xs, f)
      {
        if i < n {
          assert init[i] == xs[i];
        }
      }
    }
  }

  /** Filtering two sequences one after the other: the order of the input is kept. */
  lemma {:induction false} FilterMapAppend<A, B>(xs: seq<A>, xs': seq<A>, f: A -> Option<B>)
    ensures FilterMap(xs + xs', f) == FilterMap(xs, f) + FilterMap(xs', f)
  {
    if xs' == [] {
      assert xs + xs' == xs;
    } else {
      var init := xs'[..|xs'| - 1];
      assert (xs + xs')[..|xs + xs'| - 1] == xs + init;
      assert (xs + xs')[|xs + xs'| - 1] == xs'[|xs'| - 1];
      FilterMapAppend(xs, init, f);
    }
  }
}
