/** Failure-carrying wrappers shared by the whole model. */
module Results {

  /** A value that may be absent. */
  datatype Option<+T> = None | Some(value: T)

  /** The outcome of an operation that can be refused with an error. */
  datatype Result<+T, +E> = Success(value: T) | Failure(error: E)

  /** The present values, in order. */
  function Somes<T(!new)>(s: seq<Option<T>>): (r: seq<T>)
    ensures |r| <= |s|
    ensures forall x :: x in r <==> Some(x) in s
    ensures (forall o :: o in s ==> o.Some?) ==> |r| == |s| && forall i :: 0 <= i < |s| ==> s[i] == Some(r[i])
  {
    if |s| == 0 then []
    else
      assert forall o :: o in s <==> o == s[0] || o in s[1..];
      (if s[0].Some? then [s[0].value] else []) + Somes(s[1..])
  }

  /** Dropping the absent values keeps the order of the present ones: the
      values of a joined list are the joined values. */
  lemma {:induction false} SomesConcat<T(!new)>(s: seq<Option<T>>, t: seq<Option<T>>)
    ensures Somes(s + t) == Somes(s) + Somes(t)
    decreases |s|
  {
    if |s| == 0 {
      assert s + t == t;
    } else {
      assert (s + t)[0] == s[0];
      assert (s + t)[1..] == s[1..] + t;
      SomesConcat(s[1..], t);
    }
  }
}
