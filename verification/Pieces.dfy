/** A byte stream cut into reads, and the option type. */
module Pieces {

  datatype Option<+T> = None | Some(value: T)

  /** The stream that the reads together deliver. */
  function Concat<T>(pieces: seq<seq<T>>): seq<T> {
    if pieces == [] then [] else Concat(pieces[..|pieces| - 1]) + pieces[|pieces| - 1]
  }

  lemma {:induction false} ConcatFront<T>(pieces: seq<seq<T>>)
    requires pieces != []
    ensures Concat(pieces) == pieces[0] + Concat(pieces[1..])
  {
    var last := |pieces| - 1;
    if last == 0 {
      assert [] + pieces[0] == pieces[0] + [];
    } else {
      ConcatFront(pieces[..last]);
      assert pieces[..last][1..] == pieces[1..][..last - 1];
      var middle := Concat(pieces[1..][..last - 1]);
      assert pieces[0] + middle + pieces[last] == pieces[0] + (middle + pieces[last]);
    }
  }
}
