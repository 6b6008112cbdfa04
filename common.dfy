/** The optional value used for nullable columns and missing request fields. */
module Common {
  datatype Option<+T> = None | Some(value: T)

  /** The elements a list holds, as a set. */
  function Elems<T(!new)>(s: seq<T>): (r: set<T>)
    ensures forall x :: x in r <==> x in s
  {
    set x | x in s
  }

  /** Moving one element from the work list to the finished set keeps their
      union and keeps them apart. */
  lemma MoveOne<T>(todo: set<T>, done: set<T>, x: T)
    requires x in todo && todo !! done
    ensures (todo - {x}) + (done + {x}) == todo + done
    ensures (todo - {x}) !! (done + {x})
  {
  }
}
