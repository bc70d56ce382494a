/** A nullable reference, as the controller's `timerInterval` and
    `timerWindow` globals are: either nothing or one handle. */
module Optional {

  datatype Option<T> = None | Some(value: T)

  /** The handles an optional reference points at: none or exactly one. */
  function Elements<T>(o: Option<T>): (r: set<T>)
    ensures o.None? <==> r == {}
    ensures o.Some? ==> r == {o.value}
    ensures |r| <= 1
  {
    match o
    case None => {}
    case Some(x) => {x}
  }
}
