/** What happens when the store calls out to code it does not own (a
    listener's `onChanged`, a callback, a bound handler, the dispatcher):
    the call returns normally or throws an exception. */
module ForeignCalls {
  import opened Wrappers

  /** Identity of a thrown exception. */
  type Exc = nat

  datatype Outcome = Returned | Threw(exc: Exc)

  /** The exception `notifyListeners` keeps after calling each listener of
      `ls` in turn, where `respond` gives how each listener's `onChanged`
      ends: none if every call returned, otherwise the one thrown by the
      last listener that threw. */
  function LastFailure<L>(ls: seq<L>, respond: L -> Outcome): (r: Option<Exc>)
    ensures r.None? <==> forall i :: 0 <= i < |ls| ==> respond(ls[i]).Returned?
    ensures r.Some? ==>
      exists i :: 0 <= i < |ls| && respond(ls[i]) == Threw(r.value)
        && forall j :: i < j < |ls| ==> respond(ls[j]).Returned?
  {
    if ls == [] then None
    else match respond(ls[|ls| - 1])
      case Threw(e) => Some(e)
      case Returned => LastFailure(ls[..|ls| - 1], respond)
  }
}
