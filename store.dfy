/** The per-store half of the dispatch protocol: a store's per-cycle
    bookkeeping (resolved flag, pending wait callback, waiting-on list), its
    listener list and its action table, with the operations the dispatcher
    and application code call on it. */
module Store {
  import opened Wrappers
  import opened ListenerList
  import opened ActionBindings
  import opened ForeignCalls

  /** The `Class` object that identifies a store to the dispatcher. */
  type StoreClass = nat
  type ListenerId = nat
  type CallbackId = nat
  type DispatcherId = nat
  /** The payload's data, passed through to the handler untouched. */
  type PayloadData = nat

  datatype Payload = Payload(actionType: string, data: PayloadData)

  /** The arguments of one call to the dispatcher's `waitFor`: the waiting
      store, the stores it waits for, and the callback to run afterwards. */
  datatype WaitRequest = WaitRequest(caller: StoreClass, stores: set<StoreClass>, callback: Option<CallbackId>)

  /** Calls the store makes into code it does not own, in the order made. */
  datatype Event =
    | HandlerInvoked(handler: HandlerId, data: PayloadData)
    | ListenerNotified(listener: ListenerId)
    | CallbackCalled(callback: CallbackId)
    | DispatcherWaitFor(dispatcher: DispatcherId, request: WaitRequest)

  /** The exception `handleAction` propagates when the bound handler throws
      (the reflective call wraps it). */
  datatype HandlerError = HandlerThrew(cause: Exc)

  /** How `notifyListeners` ends abnormally: a `RuntimeException` wrapping
      the last listener exception, or the trailing callback's own exception. */
  datatype NotifyError = ListenerThrew(cause: Exc) | CallbackThrew(exc: Exc)

  /** How `waitFor` ends abnormally: no dispatcher was ever set (a null
      dereference), or the dispatcher's `waitFor` threw. */
  datatype WaitError = NoDispatcher | DispatcherThrew(exc: Exc)

  /** The `onChanged` calls made on the listeners `ls`, in list order. */
  function Notified(ls: seq<ListenerId>): (r: seq<Event>)
  {
    if ls == [] then [] else Notified(ls[..|ls| - 1]) + [ListenerNotified(ls[|ls| - 1])]
  }

  /** Every listener is notified exactly once, and in list order. */
  lemma {:induction false} NotifiedInOrder(ls: seq<ListenerId>)
    ensures |Notified(ls)| == |ls|
    ensures forall i :: 0 <= i < |ls| ==> Notified(ls)[i] == ListenerNotified(ls[i])
  {
    if ls != [] {
      NotifiedInOrder(ls[..|ls| - 1]);
    }
  }

  /** The trailing callback's call, if there is a callback. */
  function CallbackEvents(callback: Option<CallbackId>): (r: seq<Event>)
  {
    if callback.Some? then [CallbackCalled(callback.value)] else []
  }

  /** The request the array form of `waitFor` hands to the dispatcher: the
      given stores collected into a set. */
  function WaitRequestFor(caller: StoreClass, stores: seq<StoreClass>, callback: Option<CallbackId>): (q: WaitRequest)
    ensures q.caller == caller && q.callback == callback
    ensures forall s :: s in q.stores <==> s in stores
  {
    WaitRequest(caller, (set s | s in stores), callback)
  }

  /** The dispatcher sees each store once: the request never holds more
      stores than were given, and exactly as many when none was repeated. */
  lemma {:induction false} WaitRequestDeduplicates(caller: StoreClass, stores: seq<StoreClass>, callback: Option<CallbackId>)
    ensures |WaitRequestFor(caller, stores, callback).stores| <= |stores|
    ensures NoDuplicates(stores) ==> |WaitRequestFor(caller, stores, callback).stores| == |stores|
  {
    if stores != [] {
      var rest := stores[1..];
      WaitRequestDeduplicates(caller, rest, callback);
      var all := WaitRequestFor(caller, stores, callback).stores;
      var tail := WaitRequestFor(caller, rest, callback).stores;
      assert stores == [stores[0]] + rest;
      assert all == {stores[0]} + tail;
      if NoDuplicates(stores) {
        assert stores[0] !in rest by {
          forall j | 0 <= j < |rest|
            ensures rest[j] != stores[0]
          {
            assert rest[j] == stores[j + 1];
          }
        }
        assert NoDuplicates(rest) by {
          forall i, j | 0 <= i < j < |rest|
            ensures rest[i] != rest[j]
          {
            assert rest[i] == stores[i + 1] && rest[j] == stores[j + 1];
          }
        }
        assert stores[0] !in tail;
      }
    }
  }

  /** Passing the same stores in another order, or with repeats, makes the
      same request. */
  lemma WaitRequestIgnoresOrder(caller: StoreClass, a: seq<StoreClass>, b: seq<StoreClass>, callback: Option<CallbackId>)
    requires forall s :: s in a <==> s in b
    ensures WaitRequestFor(caller, a, callback) == WaitRequestFor(caller, b, callback)
  {
    assert WaitRequestFor(caller, a, callback).stores == WaitRequestFor(caller, b, callback).stores;
  }

  class AbstractStore {
    const id: StoreClass
    var dispatcher: Option<DispatcherId>
    var resolved: bool
    var waitCallback: Option<CallbackId>
    var actionMap: ActionTable
    var listeners: seq<ListenerId>
    var waitingOn: seq<string>
    /** Every call made so far into listeners, callbacks, handlers and the
        dispatcher. */
    ghost var trace: seq<Event>

    /** The store's invariant: no listener is registered twice, and no
        action name in the table is empty. */
    ghost predicate Valid()
      reads this
    {
      NoDuplicates(listeners) && forall k :: k in actionMap ==> |k| > 0
    }

    /** The state a newly built store starts in, apart from its table. */
    ghost predicate Initial()
      reads this
    {
      dispatcher.None? && !resolved && waitCallback.None? && listeners == [] && waitingOn == [] && trace == []
    }

    constructor (id: StoreClass)
      ensures this.id == id && Initial() && actionMap == map[]
      ensures Valid()
    {
      this.id := id;
      dispatcher := None;
      resolved := false;
      waitCallback := None;
      actionMap := map[];
      listeners := [];
      waitingOn := [];
      trace := [];
    }

    /** Records `handler` for `actionType`, replacing any earlier entry.
        Only reached from `Create`, after the action name has been checked. */
    method BindAction(actionType: string, handler: HandlerId)
      requires Valid() && |actionType| > 0
      modifies this`actionMap
      ensures Valid()
      ensures actionMap == old(actionMap)[actionType := handler]
    {
      actionMap := actionMap[actionType := handler];
    }

    /** Sets (or, with `None`, clears) the dispatcher `waitFor` calls. */
    method SetDispatcher(d: Option<DispatcherId>)
      modifies this`dispatcher
      ensures dispatcher == d
    {
      dispatcher := d;
    }

    /** Runs the handler bound to the payload's type, if any, with the
        payload's data; `handlerOutcome` is how that call ends. Reports
        whether the type was bound; an unbound type changes nothing. */
    method HandleAction(payload: Payload, handlerOutcome: Outcome) returns (r: Result<bool, HandlerError>)
      modifies this`trace
      ensures payload.actionType !in actionMap ==> r == Success(false) && trace == old(trace)
      ensures payload.actionType in actionMap ==>
        trace == old(trace) + [HandlerInvoked(actionMap[payload.actionType], payload.data)]
      ensures payload.actionType in actionMap && handlerOutcome.Returned? ==> r == Success(true)
      ensures payload.actionType in actionMap && handlerOutcome.Threw? ==> r == Failure(HandlerThrew(handlerOutcome.exc))
    {
      if payload.actionType in actionMap {
        var handler := actionMap[payload.actionType];
        trace := trace + [HandlerInvoked(handler, payload.data)];
        if handlerOutcome.Threw? {
          return Failure(HandlerThrew(handlerOutcome.exc));
        }
        return Success(true);
      }
      return Success(false);
    }

    /** Clears the per-cycle state; listeners and the action table stay. */
    method Reset()
      modifies this`resolved, this`waitingOn, this`waitCallback
      ensures !resolved && waitingOn == [] && waitCallback.None?
      ensures listeners == old(listeners) && actionMap == old(actionMap)
    {
      resolved := false;
      waitingOn := [];
      waitCallback := None;
    }

    /** The stores this one waits on in the current cycle, in the order added. */
    function WaitingOnList(): (r: seq<string>)
      reads this
      ensures r == waitingOn
    {
      waitingOn
    }

    /** The continuation to run once the awaited stores resolve, if any. */
    function WaitCallback(): (r: Option<CallbackId>)
      reads this
      ensures r == waitCallback
    {
      waitCallback
    }

    method SetWaitCallback(callback: Option<CallbackId>)
      modifies this`waitCallback
      ensures WaitCallback() == callback
    {
      waitCallback := callback;
    }

    /** Calls every listener's `onChanged` in list order, whether or not
        earlier ones threw (`respond` gives how each call ends), then the
        callback if there is one (ending as `callbackOutcome` says). A
        callback exception propagates; otherwise the last listener
        exception, if any, is rethrown. */
    method NotifyListeners(callback: Option<CallbackId>, respond: ListenerId -> Outcome, callbackOutcome: Outcome)
      returns (r: Option<NotifyError>)
      modifies this`trace
      ensures trace == old(trace) + Notified(listeners) + CallbackEvents(callback)
      ensures callback.Some? && callbackOutcome.Threw? ==> r == Some(CallbackThrew(callbackOutcome.exc))
      ensures callback.None? || callbackOutcome.Returned? ==>
        match LastFailure(listeners, respond)
        case None => r.None?
        case Some(e) => r == Some(ListenerThrew(e))
    {
      var exception: Option<Exc> := None;
      var i := 0;
      while i < |listeners|
        invariant 0 <= i <= |listeners|
        invariant trace == old(trace) + Notified(listeners[..i])
        invariant exception == LastFailure(listeners[..i], respond)
      {
        assert listeners[..i + 1][..i] == listeners[..i];
        trace := trace + [ListenerNotified(listeners[i])];
        match respond(listeners[i]) {
          case Threw(e) => exception := Some(e);
          case Returned =>
        }
        i := i + 1;
      }
      assert listeners[..i] == listeners;
      if callback.Some? {
        trace := trace + [CallbackCalled(callback.value)];
        if callbackOutcome.Threw? {
          return Some(CallbackThrew(callbackOutcome.exc));
        }
      }
      if exception.Some? {
        return Some(ListenerThrew(exception.value));
      }
      return None;
    }

    /** `notifyListeners()` without a callback. */
    method NotifyListenersWithoutCallback(respond: ListenerId -> Outcome) returns (r: Option<NotifyError>)
      modifies this`trace
      ensures trace == old(trace) + Notified(listeners)
      ensures match LastFailure(listeners, respond)
        case None => r.None?
        case Some(e) => r == Some(ListenerThrew(e))
    {
      r := NotifyListeners(None, respond, Returned);
    }

    /** Whether the store has finished the current cycle. */
    function IsResolved(): (r: bool)
      reads this
      ensures r == resolved
    {
      resolved
    }

    /** Sets the resolved flag and returns the value assigned. */
    method SetResolved(b: bool) returns (r: bool)
      modifies this`resolved
      ensures IsResolved() == b && r == b
    {
      resolved := b;
      r := resolved;
    }

    /** Appends `names`, in order and with any repeats, to the waiting-on
        list. */
    method AddToWaitingOnList(names: seq<string>)
      modifies this`waitingOn
      ensures waitingOn == old(waitingOn) + names
    {
      waitingOn := waitingOn + names;
    }

    /** Moves `l` to the end of the listener list, adding it if absent;
        always reports success. */
    method AddListener(l: ListenerId) returns (r: bool)
      requires Valid()
      modifies this`listeners
      ensures Valid()
      ensures listeners == RemoveFirst(old(listeners), l) + [l]
      ensures r
    {
      RemoveListener(l);
      listeners := listeners + [l];
      AddMovesToEnd(old(listeners), l);
      r := true;
    }

    /** Removes `l` from the listener list if it is there. */
    method RemoveListener(l: ListenerId)
      requires Valid()
      modifies this`listeners
      ensures Valid()
      ensures listeners == RemoveFirst(old(listeners), l)
    {
      RemoveFirstKeepsDistinct(listeners, l);
      listeners := RemoveFirst(listeners, l);
    }

    /** Asks the dispatcher to suspend this store until `stores` resolve,
        then run `callback`; `dispatcherOutcome` is how the dispatcher's call
        ends. Without a dispatcher nothing is called. */
    method WaitFor(stores: seq<StoreClass>, callback: Option<CallbackId>, dispatcherOutcome: Outcome)
      returns (r: Option<WaitError>)
      modifies this`trace
      ensures dispatcher.None? ==> r == Some(NoDispatcher) && trace == old(trace)
      ensures dispatcher.Some? ==>
        trace == old(trace) + [DispatcherWaitFor(dispatcher.value, WaitRequestFor(id, stores, callback))]
      ensures dispatcher.Some? && dispatcherOutcome.Returned? ==> r.None?
      ensures dispatcher.Some? && dispatcherOutcome.Threw? ==> r == Some(DispatcherThrew(dispatcherOutcome.exc))
    {
      var request := WaitRequestFor(id, stores, callback);
      if dispatcher.None? {
        return Some(NoDispatcher);
      }
      trace := trace + [DispatcherWaitFor(dispatcher.value, request)];
      if dispatcherOutcome.Threw? {
        return Some(DispatcherThrew(dispatcherOutcome.exc));
      }
      return None;
    }

    /** The single-store form: the same as waiting for `[store]`, so the
        dispatcher is asked to wait for exactly `{store}`. */
    method WaitForStore(store: StoreClass, callback: Option<CallbackId>, dispatcherOutcome: Outcome)
      returns (r: Option<WaitError>)
      modifies this`trace
      ensures dispatcher.None? ==> r == Some(NoDispatcher) && trace == old(trace)
      ensures dispatcher.Some? ==>
        trace == old(trace) + [DispatcherWaitFor(dispatcher.value, WaitRequest(id, {store}, callback))]
      ensures dispatcher.Some? && dispatcherOutcome.Returned? ==> r.None?
      ensures dispatcher.Some? && dispatcherOutcome.Threw? ==> r == Some(DispatcherThrew(dispatcherOutcome.exc))
    {
      r := WaitFor([store], callback, dispatcherOutcome);
      assert WaitRequestFor(id, [store], callback).stores == {store};
    }
  }

  /** Builds a store: checks each annotated method in the given order and
      binds it, failing on the first one with an empty action name or not
      exactly one parameter. On success every other field is in its initial
      state and the table is the one `BindAll` describes. */
  method Create(id: StoreClass, decls: seq<BindingDecl>) returns (r: Result<AbstractStore, BindError>)
    ensures r.Success? <==> BindAll(decls).Success?
    ensures r.Failure? ==> r.error == BindAll(decls).error
    ensures r.Success? ==> fresh(r.value) && r.value.id == id && r.value.Initial()
    ensures r.Success? ==> r.value.Valid() && r.value.actionMap == BindAll(decls).value
  {
    var store := new AbstractStore(id);
    var i := 0;
    while i < |decls|
      invariant 0 <= i <= |decls|
      invariant fresh(store) && store.id == id && store.Initial()
      invariant BindFrom(store.actionMap, decls[i..]) == BindAll(decls)
      invariant store.Valid()
    {
      var d := decls[i];
      assert decls[i..][0] == d && decls[i..][1..] == decls[i + 1..];
      if |d.action| == 0 {
        return Failure(EmptyActionName);
      }
      if d.arity != 1 {
        return Failure(NotSingleArgument(d.methodName));
      }
      store.BindAction(d.action, d.handler);
      i := i + 1;
    }
    r := Success(store);
  }
}
