# Fluxxan store model

A Dafny model of `AbstractStoreImpl`, the store half of Fluxxan's Flux-style
dispatch protocol. A store holds a per-cycle `resolved` flag, a pending wait
callback, a waiting-on list of store names, an ordered listener list, and an
action-name → handler table built once when the store is constructed. The
dispatcher resets every store before it delivers an action. It calls
`handleAction` on each store. A store's handler may ask the dispatcher to
wait for other stores. A store tells its listeners when its state changes.

Layout:

- `wrappers.dfy`: `Option` and `Result`. These stand for Java's `null` and for thrown exceptions.
- `listeners.dfy` (`ListenerList`): `List.remove(Object)` on a sequence, plus the
  lemmas behind `addListener`/`removeListener`.
- `bindings.dfy` (`ActionBindings`): the checks the constructor makes on each
  annotated method, and the table the binding loop builds.
- `foreign_calls.dfy` (`ForeignCalls`): how a call into foreign code ends (it returns, or it throws), and
  which exception `notifyListeners` keeps.
- `store.dfy` (`Store`): the class `AbstractStore` with the source's fields and
  operations, and the factory `Create` for the throwing constructor.

Calls into code the store does not own are the listener's `onChanged`, the
callback's `call`, the reflective handler call and the dispatcher's `waitFor`.
Each such call is appended to a ghost `trace`. How each call ends is a
parameter: a `respond` function for listeners, and an `Outcome` for the other calls.

Three behaviours of the code that a reader might not expect:

- A second binding for the same action name overwrites the first. It is not an error.
- The store does not reject a wait on itself. It passes the request to the dispatcher.
- If the trailing callback of `notifyListeners` throws, its exception propagates. The
  pending listener exception is then lost.

## Model

| member | source | states |
|---|---|---|
| ListenerList.RemoveFirst | droidfluxlib/src/main/java/com/whisppa/droidfluxlib/impl/AbstractStoreImpl.java:166-169 | removing a listener deletes exactly its first occurrence, keeping the elements before and after it in order; an absent listener leaves the list unchanged |
| ListenerList.RemoveFirstKeepsOthers | droidfluxlib/src/main/java/com/whisppa/droidfluxlib/impl/AbstractStoreImpl.java:166-169 | removal keeps every other listener and shortens the list by one exactly when the listener was present |
| ListenerList.RemoveFirstKeepsDistinct | droidfluxlib/src/main/java/com/whisppa/droidfluxlib/impl/AbstractStoreImpl.java:166-169 | on a duplicate-free list, removal leaves the listener absent and the list duplicate-free |
| ListenerList.AddMovesToEnd | droidfluxlib/src/main/java/com/whisppa/droidfluxlib/impl/AbstractStoreImpl.java:160-164 | after remove-then-add, the listener is last, the others keep their relative order, membership is the old one plus the listener, and a duplicate-free list stays duplicate-free |
| ListenerList.AddIsIdempotent | droidfluxlib/src/main/java/com/whisppa/droidfluxlib/impl/AbstractStoreImpl.java:160-164 | adding the same listener twice gives the same list as adding it once |
| ActionBindings.CheckBinding | droidfluxlib/src/main/java/com/whisppa/droidfluxlib/impl/AbstractStoreImpl.java:55-61 | a method is accepted exactly when its action name is non-empty and it takes one parameter; an empty name is reported first, otherwise a wrong parameter count names the method |
| ActionBindings.BindFrom | droidfluxlib/src/main/java/com/whisppa/droidfluxlib/impl/AbstractStoreImpl.java:46-69 | the loop never removes a key, every entry it adds has a non-empty name, and a failure carries the error of one of the declarations |
| ActionBindings.BindAll | droidfluxlib/src/main/java/com/whisppa/droidfluxlib/impl/AbstractStoreImpl.java:41-69 | a built table has no empty action name; a failure is the error of one of the declared methods |
| ActionBindings.BindFromOutcome | droidfluxlib/src/main/java/com/whisppa/droidfluxlib/impl/AbstractStoreImpl.java:46-69 | binding succeeds exactly when every annotated method has a non-empty action name and one parameter; otherwise it fails with the error of the first offending method, all earlier ones being acceptable |
| ActionBindings.BindFromKeys | droidfluxlib/src/main/java/com/whisppa/droidfluxlib/impl/AbstractStoreImpl.java:46-69 | the built table's keys are the earlier keys plus every bound action name |
| ActionBindings.BindFromLastWins | droidfluxlib/src/main/java/com/whisppa/droidfluxlib/impl/AbstractStoreImpl.java:156-158 | an action name bound more than once maps to the handler of its last declaration: a later binding overwrites an earlier one |
| ActionBindings.BindFromKeepsUntouched | droidfluxlib/src/main/java/com/whisppa/droidfluxlib/impl/AbstractStoreImpl.java:156-158 | an entry that no declaration names keeps its handler |
| ActionBindings.BoundActionsNonEmpty | droidfluxlib/src/main/java/com/whisppa/droidfluxlib/impl/AbstractStoreImpl.java:55-56 | a successfully built table binds exactly the declared names, none of them empty |
| ForeignCalls.LastFailure | droidfluxlib/src/main/java/com/whisppa/droidfluxlib/impl/AbstractStoreImpl.java:117-126 | the kept exception is absent exactly when every listener returned, and otherwise is the one thrown by the last listener that threw |
| Store.NotifiedInOrder | droidfluxlib/src/main/java/com/whisppa/droidfluxlib/impl/AbstractStoreImpl.java:118-126 | the notification calls name every listener exactly once, in list order |
| Store.WaitRequestFor | droidfluxlib/src/main/java/com/whisppa/droidfluxlib/impl/AbstractStoreImpl.java:172-176 | the dispatcher request carries the caller's own id, the caller's callback and exactly the given stores as a set |
| Store.WaitRequestDeduplicates | droidfluxlib/src/main/java/com/whisppa/droidfluxlib/impl/AbstractStoreImpl.java:173 | the request holds at most as many stores as were given, and exactly as many when none was repeated |
| Store.WaitRequestIgnoresOrder | droidfluxlib/src/main/java/com/whisppa/droidfluxlib/impl/AbstractStoreImpl.java:173 | two store arrays with the same members give the same request, whatever their order and repeats |
| Store.AbstractStore.constructor | droidfluxlib/src/main/java/com/whisppa/droidfluxlib/impl/AbstractStoreImpl.java:33-43 | a new store is unresolved, has no wait callback, no dispatcher, no listeners, an empty waiting-on list and an empty table |
| Store.AbstractStore.BindAction | droidfluxlib/src/main/java/com/whisppa/droidfluxlib/impl/AbstractStoreImpl.java:156-158 | the table maps the action name to the handler, replacing any earlier entry, and is otherwise unchanged |
| Store.Create | droidfluxlib/src/main/java/com/whisppa/droidfluxlib/impl/AbstractStoreImpl.java:41-70 | construction fails exactly when the binding loop rejects a method, with that error; otherwise a fresh store in its initial state whose table is the built one and whose invariant holds |
| Store.AbstractStore.SetDispatcher | droidfluxlib/src/main/java/com/whisppa/droidfluxlib/impl/AbstractStoreImpl.java:72-75 | the store's dispatcher becomes the given one |
| Store.AbstractStore.HandleAction | droidfluxlib/src/main/java/com/whisppa/droidfluxlib/impl/AbstractStoreImpl.java:77-90 | an unbound type returns false and changes nothing; a bound type invokes exactly that type's handler with the payload data once, then returns true or propagates the handler's exception |
| Store.AbstractStore.Reset | droidfluxlib/src/main/java/com/whisppa/droidfluxlib/impl/AbstractStoreImpl.java:92-97 | afterwards the store is unresolved, the waiting-on list is empty and there is no wait callback; listeners and the table are unchanged |
| Store.AbstractStore.WaitingOnList | droidfluxlib/src/main/java/com/whisppa/droidfluxlib/impl/AbstractStoreImpl.java:99-102 | returns the current waiting-on list |
| Store.AbstractStore.WaitCallback | droidfluxlib/src/main/java/com/whisppa/droidfluxlib/impl/AbstractStoreImpl.java:104-107 | returns the current wait callback, none if unset |
| Store.AbstractStore.SetWaitCallback | droidfluxlib/src/main/java/com/whisppa/droidfluxlib/impl/AbstractStoreImpl.java:109-112 | the wait callback read back is the one set |
| Store.AbstractStore.NotifyListeners | droidfluxlib/src/main/java/com/whisppa/droidfluxlib/impl/AbstractStoreImpl.java:114-134 | every listener is called once in list order even when some throw, then the callback once if present; a callback exception propagates, else the last listener exception is rethrown, else it completes normally |
| Store.AbstractStore.NotifyListenersWithoutCallback | droidfluxlib/src/main/java/com/whisppa/droidfluxlib/impl/AbstractStoreImpl.java:136-139 | the same fan-out with no callback: all listeners in order, ending with the last listener exception if any |
| Store.AbstractStore.IsResolved | droidfluxlib/src/main/java/com/whisppa/droidfluxlib/impl/AbstractStoreImpl.java:141-144 | returns the current resolved flag |
| Store.AbstractStore.SetResolved | droidfluxlib/src/main/java/com/whisppa/droidfluxlib/impl/AbstractStoreImpl.java:141-149 | afterwards isResolved returns the value set, and the call returns that value; the new state depends only on the argument, so repeating the call changes nothing |
| Store.AbstractStore.AddToWaitingOnList | droidfluxlib/src/main/java/com/whisppa/droidfluxlib/impl/AbstractStoreImpl.java:151-154 | the names are appended in order, repeats kept, earlier entries untouched |
| Store.AbstractStore.AddListener | droidfluxlib/src/main/java/com/whisppa/droidfluxlib/impl/AbstractStoreImpl.java:160-164 | the new list is the old one with the listener removed and appended at the end; the call returns true; the no-duplicates invariant is kept |
| Store.AbstractStore.RemoveListener | droidfluxlib/src/main/java/com/whisppa/droidfluxlib/impl/AbstractStoreImpl.java:166-169 | the new list is the old one without the listener's first occurrence; the no-duplicates invariant is kept |
| Store.AbstractStore.WaitFor | droidfluxlib/src/main/java/com/whisppa/droidfluxlib/impl/AbstractStoreImpl.java:171-176 | with a dispatcher, exactly one dispatcher call is made with the caller's id, the de-duplicated stores and the callback, and its exception propagates; without one, nothing is called and the call fails |
| Store.AbstractStore.WaitForStore | droidfluxlib/src/main/java/com/whisppa/droidfluxlib/impl/AbstractStoreImpl.java:178-181 | behaves as the array form on the one-element array, so the dispatcher is asked to wait for exactly that store |

## Left out

- Reflection. The scan of public methods for `@BindAction` annotations is not modelled. Its result is the input sequence of `BindingDecl`s, in a given order, because `getMethods` fixes none.
- `Method.invoke` failures other than the handler's own exception are not modelled. These are access and argument errors.
- Thread safety. The synchronized lists, the concurrent map and the `synchronized` block are not modelled. The store is modelled sequentially.
- Logging with `Log.e` is not modelled. It has no observable effect on the store.
- Callbacks into the store from a handler, a listener or the dispatcher are not modelled. Their effects on the store's fields are not captured. Only the call is recorded in the trace.
- Reentrant listener changes are not modelled. A listener that adds or removes a listener during `onChanged` changes the list under the iterator. Depending on the runtime and on where the change leaves the iterator, the loop either stops early and silently skips the remaining listeners, or `it.next()` throws a `ConcurrentModificationException` on every pass; that exception is caught, so the loop never ends. The model's listener list is fixed during notification.
- A listener's `Error` is not modelled. Such a throwable is not caught by the loop and would escape at once.
- The `RuntimeException` around the listener exception is the `ListenerThrew` constructor.
- `null` arguments are not modelled, except for `setDispatcher(null)`, which clears the dispatcher. A null payload type makes the lookup throw. A null store array makes `waitFor` throw. A null collection makes `addToWaitingOnList` throw. A null listener is accepted by `addListener`; the null dereference happens later, at the listener's `onChanged` call, where it is caught and kept as the listener exception.
- `Store.AbstractStore.WaitingOnList` returns the waiting-on list as a value. The source returns the live list, which callers could mutate.
- The dispatcher's side of `waitFor` is not part of this model. This covers wait resolution, cycle detection and the dispatch loop.
- The abstract `getState()` and the store's own state are not modelled. They are opaque to this class.
