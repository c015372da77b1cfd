/** The action table a store builds once, at construction, from the public
    methods that carry a `@BindAction` annotation. Each discovered method is
    a `BindingDecl`; the table maps an action name to the handler bound to it. */
module ActionBindings {
  import opened Wrappers

  /** Identity of a bound handler method. */
  type HandlerId = nat

  /** One annotated method: its name, the annotation's action name, its
      parameter count and the handler it stands for. */
  datatype BindingDecl = BindingDecl(methodName: string, action: string, arity: nat, handler: HandlerId)

  /** Why construction fails: `IllegalArgumentException` for an empty action
      name, `InvalidParameterException` (naming the method) for a method that
      does not take exactly one argument. */
  datatype BindError = EmptyActionName | NotSingleArgument(methodName: string)

  type ActionTable = map<string, HandlerId>

  /** The checks made on one annotated method, in the order the constructor
      makes them. */
  function CheckBinding(d: BindingDecl): (r: Option<BindError>)
    ensures r.None? <==> |d.action| > 0 && d.arity == 1
    ensures |d.action| == 0 ==> r == Some(EmptyActionName)
    ensures |d.action| > 0 && d.arity != 1 ==> r == Some(NotSingleArgument(d.methodName))
  {
    if |d.action| == 0 then Some(EmptyActionName)
    else if d.arity != 1 then Some(NotSingleArgument(d.methodName))
    else None
  }

  predicate Acceptable(d: BindingDecl)
  {
    CheckBinding(d).None?
  }

  /** The constructor's loop from a partly built table: each method is
      checked, then `put` into the table; the first rejected method ends the
      construction. */
  function BindFrom(table: ActionTable, decls: seq<BindingDecl>): (r: Result<ActionTable, BindError>)
    ensures r.Success? ==> table.Keys <= r.value.Keys
    ensures r.Success? ==> forall k :: k in r.value && k !in table ==> |k| > 0
    ensures r.Failure? ==> exists d :: d in decls && CheckBinding(d) == Some(r.error)
    decreases |decls|
  {
    if decls == [] then Success(table)
    else match CheckBinding(decls[0])
      case Some(e) => Failure(e)
      case None => BindFrom(table[decls[0].action := decls[0].handler], decls[1..])
  }

  /** The table a store ends up with, starting from the empty map. */
  function BindAll(decls: seq<BindingDecl>): (r: Result<ActionTable, BindError>)
    ensures r.Success? ==> forall k :: k in r.value ==> |k| > 0
    ensures r.Failure? ==> exists d :: d in decls && CheckBinding(d) == Some(r.error)
  {
    BindFrom(map[], decls)
  }

  /** The binding that determines `decls[i].action`'s entry: no later
      declaration uses the same action name. */
  ghost predicate LastFor(decls: seq<BindingDecl>, i: int)
    requires 0 <= i < |decls|
  {
    forall j :: i < j < |decls| ==> decls[j].action != decls[i].action
  }

  /** Construction succeeds exactly when every annotated method passes both
      checks; otherwise it fails with the error of the first one that does
      not, every earlier one having passed. */
  lemma {:induction false} BindFromOutcome(table: ActionTable, decls: seq<BindingDecl>)
    ensures BindFrom(table, decls).Success? <==> forall i :: 0 <= i < |decls| ==> Acceptable(decls[i])
    ensures BindFrom(table, decls).Failure? ==>
      exists i :: 0 <= i < |decls| && CheckBinding(decls[i]) == Some(BindFrom(table, decls).error)
        && forall j :: 0 <= j < i ==> Acceptable(decls[j])
    decreases |decls|
  {
    if decls != [] && Acceptable(decls[0]) {
      var rest := decls[1..];
      BindFromOutcome(table[decls[0].action := decls[0].handler], rest);
      assert forall i :: 1 <= i < |decls| ==> decls[i] == rest[i - 1];
      if BindFrom(table, decls).Failure? {
        var i :| 0 <= i < |rest| && CheckBinding(rest[i]) == Some(BindFrom(table, decls).error)
          && forall j :: 0 <= j < i ==> Acceptable(rest[j]);
        assert decls[i + 1] == rest[i];
        assert forall j :: 1 <= j < i + 1 ==> decls[j] == rest[j - 1];
      }
    }
  }

  /** On success the table's keys are the earlier keys and every bound
      action name. */
  lemma {:induction false} BindFromKeys(table: ActionTable, decls: seq<BindingDecl>)
    requires BindFrom(table, decls).Success?
    ensures BindFrom(table, decls).value.Keys == table.Keys + set d | d in decls :: d.action
    decreases |decls|
  {
    if decls != [] {
      var d0, rest := decls[0], decls[1..];
      BindFromKeys(table[d0.action := d0.handler], rest);
      assert decls == [d0] + rest;
      assert (set d | d in decls :: d.action) == {d0.action} + set d | d in rest :: d.action;
    }
  }

  /** On success an entry no declaration mentions keeps its handler. */
  lemma {:induction false} BindFromKeepsUntouched(table: ActionTable, decls: seq<BindingDecl>, k: string)
    requires BindFrom(table, decls).Success?
    requires k in table && forall d :: d in decls ==> d.action != k
    ensures k in BindFrom(table, decls).value && BindFrom(table, decls).value[k] == table[k]
    decreases |decls|
  {
    if decls != [] {
      assert decls[0] in decls;
      assert forall d :: d in decls[1..] ==> d in decls;
      BindFromKeepsUntouched(table[decls[0].action := decls[0].handler], decls[1..], k);
    }
  }

  /** On success an action name bound more than once ends up with the
      handler of its last declaration: later bindings overwrite. */
  lemma {:induction false} BindFromLastWins(table: ActionTable, decls: seq<BindingDecl>, i: int)
    requires BindFrom(table, decls).Success?
    requires 0 <= i < |decls| && LastFor(decls, i)
    ensures decls[i].action in BindFrom(table, decls).value
    ensures BindFrom(table, decls).value[decls[i].action] == decls[i].handler
    decreases |decls|
  {
    var d0, rest := decls[0], decls[1..];
    var next := table[d0.action := d0.handler];
    if i == 0 {
      forall d | d in rest
        ensures d.action != d0.action
      {
        var j :| 0 <= j < |rest| && rest[j] == d;
        assert decls[j + 1] == d;
      }
      BindFromKeepsUntouched(next, rest, d0.action);
    } else {
      assert decls[i] == rest[i - 1];
      assert LastFor(rest, i - 1) by {
        forall j | i - 1 < j < |rest|
          ensures rest[j].action != rest[i - 1].action
        {
          assert rest[j] == decls[j + 1];
        }
      }
      BindFromLastWins(next, rest, i - 1);
    }
  }

  /** Every action name in a successfully built table is non-empty, and the
      table binds exactly the declared action names. */
  lemma BoundActionsNonEmpty(decls: seq<BindingDecl>)
    requires BindAll(decls).Success?
    ensures BindAll(decls).value.Keys == set d | d in decls :: d.action
    ensures forall k :: k in BindAll(decls).value ==> |k| > 0
  {
    BindFromOutcome(map[], decls);
    BindFromKeys(map[], decls);
    forall k | k in BindAll(decls).value
      ensures |k| > 0
    {
      var d :| d in decls && d.action == k;
      var i :| 0 <= i < |decls| && decls[i] == d;
      assert Acceptable(decls[i]);
    }
  }
}
