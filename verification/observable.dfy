/**
 A model of a named-observable registry: a process-wide map from a name to the
 append-only list of notification callbacks registered under it. Every callback
 under one name takes the same parameter type, fixed by the first callback
 registered. `Observe` registers a callback; `Set` publishes a value to every
 callback of a name, in registration order.

 Run-time type descriptors are modelled by `TypeTag`, callbacks by an opaque id
 together with the tag of their parameter, and an invocation of a callback by an
 `Invocation` record in the trace that `Set` returns.
 */
module Observable {

  /** A run-time type descriptor: two values or parameters have the same type
      exactly when their tags are equal. */
  datatype TypeTag = TypeTag(name: string)

  type CallbackId = nat

  /** A notification function: an opaque identity and the type of its one parameter. */
  datatype Callback = Callback(id: CallbackId, param: TypeTag)

  datatype Error =
    | TypeMismatch(name: string, expected: TypeTag, offered: TypeTag)
    | NotRegistered(name: string)

  /** What `Observe` and `Set` return: no error, or an error. */
  datatype Outcome = Ok | Err(error: Error)

  /** One call of a callback with the published value. */
  datatype Invocation<V> = Invocation(callback: CallbackId, arg: V)

  type Observables = map<string, seq<Callback>>

  /** The state after a registration, and what the registration returned. */
  datatype Registration = Registration(observables: Observables, outcome: Outcome)

  /** What a publication returned, and the callbacks it invoked, in order. */
  datatype Notification<V> = Notification(outcome: Outcome, trace: seq<Invocation<V>>)

  // ---------------------------------------------------------------------------
  // The registry invariant

  /** An entry is non-empty and every callback in it shares the parameter type
      of its first callback. */
  predicate Homogeneous(cbs: seq<Callback>)
  {
    |cbs| > 0 && forall i | 0 <= i < |cbs| :: cbs[i].param == cbs[0].param
  }

  predicate WellTyped(m: Observables)
  {
    forall name | name in m :: Homogeneous(m[name])
  }

  /** The callbacks registered under `name`, none if it was never registered. */
  function Entry(m: Observables, name: string): (r: seq<Callback>)
  {
    if name in m then m[name] else []
  }

  // ---------------------------------------------------------------------------
  // Registration

  /** Registers `cb` under `name`: a new name gets the entry `[cb]`; an existing
      name accepts `cb` only when its parameter type is that of the entry's
      first callback. */
  function Register(m: Observables, name: string, cb: Callback): (r: Registration)
    requires WellTyped(m)
    ensures WellTyped(r.observables)
    // a new name: the entry holds exactly the new callback
    ensures name !in m ==> r.outcome == Ok && name in r.observables && r.observables[name] == [cb]
    // a matching type: appended at the end, the earlier callbacks keep their order
    ensures name in m && m[name][0].param == cb.param ==>
              && r.outcome == Ok
              && name in r.observables
              && |r.observables[name]| == |m[name]| + 1
              && r.observables[name][..|m[name]|] == m[name]
              && r.observables[name][|m[name]|] == cb
    // a mismatched type: an error naming both types, and nothing changes
    ensures name in m && m[name][0].param != cb.param ==>
              && r.outcome == Err(TypeMismatch(name, m[name][0].param, cb.param))
              && r.observables == m
    // every other name is untouched
    ensures forall other | other != name :: other in r.observables <==> other in m
    ensures forall other | other != name && other in m :: r.observables[other] == m[other]
    // names are never removed and their established type never changes
    ensures forall n | n in m :: n in r.observables && r.observables[n][0] == m[n][0]
  {
    if name !in m then
      Registration(m[name := [cb]], Ok)
    else if m[name][0].param != cb.param then
      Registration(m, Err(TypeMismatch(name, m[name][0].param, cb.param)))
    else
      Registration(m[name := m[name] + [cb]], Ok)
  }

  // ---------------------------------------------------------------------------
  // Publication

  /** Calls, in order, each callback of `cbs` whose parameter type is
      `valueType`, passing it `value`; a callback of another type is skipped. */
  function Dispatch<V>(cbs: seq<Callback>, valueType: TypeTag, value: V): (trace: seq<Invocation<V>>)
    ensures |trace| <= |cbs|
    ensures forall k | 0 <= k < |trace| :: trace[k].arg == value
    decreases |cbs|
  {
    if cbs == [] then []
    else
      var last := cbs[|cbs| - 1];
      Dispatch(cbs[..|cbs| - 1], valueType, value)
        + (if last.param == valueType then [Invocation(last.id, value)] else [])
  }

  /** When every callback takes `valueType`, none is skipped: each is called
      exactly once, in order, with `value`. */
  lemma {:induction false} DispatchComplete<V>(cbs: seq<Callback>, valueType: TypeTag, value: V)
    requires forall i | 0 <= i < |cbs| :: cbs[i].param == valueType
    ensures |Dispatch(cbs, valueType, value)| == |cbs|
    ensures forall i | 0 <= i < |cbs| :: Dispatch(cbs, valueType, value)[i] == Invocation(cbs[i].id, value)
  {
    if cbs != [] {
      DispatchComplete(cbs[..|cbs| - 1], valueType, value);
    }
  }

  /** Publishes `value`, whose run-time type is `valueType`, under `name`. */
  function Notify<V>(m: Observables, name: string, valueType: TypeTag, value: V): (r: Notification<V>)
    requires WellTyped(m)
    // an unregistered name: an error, and no callback is invoked
    ensures name !in m ==> r == Notification(Err(NotRegistered(name)), [])
    // a value of the wrong type: an error naming both types, and no callback is invoked
    ensures name in m && m[name][0].param != valueType ==>
              r == Notification(Err(TypeMismatch(name, m[name][0].param, valueType)), [])
    // otherwise: every callback, once each, in registration order, with `value`
    ensures r.outcome == Ok <==> name in m && m[name][0].param == valueType
    ensures r.outcome == Ok ==>
              && |r.trace| == |m[name]|
              && forall i | 0 <= i < |r.trace| :: r.trace[i] == Invocation(m[name][i].id, value)
  {
    if name !in m then
      Notification(Err(NotRegistered(name)), [])
    else if valueType != m[name][0].param then
      Notification(Err(TypeMismatch(name, m[name][0].param, valueType)), [])
    else
      DispatchComplete(m[name], valueType, value);
      Notification(Ok, Dispatch(m[name], valueType, value))
  }

  // ---------------------------------------------------------------------------
  // Several registrations under one name

  /** Registers the callbacks `cbs` under `name`, one after another. */
  function ObserveEach(m: Observables, name: string, cbs: seq<Callback>): (m': Observables)
    requires WellTyped(m)
    ensures WellTyped(m')
    decreases |cbs|
  {
    if cbs == [] then m
    else Register(ObserveEach(m, name, cbs[..|cbs| - 1]), name, cbs[|cbs| - 1]).observables
  }

  /** The callbacks of `cbs` whose parameter type is `tag`, in their order. */
  function Matching(cbs: seq<Callback>, tag: TypeTag): (r: seq<Callback>)
    ensures |r| <= |cbs|
    ensures forall i | 0 <= i < |r| :: r[i].param == tag
    decreases |cbs|
  {
    if cbs == [] then []
    else
      var last := cbs[|cbs| - 1];
      Matching(cbs[..|cbs| - 1], tag) + (if last.param == tag then [last] else [])
  }

  /** The publication loop calls exactly the callbacks of type `valueType`,
      each once, in registration order, with `value`. */
  lemma {:induction false} DispatchMatching<V>(cbs: seq<Callback>, valueType: TypeTag, value: V)
    ensures |Dispatch(cbs, valueType, value)| == |Matching(cbs, valueType)|
    ensures forall k | 0 <= k < |Matching(cbs, valueType)| ::
              Dispatch(cbs, valueType, value)[k] == Invocation(Matching(cbs, valueType)[k].id, value)
  {
    if cbs != [] {
      DispatchMatching(cbs[..|cbs| - 1], valueType, value);
    }
  }

  /** The parameter type `name` has once `cbs` are registered under it: that of
      its existing entry, or else that of the first of `cbs`. */
  function EstablishedTag(m: Observables, name: string, cbs: seq<Callback>): (t: TypeTag)
    requires WellTyped(m)
    requires name in m || cbs != []
  {
    if name in m then m[name][0].param else cbs[0].param
  }

  lemma {:induction false} MatchingSameTag(cbs: seq<Callback>, tag: TypeTag)
    requires forall i | 0 <= i < |cbs| :: cbs[i].param == tag
    ensures Matching(cbs, tag) == cbs
  {
    if cbs != [] {
      MatchingSameTag(cbs[..|cbs| - 1], tag);
      assert cbs[..|cbs| - 1] + [cbs[|cbs| - 1]] == cbs;
    }
  }

  /** After a run of registrations under one name, its entry is the old entry
      followed by exactly the callbacks of the established type, in the order
      they were registered; the others were rejected. */
  lemma {:induction false} ObserveEachEntry(m: Observables, name: string, cbs: seq<Callback>)
    requires WellTyped(m)
    requires name in m || cbs != []
    ensures name in ObserveEach(m, name, cbs)
    ensures ObserveEach(m, name, cbs)[name] == Entry(m, name) + Matching(cbs, EstablishedTag(m, name, cbs))
  {
    if cbs == [] {
      assert Entry(m, name) + [] == Entry(m, name);
    } else {
      var prefix, last := cbs[..|cbs| - 1], cbs[|cbs| - 1];
      var tag := EstablishedTag(m, name, cbs);
      var before := ObserveEach(m, name, prefix);
      if name !in m && prefix == [] {
        assert before == m;
        assert Matching(cbs, tag) == [last];
      } else {
        ObserveEachEntry(m, name, prefix);
        assert EstablishedTag(m, name, prefix) == tag;
        assert before[name] == Entry(m, name) + Matching(prefix, tag);
        assert before[name][0].param == tag by {
          if name in m {
            assert before[name][0] == m[name][0];
          } else {
            assert before[name] == Matching(prefix, tag);
          }
        }
        if last.param == tag {
          assert Entry(m, name) + Matching(prefix, tag) + [last] == Entry(m, name) + Matching(cbs, tag);
        }
      }
    }
  }

  /** Registering callbacks of one type under a new name and then publishing a
      value of that type calls every one of them once, in registration order.
      A corollary of `ObserveEachThenNotify` and `MatchingSameTag`. */
  lemma RegistrationOrderDispatch<V>(m: Observables, name: string, cbs: seq<Callback>, value: V)
    requires WellTyped(m)
    requires name !in m && cbs != []
    requires forall i | 0 <= i < |cbs| :: cbs[i].param == cbs[0].param
    ensures Notify(ObserveEach(m, name, cbs), name, cbs[0].param, value).outcome == Ok
    ensures |Notify(ObserveEach(m, name, cbs), name, cbs[0].param, value).trace| == |cbs|
    ensures forall i | 0 <= i < |cbs| ::
              Notify(ObserveEach(m, name, cbs), name, cbs[0].param, value).trace[i] == Invocation(cbs[i].id, value)
  {
    ObserveEachEntry(m, name, cbs);
    MatchingSameTag(cbs, cbs[0].param);
  }

  /** Publishing after a run of registrations calls exactly the accepted
      callbacks, in registration order, after those registered before. */
  lemma ObserveEachThenNotify<V>(m: Observables, name: string, cbs: seq<Callback>, value: V)
    requires WellTyped(m)
    requires name in m || cbs != []
    ensures var accepted := Entry(m, name) + Matching(cbs, EstablishedTag(m, name, cbs));
            var r := Notify(ObserveEach(m, name, cbs), name, EstablishedTag(m, name, cbs), value);
            && r.outcome == Ok
            && |r.trace| == |accepted|
            && forall i | 0 <= i < |accepted| :: r.trace[i] == Invocation(accepted[i].id, value)
  {
    ObserveEachEntry(m, name, cbs);
  }

  /** Registrations under one name do not change the entry of, nor what a
      publication does for, any other name. */
  lemma {:induction false} ObserveEachIsolated<V>(m: Observables, name: string, cbs: seq<Callback>,
                                                  other: string, valueType: TypeTag, value: V)
    requires WellTyped(m)
    requires other != name
    ensures other in ObserveEach(m, name, cbs) <==> other in m
    ensures other in m ==> ObserveEach(m, name, cbs)[other] == m[other]
    ensures Notify(ObserveEach(m, name, cbs), other, valueType, value) == Notify(m, other, valueType, value)
  {
    if cbs != [] {
      ObserveEachIsolated(m, name, cbs[..|cbs| - 1], other, valueType, value);
    }
  }

  // ---------------------------------------------------------------------------
  // The registry

  /** The process-wide registry of observables. */
  class Registry {
    var observables: Observables

    ghost predicate Valid()
      reads this
    {
      WellTyped(observables)
    }

    constructor ()
      ensures Valid() && observables == map[]
    {
      observables := map[];
    }

    /** Registers `cb` under `name`, creating the observable if it is new. */
    method Observe(name: string, cb: Callback) returns (outcome: Outcome)
      requires Valid()
      modifies this
      ensures Valid()
      ensures Registration(observables, outcome) == Register(old(observables), name, cb)
    {
      var vtype := cb.param;
      if name !in observables {
        observables := observables[name := [cb]];
      } else {
        var callbacks := observables[name];
        var evtype := callbacks[0].param;
        if evtype != vtype {
          return Err(TypeMismatch(name, evtype, vtype));
        }
        observables := observables[name := callbacks + [cb]];
      }
      return Ok;
    }

    /** Publishes `value`, whose run-time type is `valueType`, under `name`,
        returning the callbacks it invoked in the order it invoked them. */
    method Set<V>(name: string, valueType: TypeTag, value: V) returns (outcome: Outcome, trace: seq<Invocation<V>>)
      requires Valid()
      ensures Notification(outcome, trace) == Notify(observables, name, valueType, value)
    {
      if name !in observables {
        return Err(NotRegistered(name)), [];
      }
      var callbacks := observables[name];
      var evtype := callbacks[0].param;
      if valueType != evtype {
        return Err(TypeMismatch(name, evtype, valueType)), [];
      }
      trace := [];
      for i := 0 to |callbacks|
        invariant trace == Dispatch(callbacks[..i], valueType, value)
      {
        var cb := callbacks[i];
        assert callbacks[..i + 1][..i] == callbacks[..i];
        if cb.param == valueType {
          trace := trace + [Invocation(cb.id, value)];
        }
      }
      assert callbacks[..|callbacks|] == callbacks;
      outcome := Ok;
    }
  }
}
