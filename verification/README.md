# Named observables, modelled in Dafny

This project models the Go package `observable`. It is a small implementation
of the Observer pattern. A process-wide map goes from an observable's name to the
list of notification functions (callbacks) registered under that name.

- `Observe[T](name, cb)` registers a callback. It creates the observable if the
  name is new. Otherwise it appends the callback, but only when the callback's
  parameter type is the type of the name's first callback. When the types differ,
  it returns an error and the map is left unchanged.
- `Set[T](name, value)` publishes a value. It returns an error when the name was
  never registered, or when the value's run-time type is not the name's type. In
  either case no callback runs. Otherwise it calls every callback under the name
  with the value, in registration order.

Everything is in `observable.dfy`, in module `Observable`:

- Go's run-time type descriptors (`reflect.Type`) become a `TypeTag`.
- A callback becomes a `Callback` with an opaque id and the tag of its parameter.
- A call to a callback becomes an `Invocation` entry in the trace that `Set`
  returns.
- The package-level map becomes the `observables` field of class `Registry`.
  `Registry.Valid()` is the invariant that every entry is non-empty and all its
  callbacks share the parameter type of the first one.
- `Registry.Observe` and `Registry.Set` are imperative methods. Each is proved
  against a pure function (`Register` and `Notify`) that states the behaviour.
- `ObserveEach` folds `Register` over a run of registrations under one name. The
  lemmas about it state what several calls in a row achieve.

`Set`'s loop keeps the source's per-callback type assertion
(`cb.(func(T))`), which skips a callback of another type. `Dispatch` models
that loop. `DispatchComplete` shows that under the invariant no callback is
ever skipped.

## Model

| member | source | states |
|---|---|---|
| `Observable.Register` | observable.go:38-51 | A new name gets exactly `[cb]` with no error. A matching type appends `cb` at the end and keeps the earlier callbacks in order. A mismatched type returns `TypeMismatch(name, established, offered)` and leaves the map unchanged. Other names are untouched. No name is removed and no established type changes. The invariant is preserved. |
| `Observable.Registry.Observe` | observable.go:38-51 | The in-place update of the map and the returned error are exactly those of `Register`. `Valid()` is preserved. |
| `Observable.Registry.constructor` | observable.go:32-34 | The registry starts as an empty map that satisfies the invariant. |
| `Observable.Dispatch` | observable.go:65-70 | The loop makes no more calls than there are callbacks, and every call passes the published value. |
| `Observable.DispatchMatching` | observable.go:65-70 | The loop calls exactly the callbacks whose type passes the assertion at line 66, each once, in registration order, with the published value. |
| `Observable.DispatchComplete` | observable.go:65-70 | When every callback takes the value's type, each callback is called exactly once, in registration order, with the value. So the type assertion at line 66 never fails. |
| `Observable.Notify` | observable.go:55-72 | An unregistered name gives `NotRegistered` and no calls. A value of another type than the first callback's gives `TypeMismatch` and no calls. Otherwise the result is success, with one call per registered callback, in registration order, each with the value. Success happens exactly when the name is registered with the value's type. |
| `Observable.Registry.Set` | observable.go:55-72 | The loop over the callbacks returns the outcome and call trace of `Notify`, and the registry is not modified. |
| `Observable.ObserveEach` | observable.go:38-51 | Any run of registrations under one name keeps the registry invariant. |
| `Observable.Matching` | observable.go:44-48 | Selects only callbacks of the given type, never more than were offered. |
| `Observable.MatchingSameTag` | observable.go:44-48 | Callbacks that all share one type are all kept, in order. |
| `Observable.ObserveEachEntry` | observable.go:38-51 | After a run of registrations, the entry is the old entry followed by exactly the offered callbacks of the established type, in order. The established type is that of the old entry, or else that of the first offered callback. |
| `Observable.RegistrationOrderDispatch` | observable.go:65-70 | Registering callbacks of one type under a new name and then publishing a value of that type calls each of them once, in registration order. |
| `Observable.ObserveEachThenNotify` | observable.go:55-72 | Publishing after a run of registrations succeeds and calls exactly the accepted callbacks, in registration order. |
| `Observable.ObserveEachIsolated` | observable.go:40-48 | Registrations under one name change neither another name's entry nor what publishing under that other name does. |

## Left out

- Go reflection is replaced by an explicit `TypeTag` on every callback. `Set` takes the value's run-time type as a parameter.
- Interface-typed `T` and nil values are not modelled. For a nil interface value, `reflect.TypeOf` returns nil and the error path would panic when it formats the type.
- `Set`'s type assertion `cb.(func(T))` checks against the static type `T`, while the guard before it checks the run-time type of `value`. For the non-interface `T` modelled here the two agree, so the model uses the value's tag for both.
- The error message text built by `fmt.Errorf` is not modelled. Each error is a variant that carries the name and the two types.
- What a callback does, and a panic raised inside one during dispatch, are not modelled. Callbacks are opaque ids recorded in the trace, so the model does not capture dispatch stopping at a failing callback.
- The package-level map has no synchronisation. Use is assumed to be single-threaded, and concurrency is not modelled.
- The `go:generate` documentation directive is not modelled, and observable_test.go is not part of this model.
- The panic that `callbacks[0]` would raise on an empty entry is not modelled. `Register`, `Notify` and both methods require the registry invariant instead. The invariant holds for every registry that `Observe` builds from the empty map.
