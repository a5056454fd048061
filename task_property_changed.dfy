/** `TaskPropertyChanged<T>` (TaskPropertyChanged.cs): the async bridge whose
    factory field is cleared when it settles, so that `HasValue` is "the
    factory is gone". */
module TaskNotifiers {
  import opened Types
  import opened TaskBridges
  import opened TaskModels

  class TaskPropertyChanged<T> {
    var factory: Option<FactoryId>
    const initial: T
    var value: T
    var exception: Option<Exc>
    var listeners: multiset<HandlerId>
    var cancellation: Option<nat>
    var cancelled: set<nat>
    var running: set<nat>
    var attempts: nat
    var notices: seq<multiset<HandlerId>>

    function State(): Bridge<T>
      reads this
    {
      Bridge(value, exception, factory.None?, listeners, cancellation, cancelled, running, attempts, notices)
    }

    ghost predicate Valid()
      reads this
    {
      Inv(State(), initial)
    }

    /** Settled exactly when the factory has been cleared. */
    function HasValue(): (r: bool)
      reads this
      ensures r <==> State().hasValue
    {
      factory.None?
    }

    constructor (factory: FactoryId, initial: T)
      ensures this.factory == Some(factory) && this.initial == initial
      ensures State() == Initial(initial) && Valid()
    {
      this.factory := Some(factory);
      this.initial := initial;
      value := initial;
      exception := None;
      listeners := multiset{};
      cancellation := None;
      cancelled := {};
      running := {};
      attempts := 0;
      notices := [];
    }

    /** `Value`: the stored value, the stored exception rethrown, and the
        default of `T` before the bridge settles. */
    method Value() returns (r: Completion<T>)
      requires Valid()
      ensures r == ValueOf(State())
      ensures !HasValue() ==> r == Returned(initial)
    {
      if exception.Some? {
        return Threw(exception.value);
      }
      if factory.Some? {
        ValueBeforeSettling(State(), initial);
      }
      r := Returned(value);
    }

    /** The `add` accessor of `PropertyChanged`. */
    method AddPropertyChanged(h: Option<HandlerId>) returns (o: Outcome)
      requires Valid()
      modifies this
      ensures Valid()
      ensures Attach(old(State()), h).Ok? ==> o == Pass && State() == Attach(old(State()), h).value
      ensures Attach(old(State()), h).Err? ==> o == Fail(Attach(old(State()), h).error) && State() == old(State())
      ensures factory == old(factory)
    {
      AttachInv(State(), initial, h);
      if HasValue() {
        return Pass;
      }
      var wasNull := listeners == multiset{};
      if h.None? {
        return Fail(ArgumentNull);
      }
      listeners := listeners + multiset{h.value};
      if wasNull && factory.Some? {
        StartsWithoutHandle(old(State()), initial);
        GetTaskResultAsync();
      }
      o := Pass;
    }

    /** `GetTaskResultAsync()` up to its first `await`: a new handle, then the
        factory is called with its token. */
    method GetTaskResultAsync()
      requires cancellation.None? && listeners != multiset{} && factory.Some?
      modifies this
      ensures State() == Start(old(State()))
      ensures factory == old(factory)
    {
      cancellation := Some(attempts);
      running := running + {attempts};
      attempts := attempts + 1;
    }

    /** The rest of `GetTaskResultAsync()` once the awaited task of attempt `a`
        ends with `c`. A cancelled attempt is also left alone when it throws. */
    method Complete(a: nat, c: Completion<T>)
      requires Valid() && a in running
      modifies this
      ensures Valid()
      ensures State() == Finish(old(State()), a, c)
      ensures factory == old(factory) || (old(factory).Some? && factory.None?)
    {
      FinishInv(State(), initial, a, c);
      running := running - {a};
      match c
      case Returned(v) =>
        if a in cancelled {
          return;
        }
        value := v;
        factory := None;
        cancellation := None;
        notices := notices + [listeners];
        listeners := multiset{};
      case Threw(e) =>
        if e == Canceled(Some(a)) || a in cancelled {
          return;
        }
        exception := Some(e);
        factory := None;
        cancellation := None;
        notices := notices + [listeners];
        listeners := multiset{};
    }

    /** The `remove` accessor of `PropertyChanged`. */
    method RemovePropertyChanged(h: Option<HandlerId>) returns (o: Outcome)
      requires Valid()
      modifies this
      ensures Valid()
      ensures Detach(old(State()), h).Ok? ==> o == Pass && State() == Detach(old(State()), h).value
      ensures Detach(old(State()), h).Err? ==> o == Fail(Detach(old(State()), h).error) && State() == old(State())
      ensures factory == old(factory)
    {
      DetachInv(State(), initial, h);
      if listeners == multiset{} {
        return Pass;
      }
      if h.None? {
        return Fail(ArgumentNull);
      }
      listeners := listeners - multiset{h.value};
      if listeners == multiset{} {
        if cancellation.Some? {
          cancelled := cancelled + {cancellation.value};
          cancellation := None;
        }
      }
      o := Pass;
    }

    /** `Dispose()`. */
    method Dispose()
      requires Valid()
      modifies this
      ensures Valid()
      ensures State() == TaskBridges.Dispose(old(State()))
      ensures factory == old(factory)
    {
      DisposeInv(State(), initial);
      if listeners != multiset{} {
        listeners := multiset{};
        if cancellation.Some? {
          cancelled := cancelled + {cancellation.value};
          cancellation := None;
        }
      }
    }
  }

  /** `TaskPropertyChanged.Create(factory)`: the constructor rejects a null factory. */
  method Create<T>(factory: Option<FactoryId>, initial: T) returns (r: Result<TaskPropertyChanged<T>>)
    ensures factory.None? <==> r.Err?
    ensures r.Err? ==> r.error == ArgumentNull
    ensures r.Ok? ==> fresh(r.value) && r.value.factory == factory
                      && r.value.State() == Initial(initial) && r.value.Valid()
  {
    if factory.None? {
      return Err(ArgumentNull);
    }
    var t := new TaskPropertyChanged(factory.value, initial);
    r := Ok(t);
  }

  /** `TaskPropertyChanged.Create(args, factory)`: the stored factory is the new
      closure `ct => factory(args, ct)`, never null. */
  method CreateBound<T>(closure: FactoryId, initial: T) returns (r: TaskPropertyChanged<T>)
    ensures fresh(r) && r.factory == Some(closure)
    ensures r.State() == Initial(initial) && r.Valid()
  {
    r := new TaskPropertyChanged(closure, initial);
  }
}
