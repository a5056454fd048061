/** `TaskModel<T>` and its identity subclass (TaskModel.cs): the async bridge
    with a fixed factory, and the value equality the `Create` overloads give
    it. Delegates are modelled by an identity (`FactoryId`): two delegates are
    equal exactly when their identities are, and their hash is that identity. */
module TaskModels {
  import opened Types
  import opened TaskBridges

  type FactoryId = nat

  /** An argument of a `Create` overload: its static type and its value, equal
      under the type's default equality. */
  datatype Arg = Arg(ty: string, value: int)

  /** `_identity` of a `TaskModel<IIdentity, TResult>`: the tuple
      `(args…, factory)` of a `Create` overload (its arity and argument types
      are part of `IIdentity`), or a value given to the public constructor. */
  datatype Identity = Bound(args: seq<Arg>, factory: Option<FactoryId>) | Given(value: Arg)

  /** What equality and hashing see of a model: the delegate in `_factory`
      and, for the subclass, `_identity`. */
  datatype ModelKey = ModelKey(factory: FactoryId, identity: Option<Identity>)

  /** The key of `Create(factory)`. */
  function PlainKey(f: FactoryId): ModelKey {
    ModelKey(f, None)
  }

  /** The key of `Create(arg1, …, factory)`: the stored delegate is the new
      closure `ct => factory(arg1, …, ct)`, and the identity is the tuple. */
  function BoundKey(args: seq<Arg>, f: Option<FactoryId>, closure: FactoryId): ModelKey {
    ModelKey(closure, Some(Bound(args, f)))
  }

  /** `Equals(TaskModel<T> other)`, virtual on the receiver: the subclass
      compares identities when `other` is of the same subclass; the base class
      compares delegates and reads a field of `other`, so a null `other` throws. */
  function Equals(x: ModelKey, other: Option<ModelKey>): (r: Result<bool>)
    ensures x.identity.None? ==> (other.None? <==> r.Err?)
    ensures r.Err? ==> r.error == NullReference
    ensures x.identity.Some? ==> r.Ok? && (r.value <==> other.Some? && other.value.identity == x.identity)
    ensures x.identity.None? && other.Some? ==> r.Ok? && (r.value <==> other.value.factory == x.factory)
  {
    if x.identity.Some? then Ok(other.Some? && other.value.identity == x.identity)
    else if other.None? then Err(NullReference)
    else Ok(other.value.factory == x.factory)
  }

  /** `Equals(object obj)`: `None` stands for null or an object of another type. */
  function EqualsObject(x: ModelKey, obj: Option<ModelKey>): (r: bool)
    ensures r <==> obj.Some? && Equals(x, obj) == Ok(true)
  {
    obj.Some? && Equals(x, obj).value
  }

  /** `operator ==`: calls `Equals` on the left operand, so a null left operand throws. */
  function OpEquals(x: Option<ModelKey>, y: Option<ModelKey>): (r: Result<bool>)
    ensures x.None? ==> r == Err(NullReference)
    ensures x.Some? ==> r == Equals(x.value, y)
  {
    if x.None? then Err(NullReference) else Equals(x.value, y)
  }

  /** `operator !=`: the negation of `Equals`. */
  function OpNotEquals(x: Option<ModelKey>, y: Option<ModelKey>): (r: Result<bool>)
    ensures OpEquals(x, y).Err? <==> r.Err?
    ensures r.Ok? ==> r.value == !OpEquals(x, y).value
  {
    if x.None? then Err(NullReference) else
      var e := Equals(x.value, y);
      if e.Err? then e else Ok(!e.value)
  }

  /** Models made by `Create(factory)` are equal exactly when they share the
      delegate, in either direction. */
  lemma PlainEquality(f: FactoryId, g: FactoryId)
    ensures Equals(PlainKey(f), Some(PlainKey(g))) == Ok(f == g)
    ensures EqualsObject(PlainKey(f), Some(PlainKey(g))) <==> f == g
  {
  }

  /** Models made by the `Create(args…, factory)` overloads are equal exactly
      when their argument tuples and factories are, whatever closures they store. */
  lemma BoundEquality(args1: seq<Arg>, f1: Option<FactoryId>, c1: FactoryId,
                      args2: seq<Arg>, f2: Option<FactoryId>, c2: FactoryId)
    ensures Equals(BoundKey(args1, f1, c1), Some(BoundKey(args2, f2, c2))) == Ok(args1 == args2 && f1 == f2)
    ensures OpNotEquals(Some(BoundKey(args1, f1, c1)), Some(BoundKey(args2, f2, c2))) == Ok(!(args1 == args2 && f1 == f2))
  {
  }

  /** Among models of the same kind (both plain, or both with an identity),
      `Equals` is an equivalence. */
  lemma EqualsEquivalence(x: ModelKey, y: ModelKey, z: ModelKey)
    requires x.identity.Some? == y.identity.Some? == z.identity.Some?
    ensures Equals(x, Some(x)) == Ok(true)
    ensures Equals(x, Some(y)) == Equals(y, Some(x))
    ensures Equals(x, Some(y)) == Ok(true) && Equals(y, Some(z)) == Ok(true) ==> Equals(x, Some(z)) == Ok(true)
  {
  }

  /** `GetHashCode()` as written: the hash of `_factory`, which the subclass
      does not override. */
  function HashCode(x: ModelKey): (r: int)
    ensures r == x.factory
  {
    x.factory
  }

  /** For models without an identity, equal models share the delegate and so
      hash alike. */
  lemma PlainHashAlike(x: ModelKey, y: ModelKey)
    requires x.identity.None? && y.identity.None?
    ensures Equals(x, Some(y)) == Ok(true) ==> HashCode(x) == HashCode(y)
  {
  }

  /** Two models built by the same `Create(arg, factory)` call twice are equal
      but store different closures, so their hash codes differ. */
  lemma EqualModelsHashApart(args: seq<Arg>, f: Option<FactoryId>, c1: FactoryId, c2: FactoryId)
    requires c1 != c2
    ensures Equals(BoundKey(args, f, c1), Some(BoundKey(args, f, c2))) == Ok(true)
    ensures HashCode(BoundKey(args, f, c1)) != HashCode(BoundKey(args, f, c2))
  {
  }

  /** What a hash consistent with `Equals` depends on. */
  datatype HashKey = OfFactory(factory: FactoryId) | OfIdentity(identity: Identity)

  /** The hash that agrees with `Equals`: the subclass hashes its identity. */
  function IdentityHash(x: ModelKey): HashKey {
    if x.identity.Some? then OfIdentity(x.identity.value) else OfFactory(x.factory)
  }

  /** Equal models have equal corrected hashes (comparing a plain model with an
      identity model on its left is excluded: that `Equals` is not symmetric). */
  lemma EqualModelsHashAlike(x: ModelKey, y: ModelKey)
    requires x.identity.Some? || y.identity.None?
    requires Equals(x, Some(y)) == Ok(true)
    ensures IdentityHash(x) == IdentityHash(y)
  {
  }

  // ---------------------------------------------------------------- the bridge

  /** The object: its key, the default of `T`, and the fields of the bridge. */
  class TaskModel<T> {
    const key: ModelKey
    const initial: T
    var value: T
    var exception: Option<Exc>
    var hasValue: bool
    var listeners: multiset<HandlerId>
    var cancellation: Option<nat>
    var cancelled: set<nat>
    var running: set<nat>
    var attempts: nat
    var notices: seq<multiset<HandlerId>>

    function State(): Bridge<T>
      reads this
    {
      Bridge(value, exception, hasValue, listeners, cancellation, cancelled, running, attempts, notices)
    }

    ghost predicate Valid()
      reads this
    {
      Inv(State(), initial)
    }

    constructor (key: ModelKey, initial: T)
      ensures this.key == key && this.initial == initial
      ensures State() == Initial(initial) && Valid()
    {
      this.key := key;
      this.initial := initial;
      value := initial;
      exception := None;
      hasValue := false;
      listeners := multiset{};
      cancellation := None;
      cancelled := {};
      running := {};
      attempts := 0;
      notices := [];
    }

    /** `Value`: the stored value, the stored exception rethrown, and the
        default of `T` before the bridge settles. */
    method Value() returns (r: Completion<T>)
      requires Valid()
      ensures r == ValueOf(State())
      ensures !hasValue ==> r == Returned(initial)
    {
      if exception.Some? {
        return Threw(exception.value);
      }
      if !hasValue {
        ValueBeforeSettling(State(), initial);
      }
      r := Returned(value);
    }

    /** The `add` accessor of `PropertyChanged`. */
    method AddPropertyChanged(h: Option<HandlerId>) returns (o: Outcome)
      requires Valid()
      modifies this
      ensures Valid()
      ensures Attach(old(State()), h).Ok? ==> o == Pass && State() == Attach(old(State()), h).value
      ensures Attach(old(State()), h).Err? ==> o == Fail(Attach(old(State()), h).error) && State() == old(State())
    {
      AttachInv(State(), initial, h);
      if hasValue {
        return Pass;
      }
      var wasNull := listeners == multiset{};
      if h.None? {
        return Fail(ArgumentNull);
      }
      listeners := listeners + multiset{h.value};
      if wasNull && !hasValue {
        StartsWithoutHandle(old(State()), initial);
        GetTaskResultAsync();
      }
      o := Pass;
    }

    /** `GetTaskResultAsync()` up to its first `await`: a new handle. */
    method GetTaskResultAsync()
      requires cancellation.None? && listeners != multiset{}
      modifies this
      ensures State() == Start(old(State()))
    {
      cancellation := Some(attempts);
      running := running + {attempts};
      attempts := attempts + 1;
    }

    /** The rest of `GetTaskResultAsync()` once the awaited task of attempt `a`
        ends with `c`. A cancelled attempt is also left alone when it throws. */
    method Complete(a: nat, c: Completion<T>)
      requires Valid() && a in running
      modifies this
      ensures Valid()
      ensures State() == Finish(old(State()), a, c)
    {
      FinishInv(State(), initial, a, c);
      running := running - {a};
      match c
      case Returned(v) =>
        if a in cancelled {
          return;
        }
        value := v;
        hasValue := true;
        cancellation := None;
        notices := notices + [listeners];
        listeners := multiset{};
      case Threw(e) =>
        if e == Canceled(Some(a)) || a in cancelled {
          return;
        }
        exception := Some(e);
        hasValue := true;
        cancellation := None;
        notices := notices + [listeners];
        listeners := multiset{};
    }

    /** The `remove` accessor of `PropertyChanged`. */
    method RemovePropertyChanged(h: Option<HandlerId>) returns (o: Outcome)
      requires Valid()
      modifies this
      ensures Valid()
      ensures Detach(old(State()), h).Ok? ==> o == Pass && State() == Detach(old(State()), h).value
      ensures Detach(old(State()), h).Err? ==> o == Fail(Detach(old(State()), h).error) && State() == old(State())
    {
      DetachInv(State(), initial, h);
      if listeners == multiset{} {
        return Pass;
      }
      if h.None? {
        return Fail(ArgumentNull);
      }
      listeners := listeners - multiset{h.value};
      if listeners == multiset{} {
        if cancellation.Some? {
          cancelled := cancelled + {cancellation.value};
          cancellation := None;
        }
      }
      o := Pass;
    }

    /** `Dispose()`. */
    method Dispose()
      requires Valid()
      modifies this
      ensures Valid()
      ensures State() == TaskBridges.Dispose(old(State()))
    {
      DisposeInv(State(), initial);
      if listeners != multiset{} {
        listeners := multiset{};
        if cancellation.Some? {
          cancelled := cancelled + {cancellation.value};
          cancellation := None;
        }
      }
    }
  }

  /** `TaskModel.Create(factory)`: the constructor rejects a null factory. */
  method Create<T>(factory: Option<FactoryId>, initial: T) returns (r: Result<TaskModel<T>>)
    ensures factory.None? <==> r.Err?
    ensures r.Err? ==> r.error == ArgumentNull
    ensures r.Ok? ==> fresh(r.value) && r.value.key == PlainKey(factory.value)
                      && r.value.State() == Initial(initial) && r.value.Valid()
  {
    if factory.None? {
      return Err(ArgumentNull);
    }
    var m := new TaskModel(PlainKey(factory.value), initial);
    r := Ok(m);
  }

  /** The `Create(arg1, …, factory)` overloads (one to five arguments): the
      stored delegate is a new closure, never null, so a null `factory` is
      not rejected here. */
  method CreateBound<T>(args: seq<Arg>, factory: Option<FactoryId>, closure: FactoryId, initial: T)
    returns (r: TaskModel<T>)
    requires 1 <= |args| <= 5
    ensures fresh(r) && r.key == BoundKey(args, factory, closure)
    ensures r.State() == Initial(initial) && r.Valid()
  {
    r := new TaskModel(BoundKey(args, factory, closure), initial);
  }

  /** The public constructor of `TaskModel<IIdentity, TResult>`. */
  method CreateWithIdentity<T>(identity: Identity, factory: Option<FactoryId>, initial: T) returns (r: Result<TaskModel<T>>)
    ensures factory.None? <==> r.Err?
    ensures r.Err? ==> r.error == ArgumentNull
    ensures r.Ok? ==> fresh(r.value) && r.value.key == ModelKey(factory.value, Some(identity))
                      && r.value.State() == Initial(initial) && r.value.Valid()
  {
    if factory.None? {
      return Err(ArgumentNull);
    }
    var m := new TaskModel(ModelKey(factory.value, Some(identity)), initial);
    r := Ok(m);
  }
}
