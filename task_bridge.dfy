/** The state machine shared by the two async value bridges (TaskModel.cs and
    TaskPropertyChanged.cs): listeners attach and detach, the first attach
    starts an attempt with its own cancellation handle, and an attempt's
    completion settles the bridge once. The runtime is replaced by explicit
    events: attempts are numbered, `cancelled` holds the attempts whose token
    has been cancelled, `running` those whose awaited task has not finished. */
module TaskBridges {
  import opened Types

  /** An exception an attempt can end with: an `OperationCanceledException`
      carrying a token (the attempt number it belongs to, if any), the
      `NullReferenceException` of invoking a null `_propertyChanged`, or any
      other. */
  datatype Exc = Canceled(token: Option<nat>) | NullDelegate | Failure(code: nat)

  /** How the factory's task of an attempt ends. */
  datatype Completion<T> = Returned(value: T) | Threw(exc: Exc)

  /** The fields of a bridge: `_value`, `_exception`, whether it has settled,
      the invocation list of `_propertyChanged`, the attempt whose
      `_cancellation` is held, the attempts started so far, and the
      all-properties notifications delivered, each with the listeners that
      received it. */
  datatype Bridge<T> = Bridge(
    value: T,
    exception: Option<Exc>,
    hasValue: bool,
    listeners: multiset<HandlerId>,
    cancellation: Option<nat>,
    cancelled: set<nat>,
    running: set<nat>,
    attempts: nat,
    notices: seq<multiset<HandlerId>>)

  /** A new bridge: `initial` is the default of `T`. */
  function Initial<T>(initial: T): Bridge<T> {
    Bridge(initial, None, false, multiset{}, None, {}, {}, 0, [])
  }

  /** The invariant every reachable bridge keeps: before settling it holds the
      default value and no exception; a settled bridge has no listeners and no
      handle; a handle is held exactly while listeners are attached; and the
      only attempt still running and not cancelled is the one whose handle is
      held. */
  ghost predicate Inv<T>(b: Bridge<T>, initial: T) {
    (!b.hasValue ==> b.value == initial && b.exception.None?)
    && (b.hasValue ==> b.listeners == multiset{} && b.cancellation.None?)
    && (b.cancellation.Some? <==> b.listeners != multiset{})
    && (b.cancellation.Some? ==> b.cancellation.value < b.attempts && b.cancellation.value !in b.cancelled)
    && (forall a :: a in b.running ==> a < b.attempts)
    && (forall a :: a in b.cancelled ==> a < b.attempts)
    && (forall a :: a in b.running && a !in b.cancelled ==> b.cancellation == Some(a))
  }

  /** `Value`: rethrows the stored exception, or returns the stored value. */
  function ValueOf<T>(b: Bridge<T>): (r: Completion<T>)
    ensures b.exception.Some? <==> r.Threw?
    ensures r.Threw? ==> r.exc == b.exception.value
    ensures r.Returned? ==> r.value == b.value
  {
    if b.exception.Some? then Threw(b.exception.value) else Returned(b.value)
  }

  /** `GetTaskResultAsync` up to its first `await`: a new handle for a new attempt. */
  function Start<T>(b: Bridge<T>): (r: Bridge<T>)
    ensures r.cancellation == Some(b.attempts) && r.attempts == b.attempts + 1
    ensures r.running == b.running + {b.attempts} && r.cancelled == b.cancelled
    ensures r.listeners == b.listeners && r.notices == b.notices && r.hasValue == b.hasValue
    ensures ValueOf(r) == ValueOf(b)
  {
    b.(cancellation := Some(b.attempts), running := b.running + {b.attempts}, attempts := b.attempts + 1)
  }

  /** Cancels the held handle, if any, and drops it. */
  function CancelHandle<T>(b: Bridge<T>): (r: Bridge<T>)
    ensures r.cancellation.None?
    ensures r.cancelled == if b.cancellation.Some? then b.cancelled + {b.cancellation.value} else b.cancelled
    ensures r.listeners == b.listeners && r.running == b.running && r.attempts == b.attempts
    ensures r.notices == b.notices && r.hasValue == b.hasValue && ValueOf(r) == ValueOf(b)
  {
    if b.cancellation.Some? then b.(cancelled := b.cancelled + {b.cancellation.value}, cancellation := None) else b
  }

  /** The event's `add` accessor. A settled bridge ignores it (even a null
      handler); a null handler is rejected; the first listener starts an
      attempt. */
  function Attach<T>(b: Bridge<T>, h: Option<HandlerId>): (r: Result<Bridge<T>>)
    ensures b.hasValue ==> r == Ok(b)
    ensures !b.hasValue && h.None? ==> r == Err(ArgumentNull)
    ensures !b.hasValue && h.Some? ==>
              r.Ok? && r.value.listeners == b.listeners + multiset{h.value}
              && r.value.notices == b.notices && r.value.cancelled == b.cancelled && !r.value.hasValue
              && (b.listeners == multiset{} ==> r.value.cancellation == Some(b.attempts) && r.value.attempts == b.attempts + 1
                                                && r.value.running == b.running + {b.attempts})
              && (b.listeners != multiset{} ==> r.value.cancellation == b.cancellation && r.value.attempts == b.attempts
                                                && r.value.running == b.running)
  {
    if b.hasValue then Ok(b)
    else if h.None? then Err(ArgumentNull)
    else
      var wasNull := b.listeners == multiset{};
      var b' := b.(listeners := b.listeners + multiset{h.value});
      if wasNull then Ok(Start(b')) else Ok(b')
  }

  /** The event's `remove` accessor. Without listeners it is ignored (even a
      null handler); a null handler is rejected; removing the last listener
      cancels the running attempt and drops its handle. */
  function Detach<T>(b: Bridge<T>, h: Option<HandlerId>): (r: Result<Bridge<T>>)
    ensures b.listeners == multiset{} ==> r == Ok(b)
    ensures b.listeners != multiset{} && h.None? ==> r == Err(ArgumentNull)
    ensures b.listeners != multiset{} && h.Some? ==>
              r.Ok? && r.value.listeners == b.listeners - multiset{h.value}
              && r.value.hasValue == b.hasValue && r.value.notices == b.notices && r.value.running == b.running
              && (r.value.listeners == multiset{} ==> r.value.cancellation.None?
                                                      && r.value.cancelled == b.cancelled + (if b.cancellation.Some? then {b.cancellation.value} else {}))
              && (r.value.listeners != multiset{} ==> r.value.cancellation == b.cancellation && r.value.cancelled == b.cancelled)
  {
    if b.listeners == multiset{} then Ok(b)
    else if h.None? then Err(ArgumentNull)
    else
      var b' := b.(listeners := b.listeners - multiset{h.value});
      if b'.listeners == multiset{} then Ok(CancelHandle(b')) else Ok(b')
  }

  /** `Dispose()`: without listeners nothing happens; otherwise the listeners
      are dropped and the running attempt is cancelled. */
  function Dispose<T>(b: Bridge<T>): (r: Bridge<T>)
    ensures b.listeners == multiset{} ==> r == b
    ensures b.listeners != multiset{} ==>
              r.listeners == multiset{} && r.cancellation.None? && r.hasValue == b.hasValue
              && r.cancelled == b.cancelled + (if b.cancellation.Some? then {b.cancellation.value} else {})
              && r.notices == b.notices && ValueOf(r) == ValueOf(b)
  {
    if b.listeners != multiset{} then CancelHandle(b.(listeners := multiset{})) else b
  }

  /** The bridge settled with the completion `c`: the value or exception is
      stored, the handle cleared, one notification is delivered to the
      current listeners, and the listeners are dropped. */
  function Settled<T>(b: Bridge<T>, c: Completion<T>): (r: Bridge<T>)
    ensures r.hasValue && r.listeners == multiset{} && r.cancellation.None?
    ensures r.notices == b.notices + [b.listeners]
    ensures c.Returned? ==> ValueOf(r) == Returned(c.value) || b.exception.Some?
    ensures c.Threw? ==> ValueOf(r) == c
    ensures r.running == b.running && r.cancelled == b.cancelled && r.attempts == b.attempts
  {
    match c
    case Returned(v) =>
      b.(value := v, hasValue := true, cancellation := None, notices := b.notices + [b.listeners], listeners := multiset{})
    case Threw(e) =>
      b.(exception := Some(e), hasValue := true, cancellation := None, notices := b.notices + [b.listeners], listeners := multiset{})
  }

  /** The end of attempt `a` (the rest of `GetTaskResultAsync`), as intended:
      an attempt whose token was cancelled, or which ends with cancellation of
      its own token, changes nothing but its running mark; any other attempt
      settles the bridge. */
  function Finish<T>(b: Bridge<T>, a: nat, c: Completion<T>): (r: Bridge<T>)
    requires a in b.running
    ensures r.running == b.running - {a} && r.cancelled == b.cancelled && r.attempts == b.attempts
    ensures a in b.cancelled || (c.Threw? && c.exc == Canceled(Some(a))) ==>
              r == b.(running := b.running - {a})
    ensures !(a in b.cancelled || (c.Threw? && c.exc == Canceled(Some(a)))) ==>
              r == Settled(b.(running := b.running - {a}), c)
  {
    var b0 := b.(running := b.running - {a});
    if a in b.cancelled || (c.Threw? && c.exc == Canceled(Some(a))) then b0 else Settled(b0, c)
  }

  // ---------------------------------------------------------------- the invariant

  lemma InitialInv<T>(initial: T)
    ensures Inv(Initial(initial), initial)
  {
  }

  lemma AttachInv<T>(b: Bridge<T>, initial: T, h: Option<HandlerId>)
    requires Inv(b, initial)
    ensures Attach(b, h).Ok? ==> Inv(Attach(b, h).value, initial)
  {
  }

  lemma DetachInv<T>(b: Bridge<T>, initial: T, h: Option<HandlerId>)
    requires Inv(b, initial)
    ensures Detach(b, h).Ok? ==> Inv(Detach(b, h).value, initial)
  {
  }

  lemma DisposeInv<T>(b: Bridge<T>, initial: T)
    requires Inv(b, initial)
    ensures Inv(Dispose(b), initial)
  {
  }

  lemma FinishInv<T>(b: Bridge<T>, initial: T, a: nat, c: Completion<T>)
    requires Inv(b, initial) && a in b.running
    ensures Inv(Finish(b, a, c), initial)
  {
  }

  /** The `Debug.Assert(_cancellation == null)` of `GetTaskResultAsync`: an
      attempt is only started when no handle is held. */
  lemma StartsWithoutHandle<T>(b: Bridge<T>, initial: T)
    requires Inv(b, initial) && !b.hasValue && b.listeners == multiset{}
    ensures b.cancellation.None?
  {
  }

  /** Only the attempt whose handle is held can settle the bridge, and it then
      notifies a non-empty set of listeners exactly once. */
  lemma FinishSettlesCurrent<T>(b: Bridge<T>, initial: T, a: nat, c: Completion<T>)
    requires Inv(b, initial) && a in b.running
    ensures Finish(b, a, c).hasValue != b.hasValue ==>
              b.cancellation == Some(a) && b.listeners != multiset{}
              && Finish(b, a, c).notices == b.notices + [b.listeners]
              && ValueOf(Finish(b, a, c)) == c
  {
  }

  /** Before settling, `Value` is the default of `T`. */
  lemma ValueBeforeSettling<T>(b: Bridge<T>, initial: T)
    requires Inv(b, initial) && !b.hasValue
    ensures ValueOf(b) == Returned(initial)
  {
  }

  /** A settled bridge stays settled with the same `Value`, whatever happens. */
  lemma SettledIsFinal<T>(b: Bridge<T>, initial: T, h: Option<HandlerId>, a: nat, c: Completion<T>)
    requires Inv(b, initial) && b.hasValue
    ensures Attach(b, h) == Ok(b) && Detach(b, h) == Ok(b) && Dispose(b) == b
    ensures a in b.running ==> Finish(b, a, c).hasValue && ValueOf(Finish(b, a, c)) == ValueOf(b)
                               && Finish(b, a, c).notices == b.notices
  {
  }

  /** Detaching the last listener and attaching again restarts: the first
      attempt is cancelled, a second one starts, and that one can still
      settle the bridge with its value. */
  lemma RestartSettles<T>(initial: T, v: T, h: HandlerId)
    ensures
      var b1 := Attach(Initial(initial), Some(h)).value;
      var b2 := Detach(b1, Some(h)).value;
      var b3 := Attach(b2, Some(h)).value;
      var b4 := Finish(b3, 1, Returned(v));
      && b2.cancelled == {0} && !b2.hasValue && b3.cancellation == Some(1)
      && Finish(b3, 0, Returned(v)) == b3.(running := {1})
      && b4.hasValue && ValueOf(b4) == Returned(v) && b4.notices == [multiset{h}]
  {
    var b1 := Attach(Initial(initial), Some(h)).value;
    assert b1.running == {0} && b1.listeners == multiset{h};
    var b2 := Detach(b1, Some(h)).value;
    assert b2.listeners == multiset{};
    var b3 := Attach(b2, Some(h)).value;
    assert b3.running == {0, 1} && b3.listeners == multiset{h};
    assert b3.running - {0} == {1};
  }

  // ---------------------------------------------------------------- as written

  /** The end of attempt `a` as `GetTaskResultAsync` is written: a cancelled
      attempt is recognised only on the success path; an attempt that throws
      anything but cancellation of its own token settles the bridge, clears
      whatever handle is held, and invokes `_propertyChanged!`. With no
      listener attached that invocation throws a `NullReferenceException`: on
      the success path it is caught by the general `catch`, which stores it as
      the exception, and the second invocation there escapes the `async void`
      method. The flag says that an exception escapes. */
  function FinishAsWritten<T>(b: Bridge<T>, a: nat, c: Completion<T>): (r: (Bridge<T>, bool))
    requires a in b.running
    ensures (c.Returned? || a !in b.cancelled) && b.listeners != multiset{} ==> r == (Finish(b, a, c), false)
    ensures r.0.running == b.running - {a} && r.0.cancelled == b.cancelled && r.0.attempts == b.attempts
    ensures r.1 <==> b.listeners == multiset{} && (c.Returned? ==> a !in b.cancelled) && c != Threw(Canceled(Some(a)))
    ensures c.Threw? && c.exc != Canceled(Some(a)) ==>
              r.0.hasValue && ValueOf(r.0) == c && r.0.cancellation.None? && r.0.listeners == multiset{}
    ensures c.Returned? && a !in b.cancelled && b.listeners == multiset{} ==>
              r.0.hasValue && r.0.value == c.value && ValueOf(r.0) == Threw(NullDelegate) && r.0.cancellation.None?
    ensures c.Threw? && c.exc != Canceled(Some(a)) && b.listeners != multiset{} ==>
              r.0.notices == b.notices + [b.listeners]
    ensures b.listeners == multiset{} ==> r.0.notices == b.notices
  {
    var b0 := b.(running := b.running - {a});
    if (c.Returned? && a in b.cancelled) || (c.Threw? && c.exc == Canceled(Some(a))) then (b0, false)
    else if b.listeners == multiset{} then
      (b0.(value := if c.Returned? then c.value else b.value,
           exception := Some(if c.Returned? then NullDelegate else c.exc),
           hasValue := true, cancellation := None), true)
    else (Settled(b0, c), false)
  }

  /** On a bridge that keeps the invariant, an attempt still running and not
      cancelled has listeners: under `Finish` the success path always has a
      listener to notify. The code as written can leave the invariant (see
      `StaleFaultSettles`), and then it does not. */
  lemma LiveAttemptHasListeners<T>(b: Bridge<T>, initial: T, a: nat)
    requires Inv(b, initial) && a in b.running && a !in b.cancelled
    ensures b.listeners != multiset{}
  {
  }

  /** A listener attaches, detaches and attaches again; then the first,
      cancelled attempt fails. As written, the bridge settles with that stale
      failure, notifies the new listener, and drops the handle of the second
      attempt, which keeps running uncancelled: the invariant is broken. */
  lemma StaleFaultSettles(initial: int, h: HandlerId)
    ensures
      var b3 := Attach(Detach(Attach(Initial(initial), Some(h)).value, Some(h)).value, Some(h)).value;
      var r := FinishAsWritten(b3, 0, Threw(Failure(7)));
      && Inv(b3, initial) && 0 in b3.cancelled
      && !r.1 && r.0.hasValue && ValueOf(r.0) == Threw(Failure(7))
      && 1 in r.0.running && 1 !in r.0.cancelled && r.0.cancellation.None?
      && !Inv(r.0, initial)
  {
    var b3 := Attach(Detach(Attach(Initial(initial), Some(h)).value, Some(h)).value, Some(h)).value;
    assert b3.running == {0, 1};
  }

  /** Continuing `StaleFaultSettles`: the second attempt, never cancelled,
      returns `v` on the bridge already settled with the stale failure and
      holding no listener. As written, `_value` is overwritten, the null
      `_propertyChanged!` throws, the general `catch` replaces the stored
      exception with that one, and the second null invocation escapes: the
      value of a settled bridge changes. */
  lemma StaleFaultThenReturn(initial: int, h: HandlerId, v: int)
    ensures
      var b3 := Attach(Detach(Attach(Initial(initial), Some(h)).value, Some(h)).value, Some(h)).value;
      var b4 := FinishAsWritten(b3, 0, Threw(Failure(7))).0;
      var r := FinishAsWritten(b4, 1, Returned(v));
      && b4.hasValue && ValueOf(b4) == Threw(Failure(7))
      && r.1 && r.0.value == v && ValueOf(r.0) == Threw(NullDelegate) && r.0.notices == b4.notices
  {
    var b3 := Attach(Detach(Attach(Initial(initial), Some(h)).value, Some(h)).value, Some(h)).value;
    assert b3.running == {0, 1};
    var b4 := FinishAsWritten(b3, 0, Threw(Failure(7))).0;
    assert 1 in b4.running && 1 !in b4.cancelled && b4.listeners == multiset{};
  }

  /** The same attempt failing after its only listener detached: as written,
      `_propertyChanged!` is null and the exception escapes. */
  lemma StaleFaultWithoutListeners(initial: int, h: HandlerId)
    ensures
      var b2 := Detach(Attach(Initial(initial), Some(h)).value, Some(h)).value;
      FinishAsWritten(b2, 0, Threw(Failure(7))).1
  {
  }

  /** As intended, a cancelled attempt never settles the bridge nor notifies,
      whatever it ends with. */
  lemma CancelledNeverSettles<T>(b: Bridge<T>, a: nat, c: Completion<T>)
    requires a in b.running && a in b.cancelled
    ensures Finish(b, a, c) == b.(running := b.running - {a})
  {
  }
}
