/** `WithComputedProperties`, together with the overrides of its two subclasses
    `WithCachedProperties` and `WithStoredComputedProperties`: a reactive object
    that keeps its dependency edges in an in-place list, announces changed
    properties with their dependents, listens to the sources its edges name
    while it has listeners of its own, and reconciles the edges of one property
    after each evaluation. */
module ComputedObjects {
  import opened Types
  import opened InPlaceLists
  import opened Dependencies
  import opened Propagation
  import opened Subscriptions
  import opened ValiditySets
  import opened Reconciliation

  /** The class of the object: the base class, or one of the subclasses that keep
      a list of valid properties. */
  datatype Variant = Plain | Cached | Stored

  /** How many of `n` notifications are delivered when a listener throws on
      notification `fault` (none throws for `None`): those before it and the
      failing one. */
  function Reached(n: nat, fault: Option<nat>): (m: nat)
    ensures m <= n
    ensures fault.None? ==> m == n
    ensures fault.Some? && fault.value < n ==> m == fault.value + 1
  {
    if fault.Some? && fault.value < n then fault.value + 1 else n
  }

  /** The notifications for the first `m` names, in order. */
  function Notes(names: seq<Name>, m: nat): (r: seq<Option<Name>>)
    requires m <= |names|
    ensures |r| == m && forall i :: 0 <= i < m ==> r[i] == Some(names[i])
  {
    if m == 0 then [] else Notes(names, m - 1) + [Some(names[m - 1])]
  }

  /** The valid list after the names `names` have been announced one by one. */
  function InvalidatedAll(s: seq<Name>, names: seq<Name>): seq<Name> {
    if names == [] then s
    else Invalidated(InvalidatedAll(s, names[..|names| - 1]), Some(names[|names| - 1]))
  }

  /** Announcing names one by one keeps the valid list free of duplicates and
      leaves exactly the valid names that were not announced. */
  lemma {:induction false} InvalidatedAllMembers(s: seq<Name>, names: seq<Name>)
    requires NoDups(s)
    ensures NoDups(InvalidatedAll(s, names))
    ensures forall x :: x in InvalidatedAll(s, names) <==> x in s && x !in names
    decreases |names|
  {
    if names != [] {
      var front := names[..|names| - 1];
      InvalidatedAllMembers(s, front);
      InvalidatedMembers(InvalidatedAll(s, front), Some(names[|names| - 1]));
      assert names == front + [names[|names| - 1]];
    }
  }

  /** After `names` were announced one by one, starting from the log `log0`
      and the valid list `valid0`: the notifications that reached the listeners
      (`listening`) are in the log `log1`, and the subclasses invalidated those
      names to give `valid1`. Without listeners every name is invalidated. */
  ghost predicate Announced(variant: Variant, listening: bool, names: seq<Name>, fault: Option<nat>,
                            log0: seq<Option<Name>>, valid0: seq<Name>, log1: seq<Option<Name>>, valid1: seq<Name>)
  {
    var m := if listening then Reached(|names|, fault) else |names|;
    && valid1 == (if variant == Plain then valid0 else InvalidatedAll(valid0, names[..m]))
    && log1 == log0 + (if listening then Notes(names, m) else [])
  }

  /** The outcome of announcing `n` names: the exception of the listener, if
      it is reached. */
  function Raised(listening: bool, n: nat, fault: Option<nat>): Outcome {
    if listening && fault.Some? && fault.value < n then Fail(UserException(0)) else Pass
  }

  /** The inner loop of `OnListenersAttached` and `OnListenersDetached`: whether
      an edge before `x` names the same source as edge `x`. */
  method NamedEarlier(D: seq<Dependency>, x: nat) returns (processed: bool)
    requires x < |D| && D[x].source.Some?
    ensures processed <==> D[x].source.value in Sources(D[..x])
  {
    var source := D[x].source;
    processed := false;
    var y := 0;
    while y < x
      invariant 0 <= y <= x
      invariant processed <==> exists k :: 0 <= k < y && D[k].source == source
    {
      if D[y].source == source {
        processed := true;
        break;
      }
      y := y + 1;
    }
    if source.value in Sources(D[..x]) {
      var k :| 0 <= k < x && D[..x][k].source.Some? && D[..x][k].source.value == source.value;
      assert D[k] == D[..x][k];
    }
    if processed {
      var k :| 0 <= k < x && D[k].source == source;
      assert D[..x][k] == D[k];
    }
  }

  /** `AddPropertyWithDependencies(ref properties, startIndex, name)` over the
      edge list `edges` (which nothing changes while the closure is built): the
      part of the scratch list from `startIndex` on becomes the closure `Visit`
      of `name`; the part before it is untouched. The room requirement is the
      capacity bound of the list. */
  method AddPropertyWithDependencies(edges: seq<Dependency>, scratch: InPlaceList<Name>, start: nat, name: Name)
    requires scratch.Valid() && start <= scratch.count
    requires scratch.count + Room(edges, scratch.Contents()[start..], name) <= MaxCount
    modifies scratch, scratch.arr
    ensures scratch.Valid() && (scratch.arr == old(scratch.arr) || fresh(scratch.arr))
    ensures scratch.Contents() == old(scratch.Contents())[..start] + Visit(edges, old(scratch.Contents())[start..], name)
    decreases MaxCount - scratch.count, 0
  {
    ghost var prefix := scratch.Contents()[..start];
    ghost var s0 := scratch.Contents()[start..];
    var n := scratch.count - start;
    assert scratch.Contents()[start..start + n] == s0;
    var found := scratch.ContainsRange(name, start, n);
    if found.value {
      return;
    }
    UnlistedSnoc(edges, s0, name);
    scratch.Add(name);
    ghost var acc := s0 + [name];
    assert scratch.Contents()[..start] == prefix && scratch.Contents()[start..] == acc;
    FollowDependents(edges, scratch, start, name);
  }

  /** The `foreach` of `AddPropertyWithDependencies` after `src` was appended:
      follows, in list order, every self-edge that reads `src`. */
  method FollowDependents(edges: seq<Dependency>, scratch: InPlaceList<Name>, start: nat, src: Name)
    requires scratch.Valid() && start <= scratch.count
    requires scratch.count + Unlisted(edges, scratch.Contents()[start..]) <= MaxCount
    modifies scratch, scratch.arr
    ensures scratch.Valid() && (scratch.arr == old(scratch.arr) || fresh(scratch.arr))
    ensures scratch.Contents() == old(scratch.Contents())[..start] + VisitEdges(edges, old(scratch.Contents())[start..], src, 0)
    decreases MaxCount - scratch.count, 1
  {
    ghost var prefix := scratch.Contents()[..start];
    ghost var acc0 := scratch.Contents()[start..];
    ghost var cur := acc0;
    assert scratch.Contents() == prefix + cur;
    var x := 0;
    while x < |edges|
      invariant 0 <= x <= |edges|
      invariant scratch.Valid() && (scratch.arr == old(scratch.arr) || fresh(scratch.arr))
      invariant scratch.Contents() == prefix + cur && |acc0| <= |cur|
      invariant VisitEdges(edges, cur, src, x) == VisitEdges(edges, acc0, src, 0)
      invariant |prefix| + |cur| + Unlisted(edges, cur) <= MaxCount
    {
      var dep := edges[x];
      VisitEdgesStep(edges, cur, src, x);
      if dep.source.None? && dep.sourceProperty == src {
        assert dep.target in Targets(edges);
        assert (prefix + cur)[..start] == prefix && (prefix + cur)[start..] == cur;
        AddPropertyWithDependencies(edges, scratch, start, dep.target);
        VisitRoom(edges, cur, dep.target);
        cur := Visit(edges, cur, dep.target);
      }
      x := x + 1;
    }
  }

  /** The `foreach` of `OnInputPropertyChanged` over the edge list `edges`: the
      part of the scratch list from `start` on becomes the closure `Seeded` of
      the targets of the edges on `sender` that the notification for `pname`
      concerns. */
  method CollectSeeded(edges: seq<Dependency>, sender: ObjId, pname: Option<Name>, scratch: InPlaceList<Name>, start: nat)
    requires scratch.Valid() && start <= scratch.count
    requires scratch.count + Unlisted(edges, scratch.Contents()[start..]) <= MaxCount
    modifies scratch, scratch.arr
    ensures scratch.Valid() && (scratch.arr == old(scratch.arr) || fresh(scratch.arr))
    ensures scratch.Contents() == old(scratch.Contents())[..start] + Seeded(edges, sender, pname, old(scratch.Contents())[start..], 0)
  {
    ghost var prefix := scratch.Contents()[..start];
    ghost var acc0 := scratch.Contents()[start..];
    ghost var cur := acc0;
    assert scratch.Contents() == prefix + cur;
    var x := 0;
    while x < |edges|
      invariant 0 <= x <= |edges|
      invariant scratch.Valid() && (scratch.arr == old(scratch.arr) || fresh(scratch.arr))
      invariant scratch.Contents() == prefix + cur
      invariant Seeded(edges, sender, pname, cur, x) == Seeded(edges, sender, pname, acc0, 0)
      invariant |prefix| + |cur| + Unlisted(edges, cur) <= MaxCount
    {
      var dep := edges[x];
      SeededStep(edges, sender, pname, cur, x);
      if dep.source == Some(sender) && (pname.None? || pname.value == dep.sourceProperty) {
        assert dep.target in Targets(edges);
        assert (prefix + cur)[..start] == prefix && (prefix + cur)[start..] == cur;
        AddPropertyWithDependencies(edges, scratch, start, dep.target);
        VisitRoom(edges, cur, dep.target);
        cur := Visit(edges, cur, dep.target);
      }
      x := x + 1;
    }
  }

  class ComputedObject {
    /** This object's identity, as a source of other objects' edges. */
    const self: ObjId
    const variant: Variant
    /** `_dependencies`. */
    const deps: InPlaceList<Dependency>
    /** `_validProperties` of the two subclasses (unused by `Plain`). */
    const valid: InPlaceList<Name>
    /** The handlers subscribed to `PropertyChanged`. */
    var listeners: multiset<HandlerId>
    /** This object's subscriptions to the `PropertyChanged` of its sources. */
    var upstream: Ledger
    /** The notifications raised to the listeners so far; `None` is the
        all-properties notification. */
    var log: seq<Option<Name>>

    /** The lists are well formed, no edge names this object as a source and the
        valid list holds no name twice. */
    ghost predicate Wellformed()
      reads this, deps, deps.arr, valid, valid.arr
    {
      deps.Valid() && valid.Valid()
      && self !in Sources(deps.Contents())
      && NoDups(valid.Contents())
    }

    /** With listeners the object holds one subscription per source of its
        edges; without listeners it holds none. */
    ghost predicate Synced()
      reads this, deps, deps.arr
      requires deps.Valid()
    {
      (listeners != multiset{} ==> InSync(upstream, deps.Contents()))
      && (listeners == multiset{} ==> forall s :: Subs(upstream, s) == 0)
    }

    ghost predicate Valid()
      reads this, deps, deps.arr, valid, valid.arr
    {
      Wellformed() && Synced()
    }

    function Edges(): seq<Dependency>
      reads this, deps, deps.arr
      requires deps.Valid()
    {
      deps.Contents()
    }

    constructor (id: ObjId, v: Variant)
      ensures Valid() && self == id && variant == v
      ensures Edges() == [] && valid.Contents() == []
      ensures listeners == multiset{} && upstream == map[] && log == []
      ensures fresh(deps) && fresh(deps.arr) && fresh(valid) && fresh(valid.arr)
    {
      self := id;
      variant := v;
      deps := new InPlaceList<Dependency>();
      valid := new InPlaceList<Name>();
      listeners := multiset{};
      upstream := map[];
      log := [];
    }

    /** `HasListeners`. */
    function HasListeners(): (r: bool)
      reads this
      ensures r <==> exists h :: h in listeners
    {
      listeners != multiset{}
    }

    // ---------------------------------------------------------------- upstream subscriptions

    /** `OnListenersAttached`: subscribes once to each distinct source of the
        edges, at the edge that names it first. */
    method OnListenersAttached()
      requires deps.Valid()
      modifies this
      ensures forall s :: Subs(upstream, s) == Subs(old(upstream), s) + (if s in Sources(Edges()) then 1 else 0)
      ensures listeners == old(listeners) && log == old(log)
    {
      var D := deps.Contents();
      var x := 0;
      while x < |D|
        invariant 0 <= x <= |D|
        invariant forall s :: Subs(upstream, s) == Subs(old(upstream), s) + (if s in Sources(D[..x]) then 1 else 0)
        invariant listeners == old(listeners) && log == old(log)
      {
        SourcesSnoc(D, x);
        var source := D[x].source;
        if source.Some? {
          var processed := NamedEarlier(D, x);
          if !processed {
            upstream := Subscribe(upstream, source.value);
          }
        }
        x := x + 1;
      }
      assert D[..x] == D;
    }

    /** `OnListenersDetached`: unsubscribes once from each distinct source of
        the edges. */
    method OnListenersDetached()
      requires deps.Valid()
      modifies this
      ensures forall s :: Subs(upstream, s) == if s in Sources(Edges()) then DecBy(Subs(old(upstream), s), 1)
                                               else Subs(old(upstream), s)
      ensures listeners == old(listeners) && log == old(log)
    {
      var D := deps.Contents();
      var x := 0;
      while x < |D|
        invariant 0 <= x <= |D|
        invariant forall s :: Subs(upstream, s) == if s in Sources(D[..x]) then DecBy(Subs(old(upstream), s), 1)
                                                   else Subs(old(upstream), s)
        invariant listeners == old(listeners) && log == old(log)
      {
        SourcesSnoc(D, x);
        var source := D[x].source;
        if source.Some? {
          var processed := NamedEarlier(D, x);
          if !processed {
            upstream := Unsubscribe(upstream, source.value);
          }
        }
        x := x + 1;
      }
      assert D[..x] == D;
    }

    /** `PropertyChanged += handler`: a missing handler throws before anything
        changes; the first handler makes the object subscribe to its sources. */
    method AddHandler(handler: Option<HandlerId>) returns (r: Outcome)
      requires Valid()
      modifies this
      ensures Valid()
      ensures r == if handler.None? then Fail(ArgumentNull) else Pass
      ensures listeners == if handler.None? then old(listeners) else old(listeners) + multiset{handler.value}
      ensures r.Pass? && old(listeners) == multiset{} ==> InSync(upstream, Edges())
      ensures !(r.Pass? && old(listeners) == multiset{}) ==> upstream == old(upstream)
      ensures log == old(log)
    {
      var wasNull := listeners == multiset{};
      if handler.None? {
        return Fail(ArgumentNull);
      }
      listeners := listeners + multiset{handler.value};
      if wasNull {
        OnListenersAttached();
      }
      r := Pass;
    }

    /** `PropertyChanged -= handler`: ignored without listeners; a missing
        handler throws; removing one subscription of a handler that is not
        subscribed changes nothing; the last handler to go makes the object
        unsubscribe from its sources. */
    method RemoveHandler(handler: Option<HandlerId>) returns (r: Outcome)
      requires Valid()
      modifies this
      ensures Valid()
      ensures r == if old(listeners) != multiset{} && handler.None? then Fail(ArgumentNull) else Pass
      ensures listeners == if old(listeners) == multiset{} || handler.None? then old(listeners)
                           else old(listeners) - multiset{handler.value}
      ensures listeners == multiset{} ==> forall s :: Subs(upstream, s) == 0
      ensures listeners != multiset{} ==> upstream == old(upstream)
      ensures log == old(log)
    {
      if listeners == multiset{} {
        return Pass;
      }
      if handler.None? {
        return Fail(ArgumentNull);
      }
      listeners := listeners - multiset{handler.value};
      if listeners == multiset{} {
        OnListenersDetached();
      }
      r := Pass;
    }

    /** `Dispose`: with listeners, drops them all and unsubscribes from the
        sources; without listeners it does nothing. */
    method Dispose()
      requires Valid()
      modifies this
      ensures Valid()
      ensures listeners == multiset{}
      ensures forall s :: Subs(upstream, s) == 0
      ensures old(listeners) == multiset{} ==> upstream == old(upstream)
      ensures log == old(log)
    {
      if listeners != multiset{} {
        listeners := multiset{};
        OnListenersDetached();
      }
    }

    // ---------------------------------------------------------------- notification

    /** The scratch list `_changedProperties` is a list of its own: announcing
        through it never overwrites the valid list. */
    ghost predicate ScratchOk(scratch: InPlaceList<Name>)
      reads this, scratch, valid
    {
      scratch.Valid() && scratch != valid && scratch.arr != valid.arr
    }

    /** The invalidation `WithCachedProperties` and `WithStoredComputedProperties`
        do before notifying. */
    method InvalidateValid(name: Option<Name>)
      requires valid.Valid()
      modifies valid, valid.arr
      ensures valid.Valid() && valid.arr == old(valid.arr)
      ensures valid.Contents() == Invalidated(old(valid.Contents()), name)
    {
      if name.None? {
        valid.Clear();
      } else {
        var idx := valid.IndexOf(name.value);
        if idx >= 0 {
          FirstIndexUnique(valid.Contents(), name.value, idx);
          var lastPos := valid.count - 1;
          var last := valid.Get(lastPos);
          var _ := valid.Set(idx, last.value);
          var _ := valid.RemoveAt(lastPos);
        }
      }
    }

    /** `OnPropertyChanged(name)` as the subclasses override it: they invalidate
        first, whether or not there are listeners; then the notification goes to
        the listeners, if any. `throws` says whether a listener throws on it. */
    method OnPropertyChanged(name: Option<Name>, throws: bool) returns (r: Outcome)
      requires Valid()
      modifies this, valid, valid.arr
      ensures Valid() && listeners == old(listeners) && upstream == old(upstream) && valid.arr == old(valid.arr)
      ensures valid.Contents() == if variant == Plain then old(valid.Contents())
                                  else Invalidated(old(valid.Contents()), name)
      ensures log == if listeners == multiset{} then old(log) else old(log) + [name]
      ensures r == if listeners != multiset{} && throws then Fail(UserException(0)) else Pass
    {
      if variant != Plain {
        InvalidatedMembers(valid.Contents(), name);
        InvalidateValid(name);
      }
      if listeners == multiset{} {
        return Pass;
      }
      log := log + [name];
      r := if throws then Fail(UserException(0)) else Pass;
    }

    /** `FirePropertyChanged(names)`: announces the names in order; the exception
        of a listener ends the loop. */
    method FirePropertyChanged(names: seq<Name>, fault: Option<nat>) returns (r: Outcome)
      requires Valid()
      modifies this, valid, valid.arr
      ensures Valid() && listeners == old(listeners) && upstream == old(upstream) && valid.arr == old(valid.arr)
      ensures Announced(variant, HasListeners(), names, fault, old(log), old(valid.Contents()), log, valid.Contents())
      ensures r == Raised(HasListeners(), |names|, fault)
    {
      var i := 0;
      while i < |names|
        invariant 0 <= i <= |names|
        invariant Valid() && listeners == old(listeners) && upstream == old(upstream) && valid.arr == old(valid.arr)
        invariant listeners != multiset{} && fault.Some? ==> i <= fault.value
        invariant valid.Contents() == if variant == Plain then old(valid.Contents())
                                      else InvalidatedAll(old(valid.Contents()), names[..i])
        invariant log == old(log) + if listeners == multiset{} then [] else Notes(names, i)
      {
        var res := OnPropertyChanged(Some(names[i]), fault == Some(i));
        assert names[..i + 1][..i] == names[..i];
        if res.Fail? {
          return res;
        }
        i := i + 1;
      }
      assert names[..i] == names;
      r := Pass;
    }


    /** `OnMyPropertyChanged(name)`: `None` is announced on its own; a name is
        announced together with its dependents, which are collected at the end
        of the scratch list and removed from it afterwards, also when a
        listener throws. */
    method OnMyPropertyChanged(name: Option<Name>, scratch: InPlaceList<Name>, fault: Option<nat>) returns (r: Outcome)
      requires Valid() && ScratchOk(scratch) && scratch.count + |Edges()| < MaxCount
      modifies this, valid, valid.arr, scratch, scratch.arr
      ensures Valid() && ScratchOk(scratch) && listeners == old(listeners) && upstream == old(upstream)
      ensures scratch.Contents() == old(scratch.Contents())
      ensures name.None? ==> valid.Contents() == (if variant == Plain then old(valid.Contents()) else [])
                             && log == old(log) + (if listeners == multiset{} then [] else [None])
                             && r == Raised(HasListeners(), 1, fault)
      ensures name.Some? ==> Announced(variant, HasListeners(), Visit(Edges(), [], name.value), fault,
                                       old(log), old(valid.Contents()), log, valid.Contents())
                             && r == Raised(HasListeners(), |Visit(Edges(), [], name.value)|, fault)
    {
      if name.None? {
        r := OnPropertyChanged(None, fault == Some(0));
        return;
      }
      var startIndex := scratch.count;
      ghost var before := scratch.Contents();
      var edges := deps.Contents();
      assert before[startIndex..] == [];
      UnlistedAll(edges);
      AddPropertyWithDependencies(edges, scratch, startIndex, name.value);
      assert before[..startIndex] == before;
      assert scratch.Contents()[..startIndex] == before;
      r := FireCollected(scratch, startIndex, fault);
    }

    /** The end of `OnMyPropertyChanged` and of `OnInputPropertyChanged`: fires
        the names collected past `start` in the scratch list, then (in the
        `finally` block) removes them again. */
    method FireCollected(scratch: InPlaceList<Name>, start: nat, fault: Option<nat>) returns (r: Outcome)
      requires Valid() && ScratchOk(scratch) && start <= scratch.count
      modifies this, valid, valid.arr, scratch, scratch.arr
      ensures Valid() && ScratchOk(scratch) && listeners == old(listeners) && upstream == old(upstream)
      ensures scratch.Contents() == old(scratch.Contents())[..start]
      ensures Announced(variant, HasListeners(), old(scratch.Contents())[start..], fault,
                        old(log), old(valid.Contents()), log, valid.Contents())
      ensures r == Raised(HasListeners(), |old(scratch.Contents())[start..]|, fault)
    {
      var span := scratch.AsReadOnlySpanFrom(start);
      r := FirePropertyChanged(span.value, fault);
      ghost var log1, valid1 := log, valid.Contents();
      var _ := scratch.RemoveRange(start, scratch.count - start);
      assert log == log1 && valid.Contents() == valid1;
    }

    /** `SetProperty(ref field, value, name)`, with the field passed in and its
        new value passed out: a missing name throws before anything happens; an
        equal value changes nothing and gives false; otherwise the field takes
        the value, the name is announced with its dependents and the result is
        true, unless a listener throws. */
    method SetProperty<V(==)>(field: V, value: V, name: Option<Name>, scratch: InPlaceList<Name>, fault: Option<nat>)
        returns (r: Result<bool>, stored: V)
      requires Valid() && ScratchOk(scratch) && scratch.count + |Edges()| < MaxCount
      modifies this, valid, valid.arr, scratch, scratch.arr
      ensures Valid() && ScratchOk(scratch) && listeners == old(listeners) && upstream == old(upstream)
      ensures scratch.Contents() == old(scratch.Contents())
      ensures name.None? ==> r == Err(ArgumentNull)
      ensures name.Some? && field == value ==> r == Ok(false)
      ensures name.None? || field == value ==> stored == field && log == old(log) && valid.Contents() == old(valid.Contents())
      ensures name.Some? && field != value ==>
                stored == value
                && Announced(variant, HasListeners(), Visit(Edges(), [], name.value), fault,
                             old(log), old(valid.Contents()), log, valid.Contents())
                && r == match Raised(HasListeners(), |Visit(Edges(), [], name.value)|, fault)
                        case Pass => Ok(true)
                        case Fail(e) => Err(e)
    {
      if name.None? {
        return Err(ArgumentNull), field;
      }
      if field == value {
        return Ok(false), field;
      }
      stored := value;
      var res := OnMyPropertyChanged(name, scratch, fault);
      r := if res.Pass? then Ok(true) else Err(res.error);
    }

    /** `OnInputPropertyChanged(sender, args)`: ignored without listeners;
        otherwise the targets of the edges on `sender` that the notification for
        `pname` (`None`: all properties) concerns are announced together with
        their dependents, collected at the end of the scratch list and removed
        from it afterwards. */
    method OnInputPropertyChanged(sender: ObjId, pname: Option<Name>, scratch: InPlaceList<Name>, fault: Option<nat>)
        returns (r: Outcome)
      requires Valid() && ScratchOk(scratch) && scratch.count + |Edges()| <= MaxCount
      modifies this, valid, valid.arr, scratch, scratch.arr
      ensures Valid() && ScratchOk(scratch) && listeners == old(listeners) && upstream == old(upstream)
      ensures scratch.Contents() == old(scratch.Contents())
      ensures !HasListeners() ==> r == Pass && log == old(log) && valid.Contents() == old(valid.Contents())
      ensures HasListeners() ==>
                Announced(variant, true, Seeded(Edges(), sender, pname, [], 0), fault,
                          old(log), old(valid.Contents()), log, valid.Contents())
                && r == Raised(true, |Seeded(Edges(), sender, pname, [], 0)|, fault)
    {
      if listeners == multiset{} {
        return Pass;
      }
      var startIndex := scratch.count;
      ghost var before := scratch.Contents();
      var edges := deps.Contents();
      assert before[startIndex..] == [];
      UnlistedAll(edges);
      CollectSeeded(edges, sender, pname, scratch, startIndex);
      assert before[..startIndex] == before;
      assert scratch.Contents()[..startIndex] == before;
      r := FireCollected(scratch, startIndex, fault);
    }
  
    // ---------------------------------------------------------------- valid properties

    /** `IsPropertyValid(name)` of the two subclasses: membership in the valid list. */
    method IsPropertyValid(name: Name) returns (r: bool)
      requires variant != Plain && valid.Valid()
      ensures r <==> name in valid.Contents()
    {
      r := valid.Contains(name);
    }

    /** `SetPropertyValid(name)` of `WithCachedProperties`, which is also the first
        statement of `SetDependencies` in `WithStoredComputedProperties`: adds the
        name unless it is listed already. */
    method SetPropertyValid(name: Name)
      requires variant != Plain && valid.Valid() && NoDups(valid.Contents()) && valid.count < MaxCount
      modifies valid, valid.arr
      ensures valid.Valid() && NoDups(valid.Contents()) && (valid.arr == old(valid.arr) || fresh(valid.arr))
      ensures valid.Contents() == Validated(old(valid.Contents()), name)
    {
      ValidatedMembers(valid.Contents(), name);
      var present := valid.Contains(name);
      if !present {
        valid.Add(name);
      }
    }

    // ---------------------------------------------------------------- reconciliation

    /** `UpdateSubscriptions(t, toRemove, input, inputStart, cookie)`, run only while
        the object has listeners, with the intended test in its unsubscribe pass:
        the subscribe pass, then the unsubscribe pass, both against the edges as
        they were before the replacement. */
    method UpdateSubscriptions(t: Name, toRemove: seq<nat>, ins: seq<Entry>, start: nat, cookie: int)
      requires deps.Valid() && listeners != multiset{} && self !in Sources(Edges()) && start <= |ins|
      requires forall j :: 0 <= j < |toRemove| ==> toRemove[j] < |Edges()|
      modifies this
      ensures listeners == old(listeners) && log == old(log)
      ensures forall s ::
        Subs(upstream, s)
        == AfterUnsubscribePass(AfterSubscribePass(Subs(old(upstream), s), Edges(), ins, start, self, cookie, s),
                                Edges(), toRemove, ins, start, self, cookie, s)
    {
      var D := deps.Contents();
      var m := SubscribePass(upstream, D, ins, start, self, cookie);
      upstream := UnsubscribePass(m, D, toRemove, ins, start, self, cookie);
    }

    /** `ReplaceDependencies(t, toRemove, input, inputStart, cookie)`: updates the
        subscriptions when there are listeners, writes the edges for the entries
        from `inputStart` on into the removed slots or appends them, and removes
        the slots left over. The object stays valid: in particular, with
        listeners it again holds one subscription per source of its edges. */
    method ReplaceDependencies(t: Name, toRemove: seq<nat>, ins: seq<Entry>, start: nat, cookie: int)
      requires Valid() && start <= |ins| && RemovalSlots(Edges(), t, |Edges()|, toRemove)
      requires deps.count + (|ins| - start) <= MaxCount
      modifies this, deps, deps.arr
      ensures Valid() && listeners == old(listeners) && log == old(log)
      ensures deps.arr == old(deps.arr) || fresh(deps.arr)
      ensures Edges() == Replace(old(Edges()), t, toRemove, CookiePairs(ins[start..], self, cookie))
      ensures listeners == multiset{} ==> upstream == old(upstream)
    {
      ghost var D := Edges();
      if listeners != multiset{} {
        UpdateSubscriptions(t, toRemove, ins, start, cookie);
      }
      var rest := WriteEntries(deps, t, toRemove, ins, start, self, cookie);
      RemoveIndices(deps, rest);
      ReplaceNoSelf(D, t, toRemove, ins, start, self, cookie);
      if listeners != multiset{} {
        forall s | true
          ensures Subs(upstream, s) == if s in Sources(Edges()) then 1 else 0
        {
          ReplaceKeepsSync(old(upstream), D, t, toRemove, ins, start, self, cookie, s);
        }
      }
    }

    /** `SetDependencies(t, input, cookie)`: scans the edges of `t` against the
        entries carrying `cookie` and replaces them only when they differ. In
        `WithStoredComputedProperties` it first marks `t` valid. */
    method SetDependencies(t: Name, ins: seq<Entry>, cookie: int)
      requires Valid() && deps.count + |ins| <= MaxCount
      requires variant == Stored ==> valid.count < MaxCount
      modifies this, deps, deps.arr, valid, valid.arr
      ensures Valid() && listeners == old(listeners) && log == old(log)
      ensures Edges() == Reconciled(old(Edges()), t, ins, self, cookie)
      ensures valid.Contents() == if variant == Stored then Validated(old(valid.Contents()), t)
                                  else old(valid.Contents())
      ensures listeners == multiset{} ==> upstream == old(upstream)
      ensures (deps.arr == old(deps.arr) || fresh(deps.arr)) && (valid.arr == old(valid.arr) || fresh(valid.arr))
    {
      if variant == Stored {
        SetPropertyValid(t);
      }
      var D := deps.Contents();
      var toRemove, inputIndex := ScanEdges(D, t, ins, self, cookie);
      ScanSlots(D, t, ins, self, cookie);
      if |toRemove| > 0 || inputIndex < |ins| {
        ReplaceDependencies(t, toRemove, ins, inputIndex, cookie);
      }
    }
  }
}
