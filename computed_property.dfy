/** The evaluation protocol of computed properties (ComputedProperty.cs): the
    per-thread dependency buffer with its cookie counter, the two `Eval`
    overloads, and `RemoveMatchingInputs`. A derivation is given by the
    observable reads its rewritten expression performs (the entries it records,
    in order, up to its exception if it throws) and by its outcome. */
module ComputedProperties {
  import opened Types
  import opened InPlaceLists
  import opened Dependencies
  import opened ValiditySets
  import opened DependencyCollector
  import opened ComputedObjects

  /** One observable read of a derivation: the receiver and the property. */
  datatype Read = Read(source: ObjId, property: Name)

  /** The entries a derivation records with `cookie`, one per read, in order. */
  function Recorded(observed: seq<Read>, cookie: int): (r: seq<Entry>)
    ensures |r| == |observed|
    ensures forall i :: 0 <= i < |r| ==> r[i].cookie == cookie
  {
    seq(|observed|, i requires 0 <= i < |observed| => Entry(observed[i].source, observed[i].property, cookie))
  }

  /** The pairs the edges of the evaluated property should hold: each read,
      with a read of the object itself stored without a source. */
  function ReadPairs(observed: seq<Read>, self: ObjId): (r: seq<Pair>)
    ensures |r| == |observed|
    ensures forall i :: 0 <= i < |r| ==> r[i].property == observed[i].property
    ensures forall i :: 0 <= i < |r| ==> (r[i].source == None <==> observed[i].source == self)
    ensures forall i :: 0 <= i < |r| && r[i].source.Some? ==> r[i].source.value == observed[i].source
  {
    if observed == [] then []
    else [if observed[0].source == self then Pair(None, observed[0].property) else Pair(Some(observed[0].source), observed[0].property)]
         + ReadPairs(observed[1..], self)
  }

  /** The buffer without the entries carrying `cookie`, in order. */
  function Without(s: seq<Entry>, cookie: int): seq<Entry> {
    if s == [] then [] else Without(s[..|s| - 1], cookie) + (if s[|s| - 1].cookie == cookie then [] else [s[|s| - 1]])
  }

  // ---------------------------------------------------------------- the buffer

  /** `ComputedPropertyStorage` with its thread-static `CookieList`: `list` is
      `_list` (`null` before the first evaluation on the thread) and `cookie` is
      `_list.Cookie`. */
  class Storage {
    var list: EntryBuffer?
    var cookie: Int32

    /** Every entry in the buffer carries a cookie handed out already. */
    ghost predicate Valid()
      reads this, list
    {
      (list == null ==> cookie == 0)
      && (list != null ==> forall i :: 0 <= i < |list.entries| ==> list.entries[i].cookie <= cookie)
    }

    /** The next cookie is larger than every cookie handed out: the counter has
        not reached the largest `int`. */
    predicate Fresh()
      reads this
    {
      cookie < 0x7fff_ffff
    }

    /** The buffer's entries (none before the first evaluation). */
    function Buffered(): seq<Entry>
      reads this, list
    {
      if list == null then [] else list.entries
    }

    constructor ()
      ensures Valid() && Fresh() && list == null
    {
      list := null;
      cookie := 0;
    }

    /** `GetDependencyStorage()`: creates the buffer on first use and returns it
        with the incremented cookie; C# `int` arithmetic wraps at the top. */
    method GetDependencyStorage() returns (l: EntryBuffer, c: Int32)
      requires Valid()
      modifies this
      ensures list == l && cookie == c && l.entries == old(Buffered())
      ensures old(list) != null ==> l == old(list)
      ensures old(list) == null ==> fresh(l)
      ensures c == Wrap32(old(cookie) + 1)
      ensures old(Fresh()) ==> c == old(cookie) + 1 && Valid()
      ensures !old(Fresh()) ==> c == -0x8000_0000
    {
      if list == null {
        list := new EntryBuffer();
      }
      cookie := Wrap32(cookie + 1);
      l, c := list, cookie;
    }
  }

  /** Each call of `GetDependencyStorage` on a fresh counter returns a cookie
      larger than every cookie in the buffer. */
  lemma CookieAboveBuffer(s: seq<Entry>, cookie: int, next: int)
    requires forall i :: 0 <= i < |s| ==> s[i].cookie <= cookie
    requires next == cookie + 1
    ensures Without(s, next) == s
    ensures CookiePairs(s, 0, next) == []
  {
    WithoutNone(s, next);
    CookieNone(s, next);
  }

  // ---------------------------------------------------------------- RemoveMatchingInputs

  /** `RemoveMatchingInputs(list, cookie)`: a write cursor keeps every entry with
      another cookie, then the tail is cut off. */
  method RemoveMatchingInputs(list: EntryBuffer, cookie: int)
    modifies list
    ensures list.entries == Without(old(list.entries), cookie)
  {
    ghost var E0 := list.entries;
    var writePos := 0;
    var count := |list.entries|;
    var x := 0;
    assert E0[..0] == [];
    while x < count
      invariant 0 <= writePos <= x <= count == |list.entries| == |E0|
      invariant list.entries[..writePos] == Without(E0[..x], cookie)
      invariant list.entries[x..] == E0[x..]
    {
      var y := list.entries[x];
      assert y == E0[x] by { assert list.entries[x..][0] == y; }
      assert E0[..x + 1][..x] == E0[..x];
      SuffixTail(list.entries, E0, x);
      if y.cookie != cookie {
        list.entries := list.entries[writePos := y];
        writePos := writePos + 1;
      }
      x := x + 1;
    }
    assert E0[..x] == E0;
    list.entries := list.entries[..writePos];
  }

  /** Entries with other cookies are all kept. */
  lemma {:induction false} WithoutNone(s: seq<Entry>, cookie: int)
    requires forall i :: 0 <= i < |s| ==> s[i].cookie != cookie
    ensures Without(s, cookie) == s
  {
    if s != [] {
      WithoutNone(s[..|s| - 1], cookie);
    }
  }

  /** Removing a block of entries that all carry the cookie leaves the rest. */
  lemma {:induction false} WithoutRecorded(s: seq<Entry>, observed: seq<Read>, cookie: int)
    ensures Without(s + Recorded(observed, cookie), cookie) == Without(s, cookie)
    decreases |observed|
  {
    if observed != [] {
      var front := observed[..|observed| - 1];
      assert (s + Recorded(observed, cookie))[..|s| + |observed| - 1] == s + Recorded(front, cookie);
      WithoutRecorded(s, front, cookie);
    } else {
      assert s + Recorded(observed, cookie) == s;
    }
  }

  /** No entry carries the cookie: no pairs. */
  lemma {:induction false} CookieNone(s: seq<Entry>, cookie: int)
    requires forall i :: 0 <= i < |s| ==> s[i].cookie != cookie
    ensures forall self' :: CookiePairs(s, self', cookie) == []
  {
    if s != [] {
      CookieNone(s[1..], cookie);
    }
  }

  lemma {:induction false} CookieAppend(a: seq<Entry>, b: seq<Entry>, self: ObjId, cookie: int)
    ensures CookiePairs(a + b, self, cookie) == CookiePairs(a, self, cookie) + CookiePairs(b, self, cookie)
  {
    if a != [] {
      assert (a + b)[1..] == a[1..] + b;
      CookieAppend(a[1..], b, self, cookie);
    } else {
      assert a + b == b;
    }
  }

  /** The recorded entries carry the cookie, so their pairs are the pairs of the reads. */
  lemma {:induction false} RecordedPairs(observed: seq<Read>, self: ObjId, cookie: int)
    ensures CookiePairs(Recorded(observed, cookie), self, cookie) == ReadPairs(observed, self)
  {
    if observed != [] {
      assert Recorded(observed, cookie)[1..] == Recorded(observed[1..], cookie);
      RecordedPairs(observed[1..], self, cookie);
    }
  }

  /** The pairs of the buffer an evaluation hands to `SetDependencies`: only
      its own reads, when the older entries carry older cookies. */
  lemma BufferPairs(s: seq<Entry>, observed: seq<Read>, self: ObjId, cookie: int)
    requires forall i :: 0 <= i < |s| ==> s[i].cookie != cookie
    ensures CookiePairs(s + Recorded(observed, cookie), self, cookie) == ReadPairs(observed, self)
  {
    CookieAppend(s, Recorded(observed, cookie), self, cookie);
    CookieNone(s, cookie);
    RecordedPairs(observed, self, cookie);
  }

  // ---------------------------------------------------------------- evaluation

  /** `CallAndGetDependencies(obj, dependencies, cookie)`: runs the rewritten
      derivation, which records one entry per read through `AddDependency`. */
  method CallAndGetDependencies<V>(list: EntryBuffer, cookie: int, observed: seq<Read>, outcome: Result<V>)
    returns (r: Result<V>)
    modifies list
    ensures list.entries == old(list.entries) + Recorded(observed, cookie)
    ensures r == outcome
  {
    var collection := Collection(list, cookie);
    var i := 0;
    while i < |observed|
      invariant 0 <= i <= |observed|
      invariant list.entries == old(list.entries) + Recorded(observed[..i], cookie)
    {
      var _ := AddDependency(collection, observed[i].source, observed[i].property);
      i := i + 1;
    }
    assert observed[..i] == observed;
    r := outcome;
  }

  /** `Eval(property, obj, name)`: a missing name throws first; otherwise the
      derivation runs with a fresh cookie, and (in the `finally` block, so also
      when it throws) the object reconciles the edges of `name` with the
      buffer and the derivation's entries are removed from the buffer again.
      With a counter that has not wrapped, the buffer is as before and the
      edges of `name` are exactly the derivation's reads. */
  method Eval<V>(storage: Storage, obj: ComputedObject, name: Option<Name>, observed: seq<Read>, outcome: Result<V>)
    returns (r: Result<V>)
    requires storage.Valid() && obj.Valid()
    requires obj.deps.count + |storage.Buffered()| + |observed| <= MaxCount
    requires obj.variant == Stored ==> obj.valid.count < MaxCount
    modifies storage, storage.list, obj, obj.deps, obj.deps.arr, obj.valid, obj.valid.arr
    ensures obj.Valid() && obj.listeners == old(obj.listeners) && obj.log == old(obj.log)
    ensures obj.valid.arr == old(obj.valid.arr) || fresh(obj.valid.arr)
    ensures name.None? ==> r == Err(ArgumentNull) && obj.Edges() == old(obj.Edges())
                           && storage.cookie == old(storage.cookie) && storage.Buffered() == old(storage.Buffered())
    ensures name.Some? ==>
              r == outcome
              && storage.cookie == Wrap32(old(storage.cookie) + 1)
              && obj.Edges() == Reconciled(old(obj.Edges()), name.value, old(storage.Buffered()) + Recorded(observed, storage.cookie),
                                           obj.self, storage.cookie)
              && storage.Buffered() == Without(old(storage.Buffered()), storage.cookie)
              && obj.valid.Contents() == if obj.variant == Stored then Validated(old(obj.valid.Contents()), name.value)
                                         else old(obj.valid.Contents())
    ensures name.Some? && old(storage.Fresh()) ==>
              storage.Valid() && storage.Buffered() == old(storage.Buffered())
              && multiset(TargetPairs(obj.Edges(), name.value)) == multiset(ReadPairs(observed, obj.self))
              && OtherEdges(obj.Edges(), name.value) == OtherEdges(old(obj.Edges()), name.value)
  {
    if name.None? {
      return Err(ArgumentNull);
    }
    ghost var before := storage.Buffered();
    ghost var wasFresh := storage.Fresh();
    ghost var oldCookie := storage.cookie;
    ghost var edges := obj.Edges();
    r := EvalNamed(storage, obj, name.value, observed, outcome);
    if wasFresh {
      FreshEvalViews(before, oldCookie, storage.cookie, edges, name.value, observed, obj.self);
      assert storage.Valid();
    }
  }

  /** The edges an evaluation with a fresh cookie leaves behind. */
  lemma FreshEvalViews(before: seq<Entry>, oldCookie: int, cookie: int, edges: seq<Dependency>, t: Name,
                       observed: seq<Read>, self: ObjId)
    requires forall i :: 0 <= i < |before| ==> before[i].cookie <= oldCookie
    requires cookie == oldCookie + 1
    ensures Without(before, cookie) == before
    ensures multiset(TargetPairs(Reconciled(edges, t, before + Recorded(observed, cookie), self, cookie), t))
            == multiset(ReadPairs(observed, self))
    ensures OtherEdges(Reconciled(edges, t, before + Recorded(observed, cookie), self, cookie), t) == OtherEdges(edges, t)
  {
    CookieAboveBuffer(before, oldCookie, cookie);
    BufferPairs(before, observed, self, cookie);
    ReconciledViews(edges, t, before + Recorded(observed, cookie), self, cookie);
  }

  /** The body of `Eval` once the name is known. */
  method EvalNamed<V>(storage: Storage, obj: ComputedObject, t: Name, observed: seq<Read>, outcome: Result<V>)
    returns (r: Result<V>)
    requires storage.Valid() && obj.Valid()
    requires obj.deps.count + |storage.Buffered()| + |observed| <= MaxCount
    requires obj.variant == Stored ==> obj.valid.count < MaxCount
    modifies storage, storage.list, obj, obj.deps, obj.deps.arr, obj.valid, obj.valid.arr
    ensures obj.Valid() && obj.listeners == old(obj.listeners) && obj.log == old(obj.log)
    ensures obj.valid.arr == old(obj.valid.arr) || fresh(obj.valid.arr)
    ensures r == outcome && storage.list != null && storage.cookie == Wrap32(old(storage.cookie) + 1)
    ensures old(storage.Fresh()) ==> storage.cookie == old(storage.cookie) + 1
    ensures obj.Edges() == Reconciled(old(obj.Edges()), t, old(storage.Buffered()) + Recorded(observed, storage.cookie),
                                      obj.self, storage.cookie)
    ensures storage.Buffered() == Without(old(storage.Buffered()), storage.cookie)
    ensures obj.valid.Contents() == if obj.variant == Stored then Validated(old(obj.valid.Contents()), t)
                                    else old(obj.valid.Contents())
  {
    var dependencies, cookie := storage.GetDependencyStorage();
    WithoutRecorded(dependencies.entries, observed, cookie);
    r := CallAndGetDependencies(dependencies, cookie, observed, outcome);
    obj.SetDependencies(t, dependencies.entries, cookie);
    RemoveMatchingInputs(dependencies, cookie);
  }

  /** The cached `Eval(property, obj, ref lastVal, name)` of a
      `WithCachedProperties` object: a missing name throws first; a valid
      property returns the last value without evaluating; otherwise the value
      is evaluated, stored in `lastVal` and the property marked valid. When
      the evaluation throws, neither `lastVal` nor the valid list changes. */
  method EvalCached<V>(storage: Storage, obj: ComputedObject, lastVal: V, name: Option<Name>,
                       observed: seq<Read>, outcome: Result<V>)
    returns (r: Result<V>, last: V)
    requires obj.variant == Cached && storage.Valid() && obj.Valid()
    requires obj.deps.count + |storage.Buffered()| + |observed| <= MaxCount && obj.valid.count < MaxCount
    modifies storage, storage.list, obj, obj.deps, obj.deps.arr, obj.valid, obj.valid.arr
    ensures obj.Valid() && obj.listeners == old(obj.listeners) && obj.log == old(obj.log)
    ensures name.None? || name.value in old(obj.valid.Contents()) ==>
              r == (if name.None? then Err(ArgumentNull) else Ok(lastVal)) && last == lastVal
              && obj.Edges() == old(obj.Edges()) && obj.valid.Contents() == old(obj.valid.Contents())
              && storage.cookie == old(storage.cookie) && storage.Buffered() == old(storage.Buffered())
    ensures name.Some? && name.value !in old(obj.valid.Contents()) ==>
              r == outcome
              && storage.cookie == Wrap32(old(storage.cookie) + 1)
              && obj.Edges() == Reconciled(old(obj.Edges()), name.value, old(storage.Buffered()) + Recorded(observed, storage.cookie),
                                           obj.self, storage.cookie)
              && last == (if outcome.Ok? then outcome.value else lastVal)
              && obj.valid.Contents() == if outcome.Ok? then Validated(old(obj.valid.Contents()), name.value)
                                         else old(obj.valid.Contents())
  {
    if name.None? {
      return Err(ArgumentNull), lastVal;
    }
    var isValid := obj.IsPropertyValid(name.value);
    if isValid {
      return Ok(lastVal), lastVal;
    }
    r, last := EvalAndRemember(storage, obj, lastVal, name.value, observed, outcome);
  }

  /** The cached `Eval` of a property that is not valid. */
  method EvalAndRemember<V>(storage: Storage, obj: ComputedObject, lastVal: V, t: Name,
                            observed: seq<Read>, outcome: Result<V>)
    returns (r: Result<V>, last: V)
    requires obj.variant == Cached && storage.Valid() && obj.Valid()
    requires obj.deps.count + |storage.Buffered()| + |observed| <= MaxCount && obj.valid.count < MaxCount
    modifies storage, storage.list, obj, obj.deps, obj.deps.arr, obj.valid, obj.valid.arr
    ensures obj.Valid() && obj.listeners == old(obj.listeners) && obj.log == old(obj.log)
    ensures r == outcome && storage.cookie == Wrap32(old(storage.cookie) + 1)
    ensures obj.Edges() == Reconciled(old(obj.Edges()), t, old(storage.Buffered()) + Recorded(observed, storage.cookie),
                                      obj.self, storage.cookie)
    ensures last == (if outcome.Ok? then outcome.value else lastVal)
    ensures obj.valid.Contents() == if outcome.Ok? then Validated(old(obj.valid.Contents()), t)
                                    else old(obj.valid.Contents())
  {
    r := EvalNamed(storage, obj, t, observed, outcome);
    if r.Err? {
      return r, lastVal;
    }
    last := r.value;
    obj.SetPropertyValid(t);
  }
}
