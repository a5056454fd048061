/** The private static helpers and the subscription passes of the
    reconciliation in `WithComputedProperties` (WithComputedProperties.cs,
    `IncrementInputIndex`, `RemoveIndices`, `UpdateSubscriptions`), written as
    the loops the source runs and proved against the pure descriptions in
    `Dependencies` and `Subscriptions`. */
module Reconciliation {
  import opened Types
  import opened InPlaceLists
  import opened Dependencies
  import opened Subscriptions

  /** `IncrementInputIndex(ref inputIndex, input, cookie)`: steps at least once,
      then on to the next entry carrying `cookie` or to the end of the buffer. */
  method IncrementInputIndex(ins: seq<Entry>, i: int, cookie: int) returns (r: nat)
    requires -1 <= i < |ins|
    ensures r == NextCookie(ins, i, cookie)
  {
    r := i + 1;
    while r < |ins| && ins[r].cookie != cookie
      invariant i < r <= |ins|
      invariant forall k :: i < k < r ==> ins[k].cookie != cookie
      decreases |ins| - r
    {
      r := r + 1;
    }
  }

  // ---------------------------------------------------------------- RemoveIndices

  /** One more element of the prefix either is kept or is at a removed position. */
  lemma KeepSnoc<T>(s: seq<T>, S: set<nat>, r: nat)
    requires r < |s|
    ensures Keep(s[..r + 1], S) == Keep(s[..r], S) + (if r in S then [] else [s[r]])
  {
    assert s[..r + 1][..r] == s[..r];
  }

  /** A position strictly between two consecutive ascending indices (or before
      the first, or after the last) is not one of them. */
  lemma Between(indices: seq<nat>, j: nat, r: nat)
    requires StrictlyAscending(indices) && j <= |indices|
    requires j > 0 ==> indices[j - 1] < r
    requires j < |indices| ==> r < indices[j]
    ensures r !in Positions(indices)
  {
  }

  /** `RemoveIndices(ref list, indices)`: a write cursor trails a read cursor,
      copying every element whose position is not among the strictly ascending
      `indices`, and the tail left over is cut off with `RemoveRange`. The list
      keeps its array; nothing happens for no indices. */
  method RemoveIndices<T(==,0)>(list: InPlaceList<T>, indices: seq<nat>)
    requires list.Valid() && StrictlyAscending(indices)
    requires forall j :: 0 <= j < |indices| ==> indices[j] < list.count
    modifies list, list.arr
    ensures list.Valid() && list.arr == old(list.arr)
    ensures list.Contents() == Keep(old(list.Contents()), Positions(indices))
  {
    ghost var C0 := list.Contents();
    ghost var P := Positions(indices);
    if |indices| == 0 {
      assert P == {};
      KeepAll(C0);
      return;
    }
    var write := Compact(list, indices, C0);
    var done := list.RemoveRange(write, list.count - write);
    assert list.Contents() == old(list.Contents())[..0] + Keep(C0, P);
  }

  /** The two copying loops of `RemoveIndices`: afterwards the list begins with
      the kept elements, and the write cursor is their number. */
  method Compact<T(==,0)>(list: InPlaceList<T>, indices: seq<nat>, ghost C0: seq<T>) returns (write: nat)
    requires list.Valid() && StrictlyAscending(indices) && indices != [] && list.Contents() == C0
    requires forall j :: 0 <= j < |indices| ==> indices[j] < list.count
    modifies list.arr
    ensures list.Valid() && list.count == old(list.count) && write <= list.count
    ensures list.Contents()[..write] == Keep(C0, Positions(indices))
  {
    ghost var P := Positions(indices);
    write := 0;
    var read: nat := 0;
    var j := 0;
    assert C0[..0] == [];
    while j < |indices|
      invariant list.Valid() && list.arr == old(list.arr) && list.count == |C0|
      invariant 0 <= j <= |indices| && write <= read <= |C0|
      invariant j > 0 ==> read == indices[j - 1] + 1
      invariant j == 0 ==> read == 0
      invariant list.Contents()[..write] == Keep(C0[..read], P)
      invariant list.Contents()[read..] == C0[read..]
    {
      var index := indices[j];
      write := CopyRun(list, write, read, index, C0, indices, j);
      read := index;
      KeepSnoc(C0, P, read);
      assert read in P;
      SuffixTail(list.Contents(), C0, read);
      read := read + 1;
      j := j + 1;
    }
    write := CopyRun(list, write, read, list.count, C0, indices, j);
    assert C0[..|C0|] == C0;
  }

  /** `while (read < upto) list[write++] = list[read++]`, over a run of positions
      that holds none of the indices: the run is copied down to the write cursor. */
  method CopyRun<T(==,0)>(list: InPlaceList<T>, write: nat, read: nat, upto: nat,
                          ghost C0: seq<T>, ghost indices: seq<nat>, ghost j: nat)
    returns (w: nat)
    requires list.Valid() && list.count == |C0| && write <= read <= upto <= |C0|
    requires StrictlyAscending(indices) && j <= |indices|
    requires j > 0 ==> indices[j - 1] < read
    requires j < |indices| ==> upto <= indices[j]
    requires list.Contents()[..write] == Keep(C0[..read], Positions(indices))
    requires list.Contents()[read..] == C0[read..]
    modifies list.arr
    ensures list.Valid() && list.count == old(list.count)
    ensures w == write + (upto - read)
    ensures list.Contents()[..w] == Keep(C0[..upto], Positions(indices))
    ensures list.Contents()[upto..] == C0[upto..]
  {
    ghost var P := Positions(indices);
    w := write;
    var r := read;
    while r < upto
      invariant list.Valid() && list.count == |C0|
      invariant read <= r <= upto && w == write + (r - read)
      invariant list.Contents()[..w] == Keep(C0[..r], P)
      invariant list.Contents()[r..] == C0[r..]
    {
      Between(indices, j, r);
      CopyDown(list, w, r, C0, P);
      w := w + 1;
      r := r + 1;
    }
  }

  /** `list[write++] = list[read++]` as one step of the cursor invariant. */
  method CopyDown<T(==,0)>(list: InPlaceList<T>, write: nat, read: nat, ghost C0: seq<T>, ghost P: set<nat>)
    requires list.Valid() && write <= read < list.count && |C0| == list.count && read !in P
    requires list.Contents()[..write] == Keep(C0[..read], P)
    requires list.Contents()[read..] == C0[read..]
    modifies list.arr
    ensures list.Valid() && list.count == old(list.count)
    ensures list.Contents()[..write + 1] == Keep(C0[..read + 1], P)
    ensures list.Contents()[read + 1..] == C0[read + 1..]
  {
    KeepSnoc(C0, P, read);
    assert C0[read] == list.Contents()[read..][0];
    var v := list.Get(read as Int32);
    var done := list.Set(write as Int32, v.value);
    assert list.Contents()[read + 1..] == old(list.Contents())[read + 1..];
  }

  /** Nothing is removed for no positions. */
  lemma {:induction false} KeepAll<T>(s: seq<T>)
    ensures Keep(s, {}) == s
  {
    if s != [] {
      KeepAll(s[..|s| - 1]);
    }
  }

  // ---------------------------------------------------------------- UpdateSubscriptions

  /** `PendingSources` over one more entry. */
  lemma PendingSnoc(ins: seq<Entry>, a: nat, x: nat, self: ObjId, cookie: int)
    requires a <= x < |ins|
    ensures PendingSources(ins, a, x + 1, self, cookie)
            == PendingSources(ins, a, x, self, cookie)
               + (if ins[x].cookie == cookie && ins[x].source != self then {ins[x].source} else {})
  {
  }

  /** The loop "does any of the existing sources match?": whether an edge names `src`. */
  method HasSource(D: seq<Dependency>, src: ObjId) returns (found: bool)
    ensures found <==> src in Sources(D)
  {
    found := false;
    var y := 0;
    while y < |D|
      invariant 0 <= y <= |D|
      invariant !found
      invariant forall k :: 0 <= k < y ==> D[k].source != Some(src)
    {
      if D[y].source == Some(src) {
        found := true;
        return;
      }
      y := y + 1;
    }
  }

  /** The loops over the entries in `[a, b)`: whether one of them carries
      `cookie` and names `src`. */
  method HasPending(ins: seq<Entry>, a: nat, b: nat, self: ObjId, cookie: int, src: ObjId) returns (found: bool)
    requires a <= b <= |ins| && src != self
    ensures found <==> src in PendingSources(ins, a, b, self, cookie)
  {
    found := false;
    var y := a;
    while y < b
      invariant a <= y <= b
      invariant !found
      invariant forall k :: a <= k < y ==> !(ins[k].cookie == cookie && ins[k].source == src)
    {
      if ins[y].cookie == cookie && ins[y].source == src {
        found := true;
        return;
      }
      y := y + 1;
    }
  }

  /** The corrected loop "does any of the existing dependencies match?": whether
      an edge outside the removed positions names `src`. */
  method HasKeptSource(D: seq<Dependency>, slots: seq<nat>, src: ObjId) returns (found: bool)
    ensures found <==> src in KeptSources(D, Positions(slots))
  {
    found := false;
    var y := 0;
    while y < |D|
      invariant 0 <= y <= |D|
      invariant !found
      invariant forall k :: 0 <= k < y ==> !(D[k].source == Some(src) && k !in slots)
    {
      if D[y].source == Some(src) && y !in slots {
        found := true;
        assert y !in Positions(slots);
        return;
      }
      y := y + 1;
    }
  }

  /** The subscribe pass of `UpdateSubscriptions`: one subscription for each
      distinct source, other than this object, of the entries from `start` on
      that carry `cookie`, unless an existing edge already names it. */
  method SubscribePass(m: Ledger, D: seq<Dependency>, ins: seq<Entry>, start: nat, self: ObjId, cookie: int)
    returns (r: Ledger)
    requires start <= |ins|
    ensures forall s :: Subs(r, s) == AfterSubscribePass(Subs(m, s), D, ins, start, self, cookie, s)
  {
    r := m;
    var x := start;
    while x < |ins|
      invariant start <= x <= |ins|
      invariant forall s ::
        Subs(r, s) == Subs(m, s) + if s in PendingSources(ins, start, x, self, cookie) && s !in Sources(D) then 1 else 0
    {
      PendingSnoc(ins, start, x, self, cookie);
      var inp := ins[x];
      if inp.cookie == cookie && inp.source != self {
        var found := HasSource(D, inp.source);
        if !found {
          found := HasPending(ins, start, x, self, cookie, inp.source);
        }
        if !found {
          r := Subscribe(r, inp.source);
        }
      }
      x := x + 1;
    }
  }

  /** The unsubscribe pass of `UpdateSubscriptions`, with the intended test: for
      each removed slot naming a source, one unsubscription unless a new entry
      or an edge outside the removed slots still names that source. */
  method UnsubscribePass(m: Ledger, D: seq<Dependency>, slots: seq<nat>, ins: seq<Entry>, start: nat,
                         self: ObjId, cookie: int)
    returns (r: Ledger)
    requires start <= |ins| && self !in Sources(D)
    requires forall j :: 0 <= j < |slots| ==> slots[j] < |D|
    ensures forall s :: Subs(r, s) == AfterUnsubscribePass(Subs(m, s), D, slots, ins, start, self, cookie, s)
  {
    r := m;
    var j := 0;
    while j < |slots|
      invariant 0 <= j <= |slots|
      invariant forall s :: Subs(r, s) == if StillUsed(D, slots, ins, start, self, cookie, s) then Subs(m, s)
                                          else DecBy(Subs(m, s), RemovedCount(D, slots[..j], s))
    {
      assert slots[..j + 1][..j] == slots[..j];
      var source := D[slots[j]].source;
      if source.Some? {
        assert source.value in Sources(D);
        var found := HasPending(ins, start, |ins|, self, cookie, source.value);
        if !found {
          found := HasKeptSource(D, slots, source.value);
        }
        if !found {
          r := Unsubscribe(r, source.value);
        }
      }
      j := j + 1;
    }
    assert slots[..j] == slots;
  }

  // ---------------------------------------------------------------- SetDependencies and ReplaceDependencies

  /** The scanning loop of `SetDependencies` over the edge list `D`: each edge of
      target `t` either matches the entry at the input cursor, which then moves to
      the next entry carrying `cookie`, or is recorded for removal. */
  method ScanEdges(D: seq<Dependency>, t: Name, ins: seq<Entry>, self: ObjId, cookie: int)
    returns (toRemove: seq<nat>, inputIndex: nat)
    ensures (toRemove, inputIndex) == Scan(D, t, ins, self, cookie)
  {
    inputIndex := IncrementInputIndex(ins, -1, cookie);
    toRemove := [];
    var x := 0;
    while x < |D|
      invariant 0 <= x <= |D| && inputIndex <= |ins|
      invariant ScanFrom(D, t, ins, self, cookie, x, inputIndex, toRemove) == Scan(D, t, ins, self, cookie)
    {
      var dep := D[x];
      if dep.target == t {
        if inputIndex < |ins| && PairOf(dep) == NullIfThis(self, ins[inputIndex]) {
          inputIndex := IncrementInputIndex(ins, inputIndex, cookie);
        } else {
          toRemove := toRemove + [x];
        }
      }
      x := x + 1;
    }
  }

  lemma EdgesCons(t: Name, p: Pair, rest: seq<Pair>)
    ensures Edges(t, [p] + rest) == [EdgeOf(t, p)] + Edges(t, rest)
  {
  }

  /** Without slots to overwrite, every new pair is appended. */
  lemma ReplaceNoSlots(deps: seq<Dependency>, t: Name, news: seq<Pair>)
    ensures Replace(deps, t, [], news) == deps + Edges(t, news)
  {
    if news == [] {
      assert Positions([]) == {};
      KeepAll(deps);
    }
  }

  /** The loop of `ReplaceDependencies` over the entries from `start` on: each
      entry carrying `cookie` overwrites the next slot to remove, or is appended
      once the slots run out. Returns the slots left over, whose removal then
      completes `Replace`. */
  method WriteEntries(deps: InPlaceList<Dependency>, t: Name, slots: seq<nat>, ins: seq<Entry>, start: nat,
                      self: ObjId, cookie: int)
    returns (rest: seq<nat>)
    requires deps.Valid() && start <= |ins| && deps.count + (|ins| - start) <= MaxCount
    requires StrictlyAscending(slots) && forall j :: 0 <= j < |slots| ==> slots[j] < deps.count
    modifies deps, deps.arr
    ensures deps.Valid() && (deps.arr == old(deps.arr) || fresh(deps.arr))
    ensures StrictlyAscending(rest) && forall j :: 0 <= j < |rest| ==> rest[j] < deps.count
    ensures Keep(deps.Contents(), Positions(rest))
            == Replace(old(deps.Contents()), t, slots, CookiePairs(ins[start..], self, cookie))
  {
    ghost var goal := Replace(deps.Contents(), t, slots, CookiePairs(ins[start..], self, cookie));
    rest := slots;
    var x := start;
    while x < |ins|
      invariant start <= x <= |ins| && deps.Valid() && (deps.arr == old(deps.arr) || fresh(deps.arr))
      invariant deps.count <= old(deps.count) + (x - start)
      invariant StrictlyAscending(rest) && forall j :: 0 <= j < |rest| ==> rest[j] < deps.count
      invariant Replace(deps.Contents(), t, rest, CookiePairs(ins[x..], self, cookie)) == goal
    {
      rest := WriteEntry(deps, t, rest, ins, x, self, cookie);
      x := x + 1;
    }
    assert ins[x..] == [];
  }

  /** One step of the loop of `ReplaceDependencies`: an entry with another
      cookie is skipped; otherwise its `NullIfThis` pair is placed. */
  method WriteEntry(deps: InPlaceList<Dependency>, t: Name, rest: seq<nat>, ins: seq<Entry>, x: nat,
                    self: ObjId, cookie: int)
    returns (rest': seq<nat>)
    requires deps.Valid() && deps.count < MaxCount && x < |ins|
    requires StrictlyAscending(rest) && forall j :: 0 <= j < |rest| ==> rest[j] < deps.count
    modifies deps, deps.arr
    ensures deps.Valid() && (deps.arr == old(deps.arr) || fresh(deps.arr)) && deps.count <= old(deps.count) + 1
    ensures StrictlyAscending(rest') && forall j :: 0 <= j < |rest'| ==> rest'[j] < deps.count
    ensures Replace(deps.Contents(), t, rest', CookiePairs(ins[x + 1..], self, cookie))
            == Replace(old(deps.Contents()), t, rest, CookiePairs(ins[x..], self, cookie))
  {
    var inp := ins[x];
    if inp.cookie != cookie {
      CookieSkip(ins, self, cookie, x, x + 1);
      rest' := rest;
    } else {
      CookieHead(ins, self, cookie, x);
      rest' := PlaceEdge(deps, t, rest, NullIfThis(self, inp), CookiePairs(ins[x + 1..], self, cookie));
    }
  }

  /** One step of the loop of `ReplaceDependencies`: the edge for pair `p`
      overwrites the first remaining slot, or is appended when none is left. */
  method PlaceEdge(deps: InPlaceList<Dependency>, t: Name, rest: seq<nat>, p: Pair, ghost tail: seq<Pair>)
    returns (rest': seq<nat>)
    requires deps.Valid() && deps.count < MaxCount
    requires StrictlyAscending(rest) && forall j :: 0 <= j < |rest| ==> rest[j] < deps.count
    modifies deps, deps.arr
    ensures deps.Valid() && (deps.arr == old(deps.arr) || fresh(deps.arr)) && deps.count <= old(deps.count) + 1
    ensures StrictlyAscending(rest') && forall j :: 0 <= j < |rest'| ==> rest'[j] < deps.count
    ensures Replace(deps.Contents(), t, rest', tail) == Replace(old(deps.Contents()), t, rest, [p] + tail)
  {
    var d := EdgeOf(t, p);
    if |rest| > 0 {
      var done := deps.Set(rest[0] as Int32, d);
      rest' := rest[1..];
    } else {
      ReplaceNoSlots(deps.Contents(), t, [p] + tail);
      EdgesCons(t, p, tail);
      deps.Add(d);
      ReplaceNoSlots(deps.Contents(), t, tail);
      rest' := [];
    }
  }

  /** The edges after `Replace` name this object no more than the old edges did:
      the new ones come from `NullIfThis` pairs, the kept ones were there before. */
  lemma ReplaceNoSelf(deps: seq<Dependency>, t: Name, slots: seq<nat>, ins: seq<Entry>, start: nat,
                      self: ObjId, cookie: int)
    requires self !in Sources(deps) && start <= |ins| && StrictlyAscending(slots)
    requires forall j :: 0 <= j < |slots| ==> slots[j] < |deps| && deps[slots[j]].target == t
    ensures self !in Sources(Replace(deps, t, slots, CookiePairs(ins[start..], self, cookie)))
  {
    ReplaceSources(deps, t, slots, CookiePairs(ins[start..], self, cookie));
    CookieSources(ins, start, t, self, cookie);
    SourcesSplit(deps, slots);
  }
}
