/** Dependency edges, dependency-buffer entries and the pure description of how
    `SetDependencies` reconciles an object's edges with the entries recorded by
    one evaluation (WithComputedProperties.cs, `Dependency`, `NullIfThis`,
    `IncrementInputIndex`, `SetDependencies`, `ReplaceDependencies`,
    `RemoveIndices`). */
module Dependencies {
  import opened Types

  /** `TargetProperty` reads `SourceProperty` on `Source`; no source means this object. */
  datatype Dependency = Dependency(target: Name, source: Option<ObjId>, sourceProperty: Name)

  /** One dependency-buffer entry `(Source, Property, Cookie)`. */
  datatype Entry = Entry(source: ObjId, property: Name, cookie: int)

  /** An edge without its target: what one evaluation read. */
  datatype Pair = Pair(source: Option<ObjId>, property: Name)

  function PairOf(d: Dependency): Pair {
    Pair(d.source, d.sourceProperty)
  }

  function EdgeOf(t: Name, p: Pair): Dependency {
    Dependency(t, p.source, p.property)
  }

  /** `NullIfThis`: a read of this object itself is stored without a source. */
  function NullIfThis(self: ObjId, e: Entry): (p: Pair)
    ensures p.property == e.property
    ensures p.source == None <==> e.source == self
    ensures p.source != Some(self)
  {
    if e.source == self then Pair(None, e.property) else Pair(Some(e.source), e.property)
  }

  /** No stored edge names this object as an explicit source. */
  ghost predicate NoSelfSource(deps: seq<Dependency>, self: ObjId) {
    forall i :: 0 <= i < |deps| ==> deps[i].source != Some(self)
  }

  ghost predicate StrictlyAscending(s: seq<nat>) {
    forall i, j :: 0 <= i < j < |s| ==> s[i] < s[j]
  }

  function Positions(s: seq<nat>): set<nat> {
    set x | x in s
  }

  // ---------------------------------------------------------------- views of an edge list

  /** The (source, property) pairs of the edges whose target is `t`, in list order. */
  function TargetPairs(deps: seq<Dependency>, t: Name): seq<Pair> {
    if deps == [] then [] else TargetPairs(deps[..|deps| - 1], t) + LastPair(deps, t)
  }

  /** The pair of the last edge when its target is `t`. */
  function LastPair(deps: seq<Dependency>, t: Name): seq<Pair>
    requires deps != []
  {
    if deps[|deps| - 1].target == t then [PairOf(deps[|deps| - 1])] else []
  }

  /** The edges whose target is not `t`, in list order. */
  function OtherEdges(deps: seq<Dependency>, t: Name): seq<Dependency> {
    if deps == [] then [] else OtherEdges(deps[..|deps| - 1], t) + LastOther(deps, t)
  }

  /** The last edge when its target is not `t`. */
  function LastOther(deps: seq<Dependency>, t: Name): seq<Dependency>
    requires deps != []
  {
    if deps[|deps| - 1].target == t then [] else [deps[|deps| - 1]]
  }

  /** How often `p` is the pair of an edge with target `t`. */
  ghost function TargetCount(deps: seq<Dependency>, t: Name, p: Pair): nat {
    if deps == [] then 0
    else TargetCount(deps[..|deps| - 1], t, p)
         + (if deps[|deps| - 1].target == t && PairOf(deps[|deps| - 1]) == p then 1 else 0)
  }

  /** How often `p` is the pair of an edge at one of the positions `S`. */
  ghost function CountAt(deps: seq<Dependency>, S: set<nat>, p: Pair): nat {
    if deps == [] then 0
    else CountAt(deps[..|deps| - 1], S, p)
         + (if |deps| - 1 in S && PairOf(deps[|deps| - 1]) == p then 1 else 0)
  }

  /** How often `x` occurs in `s`. */
  ghost function Occ<T>(s: seq<T>, x: T): nat {
    if s == [] then 0 else (if s[0] == x then 1 else 0) + Occ(s[1..], x)
  }

  /** The elements of `s` at positions outside `S`, in order: what `RemoveIndices`
      leaves when it removes the positions `S`. */
  function Keep<T>(s: seq<T>, S: set<nat>): seq<T> {
    if s == [] then [] else Keep(s[..|s| - 1], S) + (if |s| - 1 in S then [] else [s[|s| - 1]])
  }

  /** Edges with target `t` for the pairs `news`, in order. */
  function Edges(t: Name, news: seq<Pair>): seq<Dependency> {
    seq(|news|, i requires 0 <= i < |news| => EdgeOf(t, news[i]))
  }

  // ---------------------------------------------------------------- buffer entries

  /** The `NullIfThis` pairs of the entries of `ins` that carry `cookie`, in order. */
  function CookiePairs(ins: seq<Entry>, self: ObjId, cookie: int): (r: seq<Pair>)
    ensures |r| <= |ins|
    ensures forall i :: 0 <= i < |ins| && ins[i].cookie == cookie ==> NullIfThis(self, ins[i]) in r
    ensures forall p :: p in r ==> exists i :: 0 <= i < |ins| && ins[i].cookie == cookie && NullIfThis(self, ins[i]) == p
  {
    if ins == [] then []
    else (if ins[0].cookie == cookie then [NullIfThis(self, ins[0])] else [])
         + CookiePairs(ins[1..], self, cookie)
  }

  /** `IncrementInputIndex`: the next position after `i` holding an entry with
      `cookie`, or `|ins|` when there is none. */
  function NextCookie(ins: seq<Entry>, i: int, cookie: int): (r: nat)
    requires -1 <= i < |ins|
    ensures i < r <= |ins|
    ensures r < |ins| ==> ins[r].cookie == cookie
    ensures forall k :: i < k < r ==> ins[k].cookie != cookie
    decreases |ins| - i
  {
    if i + 1 == |ins| || ins[i + 1].cookie == cookie then i + 1
    else NextCookie(ins, i + 1, cookie)
  }

  // ---------------------------------------------------------------- reconciliation

  /** The positions a scan may record for removal once it has passed edge `x`:
      ascending slots of edges with target `t`, all before `x`. */
  ghost predicate RemovalSlots(deps: seq<Dependency>, t: Name, x: nat, removed: seq<nat>) {
    StrictlyAscending(removed)
    && forall j :: 0 <= j < |removed| ==> removed[j] < x && removed[j] < |deps| && deps[removed[j]].target == t
  }

  /** The loop of `SetDependencies` from edge `x` on: edges of target `t` that match
      the current cookie entry advance the input cursor `ii`, the others are
      recorded for removal. Yields the positions to remove and the cursor. */
  ghost function ScanFrom(deps: seq<Dependency>, t: Name, ins: seq<Entry>, self: ObjId, cookie: int,
                          x: nat, ii: nat, removed: seq<nat>): (r: (seq<nat>, nat))
    requires x <= |deps| && ii <= |ins|
    ensures r.1 <= |ins|
    decreases |deps| - x
  {
    if x == |deps| then (removed, ii)
    else if deps[x].target != t then ScanFrom(deps, t, ins, self, cookie, x + 1, ii, removed)
    else if ii < |ins| && PairOf(deps[x]) == NullIfThis(self, ins[ii]) then
      ScanFrom(deps, t, ins, self, cookie, x + 1, NextCookie(ins, ii, cookie), removed)
    else ScanFrom(deps, t, ins, self, cookie, x + 1, ii, removed + [x])
  }

  /** The whole scan, starting at the first entry that carries `cookie`. */
  ghost function Scan(deps: seq<Dependency>, t: Name, ins: seq<Entry>, self: ObjId, cookie: int): (r: (seq<nat>, nat))
    ensures r.1 <= |ins|
  {
    ScanFrom(deps, t, ins, self, cookie, 0, NextCookie(ins, -1, cookie), [])
  }

  /** `ReplaceDependencies` without its subscription bookkeeping: each new pair
      overwrites the next slot to remove, or is appended once the slots run out;
      slots left over are removed by `RemoveIndices`. */
  function Replace(deps: seq<Dependency>, t: Name, slots: seq<nat>, news: seq<Pair>): seq<Dependency>
    requires forall j :: 0 <= j < |slots| ==> slots[j] < |deps|
    decreases news
  {
    if news == [] then Keep(deps, Positions(slots))
    else if slots == [] then deps + Edges(t, news)
    else Replace(deps[slots[0] := EdgeOf(t, news[0])], t, slots[1..], news[1..])
  }

  /** The edge list after `SetDependencies(t, ins, cookie)`. */
  ghost function Reconciled(deps: seq<Dependency>, t: Name, ins: seq<Entry>, self: ObjId, cookie: int): seq<Dependency> {
    var (rem, start) := Scan(deps, t, ins, self, cookie);
    ScanSlots(deps, t, ins, self, cookie);
    if rem == [] && start == |ins| then deps
    else Replace(deps, t, rem, CookiePairs(ins[start..], self, cookie))
  }

  lemma {:induction false} ScanFromSlots(deps: seq<Dependency>, t: Name, ins: seq<Entry>, self: ObjId, cookie: int,
                                         x: nat, ii: nat, removed: seq<nat>)
    requires x <= |deps| && ii <= |ins|
    requires RemovalSlots(deps, t, x, removed)
    ensures RemovalSlots(deps, t, |deps|, ScanFrom(deps, t, ins, self, cookie, x, ii, removed).0)
    decreases |deps| - x
  {
    if x < |deps| {
      if deps[x].target != t {
        ScanFromSlots(deps, t, ins, self, cookie, x + 1, ii, removed);
      } else if ii < |ins| && PairOf(deps[x]) == NullIfThis(self, ins[ii]) {
        ScanFromSlots(deps, t, ins, self, cookie, x + 1, NextCookie(ins, ii, cookie), removed);
      } else {
        ScanFromSlots(deps, t, ins, self, cookie, x + 1, ii, removed + [x]);
      }
    }
  }

  /** The scan records ascending slots of `t`-edges for removal. */
  lemma ScanSlots(deps: seq<Dependency>, t: Name, ins: seq<Entry>, self: ObjId, cookie: int)
    ensures RemovalSlots(deps, t, |deps|, Scan(deps, t, ins, self, cookie).0)
  {
    ScanFromSlots(deps, t, ins, self, cookie, 0, NextCookie(ins, -1, cookie), []);
  }

  // ---------------------------------------------------------------- lemmas: counting

  lemma {:induction false} OccAppend<T>(a: seq<T>, b: seq<T>, x: T)
    ensures Occ(a + b, x) == Occ(a, x) + Occ(b, x)
    decreases |a|
  {
    if a != [] {
      assert (a + b)[1..] == a[1..] + b;
      OccAppend(a[1..], b, x);
    } else {
      assert a + b == b;
    }
  }

  lemma {:induction false} OccMultiset<T>(s: seq<T>, x: T)
    ensures multiset(s)[x] == Occ(s, x)
    decreases |s|
  {
    if s != [] {
      assert s == [s[0]] + s[1..];
      OccMultiset(s[1..], x);
    }
  }

  lemma {:induction false} TargetCountAppend(a: seq<Dependency>, b: seq<Dependency>, t: Name, p: Pair)
    ensures TargetCount(a + b, t, p) == TargetCount(a, t, p) + TargetCount(b, t, p)
    decreases |b|
  {
    if b == [] {
      assert a + b == a;
    } else {
      assert (a + b)[..|a + b| - 1] == a + b[..|b| - 1];
      TargetCountAppend(a, b[..|b| - 1], t, p);
    }
  }

  /** `TargetCount` counts the occurrences of `p` in `TargetPairs`. */
  lemma {:induction false} TargetCountOcc(deps: seq<Dependency>, t: Name, p: Pair)
    ensures Occ(TargetPairs(deps, t), p) == TargetCount(deps, t, p)
    decreases |deps|
  {
    if deps != [] {
      TargetCountOcc(deps[..|deps| - 1], t, p);
      OccAppend(TargetPairs(deps[..|deps| - 1], t), LastPair(deps, t), p);
      var l := LastPair(deps, t);
      if l != [] {
        assert l[1..] == [];
      }
    }
  }

  lemma {:induction false} EdgesCount(t: Name, news: seq<Pair>, p: Pair)
    ensures TargetCount(Edges(t, news), t, p) == Occ(news, p)
    decreases |news|
  {
    if news != [] {
      assert Edges(t, news) == [EdgeOf(t, news[0])] + Edges(t, news[1..]);
      TargetCountAppend([EdgeOf(t, news[0])], Edges(t, news[1..]), t, p);
      assert [EdgeOf(t, news[0])][..0] == [];
      EdgesCount(t, news[1..], p);
    }
  }

  /** Overwriting one `t`-edge with another exchanges one occurrence. */
  lemma {:induction false} UpdateSlotCount(deps: seq<Dependency>, i: nat, d: Dependency, t: Name, p: Pair)
    requires i < |deps| && deps[i].target == t && d.target == t
    ensures TargetCount(deps[i := d], t, p) + (if PairOf(deps[i]) == p then 1 else 0)
            == TargetCount(deps, t, p) + (if PairOf(d) == p then 1 else 0)
    decreases |deps|
  {
    var n := |deps| - 1;
    var deps' := deps[i := d];
    if i == n {
      assert deps'[..n] == deps[..n];
    } else {
      assert deps'[..n] == deps[..n][i := d];
      assert deps'[n] == deps[n];
      UpdateSlotCount(deps[..n], i, d, t, p);
    }
  }

  lemma {:induction false} CountAtBeyond(deps: seq<Dependency>, S: set<nat>, x: nat, p: Pair)
    requires x >= |deps|
    ensures CountAt(deps, S + {x}, p) == CountAt(deps, S, p)
    decreases |deps|
  {
    if deps != [] {
      CountAtBeyond(deps[..|deps| - 1], S, x, p);
    }
  }

  lemma {:induction false} CountAtAdd(deps: seq<Dependency>, S: set<nat>, i: nat, p: Pair)
    requires i < |deps| && i !in S
    ensures CountAt(deps, S + {i}, p) == CountAt(deps, S, p) + (if PairOf(deps[i]) == p then 1 else 0)
    decreases |deps|
  {
    var n := |deps| - 1;
    if i == n {
      CountAtBeyond(deps[..n], S, i, p);
    } else {
      CountAtAdd(deps[..n], S, i, p);
    }
  }

  lemma {:induction false} CountAtSame(deps: seq<Dependency>, deps': seq<Dependency>, S: set<nat>, p: Pair)
    requires |deps| == |deps'|
    requires forall i :: i in S && i < |deps| ==> deps[i] == deps'[i]
    ensures CountAt(deps, S, p) == CountAt(deps', S, p)
    decreases |deps|
  {
    if deps != [] {
      var n := |deps| - 1;
      CountAtSame(deps[..n], deps'[..n], S, p);
    }
  }

  lemma {:induction false} CountAtEmpty(deps: seq<Dependency>, p: Pair)
    ensures CountAt(deps, {}, p) == 0
    decreases |deps|
  {
    if deps != [] {
      CountAtEmpty(deps[..|deps| - 1], p);
    }
  }

  // ---------------------------------------------------------------- lemmas: other targets

  lemma {:induction false} OtherEdgesAppend(a: seq<Dependency>, b: seq<Dependency>, t: Name)
    ensures OtherEdges(a + b, t) == OtherEdges(a, t) + OtherEdges(b, t)
    decreases |b|
  {
    if b == [] {
      assert a + b == a;
    } else {
      var n := |b| - 1;
      assert (a + b)[..|a + b| - 1] == a + b[..n];
      assert LastOther(a + b, t) == LastOther(b, t);
      OtherEdgesAppend(a, b[..n], t);
      assert (OtherEdges(a, t) + OtherEdges(b[..n], t)) + LastOther(b, t)
             == OtherEdges(a, t) + (OtherEdges(b[..n], t) + LastOther(b, t));
    }
  }

  lemma {:induction false} EdgesOthers(t: Name, news: seq<Pair>)
    ensures OtherEdges(Edges(t, news), t) == []
    decreases |news|
  {
    if news != [] {
      var n := |news| - 1;
      assert Edges(t, news)[..n] == Edges(t, news[..n]);
      EdgesOthers(t, news[..n]);
    }
  }

  lemma {:induction false} UpdateSlotOthers(deps: seq<Dependency>, i: nat, d: Dependency, t: Name)
    requires i < |deps| && deps[i].target == t && d.target == t
    ensures OtherEdges(deps[i := d], t) == OtherEdges(deps, t)
    decreases |deps|
  {
    var n := |deps| - 1;
    var deps' := deps[i := d];
    if i == n {
      assert deps'[..n] == deps[..n];
    } else {
      assert deps'[..n] == deps[..n][i := d];
      UpdateSlotOthers(deps[..n], i, d, t);
    }
  }

  // ---------------------------------------------------------------- lemmas: Keep and Replace

  /** Removing positions that all hold `t`-edges keeps the other edges in order. */
  lemma {:induction false} KeepOthers(deps: seq<Dependency>, S: set<nat>, t: Name)
    requires forall i :: i in S && i < |deps| ==> deps[i].target == t
    ensures OtherEdges(Keep(deps, S), t) == OtherEdges(deps, t)
    decreases |deps|
  {
    if deps != [] {
      var n := |deps| - 1;
      KeepOthers(deps[..n], S, t);
      var last := if n in S then [] else [deps[n]];
      OtherEdgesAppend(Keep(deps[..n], S), last, t);
      if last != [] {
        assert last[..0] == [];
      }
    }
  }

  /** Removing positions that all hold `t`-edges removes exactly the pairs at them. */
  lemma {:induction false} KeepCount(deps: seq<Dependency>, S: set<nat>, t: Name, p: Pair)
    requires forall i :: i in S && i < |deps| ==> deps[i].target == t
    ensures TargetCount(Keep(deps, S), t, p) + CountAt(deps, S, p) == TargetCount(deps, t, p)
    decreases |deps|
  {
    if deps != [] {
      var n := |deps| - 1;
      KeepCount(deps[..n], S, t, p);
      var last := if n in S then [] else [deps[n]];
      TargetCountAppend(Keep(deps[..n], S), last, t, p);
      if last != [] {
        assert last[..0] == [];
      }
    }
  }

  /** `Replace` leaves the edges of other targets untouched. */
  lemma {:induction false} ReplaceOthers(deps: seq<Dependency>, t: Name, slots: seq<nat>, news: seq<Pair>)
    requires forall j :: 0 <= j < |slots| ==> slots[j] < |deps| && deps[slots[j]].target == t
    ensures OtherEdges(Replace(deps, t, slots, news), t) == OtherEdges(deps, t)
    decreases news
  {
    if news == [] {
      KeepOthers(deps, Positions(slots), t);
    } else if slots == [] {
      OtherEdgesAppend(deps, Edges(t, news), t);
      EdgesOthers(t, news);
    } else {
      var deps' := deps[slots[0] := EdgeOf(t, news[0])];
      UpdateSlotOthers(deps, slots[0], EdgeOf(t, news[0]), t);
      ReplaceOthers(deps', t, slots[1..], news[1..]);
    }
  }

  /** What the recursive step of `Replace` needs of the remaining slots. */
  lemma SlotsTail(deps: seq<Dependency>, t: Name, slots: seq<nat>, d: Dependency)
    requires slots != [] && d.target == t && StrictlyAscending(slots)
    requires forall j :: 0 <= j < |slots| ==> slots[j] < |deps| && deps[slots[j]].target == t
    ensures StrictlyAscending(slots[1..])
    ensures forall j :: 0 <= j < |slots| - 1 ==> slots[1..][j] < |deps| && deps[slots[0] := d][slots[1..][j]].target == t
    ensures slots[0] !in Positions(slots[1..]) && Positions(slots) == Positions(slots[1..]) + {slots[0]}
    ensures forall i :: i in Positions(slots[1..]) && i < |deps| ==> deps[i] == deps[slots[0] := d][i]
  {
    var rest := slots[1..];
    forall j | 0 <= j < |rest| ensures rest[j] > slots[0] {
      assert rest[j] == slots[j + 1];
    }
    assert slots == [slots[0]] + rest;
  }

  lemma {:induction false} ReplaceCount(deps: seq<Dependency>, t: Name, slots: seq<nat>, news: seq<Pair>, p: Pair)
    requires StrictlyAscending(slots)
    requires forall j :: 0 <= j < |slots| ==> slots[j] < |deps| && deps[slots[j]].target == t
    ensures TargetCount(Replace(deps, t, slots, news), t, p) + CountAt(deps, Positions(slots), p)
            == TargetCount(deps, t, p) + Occ(news, p)
    decreases news
  {
    if news == [] {
      KeepCount(deps, Positions(slots), t, p);
    } else if slots == [] {
      TargetCountAppend(deps, Edges(t, news), t, p);
      EdgesCount(t, news, p);
      assert Positions(slots) == {};
      CountAtEmpty(deps, p);
    } else {
      var s0 := slots[0];
      var d := EdgeOf(t, news[0]);
      var deps' := deps[s0 := d];
      var rest := slots[1..];
      SlotsTail(deps, t, slots, d);
      ReplaceCount(deps', t, rest, news[1..], p);
      UpdateSlotCount(deps, s0, d, t, p);
      CountAtSame(deps, deps', Positions(rest), p);
      CountAtAdd(deps, Positions(rest), s0, p);
    }
  }

  // ---------------------------------------------------------------- lemmas: entries

  /** Entries with other cookies contribute nothing. */
  lemma {:induction false} CookieSkip(ins: seq<Entry>, self: ObjId, cookie: int, a: nat, b: nat)
    requires a <= b <= |ins|
    requires forall k :: a <= k < b ==> ins[k].cookie != cookie
    ensures CookiePairs(ins[a..], self, cookie) == CookiePairs(ins[b..], self, cookie)
    decreases b - a
  {
    if a < b {
      assert ins[a..][1..] == ins[a + 1..];
      CookieSkip(ins, self, cookie, a + 1, b);
    }
  }

  lemma {:induction false} CookieHead(ins: seq<Entry>, self: ObjId, cookie: int, i: nat)
    requires i < |ins| && ins[i].cookie == cookie
    ensures CookiePairs(ins[i..], self, cookie)
            == [NullIfThis(self, ins[i])] + CookiePairs(ins[i + 1..], self, cookie)
  {
    assert ins[i..][1..] == ins[i + 1..];
  }

  /** From an entry carrying `cookie`, the remaining cookie pairs are empty only at the end. */
  lemma CookieTail(ins: seq<Entry>, self: ObjId, cookie: int, ii: nat)
    requires ii <= |ins| && (ii < |ins| ==> ins[ii].cookie == cookie)
    ensures CookiePairs(ins[ii..], self, cookie) == [] <==> ii == |ins|
  {
    if ii < |ins| {
      CookieHead(ins, self, cookie, ii);
    } else {
      assert ins[ii..] == [];
    }
  }

  // ---------------------------------------------------------------- lemmas: the scan

  lemma TargetCountSnoc(deps: seq<Dependency>, x: nat, t: Name, p: Pair)
    requires x < |deps|
    ensures TargetCount(deps[..x + 1], t, p)
            == TargetCount(deps[..x], t, p) + (if deps[x].target == t && PairOf(deps[x]) == p then 1 else 0)
  {
    assert deps[..x + 1][..x] == deps[..x];
  }

  lemma CountAtSnoc(deps: seq<Dependency>, x: nat, S: set<nat>, p: Pair)
    requires x < |deps|
    ensures CountAt(deps[..x + 1], S, p)
            == CountAt(deps[..x], S, p) + (if x in S && PairOf(deps[x]) == p then 1 else 0)
  {
    assert deps[..x + 1][..x] == deps[..x];
  }

  /** Consuming the current cookie entry advances the cursor to the next one. */
  lemma ConsumeEntry(ins: seq<Entry>, self: ObjId, cookie: int, ii: nat, E: seq<Pair>, k: nat)
    requires E == CookiePairs(ins, self, cookie)
    requires ii < |ins| && ins[ii].cookie == cookie
    requires k <= |E| && CookiePairs(ins[ii..], self, cookie) == E[k..]
    ensures k < |E| && E[k] == NullIfThis(self, ins[ii])
    ensures CookiePairs(ins[NextCookie(ins, ii, cookie)..], self, cookie) == E[k + 1..]
  {
    CookieHead(ins, self, cookie, ii);
    CookieSkip(ins, self, cookie, ii + 1, NextCookie(ins, ii, cookie));
    assert E[k..][1..] == E[k + 1..];
  }

  lemma OccSnoc<T>(E: seq<T>, k: nat, p: T)
    requires k < |E|
    ensures Occ(E[..k + 1], p) == Occ(E[..k], p) + (if E[k] == p then 1 else 0)
  {
    assert E[..k + 1] == E[..k] + [E[k]];
    OccAppend(E[..k], [E[k]], p);
    assert [E[k]][1..] == [];
  }

  ghost predicate AllBelow(s: seq<nat>, x: nat) {
    forall j :: 0 <= j < |s| ==> s[j] < x
  }

  lemma BelowExtend(s: seq<nat>, x: nat)
    requires AllBelow(s, x)
    ensures AllBelow(s + [x], x + 1) && x !in Positions(s)
  {
  }

  /** The counting invariant of the scan: the `t`-edges passed so far hold the
      consumed cookie pairs plus the pairs recorded for removal. */
  lemma {:induction false} ScanFromCount(deps: seq<Dependency>, t: Name, ins: seq<Entry>, self: ObjId, cookie: int,
                                         x: nat, ii: nat, removed: seq<nat>, k: nat, p: Pair)
    requires x <= |deps| && ii <= |ins| && AllBelow(removed, x)
    requires ii < |ins| ==> ins[ii].cookie == cookie
    requires k <= |CookiePairs(ins, self, cookie)|
    requires CookiePairs(ins[ii..], self, cookie) == CookiePairs(ins, self, cookie)[k..]
    requires TargetCount(deps[..x], t, p)
             == Occ(CookiePairs(ins, self, cookie)[..k], p) + CountAt(deps[..x], Positions(removed), p)
    ensures var (rem, start) := ScanFrom(deps, t, ins, self, cookie, x, ii, removed);
            TargetCount(deps, t, p) + Occ(CookiePairs(ins[start..], self, cookie), p)
            == Occ(CookiePairs(ins, self, cookie), p) + CountAt(deps, Positions(rem), p)
    decreases |deps| - x, 2
  {
    var E := CookiePairs(ins, self, cookie);
    if x == |deps| {
      assert deps[..x] == deps;
      assert E == E[..k] + E[k..];
      OccAppend(E[..k], E[k..], p);
    } else {
      ScanStepCount(deps, t, ins, self, cookie, x, ii, removed, k, p);
    }
  }

  /** One step of the counting invariant, at an edge `x` the scan has not passed. */
  lemma {:induction false} ScanStepCount(deps: seq<Dependency>, t: Name, ins: seq<Entry>, self: ObjId, cookie: int,
                                         x: nat, ii: nat, removed: seq<nat>, k: nat, p: Pair)
    requires x < |deps| && ii <= |ins| && AllBelow(removed, x)
    requires ii < |ins| ==> ins[ii].cookie == cookie
    requires k <= |CookiePairs(ins, self, cookie)|
    requires CookiePairs(ins[ii..], self, cookie) == CookiePairs(ins, self, cookie)[k..]
    requires TargetCount(deps[..x], t, p)
             == Occ(CookiePairs(ins, self, cookie)[..k], p) + CountAt(deps[..x], Positions(removed), p)
    ensures var (rem, start) := ScanFrom(deps, t, ins, self, cookie, x, ii, removed);
            TargetCount(deps, t, p) + Occ(CookiePairs(ins[start..], self, cookie), p)
            == Occ(CookiePairs(ins, self, cookie), p) + CountAt(deps, Positions(rem), p)
    decreases |deps| - x, 1
  {
    var S := Positions(removed);
    TargetCountSnoc(deps, x, t, p);
    if deps[x].target != t || (ii < |ins| && PairOf(deps[x]) == NullIfThis(self, ins[ii])) {
      CountAtSnoc(deps, x, S, p);
      if deps[x].target == t {
        ScanMatchCount(deps, t, ins, self, cookie, x, ii, removed, k, p);
      } else {
        ScanFromCount(deps, t, ins, self, cookie, x + 1, ii, removed, k, p);
      }
    } else {
      var removed' := removed + [x];
      assert Positions(removed') == S + {x};
      BelowExtend(removed, x);
      CountAtBeyond(deps[..x], S, x, p);
      CountAtSnoc(deps, x, S + {x}, p);
      ScanFromCount(deps, t, ins, self, cookie, x + 1, ii, removed', k, p);
    }
  }

  /** The step that consumes the current cookie entry. */
  lemma {:induction false} ScanMatchCount(deps: seq<Dependency>, t: Name, ins: seq<Entry>, self: ObjId, cookie: int,
                                          x: nat, ii: nat, removed: seq<nat>, k: nat, p: Pair)
    requires x < |deps| && ii < |ins| && AllBelow(removed, x)
    requires deps[x].target == t && PairOf(deps[x]) == NullIfThis(self, ins[ii])
    requires ins[ii].cookie == cookie
    requires k <= |CookiePairs(ins, self, cookie)|
    requires CookiePairs(ins[ii..], self, cookie) == CookiePairs(ins, self, cookie)[k..]
    requires TargetCount(deps[..x + 1], t, p)
             == Occ(CookiePairs(ins, self, cookie)[..k], p) + CountAt(deps[..x + 1], Positions(removed), p)
               + (if PairOf(deps[x]) == p then 1 else 0)
    ensures var (rem, start) := ScanFrom(deps, t, ins, self, cookie, x, ii, removed);
            TargetCount(deps, t, p) + Occ(CookiePairs(ins[start..], self, cookie), p)
            == Occ(CookiePairs(ins, self, cookie), p) + CountAt(deps, Positions(rem), p)
    decreases |deps| - x, 0
  {
    var E := CookiePairs(ins, self, cookie);
    ConsumeEntry(ins, self, cookie, ii, E, k);
    OccSnoc(E, k, p);
    ScanFromCount(deps, t, ins, self, cookie, x + 1, NextCookie(ins, ii, cookie), removed, k + 1, p);
  }

  lemma {:induction false} TargetPairsAppend(a: seq<Dependency>, b: seq<Dependency>, t: Name)
    ensures TargetPairs(a + b, t) == TargetPairs(a, t) + TargetPairs(b, t)
    decreases |b|
  {
    if b == [] {
      assert a + b == a;
    } else {
      var n := |b| - 1;
      assert (a + b)[..|a + b| - 1] == a + b[..n];
      assert LastPair(a + b, t) == LastPair(b, t);
      TargetPairsAppend(a, b[..n], t);
      assert (TargetPairs(a, t) + TargetPairs(b[..n], t)) + LastPair(b, t)
             == TargetPairs(a, t) + (TargetPairs(b[..n], t) + LastPair(b, t));
    }
  }

  /** The pairs of the first `x + 1` edges extend those of the first `x`, and
      both are prefixes of all the pairs. */
  lemma TargetPairsPrefix(deps: seq<Dependency>, x: nat, t: Name)
    requires x < |deps|
    ensures TargetPairs(deps[..x + 1], t) == TargetPairs(deps[..x], t) + LastPair(deps[..x + 1], t)
    ensures |TargetPairs(deps[..x + 1], t)| <= |TargetPairs(deps, t)|
    ensures TargetPairs(deps[..x + 1], t) == TargetPairs(deps, t)[..|TargetPairs(deps[..x + 1], t)|]
  {
    assert deps[..x + 1][..x] == deps[..x];
    assert deps == deps[..x + 1] + deps[x + 1..];
    TargetPairsAppend(deps[..x + 1], deps[x + 1..], t);
  }

  lemma TargetPairsLength(deps: seq<Dependency>, x: nat, t: Name)
    requires x <= |deps|
    ensures |TargetPairs(deps[..x], t)| <= |TargetPairs(deps, t)|
  {
    assert deps == deps[..x] + deps[x..];
    TargetPairsAppend(deps[..x], deps[x..], t);
  }

  /** When the `t`-edges already match the cookie pairs in order, the scan
      removes nothing and consumes every entry. */
  lemma {:induction false} ScanFromInOrder(deps: seq<Dependency>, t: Name, ins: seq<Entry>, self: ObjId, cookie: int,
                                           x: nat, ii: nat, k: nat)
    requires TargetPairs(deps, t) == CookiePairs(ins, self, cookie)
    requires x <= |deps| && ii <= |ins|
    requires ii < |ins| ==> ins[ii].cookie == cookie
    requires k == |TargetPairs(deps[..x], t)| && k <= |TargetPairs(deps, t)|
    requires CookiePairs(ins[ii..], self, cookie) == TargetPairs(deps, t)[k..]
    ensures ScanFrom(deps, t, ins, self, cookie, x, ii, []) == ([], |ins|)
    decreases |deps| - x, 1
  {
    if x == |deps| {
      assert deps[..x] == deps;
      CookieTail(ins, self, cookie, ii);
    } else {
      ScanStepInOrder(deps, t, ins, self, cookie, x, ii, k);
    }
  }

  lemma {:induction false} ScanStepInOrder(deps: seq<Dependency>, t: Name, ins: seq<Entry>, self: ObjId, cookie: int,
                                           x: nat, ii: nat, k: nat)
    requires TargetPairs(deps, t) == CookiePairs(ins, self, cookie)
    requires x < |deps| && ii <= |ins|
    requires ii < |ins| ==> ins[ii].cookie == cookie
    requires k == |TargetPairs(deps[..x], t)| && k <= |TargetPairs(deps, t)|
    requires CookiePairs(ins[ii..], self, cookie) == TargetPairs(deps, t)[k..]
    ensures ScanFrom(deps, t, ins, self, cookie, x, ii, []) == ([], |ins|)
    decreases |deps| - x, 0
  {
    if deps[x].target == t {
      InOrderMatch(deps, t, ins, self, cookie, x, ii, k);
      ScanFromInOrder(deps, t, ins, self, cookie, x + 1, NextCookie(ins, ii, cookie), k + 1);
    } else {
      TargetPairsPrefix(deps, x, t);
      ScanFromInOrder(deps, t, ins, self, cookie, x + 1, ii, k);
    }
  }

  /** In the in-order case a `t`-edge always matches the current cookie entry. */
  lemma InOrderMatch(deps: seq<Dependency>, t: Name, ins: seq<Entry>, self: ObjId, cookie: int,
                     x: nat, ii: nat, k: nat)
    requires x < |deps| && deps[x].target == t && ii <= |ins|
    requires ii < |ins| ==> ins[ii].cookie == cookie
    requires k == |TargetPairs(deps[..x], t)| && k <= |TargetPairs(deps, t)|
    requires CookiePairs(ins[ii..], self, cookie) == TargetPairs(deps, t)[k..]
    ensures ii < |ins| && PairOf(deps[x]) == NullIfThis(self, ins[ii])
    ensures k + 1 == |TargetPairs(deps[..x + 1], t)| && k + 1 <= |TargetPairs(deps, t)|
    ensures CookiePairs(ins[NextCookie(ins, ii, cookie)..], self, cookie) == TargetPairs(deps, t)[k + 1..]
  {
    var E := TargetPairs(deps, t);
    TargetPairsPrefix(deps, x, t);
    assert E[k] == PairOf(deps[x]);
    CookieTail(ins, self, cookie, ii);
    CookieHead(ins, self, cookie, ii);
    CookieSkip(ins, self, cookie, ii + 1, NextCookie(ins, ii, cookie));
    assert E[k..][1..] == E[k + 1..];
  }

  /** Every pair occurs among the reconciled `t`-edges as often as among the cookie entries. */
  lemma ReconciledCount(deps: seq<Dependency>, t: Name, ins: seq<Entry>, self: ObjId, cookie: int, p: Pair)
    ensures TargetCount(Reconciled(deps, t, ins, self, cookie), t, p) == Occ(CookiePairs(ins, self, cookie), p)
  {
    var (rem, start) := Scan(deps, t, ins, self, cookie);
    var ii := NextCookie(ins, -1, cookie);
    ScanSlots(deps, t, ins, self, cookie);
    CookieSkip(ins, self, cookie, 0, ii);
    assert ins[0..] == ins;
    assert deps[..0] == [];
    CountAtEmpty([], p);
    assert AllBelow([], 0);
    ScanFromCount(deps, t, ins, self, cookie, 0, ii, [], 0, p);
    if rem == [] && start == |ins| {
      assert ins[start..] == [];
      assert Positions(rem) == {};
      CountAtEmpty(deps, p);
    } else {
      ReplaceCount(deps, t, rem, CookiePairs(ins[start..], self, cookie), p);
    }
  }

  lemma ReconciledInOrder(deps: seq<Dependency>, t: Name, ins: seq<Entry>, self: ObjId, cookie: int)
    requires TargetPairs(deps, t) == CookiePairs(ins, self, cookie)
    ensures Reconciled(deps, t, ins, self, cookie) == deps
  {
    var ii := NextCookie(ins, -1, cookie);
    CookieSkip(ins, self, cookie, 0, ii);
    assert ins[0..] == ins;
    assert deps[..0] == [];
    ScanFromInOrder(deps, t, ins, self, cookie, 0, ii, 0);
  }

  /** The reconciliation property of `SetDependencies`: afterwards the edges of the
      target hold exactly the pairs the evaluation recorded (as a multiset, since a
      derivation may read the same property twice), the edges of every other target
      are kept in content and order, and nothing is rewritten when the edges already
      matched the recorded pairs in order. */
  lemma ReconciledViews(deps: seq<Dependency>, t: Name, ins: seq<Entry>, self: ObjId, cookie: int)
    ensures multiset(TargetPairs(Reconciled(deps, t, ins, self, cookie), t))
            == multiset(CookiePairs(ins, self, cookie))
    ensures OtherEdges(Reconciled(deps, t, ins, self, cookie), t) == OtherEdges(deps, t)
    ensures TargetPairs(deps, t) == CookiePairs(ins, self, cookie) ==>
              Reconciled(deps, t, ins, self, cookie) == deps
  {
    var r := Reconciled(deps, t, ins, self, cookie);
    var E := CookiePairs(ins, self, cookie);
    forall p | true
      ensures multiset(TargetPairs(r, t))[p] == multiset(E)[p]
    {
      ReconciledCount(deps, t, ins, self, cookie, p);
      TargetCountOcc(r, t, p);
      OccMultiset(TargetPairs(r, t), p);
      OccMultiset(E, p);
    }
    var (rem, start) := Scan(deps, t, ins, self, cookie);
    ScanSlots(deps, t, ins, self, cookie);
    if rem != [] || start != |ins| {
      ReplaceOthers(deps, t, rem, CookiePairs(ins[start..], self, cookie));
    }
    if TargetPairs(deps, t) == E {
      ReconciledInOrder(deps, t, ins, self, cookie);
    }
  }
}
