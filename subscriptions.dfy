/** Upstream subscriptions of a reactive object: which sources its edges name,
    the ledger of `OnInputPropertyChanged` subscriptions it holds on each
    source, and what the subscription passes of `UpdateSubscriptions` do to
    that ledger when `SetDependencies` reconciles the edges of one target
    (WithComputedProperties.cs). */
module Subscriptions {
  import opened Types
  import opened Dependencies

  /** How many times this object's `OnInputPropertyChanged` delegate is
      subscribed to each source's `PropertyChanged`. */
  type Ledger = map<ObjId, nat>

  function Subs(m: Ledger, s: ObjId): nat {
    if s in m then m[s] else 0
  }

  /** `source.PropertyChanged += handler`. */
  function Subscribe(m: Ledger, s: ObjId): (r: Ledger)
    ensures Subs(r, s) == Subs(m, s) + 1
    ensures forall o :: o != s ==> Subs(r, o) == Subs(m, o)
  {
    m[s := Subs(m, s) + 1]
  }

  /** `source.PropertyChanged -= handler`: removes one subscription of the
      delegate when there is one, and does nothing otherwise. */
  function Unsubscribe(m: Ledger, s: ObjId): (r: Ledger)
    ensures Subs(r, s) == if Subs(m, s) > 0 then Subs(m, s) - 1 else 0
    ensures forall o :: o != s ==> Subs(r, o) == Subs(m, o)
  {
    if Subs(m, s) > 0 then m[s := Subs(m, s) - 1] else m
  }

  /** `n` reduced by `k`, not below zero: `k` unsubscriptions of one delegate. */
  function DecBy(n: nat, k: nat): nat {
    if n >= k then n - k else 0
  }

  // ---------------------------------------------------------------- sources of edges and entries

  /** The distinct sources other than this object that the edges name. */
  function Sources(deps: seq<Dependency>): set<ObjId> {
    set i | 0 <= i < |deps| && deps[i].source.Some? :: deps[i].source.value
  }

  /** The sources named by the edges outside the positions `S`. */
  function KeptSources(deps: seq<Dependency>, S: set<nat>): set<ObjId> {
    set i | 0 <= i < |deps| && i !in S && deps[i].source.Some? :: deps[i].source.value
  }

  /** The sources named by the edges at the positions `slots`. */
  function RemovedSources(deps: seq<Dependency>, slots: seq<nat>): set<ObjId>
    requires forall j :: 0 <= j < |slots| ==> slots[j] < |deps|
  {
    set j | 0 <= j < |slots| && deps[slots[j]].source.Some? :: deps[slots[j]].source.value
  }

  /** How many of the edges at the positions `slots` name source `s`. */
  function RemovedCount(deps: seq<Dependency>, slots: seq<nat>, s: ObjId): nat
    requires forall j :: 0 <= j < |slots| ==> slots[j] < |deps|
  {
    if slots == [] then 0
    else RemovedCount(deps, slots[..|slots| - 1], s)
         + (if deps[slots[|slots| - 1]].source == Some(s) then 1 else 0)
  }

  /** The sources other than this object of the entries in `[a, b)` that carry `cookie`. */
  function PendingSources(ins: seq<Entry>, a: nat, b: nat, self: ObjId, cookie: int): set<ObjId>
    requires b <= |ins|
  {
    set y | a <= y < b && ins[y].cookie == cookie && ins[y].source != self :: ins[y].source
  }

  function SourceOf(d: Dependency): set<ObjId> {
    if d.source.Some? then {d.source.value} else {}
  }

  // ---------------------------------------------------------------- the ledger effect of each pass

  /** The subscribe pass of `UpdateSubscriptions`: one new subscription for each
      distinct source of the new entries that no existing edge names. */
  function AfterSubscribePass(n: nat, deps: seq<Dependency>, ins: seq<Entry>, start: nat,
                              self: ObjId, cookie: int, s: ObjId): nat
    requires start <= |ins|
  {
    if s in PendingSources(ins, start, |ins|, self, cookie) && s !in Sources(deps) then n + 1 else n
  }

  /** The test the unsubscribe pass applies to the source `s` of a removed edge,
      as written (WithComputedProperties.cs:285-306): a new entry names `s`, or an
      edge names `s` whose target is another property or which lies before the
      first removed slot. */
  predicate StillUsedAsWritten(deps: seq<Dependency>, t: Name, slots: seq<nat>, ins: seq<Entry>,
                               start: nat, cookie: int, s: ObjId)
    requires slots != []
  {
    (exists y :: start <= y < |ins| && ins[y].cookie == cookie && ins[y].source == s)
    || (exists y :: 0 <= y < |deps| && deps[y].source == Some(s) && (deps[y].target != t || y < slots[0]))
  }

  /** The test as intended: a new entry names `s`, or an edge that is not
      removed names `s`. */
  predicate StillUsed(deps: seq<Dependency>, slots: seq<nat>, ins: seq<Entry>, start: nat,
                      self: ObjId, cookie: int, s: ObjId)
    requires start <= |ins|
  {
    s in PendingSources(ins, start, |ins|, self, cookie) || s in KeptSources(deps, Positions(slots))
  }

  /** The unsubscribe pass with the intended test: every removed edge whose
      source is no longer used unsubscribes from it once. */
  function AfterUnsubscribePass(n: nat, deps: seq<Dependency>, slots: seq<nat>, ins: seq<Entry>, start: nat,
                                self: ObjId, cookie: int, s: ObjId): nat
    requires start <= |ins|
    requires forall j :: 0 <= j < |slots| ==> slots[j] < |deps|
  {
    if StillUsed(deps, slots, ins, start, self, cookie, s) then n
    else DecBy(n, RemovedCount(deps, slots, s))
  }

  /** While the object has listeners it holds exactly one subscription on each
      source its edges name and none on anything else. */
  ghost predicate InSync(m: Ledger, deps: seq<Dependency>) {
    forall s :: Subs(m, s) == if s in Sources(deps) then 1 else 0
  }

  // ---------------------------------------------------------------- lemmas: sources

  lemma SourcesSnoc(deps: seq<Dependency>, x: nat)
    requires x < |deps|
    ensures Sources(deps[..x + 1]) == Sources(deps[..x]) + SourceOf(deps[x])
  {
    var a, b := deps[..x + 1], deps[..x];
    forall s | s in Sources(a) ensures s in Sources(b) + SourceOf(deps[x]) {
      var i :| 0 <= i < |a| && a[i].source.Some? && a[i].source.value == s;
      if i < x {
        assert b[i] == a[i];
      }
    }
    forall s | s in Sources(b) ensures s in Sources(a) {
      var i :| 0 <= i < |b| && b[i].source.Some? && b[i].source.value == s;
      assert a[i] == b[i];
    }
    if deps[x].source.Some? {
      assert a[x] == deps[x];
    }
  }

  lemma SourcesAppend(a: seq<Dependency>, b: seq<Dependency>)
    ensures Sources(a + b) == Sources(a) + Sources(b)
  {
    var c := a + b;
    forall s | s in Sources(c) ensures s in Sources(a) + Sources(b) {
      var i :| 0 <= i < |c| && c[i].source.Some? && c[i].source.value == s;
      if i < |a| {
        assert a[i] == c[i];
      } else {
        assert b[i - |a|] == c[i];
      }
    }
    forall s | s in Sources(a) ensures s in Sources(c) {
      var i :| 0 <= i < |a| && a[i].source.Some? && a[i].source.value == s;
      assert c[i] == a[i];
    }
    forall s | s in Sources(b) ensures s in Sources(c) {
      var i :| 0 <= i < |b| && b[i].source.Some? && b[i].source.value == s;
      assert c[|a| + i] == b[i];
    }
  }

  lemma KeptNone(deps: seq<Dependency>)
    ensures KeptSources(deps, {}) == Sources(deps)
  {
  }

  lemma {:induction false} KeepSources(deps: seq<Dependency>, S: set<nat>)
    ensures Sources(Keep(deps, S)) == KeptSources(deps, S)
    decreases |deps|
  {
    if deps != [] {
      var n := |deps| - 1;
      var front := deps[..n];
      KeepSources(front, S);
      var last := if n in S then [] else [deps[n]];
      SourcesAppend(Keep(front, S), last);
      assert Sources(Keep(deps, S)) == KeptSources(front, S) + Sources(last);
      KeptSnoc(deps, S);
      if n !in S {
        assert Sources(last) == SourceOf(deps[n]) by {
          assert last[0] == deps[n];
        }
      }
    }
  }

  lemma KeptSnoc(deps: seq<Dependency>, S: set<nat>)
    requires deps != []
    ensures KeptSources(deps, S) == KeptSources(deps[..|deps| - 1], S)
                                    + (if |deps| - 1 in S then {} else SourceOf(deps[|deps| - 1]))
  {
    var n := |deps| - 1;
    var front := deps[..n];
    forall s | s in KeptSources(deps, S)
      ensures s in KeptSources(front, S) + (if n in S then {} else SourceOf(deps[n]))
    {
      var i :| 0 <= i < |deps| && i !in S && deps[i].source.Some? && deps[i].source.value == s;
      if i < n {
        assert front[i] == deps[i];
      }
    }
    forall s | s in KeptSources(front, S) ensures s in KeptSources(deps, S) {
      var i :| 0 <= i < |front| && i !in S && front[i].source.Some? && front[i].source.value == s;
      assert deps[i] == front[i];
    }
  }

  /** Overwriting position `i` and no longer removing it: the kept sources gain
      the new edge's source. */
  lemma KeptUpdate(deps: seq<Dependency>, S: set<nat>, i: nat, d: Dependency)
    requires i < |deps| && i !in S
    ensures KeptSources(deps[i := d], S) == KeptSources(deps, S + {i}) + SourceOf(d)
  {
    var deps' := deps[i := d];
    forall s | s in KeptSources(deps', S) ensures s in KeptSources(deps, S + {i}) + SourceOf(d) {
      var k :| 0 <= k < |deps'| && k !in S && deps'[k].source.Some? && deps'[k].source.value == s;
    }
    forall s | s in KeptSources(deps, S + {i}) ensures s in KeptSources(deps', S) {
      var k :| 0 <= k < |deps| && k !in S + {i} && deps[k].source.Some? && deps[k].source.value == s;
      assert deps'[k] == deps[k];
    }
    if d.source.Some? {
      assert deps'[i] == d;
    }
  }

  lemma EdgesSources(t: Name, news: seq<Pair>)
    requires news != []
    ensures Sources(Edges(t, news)) == SourceOf(EdgeOf(t, news[0])) + Sources(Edges(t, news[1..]))
  {
    assert Edges(t, news) == [EdgeOf(t, news[0])] + Edges(t, news[1..]);
    SourcesAppend([EdgeOf(t, news[0])], Edges(t, news[1..]));
    assert Sources([EdgeOf(t, news[0])]) == SourceOf(EdgeOf(t, news[0])) by {
      assert [EdgeOf(t, news[0])][0] == EdgeOf(t, news[0]);
    }
  }

  /** The sources after `Replace`: those of the edges it keeps and those of the
      new pairs. */
  lemma {:induction false} ReplaceSources(deps: seq<Dependency>, t: Name, slots: seq<nat>, news: seq<Pair>)
    requires StrictlyAscending(slots)
    requires forall j :: 0 <= j < |slots| ==> slots[j] < |deps| && deps[slots[j]].target == t
    ensures Sources(Replace(deps, t, slots, news)) == KeptSources(deps, Positions(slots)) + Sources(Edges(t, news))
    decreases news
  {
    if news == [] {
      KeepSources(deps, Positions(slots));
      assert Edges(t, news) == [];
    } else if slots == [] {
      SourcesAppend(deps, Edges(t, news));
      assert Positions(slots) == {};
      KeptNone(deps);
    } else {
      var d := EdgeOf(t, news[0]);
      SlotsTail(deps, t, slots, d);
      ReplaceSources(deps[slots[0] := d], t, slots[1..], news[1..]);
      KeptUpdate(deps, Positions(slots[1..]), slots[0], d);
      EdgesSources(t, news);
    }
  }

  /** The sources of the new edges are the pending sources of the entries. */
  lemma {:induction false} CookieSources(ins: seq<Entry>, a: nat, t: Name, self: ObjId, cookie: int)
    requires a <= |ins|
    ensures Sources(Edges(t, CookiePairs(ins[a..], self, cookie))) == PendingSources(ins, a, |ins|, self, cookie)
    decreases |ins| - a
  {
    if a == |ins| {
      assert ins[a..] == [];
      assert Edges(t, []) == [];
    } else {
      CookieSources(ins, a + 1, t, self, cookie);
      var rest := CookiePairs(ins[a + 1..], self, cookie);
      var P := PendingSources(ins, a, |ins|, self, cookie);
      var P' := PendingSources(ins, a + 1, |ins|, self, cookie);
      if ins[a].cookie == cookie {
        CookieHead(ins, self, cookie, a);
        EdgesSources(t, [NullIfThis(self, ins[a])] + rest);
        assert ([NullIfThis(self, ins[a])] + rest)[1..] == rest;
        assert P == P' + (if ins[a].source != self then {ins[a].source} else {});
      } else {
        CookieSkip(ins, self, cookie, a, a + 1);
        assert P == P';
      }
    }
  }

  lemma SourcesSplit(deps: seq<Dependency>, slots: seq<nat>)
    requires forall j :: 0 <= j < |slots| ==> slots[j] < |deps|
    ensures Sources(deps) == KeptSources(deps, Positions(slots)) + RemovedSources(deps, slots)
  {
    forall s | s in Sources(deps)
      ensures s in KeptSources(deps, Positions(slots)) + RemovedSources(deps, slots)
    {
      var i :| 0 <= i < |deps| && deps[i].source.Some? && deps[i].source.value == s;
      if i in Positions(slots) {
        var j :| 0 <= j < |slots| && slots[j] == i;
      }
    }
    forall s | s in RemovedSources(deps, slots) ensures s in Sources(deps) {
      var j :| 0 <= j < |slots| && deps[slots[j]].source.Some? && deps[slots[j]].source.value == s;
    }
  }

  lemma {:induction false} RemovedCountPositive(deps: seq<Dependency>, slots: seq<nat>, s: ObjId)
    requires forall j :: 0 <= j < |slots| ==> slots[j] < |deps|
    requires s in RemovedSources(deps, slots)
    ensures RemovedCount(deps, slots, s) > 0
    decreases |slots|
  {
    var n := |slots| - 1;
    if deps[slots[n]].source != Some(s) {
      var j :| 0 <= j < |slots| && deps[slots[j]].source.Some? && deps[slots[j]].source.value == s;
      assert slots[..n][j] == slots[j];
      RemovedCountPositive(deps, slots[..n], s);
    }
  }

  // ---------------------------------------------------------------- the subscription invariant

  /** With the intended test, a reconciliation that goes through
      `ReplaceDependencies` while the object has listeners keeps the ledger in
      step with the sources of the edges: the subscribe pass, then the
      unsubscribe pass, leave exactly one subscription per source of the new
      edge list. */
  lemma ReplaceKeepsSync(m: Ledger, deps: seq<Dependency>, t: Name, slots: seq<nat>, ins: seq<Entry>,
                         start: nat, self: ObjId, cookie: int, s: ObjId)
    requires InSync(m, deps) && start <= |ins|
    requires StrictlyAscending(slots)
    requires forall j :: 0 <= j < |slots| ==> slots[j] < |deps| && deps[slots[j]].target == t
    ensures AfterUnsubscribePass(AfterSubscribePass(Subs(m, s), deps, ins, start, self, cookie, s),
                                 deps, slots, ins, start, self, cookie, s)
            == if s in Sources(Replace(deps, t, slots, CookiePairs(ins[start..], self, cookie))) then 1 else 0
  {
    ReplaceSources(deps, t, slots, CookiePairs(ins[start..], self, cookie));
    CookieSources(ins, start, t, self, cookie);
    SourcesSplit(deps, slots);
    if s in RemovedSources(deps, slots) {
      RemovedCountPositive(deps, slots, s);
    }
  }

  // ---------------------------------------------------------------- the test as written drops a live source

  /** Edges of `T` left by an evaluation that read this object's `Flag`, then
      `A` and `B` of source 1 (this object is 0). */
  function StaleEdges(): seq<Dependency> {
    [Dependency("T", None, "Flag"), Dependency("T", Some(1), "A"), Dependency("T", Some(1), "B")]
  }

  /** The entries (cookie 1) of a new evaluation of `T` that read `Flag` and then
      only `B` of source 1. */
  function FreshReads(): seq<Entry> {
    [Entry(0, "Flag", 1), Entry(1, "B", 1)]
  }

  /** The scan keeps the edges on `Flag` and on `B` of source 1 and records the
      one on `A` for removal; all entries are consumed. */
  lemma StaleScan()
    ensures Scan(StaleEdges(), "T", FreshReads(), 0, 1) == ([1], 2)
  {
    var deps, ins := StaleEdges(), FreshReads();
    assert NextCookie(ins, -1, 1) == 0;
    assert NextCookie(ins, 0, 1) == 1;
    assert NextCookie(ins, 1, 1) == 2;
    assert ScanFrom(deps, "T", ins, 0, 1, 3, 2, [1]) == ([1], 2);
    assert ScanFrom(deps, "T", ins, 0, 1, 2, 1, [1]) == ([1], 2);
    assert PairOf(deps[1]) != NullIfThis(0, ins[1]) by {
      assert PairOf(deps[1]).property[0] != NullIfThis(0, ins[1]).property[0];
    }
    assert [] + [1] == [1];
    assert ScanFrom(deps, "T", ins, 0, 1, 1, 1, []) == ([1], 2);
    assert ScanFrom(deps, "T", ins, 0, 1, 0, 0, []) == ([1], 2);
  }

  /** After the reconciliation an edge still reads `B` of source 1. */
  lemma StaleKeepsSource()
    ensures 1 in Sources(Reconciled(StaleEdges(), "T", FreshReads(), 0, 1))
  {
    var deps, ins := StaleEdges(), FreshReads();
    StaleScan();
    assert deps[2].source == Some(1) && 2 !in Positions([1]);
    assert 1 in KeptSources(deps, Positions([1]));
    assert ins[2..] == [];
    assert Edges("T", CookiePairs(ins[2..], 0, 1)) == [];
    ReplaceSources(deps, "T", [1], CookiePairs(ins[2..], 0, 1));
  }

  /** Reconciling `StaleEdges()` with `FreshReads()` removes only the edge on
      `A` of source 1 and keeps the one on its `B`, yet the test as written finds
      source 1 unused and unsubscribes from it; the intended test keeps it. */
  lemma AsWrittenDropsLiveSource()
    ensures Scan(StaleEdges(), "T", FreshReads(), 0, 1) == ([1], 2)
    ensures 1 in Sources(Reconciled(StaleEdges(), "T", FreshReads(), 0, 1))
    ensures !StillUsedAsWritten(StaleEdges(), "T", [1], FreshReads(), 2, 1, 1)
    ensures StillUsed(StaleEdges(), [1], FreshReads(), 2, 0, 1, 1)
  {
    var deps := StaleEdges();
    StaleScan();
    StaleKeepsSource();
    assert forall y :: 0 <= y < |deps| ==> deps[y].target == "T";
    assert forall y :: 0 <= y < |deps| && deps[y].source == Some(1) ==> y >= 1;
    assert deps[2].source == Some(1) && 2 !in Positions([1]);
  }
}
