/** Change propagation inside one reactive object: the depth-first closure that
    `AddPropertyWithDependencies` builds over the self-edges of the dependency
    list when a property is announced, and the seeding of that closure from the
    edges of one upstream source when the source announces a change
    (WithComputedProperties.cs). */
module Propagation {
  import opened Types
  import opened Dependencies

  /** The targets of all edges. */
  function Targets(deps: seq<Dependency>): set<Name> {
    set i | 0 <= i < |deps| :: deps[i].target
  }

  function Elems(s: seq<Name>): set<Name> {
    set x | x in s
  }

  /** `d` says that its target reads property `src` of this object. */
  predicate IsSelfEdge(d: Dependency, src: Name) {
    d.source == None && d.sourceProperty == src
  }

  predicate IsPrefix(a: seq<Name>, b: seq<Name>) {
    |a| <= |b| && b[..|a|] == a
  }

  lemma SubsetCard(a: set<Name>, b: set<Name>)
    requires a <= b
    ensures |a| <= |b|
  {
    assert b == a + (b - a);
  }

  lemma StrictSubsetCard(a: set<Name>, b: set<Name>, x: Name)
    requires a <= b && x in b && x !in a
    ensures |a| < |b|
  {
    assert b == a + (b - a);
    assert x in b - a;
  }

  lemma PrefixElems(a: seq<Name>, b: seq<Name>)
    requires IsPrefix(a, b)
    ensures Elems(a) <= Elems(b)
  {
    forall x | x in Elems(a) ensures x in Elems(b) {
      var i :| 0 <= i < |a| && a[i] == x;
      assert b[i] == x;
    }
  }

  lemma PrefixTrans(a: seq<Name>, b: seq<Name>, c: seq<Name>)
    requires IsPrefix(a, b) && IsPrefix(b, c)
    ensures IsPrefix(a, c)
  {
    assert c[..|a|] == c[..|b|][..|a|];
  }

  // ---------------------------------------------------------------- the closure

  /** `AddPropertyWithDependencies(ref properties, startIndex, name)` on the part
      `acc` of the scratch list from `startIndex` on: a name already there is not
      added again; otherwise it is appended and every self-edge reading it is
      followed, in list order. */
  function Visit(deps: seq<Dependency>, acc: seq<Name>, name: Name): (r: seq<Name>)
    ensures IsPrefix(acc, r)
    decreases |(Targets(deps) + {name}) - Elems(acc)|, 0
  {
    if name in acc then acc
    else
      assert Elems(acc + [name]) == Elems(acc) + {name};
      StrictSubsetCard(Targets(deps) - Elems(acc + [name]), (Targets(deps) + {name}) - Elems(acc), name);
      VisitEdges(deps, acc + [name], name, 0)
  }

  /** The `foreach` over the edges from position `i` on, for the announced name `src`. */
  function VisitEdges(deps: seq<Dependency>, acc: seq<Name>, src: Name, i: nat): (r: seq<Name>)
    requires i <= |deps|
    ensures IsPrefix(acc, r)
    decreases |Targets(deps) - Elems(acc)|, |deps| - i + 1
  {
    if i == |deps| then acc
    else if IsSelfEdge(deps[i], src) then
      assert deps[i].target in Targets(deps);
      assert Targets(deps) + {deps[i].target} == Targets(deps);
      var acc' := Visit(deps, acc, deps[i].target);
      PrefixElems(acc, acc');
      SubsetCard(Targets(deps) - Elems(acc'), Targets(deps) - Elems(acc));
      VisitEdges(deps, acc', src, i + 1)
    else VisitEdges(deps, acc, src, i + 1)
  }

  /** One step of the `foreach`. */
  lemma VisitEdgesStep(deps: seq<Dependency>, acc: seq<Name>, src: Name, i: nat)
    requires i < |deps|
    ensures VisitEdges(deps, acc, src, i) ==
              if IsSelfEdge(deps[i], src) then VisitEdges(deps, Visit(deps, acc, deps[i].target), src, i + 1)
              else VisitEdges(deps, acc, src, i + 1)
  {
  }

  // ---------------------------------------------------------------- reachability

  /** Some self-edge makes `b` read property `a`. */
  ghost predicate Step(deps: seq<Dependency>, a: Name, b: Name) {
    exists j :: 0 <= j < |deps| && IsSelfEdge(deps[j], a) && deps[j].target == b
  }

  ghost predicate IsPath(deps: seq<Dependency>, p: seq<Name>) {
    |p| >= 1 && forall i :: 0 <= i < |p| - 1 ==> Step(deps, p[i], p[i + 1])
  }

  /** `b` depends, through zero or more self-edges, on `a`. */
  ghost predicate Reachable(deps: seq<Dependency>, a: Name, b: Name) {
    exists p :: IsPath(deps, p) && p[0] == a && p[|p| - 1] == b
  }

  lemma ReachRefl(deps: seq<Dependency>, a: Name)
    ensures Reachable(deps, a, a)
  {
    assert IsPath(deps, [a]);
  }

  lemma ReachStep(deps: seq<Dependency>, j: nat, c: Name)
    requires j < |deps| && deps[j].source == None
    requires Reachable(deps, deps[j].target, c)
    ensures Reachable(deps, deps[j].sourceProperty, c)
  {
    var a := deps[j].sourceProperty;
    var p :| IsPath(deps, p) && p[0] == deps[j].target && p[|p| - 1] == c;
    var q := [a] + p;
    assert Step(deps, a, p[0]);
    forall i | 0 <= i < |q| - 1 ensures Step(deps, q[i], q[i + 1]) {
      if i > 0 {
        assert q[i] == p[i - 1] && q[i + 1] == p[i];
      }
    }
    assert IsPath(deps, q);
  }

  /** Every name of a path that starts in a set closed under self-edges is in the set. */
  lemma {:induction false} ClosedPath(deps: seq<Dependency>, R: seq<Name>, p: seq<Name>, k: nat)
    requires ClosedBeyond(deps, [], R)
    requires IsPath(deps, p) && p[0] in R && k < |p|
    ensures p[k] in R
  {
    if k > 0 {
      ClosedPath(deps, R, p, k - 1);
      assert Step(deps, p[k - 1], p[k]);
      var j :| 0 <= j < |deps| && IsSelfEdge(deps[j], p[k - 1]) && deps[j].target == p[k];
    }
  }

  // ---------------------------------------------------------------- properties of the closure

  lemma {:induction false} VisitNoDups(deps: seq<Dependency>, acc: seq<Name>, name: Name)
    requires NoDups(acc)
    ensures NoDups(Visit(deps, acc, name))
    decreases |(Targets(deps) + {name}) - Elems(acc)|, 0
  {
    if name !in acc {
      assert Elems(acc + [name]) == Elems(acc) + {name};
      StrictSubsetCard(Targets(deps) - Elems(acc + [name]), (Targets(deps) + {name}) - Elems(acc), name);
      VisitEdgesNoDups(deps, acc + [name], name, 0);
    }
  }

  lemma {:induction false} VisitEdgesNoDups(deps: seq<Dependency>, acc: seq<Name>, src: Name, i: nat)
    requires i <= |deps| && NoDups(acc)
    ensures NoDups(VisitEdges(deps, acc, src, i))
    decreases |Targets(deps) - Elems(acc)|, |deps| - i + 1
  {
    if i < |deps| {
      if IsSelfEdge(deps[i], src) {
        assert deps[i].target in Targets(deps);
        assert Targets(deps) + {deps[i].target} == Targets(deps);
        var acc' := Visit(deps, acc, deps[i].target);
        VisitNoDups(deps, acc, deps[i].target);
        PrefixElems(acc, acc');
        SubsetCard(Targets(deps) - Elems(acc'), Targets(deps) - Elems(acc));
        VisitEdgesNoDups(deps, acc', src, i + 1);
      } else {
        VisitEdgesNoDups(deps, acc, src, i + 1);
      }
    }
  }

  /** Each name the closure adds depends on the announced name. */
  lemma {:induction false} VisitSound(deps: seq<Dependency>, acc: seq<Name>, name: Name)
    ensures forall x :: x in Visit(deps, acc, name) && x !in acc ==> Reachable(deps, name, x)
    decreases |(Targets(deps) + {name}) - Elems(acc)|, 0
  {
    if name !in acc {
      assert Elems(acc + [name]) == Elems(acc) + {name};
      StrictSubsetCard(Targets(deps) - Elems(acc + [name]), (Targets(deps) + {name}) - Elems(acc), name);
      VisitEdgesSound(deps, acc + [name], name, 0);
      ReachRefl(deps, name);
    }
  }

  lemma {:induction false} VisitEdgesSound(deps: seq<Dependency>, acc: seq<Name>, src: Name, i: nat)
    requires i <= |deps|
    ensures forall x :: x in VisitEdges(deps, acc, src, i) && x !in acc ==> Reachable(deps, src, x)
    decreases |Targets(deps) - Elems(acc)|, |deps| - i + 1
  {
    if i < |deps| {
      if IsSelfEdge(deps[i], src) {
        assert deps[i].target in Targets(deps);
        assert Targets(deps) + {deps[i].target} == Targets(deps);
        var acc' := Visit(deps, acc, deps[i].target);
        VisitSound(deps, acc, deps[i].target);
        PrefixElems(acc, acc');
        SubsetCard(Targets(deps) - Elems(acc'), Targets(deps) - Elems(acc));
        VisitEdgesSound(deps, acc', src, i + 1);
        forall x | x in acc' && x !in acc ensures Reachable(deps, src, x) {
          ReachStep(deps, i, x);
        }
      } else {
        VisitEdgesSound(deps, acc, src, i + 1);
      }
    }
  }

  /** Every self-edge out of a name of `r` that is not in `acc` leads into `r`. */
  ghost predicate ClosedBeyond(deps: seq<Dependency>, acc: seq<Name>, r: seq<Name>) {
    forall x, j :: x in r && x !in acc && 0 <= j < |deps| && IsSelfEdge(deps[j], x) ==> deps[j].target in r
  }

  /** Every self-edge from position `i` on that reads `src` leads into `r`. */
  ghost predicate CoversFrom(deps: seq<Dependency>, src: Name, i: nat, r: seq<Name>) {
    forall j :: i <= j < |deps| && IsSelfEdge(deps[j], src) ==> deps[j].target in r
  }

  lemma InPrefix(a: seq<Name>, b: seq<Name>, x: Name)
    requires IsPrefix(a, b) && x in a
    ensures x in b
  {
    var i :| 0 <= i < |a| && a[i] == x;
    assert b[i] == x;
  }

  /** Every self-edge out of a name the closure adds leads to a name in the result. */
  lemma {:induction false} VisitClosed(deps: seq<Dependency>, acc: seq<Name>, name: Name)
    ensures name in Visit(deps, acc, name)
    ensures ClosedBeyond(deps, acc, Visit(deps, acc, name))
    decreases |(Targets(deps) + {name}) - Elems(acc)|, 0
  {
    if name !in acc {
      assert Elems(acc + [name]) == Elems(acc) + {name};
      StrictSubsetCard(Targets(deps) - Elems(acc + [name]), (Targets(deps) + {name}) - Elems(acc), name);
      var r := VisitEdges(deps, acc + [name], name, 0);
      VisitEdgesClosed(deps, acc + [name], name, 0);
      InPrefix(acc + [name], r, name);
      forall x, j | x in r && x !in acc && 0 <= j < |deps| && IsSelfEdge(deps[j], x)
        ensures deps[j].target in r
      {
        if x == name {
          assert CoversFrom(deps, name, 0, r);
        } else {
          assert x !in acc + [name];
        }
      }
    }
  }

  lemma {:induction false} VisitEdgesClosed(deps: seq<Dependency>, acc: seq<Name>, src: Name, i: nat)
    requires i <= |deps|
    ensures ClosedBeyond(deps, acc, VisitEdges(deps, acc, src, i))
    ensures CoversFrom(deps, src, i, VisitEdges(deps, acc, src, i))
    decreases |Targets(deps) - Elems(acc)|, |deps| - i + 1
  {
    if i < |deps| {
      var r := VisitEdges(deps, acc, src, i);
      if IsSelfEdge(deps[i], src) {
        assert deps[i].target in Targets(deps);
        assert Targets(deps) + {deps[i].target} == Targets(deps);
        var acc' := Visit(deps, acc, deps[i].target);
        VisitClosed(deps, acc, deps[i].target);
        PrefixElems(acc, acc');
        SubsetCard(Targets(deps) - Elems(acc'), Targets(deps) - Elems(acc));
        VisitEdgesClosed(deps, acc', src, i + 1);
        assert r == VisitEdges(deps, acc', src, i + 1);
        forall x, j | x in r && x !in acc && 0 <= j < |deps| && IsSelfEdge(deps[j], x)
          ensures deps[j].target in r
        {
          if x in acc' {
            InPrefix(acc', r, deps[j].target);
          }
        }
        forall j | i <= j < |deps| && IsSelfEdge(deps[j], src) ensures deps[j].target in r {
          if j == i {
            InPrefix(acc', r, deps[i].target);
          }
        }
      } else {
        VisitEdgesClosed(deps, acc, src, i + 1);
      }
    }
  }

  /** Announcing `name` with an empty scratch suffix fires, in discovery order, a
      list that starts with `name`, holds no name twice and holds exactly the
      properties that depend on `name` through self-edges. */
  lemma AnnouncedClosure(deps: seq<Dependency>, name: Name)
    ensures |Visit(deps, [], name)| > 0 && Visit(deps, [], name)[0] == name
    ensures NoDups(Visit(deps, [], name))
    ensures forall y :: y in Visit(deps, [], name) <==> Reachable(deps, name, y)
  {
    var r := Visit(deps, [], name);
    VisitNoDups(deps, [], name);
    VisitSound(deps, [], name);
    VisitClosed(deps, [], name);
    assert [] + [name] == [name];
    assert r == VisitEdges(deps, [name], name, 0);
    assert r[..1] == [name];
    forall y | Reachable(deps, name, y) ensures y in r {
      ReachedFromName(deps, r, name, y);
    }
  }

  lemma ReachedFromName(deps: seq<Dependency>, r: seq<Name>, name: Name, y: Name)
    requires ClosedBeyond(deps, [], r) && name in r && Reachable(deps, name, y)
    ensures y in r
  {
    var p :| IsPath(deps, p) && p[0] == name && p[|p| - 1] == y;
    ClosedPath(deps, r, p, |p| - 1);
  }

  /** The number of edges whose target is not in `s`: how many more names the
      closure could still append to `s` at most. */
  function Unlisted(deps: seq<Dependency>, s: seq<Name>): nat {
    if deps == [] then 0 else (if deps[0].target in s then 0 else 1) + Unlisted(deps[1..], s)
  }

  /** The room the closure of `name` needs in the scratch list beyond `s`. */
  function Room(deps: seq<Dependency>, s: seq<Name>, name: Name): nat {
    Unlisted(deps, s) + if name in s || name in Targets(deps) then 0 else 1
  }

  lemma {:induction false} UnlistedAll(deps: seq<Dependency>)
    ensures Unlisted(deps, []) == |deps|
  {
    if deps != [] {
      UnlistedAll(deps[1..]);
    }
  }

  /** Listing more names leaves fewer targets unlisted. */
  lemma {:induction false} UnlistedMono(deps: seq<Dependency>, a: seq<Name>, b: seq<Name>)
    requires forall x :: x in a ==> x in b
    ensures Unlisted(deps, b) <= Unlisted(deps, a)
  {
    if deps != [] {
      UnlistedMono(deps[1..], a, b);
    }
  }

  /** Listing a target leaves strictly fewer targets unlisted. */
  lemma {:induction false} UnlistedDrop(deps: seq<Dependency>, a: seq<Name>, b: seq<Name>, x: Name)
    requires forall y :: y in a ==> y in b
    requires x in b && x !in a && x in Targets(deps)
    ensures Unlisted(deps, b) < Unlisted(deps, a)
  {
    var j :| 0 <= j < |deps| && deps[j].target == x;
    if j == 0 {
      UnlistedMono(deps[1..], a, b);
    } else {
      assert deps[1..][j - 1].target == x;
      UnlistedDrop(deps[1..], a, b, x);
    }
  }

  lemma UnlistedPrefix(deps: seq<Dependency>, a: seq<Name>, b: seq<Name>)
    requires IsPrefix(a, b)
    ensures Unlisted(deps, b) <= Unlisted(deps, a)
  {
    forall x | x in a ensures x in b {
      InPrefix(a, b, x);
    }
    UnlistedMono(deps, a, b);
  }

  /** Appending `name` to `s` uses up one unit of the room. */
  lemma UnlistedSnoc(deps: seq<Dependency>, s: seq<Name>, name: Name)
    requires name !in s
    ensures Unlisted(deps, s + [name]) + 1 <= Room(deps, s, name)
  {
    UnlistedMono(deps, s, s + [name]);
    if name in Targets(deps) {
      UnlistedDrop(deps, s, s + [name], name);
    }
  }

  /** The closure appends no more names than its room: every name it appends
      is a new target, or `name` itself. */
  lemma {:induction false} VisitRoom(deps: seq<Dependency>, acc: seq<Name>, name: Name)
    ensures |Visit(deps, acc, name)| - |acc| + Unlisted(deps, Visit(deps, acc, name)) <= Room(deps, acc, name)
    decreases |(Targets(deps) + {name}) - Elems(acc)|, 0
  {
    if name !in acc {
      assert Elems(acc + [name]) == Elems(acc) + {name};
      StrictSubsetCard(Targets(deps) - Elems(acc + [name]), (Targets(deps) + {name}) - Elems(acc), name);
      VisitEdgesRoom(deps, acc + [name], name, 0);
      UnlistedSnoc(deps, acc, name);
    }
  }

  lemma {:induction false} VisitEdgesRoom(deps: seq<Dependency>, acc: seq<Name>, src: Name, i: nat)
    requires i <= |deps|
    ensures |VisitEdges(deps, acc, src, i)| - |acc| + Unlisted(deps, VisitEdges(deps, acc, src, i)) <= Unlisted(deps, acc)
    decreases |Targets(deps) - Elems(acc)|, |deps| - i + 1
  {
    if i < |deps| {
      if IsSelfEdge(deps[i], src) {
        assert deps[i].target in Targets(deps);
        assert Targets(deps) + {deps[i].target} == Targets(deps);
        var acc' := Visit(deps, acc, deps[i].target);
        VisitRoom(deps, acc, deps[i].target);
        PrefixElems(acc, acc');
        SubsetCard(Targets(deps) - Elems(acc'), Targets(deps) - Elems(acc));
        VisitEdgesRoom(deps, acc', src, i + 1);
      } else {
        VisitEdgesRoom(deps, acc, src, i + 1);
      }
    }
  }

  // ---------------------------------------------------------------- upstream notifications

  /** `d` is an edge on `sender` that an upstream notification for `pname`
      (`None`: all properties) concerns. */
  predicate IsSeed(d: Dependency, sender: ObjId, pname: Option<Name>) {
    d.source == Some(sender) && (pname.None? || pname.value == d.sourceProperty)
  }

  /** The `foreach` of `OnInputPropertyChanged` from position `i` on: the closure
      of the target of every edge the notification concerns. */
  function Seeded(deps: seq<Dependency>, sender: ObjId, pname: Option<Name>, acc: seq<Name>, i: nat): (r: seq<Name>)
    requires i <= |deps|
    ensures IsPrefix(acc, r)
    decreases |deps| - i
  {
    if i == |deps| then acc
    else
      var acc' := if IsSeed(deps[i], sender, pname) then Visit(deps, acc, deps[i].target) else acc;
      Seeded(deps, sender, pname, acc', i + 1)
  }

  /** One step of the `foreach`. */
  lemma SeededStep(deps: seq<Dependency>, sender: ObjId, pname: Option<Name>, acc: seq<Name>, i: nat)
    requires i < |deps|
    ensures Seeded(deps, sender, pname, acc, i) ==
              if IsSeed(deps[i], sender, pname) then Seeded(deps, sender, pname, Visit(deps, acc, deps[i].target), i + 1)
              else Seeded(deps, sender, pname, acc, i + 1)
  {
  }

  /** Every edge from position `i` on that the notification concerns has its target in `r`. */
  ghost predicate SeedsCovered(deps: seq<Dependency>, sender: ObjId, pname: Option<Name>, i: nat, r: seq<Name>) {
    forall j :: i <= j < |deps| && IsSeed(deps[j], sender, pname) ==> deps[j].target in r
  }

  /** `x` depends through self-edges on the target of an edge the notification concerns. */
  ghost predicate SeedReaches(deps: seq<Dependency>, sender: ObjId, pname: Option<Name>, x: Name) {
    exists j :: 0 <= j < |deps| && IsSeed(deps[j], sender, pname) && Reachable(deps, deps[j].target, x)
  }

  lemma {:induction false} SeededNoDups(deps: seq<Dependency>, sender: ObjId, pname: Option<Name>, acc: seq<Name>, i: nat)
    requires i <= |deps| && NoDups(acc)
    ensures NoDups(Seeded(deps, sender, pname, acc, i))
    decreases |deps| - i
  {
    if i < |deps| {
      if IsSeed(deps[i], sender, pname) {
        VisitNoDups(deps, acc, deps[i].target);
        SeededNoDups(deps, sender, pname, Visit(deps, acc, deps[i].target), i + 1);
      } else {
        SeededNoDups(deps, sender, pname, acc, i + 1);
      }
    }
  }

  lemma {:induction false} SeededClosed(deps: seq<Dependency>, sender: ObjId, pname: Option<Name>, acc: seq<Name>, i: nat)
    requires i <= |deps|
    ensures SeedsCovered(deps, sender, pname, i, Seeded(deps, sender, pname, acc, i))
    ensures ClosedBeyond(deps, acc, Seeded(deps, sender, pname, acc, i))
    decreases |deps| - i
  {
    if i < |deps| {
      var r := Seeded(deps, sender, pname, acc, i);
      if IsSeed(deps[i], sender, pname) {
        var acc' := Visit(deps, acc, deps[i].target);
        VisitClosed(deps, acc, deps[i].target);
        SeededClosed(deps, sender, pname, acc', i + 1);
        assert r == Seeded(deps, sender, pname, acc', i + 1);
        forall x, j | x in r && x !in acc && 0 <= j < |deps| && IsSelfEdge(deps[j], x)
          ensures deps[j].target in r
        {
          if x in acc' {
            InPrefix(acc', r, deps[j].target);
          }
        }
        forall j | i <= j < |deps| && IsSeed(deps[j], sender, pname) ensures deps[j].target in r {
          if j == i {
            InPrefix(acc', r, deps[i].target);
          }
        }
      } else {
        SeededClosed(deps, sender, pname, acc, i + 1);
      }
    }
  }

  lemma {:induction false} SeededSound(deps: seq<Dependency>, sender: ObjId, pname: Option<Name>, acc: seq<Name>, i: nat)
    requires i <= |deps|
    ensures forall x :: x in Seeded(deps, sender, pname, acc, i) && x !in acc ==> SeedReaches(deps, sender, pname, x)
    decreases |deps| - i
  {
    if i < |deps| {
      var r := Seeded(deps, sender, pname, acc, i);
      if IsSeed(deps[i], sender, pname) {
        var acc' := Visit(deps, acc, deps[i].target);
        VisitSound(deps, acc, deps[i].target);
        SeededSound(deps, sender, pname, acc', i + 1);
        assert r == Seeded(deps, sender, pname, acc', i + 1);
        forall x | x in r && x !in acc ensures SeedReaches(deps, sender, pname, x) {
          if x in acc' {
            assert Reachable(deps, deps[i].target, x);
          }
        }
      } else {
        SeededSound(deps, sender, pname, acc, i + 1);
      }
    }
  }

  /** The upstream closure appends no more names than there are unlisted targets. */
  lemma {:induction false} SeededRoom(deps: seq<Dependency>, sender: ObjId, pname: Option<Name>, acc: seq<Name>, i: nat)
    requires i <= |deps|
    ensures |Seeded(deps, sender, pname, acc, i)| - |acc| + Unlisted(deps, Seeded(deps, sender, pname, acc, i))
            <= Unlisted(deps, acc)
    decreases |deps| - i
  {
    if i < |deps| {
      if IsSeed(deps[i], sender, pname) {
        assert deps[i].target in Targets(deps);
        VisitRoom(deps, acc, deps[i].target);
        SeededRoom(deps, sender, pname, Visit(deps, acc, deps[i].target), i + 1);
      } else {
        SeededRoom(deps, sender, pname, acc, i + 1);
      }
    }
  }

  /** An upstream notification fires each property at most once, and exactly the
      properties that depend through self-edges on the target of an edge the
      notification concerns. */
  lemma UpstreamClosure(deps: seq<Dependency>, sender: ObjId, pname: Option<Name>)
    ensures NoDups(Seeded(deps, sender, pname, [], 0))
    ensures forall y :: y in Seeded(deps, sender, pname, [], 0) <==> SeedReaches(deps, sender, pname, y)
  {
    var r := Seeded(deps, sender, pname, [], 0);
    SeededNoDups(deps, sender, pname, [], 0);
    SeededClosed(deps, sender, pname, [], 0);
    SeededSound(deps, sender, pname, [], 0);
    forall y | SeedReaches(deps, sender, pname, y) ensures y in r {
      ReachedByClosed(deps, r, sender, pname, y);
    }
  }

  lemma ReachedByClosed(deps: seq<Dependency>, r: seq<Name>, sender: ObjId, pname: Option<Name>, y: Name)
    requires ClosedBeyond(deps, [], r) && SeedsCovered(deps, sender, pname, 0, r)
    requires SeedReaches(deps, sender, pname, y)
    ensures y in r
  {
    var j :| 0 <= j < |deps| && IsSeed(deps[j], sender, pname) && Reachable(deps, deps[j].target, y);
    var p :| IsPath(deps, p) && p[0] == deps[j].target && p[|p| - 1] == y;
    ClosedPath(deps, r, p, |p| - 1);
  }

  // ---------------------------------------------------------------- the simple scenario

  /** The edges of an object with stored `A`, `B`, `C => A + 1` and `D => B + C`
      after `C` and `D` have been read. */
  function SimpleEdges(): seq<Dependency> {
    [Dependency("C", None, "A"), Dependency("D", None, "B"), Dependency("D", None, "C")]
  }

  /** Setting `A` announces `A`, `C`, `D`. */
  lemma SimpleAnnounceA()
    ensures Visit(SimpleEdges(), [], "A") == ["A", "C", "D"]
  {
    var deps := SimpleEdges();
    var acd := ["A", "C", "D"];
    assert VisitEdges(deps, acd, "D", 1) == acd;
    assert VisitEdges(deps, acd, "D", 0) == acd;
    assert ["A", "C"] + ["D"] == acd;
    assert Visit(deps, ["A", "C"], "D") == acd;
    assert VisitEdges(deps, acd, "C", 3) == acd;
    assert VisitEdges(deps, ["A", "C"], "C", 2) == acd;
    assert VisitEdges(deps, ["A", "C"], "C", 0) == acd;
    assert ["A"] + ["C"] == ["A", "C"];
    assert Visit(deps, ["A"], "C") == acd;
    assert VisitEdges(deps, acd, "A", 1) == acd;
    assert VisitEdges(deps, ["A"], "A", 0) == acd;
    assert [] + ["A"] == ["A"];
  }

  /** Setting `B` announces `B`, `D`. */
  lemma SimpleAnnounceB()
    ensures Visit(SimpleEdges(), [], "B") == ["B", "D"]
  {
    var deps := SimpleEdges();
    var bd := ["B", "D"];
    assert VisitEdges(deps, bd, "D", 1) == bd;
    assert VisitEdges(deps, bd, "D", 0) == bd;
    assert ["B"] + ["D"] == bd;
    assert Visit(deps, ["B"], "D") == bd;
    assert VisitEdges(deps, bd, "B", 2) == bd;
    assert VisitEdges(deps, ["B"], "B", 1) == bd;
    assert VisitEdges(deps, ["B"], "B", 0) == bd;
    assert [] + ["B"] == ["B"];
  }
}
