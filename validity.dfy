/** The list of valid (cached or stored) properties kept by `WithCachedProperties`
    and `WithStoredComputedProperties`: which names it holds after an
    announcement invalidates one of them, or all of them. */
module ValiditySets {
  import opened Types

  /** The list with position `i` overwritten by the last element and the last
      element dropped: `list[i] = list[last]; list.RemoveAt(last)`. */
  function SwapRemove(s: seq<Name>, i: nat): (r: seq<Name>)
    requires i < |s|
    ensures |r| == |s| - 1
  {
    s[i := s[|s| - 1]][..|s| - 1]
  }

  /** The first position of `n` in `s`. */
  function FirstIndex(s: seq<Name>, n: Name): (i: nat)
    requires n in s
    ensures i < |s| && s[i] == n && n !in s[..i]
  {
    if s[0] == n then 0
    else
      var k := FirstIndex(s[1..], n);
      assert s[..k + 1] == [s[0]] + s[1..][..k];
      k + 1
  }

  /** A position holding `n` with no earlier `n` is the first index of `n`. */
  lemma FirstIndexUnique(s: seq<Name>, n: Name, i: nat)
    requires i < |s| && s[i] == n && n !in s[..i]
    ensures FirstIndex(s, n) == i
  {
  }

  /** The valid list after `OnPropertyChanged(name)`: an announcement of all
      properties (`None`) empties it; an announcement of a listed name removes
      that name by swapping the last element into its place. */
  function Invalidated(s: seq<Name>, name: Option<Name>): seq<Name> {
    if name.None? then []
    else if name.value !in s then s
    else SwapRemove(s, FirstIndex(s, name.value))
  }

  /** Swap-remove drops exactly the element it overwrites and keeps the rest. */
  lemma SwapRemoveMembers(s: seq<Name>, i: nat)
    requires i < |s| && NoDups(s)
    ensures NoDups(SwapRemove(s, i))
    ensures forall x :: x in SwapRemove(s, i) <==> x in s && x != s[i]
  {
    var r := SwapRemove(s, i);
    var last := |s| - 1;
    forall x | x in s && x != s[i] ensures x in r {
      var k :| 0 <= k < |s| && s[k] == x;
      if k == last {
        assert r[i] == x;
      } else {
        assert r[k] == x;
      }
    }
    forall x | x in r ensures x in s && x != s[i] {
      var k :| 0 <= k < |r| && r[k] == x;
      if k == i {
        assert x == s[last];
      } else {
        assert x == s[k];
      }
    }
  }

  /** Invalidation keeps the list free of duplicates, removes the announced
      name (every name, for `None`) and keeps every other name. */
  lemma InvalidatedMembers(s: seq<Name>, name: Option<Name>)
    requires NoDups(s)
    ensures NoDups(Invalidated(s, name))
    ensures forall x :: x in Invalidated(s, name) <==> x in s && name.Some? && name.value != x
  {
    if name.Some? && name.value in s {
      SwapRemoveMembers(s, FirstIndex(s, name.value));
    }
  }

  /** `SetPropertyValid(name)` on the list: appends the name when it is absent. */
  function Validated(s: seq<Name>, name: Name): seq<Name> {
    if name in s then s else s + [name]
  }

  /** Marking a name valid keeps the list free of duplicates and adds exactly that name. */
  lemma ValidatedMembers(s: seq<Name>, name: Name)
    requires NoDups(s)
    ensures NoDups(Validated(s, name))
    ensures forall x :: x in Validated(s, name) <==> x in s || x == name
  {
  }

  /** A name marked valid stays valid through any announcement of another name. */
  lemma StaysValid(s: seq<Name>, n: Name, announced: Name)
    requires NoDups(s) && announced != n
    ensures n in Invalidated(Validated(s, n), Some(announced))
  {
    ValidatedMembers(s, n);
    InvalidatedMembers(Validated(s, n), Some(announced));
  }
}
