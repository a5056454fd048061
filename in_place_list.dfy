/** `InPlaceList<T>`: a growable array-backed list that the reactive object uses
    for its dependency edges, its scratch list of changed properties and its set
    of valid properties, and that the evaluation protocol uses for its shared
    dependency buffer. */
module InPlaceLists {
  import opened Types

  /** Largest number of elements the model lets a list hold (2^30); one more
      doubling would exceed the largest .NET array. */
  const MaxCount: nat := 0x4000_0000

  /** The capacities the growth policy produces: 0 (no array yet), then 4, 8, 16, ... */
  ghost predicate GrowthCapacity(n: nat) {
    n == 0 || n == 4 || (n > 4 && n % 2 == 0 && GrowthCapacity(n / 2))
  }

  class InPlaceList<T(==,0)> {
    /** The backing array; an array of length 0 stands for the source's `null` array. */
    var arr: array<T>
    var count: nat

    ghost predicate Valid()
      reads this
    {
      count <= arr.Length && count <= MaxCount && GrowthCapacity(arr.Length)
    }

    /** The elements of the list, in order (the enumerator and `AsReadOnlySpan()`). */
    function Contents(): seq<T>
      reads this, arr
      requires Valid()
    {
      arr[..count]
    }

    function Capacity(): nat
      reads this
    {
      arr.Length
    }

    constructor ()
      ensures Valid() && fresh(arr)
      ensures Contents() == [] && Capacity() == 0
    {
      arr := new T[0];
      count := 0;
    }

    /** Makes room for one more element: allocates 4 slots the first time and
        doubles a full array afterwards. */
    method Expand()
      requires Valid() && count < MaxCount
      modifies this
      ensures Valid() && count == old(count)
      ensures arr[..count] == old(arr[..count])
      ensures Capacity() == if old(Capacity()) == 0 then 4
                            else if old(count) == old(Capacity()) then 2 * old(Capacity())
                            else old(Capacity())
      ensures arr == old(arr) || fresh(arr)
    {
      if arr.Length == 0 {
        arr := new T[4];
      } else if count == arr.Length {
        var a := new T[2 * arr.Length];
        forall k | 0 <= k < arr.Length {
          a[k] := arr[k];
        }
        arr := a;
      }
    }

    /** Appends `v` at index `count`; the earlier elements stay where they were. */
    method Add(v: T)
      requires Valid() && count < MaxCount
      modifies this, arr
      ensures Valid()
      ensures Contents() == old(Contents()) + [v]
      ensures Capacity() == if old(count) < old(Capacity()) then old(Capacity())
                            else if old(Capacity()) == 0 then 4
                            else 2 * old(Capacity())
      ensures arr == old(arr) || fresh(arr)
    {
      if count == arr.Length {
        Expand();
      }
      arr[count] := v;
      count := count + 1;
    }

    /** The indexer read `list[index]`. */
    function Get(index: Int32): (r: Result<T>)
      reads this, arr
      requires Valid()
      ensures r.Ok? <==> 0 <= index < |Contents()|
      ensures r.Ok? ==> r.value == Contents()[index]
      ensures r.Err? ==> r.error == IndexOutOfRange
    {
      if AsUInt(index) >= count then Err(IndexOutOfRange) else Ok(arr[index])
    }

    /** The indexer write `list[index] = v` (through the returned `ref`). */
    method Set(index: Int32, v: T) returns (r: Outcome)
      requires Valid()
      modifies arr
      ensures Valid()
      ensures r == if 0 <= index < old(count) then Pass else Fail(IndexOutOfRange)
      ensures Contents() == if r.Pass? then old(Contents())[index := v] else old(Contents())
    {
      if AsUInt(index) >= count {
        return Fail(IndexOutOfRange);
      }
      arr[index] := v;
      r := Pass;
    }

    /** Empties the list; the backing array is kept. */
    method Clear()
      requires Valid()
      modifies this
      ensures Valid() && arr == old(arr)
      ensures Contents() == []
    {
      count := 0;
    }

    /** Removes the `n` elements starting at `index`. */
    method RemoveRange(index: Int32, n: Int32) returns (r: Outcome)
      requires Valid()
      modifies this, arr
      ensures Valid() && arr == old(arr)
      ensures r == if n < 0 then Fail(ArgumentOutOfRange)
                   else if index < 0 || index > old(count) then Fail(IndexOutOfRange)
                   else if index + n > old(count) then Fail(ArgumentOutOfRange)
                   else Pass
      ensures r.Pass? ==> Contents() == old(Contents())[..index] + old(Contents())[index + n..]
      ensures r.Fail? ==> Contents() == old(Contents())
    {
      if n < 0 {
        return Fail(ArgumentOutOfRange);
      }
      if AsUInt(index) > count {
        return Fail(IndexOutOfRange);
      }
      // In the source `index + n` may wrap around; it then fails inside
      // `Array.Copy` with the same exception.
      if index + n > count {
        return Fail(ArgumentOutOfRange);
      }
      if n > 0 {
        ghost var before := arr[..count];
        forall k | index <= k < count - n {
          arr[k] := arr[k + n];
        }
        count := count - n;
        assert forall k :: 0 <= k < count ==> arr[k] == (before[..index] + before[index + n..])[k];
      }
      r := Pass;
    }

    /** Removes the element at `index`, shifting the tail left by one. */
    method RemoveAt(index: Int32) returns (r: Outcome)
      requires Valid()
      modifies this, arr
      ensures Valid() && arr == old(arr)
      ensures r == if 0 <= index < old(count) then Pass else Fail(IndexOutOfRange)
      ensures r.Pass? ==> Contents() == old(Contents())[..index] + old(Contents())[index + 1..]
      ensures r.Fail? ==> Contents() == old(Contents())
    {
      if AsUInt(index) >= count {
        return Fail(IndexOutOfRange);
      }
      forall k | index <= k < count - 1 {
        arr[k] := arr[k + 1];
      }
      count := count - 1;
      r := Pass;
    }

    /** `AsReadOnlySpan(start, length)`: the elements `[start, start + length)`. */
    function AsReadOnlySpan(start: Int32, length: Int32): (r: Result<seq<T>>)
      reads this, arr
      requires Valid()
      ensures r.Ok? <==> 0 <= start && 0 <= length && start + length <= |Contents()|
      ensures r.Ok? ==> r.value == Contents()[start..start + length]
      ensures r.Err? && length < 0 ==> r.error == ArgumentOutOfRange
      ensures r.Err? && 0 <= length && (start < 0 || start > |Contents()|) ==> r.error == IndexOutOfRange
      ensures r.Err? && 0 <= length && 0 <= start <= |Contents()| ==> r.error == ArgumentOutOfRange
    {
      if length < 0 then Err(ArgumentOutOfRange)
      else if AsUInt(start) > count then Err(IndexOutOfRange)
      else if start + length > count then Err(ArgumentOutOfRange)
      else Ok(arr[start..start + length])
    }

    /** `AsReadOnlySpan(start)`: the elements from `start` to the end. */
    function AsReadOnlySpanFrom(start: Int32): (r: Result<seq<T>>)
      reads this, arr
      requires Valid()
      ensures r.Ok? <==> 0 <= start <= |Contents()|
      ensures r.Ok? ==> r.value == Contents()[start..]
    {
      // `_count - start` is C# `int` arithmetic and may wrap around
      AsReadOnlySpan(start, Wrap32(count - start))
    }

    /** `IndexOf(v, index, n)`: the first position in `[index, index + n)` holding `v`,
        or -1; the range is checked as `AsReadOnlySpan` checks it. */
    method IndexOfRange(v: T, index: Int32, n: Int32) returns (r: Result<int>)
      requires Valid()
      ensures r.Err? <==> AsReadOnlySpan(index, n).Err?
      ensures r.Err? ==> r.error == AsReadOnlySpan(index, n).error
      ensures r.Ok? ==> -1 <= r.value < index + n
      ensures r.Ok? && r.value == -1 ==> v !in Contents()[index..index + n]
      ensures r.Ok? && r.value != -1 ==>
                index <= r.value && Contents()[r.value] == v && v !in Contents()[index..r.value]
    {
      var span := AsReadOnlySpan(index, n);
      if span.Err? {
        return Err(span.error);
      }
      var s := span.value;
      var x := 0;
      while x < |s|
        invariant 0 <= x <= |s|
        invariant v !in s[..x]
      {
        if s[x] == v {
          assert s[..x] == Contents()[index..index + x];
          return Ok(index + x);
        }
        x := x + 1;
      }
      assert s[..x] == s;
      r := Ok(-1);
    }

    /** `IndexOf(v)`: the first position of `v` in the whole list, or -1. */
    method IndexOf(v: T) returns (r: int)
      requires Valid()
      ensures -1 <= r < |Contents()|
      ensures r == -1 <==> v !in Contents()
      ensures r != -1 ==> Contents()[r] == v && v !in Contents()[..r]
    {
      var res := IndexOfRange(v, 0, count);
      assert Contents()[0..count] == Contents();
      r := res.value;
    }

    /** `Contains(v, index, n)`: whether `v` occurs in `[index, index + n)`. */
    method ContainsRange(v: T, index: Int32, n: Int32) returns (r: Result<bool>)
      requires Valid()
      ensures r.Err? <==> AsReadOnlySpan(index, n).Err?
      ensures r.Err? ==> r.error == AsReadOnlySpan(index, n).error
      ensures r.Ok? ==> (r.value <==> v in Contents()[index..index + n])
    {
      var i := IndexOfRange(v, index, n);
      if i.Err? {
        return Err(i.error);
      }
      if i.value != -1 {
        assert Contents()[i.value] == Contents()[index..index + n][i.value - index];
      }
      r := Ok(i.value >= 0);
    }

    /** `Contains(v)`: whether `v` occurs anywhere in the list. */
    method Contains(v: T) returns (r: bool)
      requires Valid()
      ensures r <==> v in Contents()
    {
      var i := IndexOf(v);
      r := i >= 0;
    }
  }
}
