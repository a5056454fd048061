/** Shared vocabulary of the model: failure-carrying results, the exceptions the
    library throws, and identities of the objects it talks to. */
module Types {

  datatype Option<+T> = None | Some(value: T)

  /** The .NET exceptions thrown by the modelled code, plus the ones carried
      through it from user code (a failing derivation or async factory). */
  datatype Error =
    | ArgumentNull
    | ArgumentOutOfRange
    | IndexOutOfRange
    | Argument(message: string)
    | NullReference
    | UserException(code: nat)

  datatype Result<+T> = Ok(value: T) | Err(error: Error)

  /** Success or failure of an operation that returns nothing. */
  datatype Outcome = Pass | Fail(error: Error)

  /** Reference identity of an observable object (an `INotifyPropertyChanged`). */
  type ObjId = nat

  /** Identity of a `PropertyChangedEventHandler` delegate. */
  type HandlerId = nat

  /** A property name; a missing name (`null` in the source) is `None`. */
  type Name = string

  /** The C# `int` type. */
  type Int32 = x: int | -0x8000_0000 <= x < 0x8000_0000

  /** The C# cast `(uint)x` of an `int`, used by the source for one-sided range checks. */
  function AsUInt(x: Int32): (r: nat)
    ensures r < 0x1_0000_0000
    ensures x < 0 ==> r >= 0x8000_0000
    ensures 0 <= x ==> r == x
  {
    if x < 0 then x + 0x1_0000_0000 else x
  }

  /** C# `int` arithmetic: the mathematical value wrapped into 32 bits. */
  function Wrap32(x: int): (r: Int32)
    ensures -0x8000_0000 <= x < 0x8000_0000 ==> r == x
    ensures (r - x) % 0x1_0000_0000 == 0
  {
    (x + 0x8000_0000) % 0x1_0000_0000 - 0x8000_0000
  }

  ghost predicate NoDups<T>(s: seq<T>) {
    forall i, j :: 0 <= i < j < |s| ==> s[i] != s[j]
  }

  /** Two sequences that agree from position `k` on agree from `k + 1` on. */
  lemma SuffixTail<T>(a: seq<T>, b: seq<T>, k: nat)
    requires k < |a| == |b| && a[k..] == b[k..]
    ensures a[k + 1..] == b[k + 1..]
  {
    assert a[k + 1..] == a[k..][1..];
    assert b[k + 1..] == b[k..][1..];
  }
}
