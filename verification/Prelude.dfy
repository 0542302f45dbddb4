/** Types and sequence facts shared by every component. */
module Prelude {

  /** A byte is an integer so that shifts and masks can be written as arithmetic. */
  type byte = b: int | 0 <= b < 256

  type Bytes = seq<byte>

  /** A 32-byte public key, hash or digest. */
  type Key = k: Bytes | |k| == 32 witness seq(32, _ => 0)

  datatype Option<+T> = None | Some(value: T)

  /** The outcome of an operation that the source ends by returning or by raising. */
  datatype Result<+T, +E> = Ok(value: T) | Err(error: E) {
    predicate IsFailure() {
      Err?
    }

    function PropagateFailure<U>(): Result<U, E>
      requires Err?
    {
      Err(error)
    }

    function Extract(): T
      requires Ok?
    {
      value
    }
  }

  /** Python's `s[i:j]` for non-negative bounds: out-of-range bounds are clamped, never refused. */
  function Slice<T>(s: seq<T>, i: nat, j: nat): seq<T> {
    if i >= |s| || j <= i then [] else if j <= |s| then s[i..j] else s[i..]
  }

  /** Python's `s[n:]` for a non-negative bound. */
  function Drop<T>(s: seq<T>, n: nat): seq<T> {
    if n <= |s| then s[n..] else []
  }

  function Flatten<T>(parts: seq<seq<T>>): seq<T> {
    if parts == [] then [] else parts[0] + Flatten(parts[1..])
  }

  lemma Reassociate<T>(a: seq<T>, b: seq<T>, c: seq<T>)
    ensures a + (b + c) == (a + b) + c
  {
  }

  predicate Distinct<T(==)>(s: seq<T>) {
    forall i, j :: 0 <= i < j < |s| ==> s[i] != s[j]
  }

  /** The position of the first occurrence, as `list.index` finds it. */
  function IndexOf<T(==)>(s: seq<T>, x: T): (i: nat)
    requires x in s
    ensures i < |s| && s[i] == x && x !in s[..i]
  {
    if s[0] == x then 0 else
      assert s == [s[0]] + s[1..];
      var i := 1 + IndexOf(s[1..], x);
      assert s[..i] == [s[0]] + s[1..][..i - 1];
      i
  }

  /** `int.from_bytes(b, "little")`. */
  function LittleEndian(b: Bytes): nat {
    if b == [] then 0 else b[0] + 256 * LittleEndian(b[1..])
  }
}
