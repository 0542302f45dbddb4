/** Length prefixes: seven bits a byte, least significant first, the high bit marking continuation. */
module ShortVec {
  import opened Prelude

  datatype ReadError = Truncated | NonMinimal | TooLong

  /** A decoded value and the bytes left after it. */
  datatype Read = Read(value: nat, rest: Bytes)

  /** The largest value three bytes can carry, plus one. */
  const LIMIT: nat := 0x20_0000

  function Encode(n: nat): (out: Bytes)
    ensures |out| >= 1
  {
    if n < 128 then [n] else [n % 128 + 128] + Encode(n / 128)
  }

  method Write(n: nat) returns (out: Bytes)
    ensures out == Encode(n)
  {
    var left := n;
    out := [];
    while true
      invariant Encode(n) == out + Encode(left)
      decreases left
    {
      var low := left % 128;
      left := left / 128;
      out := out + [if left > 0 then low + 128 else low];
      if left == 0 {
        return;
      }
    }
  }

  // ---------------------------------------------------------------------------
  // The strict reader
  // ---------------------------------------------------------------------------

  /** Reads on from the `n`th byte of a prefix; the value counts from that byte's own weight. */
  function ReadFrom(s: Bytes, n: nat): Result<Read, ReadError>
    decreases 3 - n
  {
    if n >= 3 then Err(TooLong)
    else if s == [] then Err(Truncated)
    else if s[0] < 128 then
      if n > 0 && s[0] == 0 then Err(NonMinimal) else Ok(Read(s[0], s[1..]))
    else
      var tail :- ReadFrom(s[1..], n + 1);
      Ok(Read(s[0] - 128 + 128 * tail.value, tail.rest))
  }

  function ReadStrict(s: Bytes): Result<Read, ReadError> {
    ReadFrom(s, 0)
  }

  function Room(n: nat): nat {
    if n == 0 then LIMIT else if n == 1 then 0x4000 else if n == 2 then 128 else 0
  }

  lemma {:induction false} ReadFromSound(s: Bytes, n: nat)
    requires ReadFrom(s, n).Ok?
    ensures var r := ReadFrom(s, n).value;
            && s == Encode(r.value) + r.rest
            && r.value < Room(n)
            && (n > 0 ==> r.value > 0)
    decreases 3 - n
  {
    hide Encode, Room;
    if s[0] >= 128 {
      ReadFromSound(s[1..], n + 1);
      LongerPrefix(s, n, ReadFrom(s[1..], n + 1).value);
    } else {
      OneBytePrefix(s, n);
    }
  }

  lemma {:induction false} OneBytePrefix(s: Bytes, n: nat)
    requires s != [] && s[0] < 128 && n < 3
    ensures s == Encode(s[0]) + s[1..] && s[0] < Room(n)
  {
  }

  lemma {:induction false} LongerPrefix(s: Bytes, n: nat, tail: Read)
    requires s != [] && s[0] >= 128 && n < 3 && s[1..] == Encode(tail.value) + tail.rest
    requires 0 < tail.value < Room(n + 1)
    ensures var v := s[0] - 128 + 128 * tail.value; s == Encode(v) + tail.rest && v < Room(n)
  {
    EncodeContinues(s[0], tail.value);
    hide Encode;
    Reassociate([s[0]], Encode(tail.value), tail.rest);
    assert s == [s[0]] + s[1..];
  }

  lemma {:induction false} EncodeContinues(c: byte, v: nat)
    requires c >= 128 && v > 0
    ensures Encode(c - 128 + 128 * v) == [c] + Encode(v)
  {
    var n := c - 128 + 128 * v;
    assert n / 128 == v && n % 128 == c - 128;
  }

  lemma {:induction false} ReadFromComplete(v: nat, rest: Bytes, n: nat)
    requires v < Room(n) && (n > 0 ==> v > 0)
    ensures ReadFrom(Encode(v) + rest, n) == Ok(Read(v, rest))
    decreases 3 - n
  {
    var s := Encode(v) + rest;
    if v < 128 {
      assert s[1..] == rest;
    } else {
      assert s[1..] == Encode(v / 128) + rest;
      ReadFromComplete(v / 128, rest, n + 1);
    }
  }

  /** The strict reader accepts exactly the minimal encodings of the values below 2^21. */
  lemma ReadStrictExact(s: Bytes, v: nat, rest: Bytes)
    ensures ReadStrict(s) == Ok(Read(v, rest)) <==> v < LIMIT && s == Encode(v) + rest
  {
    if ReadStrict(s) == Ok(Read(v, rest)) {
      ReadFromSound(s, 0);
    }
    if v < LIMIT {
      ReadFromComplete(v, rest, 0);
    }
  }

  /** What the cursor form returns for a read of `b[i..]`. */
  predicate AtCursor(b: Bytes, expected: Result<Read, ReadError>, got: Result<(nat, nat), ReadError>) {
    match expected
    case Err(e) => got == Err(e)
    case Ok(r) => got.Ok? && got.value.0 == r.value && got.value.1 <= |b| && b[got.value.1..] == r.rest
  }

  function Shifted(val: nat, weight: nat, tail: Result<Read, ReadError>): Result<Read, ReadError> {
    match tail
    case Err(e) => Err(e)
    case Ok(r) => Ok(Read(val + weight * r.value, r.rest))
  }

  lemma ShiftOver(val: nat, weight: nat, c: byte, tail: Result<Read, ReadError>)
    requires c >= 128
    ensures Shifted(val, weight, match tail
                                 case Err(e) => Err(e)
                                 case Ok(t) => Ok(Read(c - 128 + 128 * t.value, t.rest)))
         == Shifted(val + c % 128 * weight, weight * 128, tail)
  {
    if tail.Ok? {
      ShiftAlgebra(weight, c - 128, tail.value.value);
    }
  }

  lemma ShiftAlgebra(weight: nat, low: nat, v: nat)
    ensures weight * (low + 128 * v) == low * weight + weight * 128 * v
  {
  }

  /** The strict reader with the loop's running value and weight. */
  function AccumulateStrict(s: Bytes, n: nat, val: nat, weight: nat): Result<Read, ReadError>
    decreases 3 - n
  {
    if n >= 3 then Err(TooLong)
    else if s == [] then Err(Truncated)
    else if s[0] < 128 then
      if n > 0 && s[0] == 0 then Err(NonMinimal) else Ok(Read(val + s[0] * weight, s[1..]))
    else AccumulateStrict(s[1..], n + 1, val + s[0] % 128 * weight, weight * 128)
  }

  lemma {:induction false} AccumulateStrictIsShifted(s: Bytes, n: nat, val: nat, weight: nat)
    ensures AccumulateStrict(s, n, val, weight) == Shifted(val, weight, ReadFrom(s, n))
    decreases 3 - n
  {
    if n < 3 && s != [] && s[0] >= 128 {
      AccumulateStrictIsShifted(s[1..], n + 1, val + s[0] % 128 * weight, weight * 128);
      ShiftOver(val, weight, s[0], ReadFrom(s[1..], n + 1));
    }
  }

  lemma StrictByAccumulating(s: Bytes)
    ensures AccumulateStrict(s, 0, 0, 1) == ReadStrict(s)
  {
    AccumulateStrictIsShifted(s, 0, 0, 1);
  }

  method ReadStrictAt(b: Bytes, start: nat) returns (r: Result<(nat, nat), ReadError>)
    requires start <= |b|
    ensures AtCursor(b, ReadStrict(b[start..]), r)
  {
    hide ReadStrict, ReadFrom, AccumulateStrict;
    StrictByAccumulating(b[start..]);
    var val: nat, i: nat, weight: nat := 0, start, 1;
    for n := 0 to 3
      invariant start <= i <= |b|
      invariant AccumulateStrict(b[i..], n, val, weight) == ReadStrict(b[start..])
    {
      StrictTurn(b, i, n, val, weight);
      if i >= |b| {
        return Err(Truncated);
      }
      var c := b[i];
      i := i + 1;
      val := val + c % 128 * weight;
      if c < 128 {
        if n > 0 && c == 0 {
          return Err(NonMinimal);
        }
        return Ok((val, i));
      }
      weight := weight * 128;
    }
    StrictEnd(b[i..], val, weight);
    r := Err(TooLong);
  }

  /** One turn of the loop: what the reader gives from here on. */
  lemma {:induction false} StrictTurn(b: Bytes, i: nat, n: nat, val: nat, weight: nat)
    requires i <= |b| && n < 3
    ensures i < |b| ==> b[i] % 128 * weight >= 0
    ensures AccumulateStrict(b[i..], n, val, weight) ==
              if i == |b| then Err(Truncated)
              else if b[i] >= 128 then AccumulateStrict(b[i + 1..], n + 1, val + b[i] % 128 * weight, weight * 128)
              else if n > 0 && b[i] == 0 then Err(NonMinimal)
              else Ok(Read(val + b[i] % 128 * weight, b[i + 1..]))
  {
    if i < |b| {
      assert b[i..][1..] == b[i + 1..];
    }
  }

  lemma {:induction false} StrictEnd(s: Bytes, val: nat, weight: nat)
    ensures AccumulateStrict(s, 3, val, weight) == Err(TooLong)
  {
  }

  // ---------------------------------------------------------------------------
  // The lenient reader
  // ---------------------------------------------------------------------------

  /** No length limit and no minimality: only running out of bytes is refused. */
  function ReadLenient(s: Bytes): Result<Read, ReadError> {
    if s == [] then Err(Truncated)
    else if s[0] < 128 then Ok(Read(s[0], s[1..]))
    else
      var tail :- ReadLenient(s[1..]);
      Ok(Read(s[0] - 128 + 128 * tail.value, tail.rest))
  }

  /** Reading undoes writing for every natural number, however long its prefix. */
  lemma {:induction false} ReadLenientInverts(n: nat, rest: Bytes)
    ensures ReadLenient(Encode(n) + rest) == Ok(Read(n, rest))
    decreases n
  {
    var s := Encode(n) + rest;
    if n < 128 {
      assert s[1..] == rest;
    } else {
      assert s[1..] == Encode(n / 128) + rest;
      ReadLenientInverts(n / 128, rest);
    }
  }

  /** Wherever the strict reader succeeds the lenient one reads the same. */
  lemma LenientExtendsStrict(s: Bytes)
    requires ReadStrict(s).Ok?
    ensures ReadLenient(s) == ReadStrict(s)
  {
    ReadFromSound(s, 0);
    var r := ReadStrict(s).value;
    ReadLenientInverts(r.value, r.rest);
  }

  function AccumulateLenient(s: Bytes, val: nat, weight: nat): Result<Read, ReadError> {
    if s == [] then Err(Truncated)
    else if s[0] < 128 then Ok(Read(val + s[0] * weight, s[1..]))
    else AccumulateLenient(s[1..], val + s[0] % 128 * weight, weight * 128)
  }

  lemma {:induction false} AccumulateLenientIsShifted(s: Bytes, val: nat, weight: nat)
    ensures AccumulateLenient(s, val, weight) == Shifted(val, weight, ReadLenient(s))
  {
    if s != [] && s[0] >= 128 {
      AccumulateLenientIsShifted(s[1..], val + s[0] % 128 * weight, weight * 128);
      ShiftOver(val, weight, s[0], ReadLenient(s[1..]));
    }
  }

  lemma LenientByAccumulating(s: Bytes)
    ensures AccumulateLenient(s, 0, 1) == ReadLenient(s)
  {
    AccumulateLenientIsShifted(s, 0, 1);
  }

  method ReadLenientAt(b: Bytes, start: nat) returns (r: Result<(nat, nat), ReadError>)
    ensures AtCursor(b, ReadLenient(Drop(b, start)), r)
  {
    hide ReadLenient, AccumulateLenient;
    LenientByAccumulating(Drop(b, start));
    var val: nat, i: nat, weight: nat := 0, start, 1;
    while true
      invariant start <= i && (start < |b| ==> i <= |b|) && (start >= |b| ==> i == start)
      invariant AccumulateLenient(Drop(b, i), val, weight) == ReadLenient(Drop(b, start))
      decreases |b| - i
    {
      LenientTurn(b, i, val, weight);
      if i >= |b| {
        return Err(Truncated);
      }
      var c := b[i];
      i := i + 1;
      val := val + c % 128 * weight;
      if c < 128 {
        return Ok((val, i));
      }
      weight := weight * 128;
    }
  }

  lemma {:induction false} LenientTurn(b: Bytes, i: nat, val: nat, weight: nat)
    ensures i < |b| ==> b[i] % 128 * weight >= 0
    ensures AccumulateLenient(Drop(b, i), val, weight) ==
              if i >= |b| then Err(Truncated)
              else if b[i] >= 128 then AccumulateLenient(Drop(b, i + 1), val + b[i] % 128 * weight, weight * 128)
              else Ok(Read(val + b[i] % 128 * weight, Drop(b, i + 1)))
  {
    if i < |b| {
      assert b[i..][1..] == b[i + 1..];
    }
  }
}
