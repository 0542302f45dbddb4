/** `_take` and `parse_message` as they run: one cursor moved over the bytes. */
module MessageParser {
  import opened Prelude
  import opened Message
  import ShortVec

  /** A cursor result for a read of the bytes from some position on: same value, and the cursor at the rest. */
  predicate Follows<T(==)>(msg: Bytes, expected: Result<Step<T>, ParseError>, got: Result<(T, nat), ParseError>) {
    match expected
    case Err(e) => got == Err(e)
    case Ok(step) => got.Ok? && got.value.0 == step.value && got.value.1 <= |msg| && msg[got.value.1..] == step.rest
  }

  method TakeAt(msg: Bytes, i: nat, n: nat) returns (r: Result<(Bytes, nat), ParseError>)
    requires i <= |msg|
    ensures Follows(msg, Take(msg[i..], n), r)
  {
    if i + n > |msg| {
      return Err(Truncated);
    }
    assert msg[i..][..n] == msg[i..i + n] && msg[i..][n..] == msg[i + n..];
    r := Ok((msg[i..i + n], i + n));
  }

  method PrefixAt(msg: Bytes, i: nat) returns (r: Result<(nat, nat), ParseError>)
    requires i <= |msg|
    ensures Follows(msg, Prefix(msg[i..]), r)
  {
    var p := ShortVec.ReadStrictAt(msg, i);
    r := match p
      case Err(e) => Err(BadPrefix(e))
      case Ok(v) => Ok(v);
  }

  function Prepend<T>(done: seq<T>, tail: Result<Step<seq<T>>, ParseError>): Result<Step<seq<T>>, ParseError> {
    match tail
    case Err(e) => Err(e)
    case Ok(step) => Ok(Step(done + step.value, step.rest))
  }

  lemma PrependOne<T>(done: seq<T>, x: T, tail: Result<Step<seq<T>>, ParseError>)
    ensures Prepend(done, Prepend([x], tail)) == Prepend(done + [x], tail)
  {
    if tail.Ok? {
      assert done + ([x] + tail.value.value) == (done + [x]) + tail.value.value;
    }
  }

  lemma PrependNone<T>(tail: Result<Step<seq<T>>, ParseError>)
    ensures Prepend([], tail) == tail
  {
    if tail.Ok? {
      assert [] + tail.value.value == tail.value.value;
    }
  }

  method KeysAt(msg: Bytes, start: nat, n: nat) returns (r: Result<(seq<Key>, nat), ParseError>)
    requires start <= |msg|
    ensures Follows(msg, ReadKeys(msg[start..], n), r)
  {
    var keys: seq<Key>, i := [], start;
    PrependNone(ReadKeys(msg[start..], n));
    for k := 0 to n
      invariant start <= i <= |msg|
      invariant Prepend(keys, ReadKeys(msg[i..], n - k)) == ReadKeys(msg[start..], n)
    {
      var t :- TakeAt(msg, i, 32);
      PrependOne(keys, t.0, ReadKeys(msg[t.1..], n - k - 1));
      keys, i := keys + [t.0], t.1;
    }
    assert keys + [] == keys;
    r := Ok((keys, i));
  }

  method AccountsInRange(raw: Bytes, nKeys: nat) returns (bad: Option<nat>)
    ensures bad == FirstOutside(raw, nKeys)
  {
    for j := 0 to |raw|
      invariant FirstOutside(raw, nKeys) == FirstOutside(raw[j..], nKeys)
    {
      if raw[j] >= nKeys {
        return Some(raw[j]);
      }
      assert raw[j..][1..] == raw[j + 1..];
    }
    bad := None;
  }

  method InstructionAt(msg: Bytes, start: nat, nKeys: nat) returns (r: Result<(RawInstruction, nat), ParseError>)
    requires start <= |msg|
    ensures Follows(msg, ReadInstruction(msg[start..], nKeys), r)
  {
    hide Prefix, FirstOutside;
    var p :- TakeAt(msg, start, 1);
    var program := p.0[0];
    if program >= nKeys {
      return Err(ProgramIndex(program));
    }
    var n :- PrefixAt(msg, p.1);
    var raw :- TakeAt(msg, n.1, n.0);
    var bad := AccountsInRange(raw.0, nKeys);
    if bad.Some? {
      return Err(AccountIndex(bad.value));
    }
    var dlen :- PrefixAt(msg, raw.1);
    var data :- TakeAt(msg, dlen.1, dlen.0);
    r := Ok((RawInstruction(program, raw.0, data.0), data.1));
  }

  /** The instruction loop; `table` carries the key table and the header counts it resolves against. */
  method InstructionsAt(msg: Bytes, start: nat, n: nat, table: Wire)
      returns (r: Result<(seq<Instruction>, nat), ParseError>, ghost raws: seq<RawInstruction>)
    requires start <= |msg|
    ensures match ReadInstructions(msg[start..], n, |table.keys|)
            case Err(e) => r == Err(e)
            case Ok(step) =>
              && r.Ok? && raws == step.value
              && AllValid(raws, |table.keys|)
              && r.value.0 == ResolveInstructions(table, raws)
              && r.value.1 <= |msg| && msg[r.value.1..] == step.rest
    ensures r.Ok? ==> |r.value.0| == n && start <= r.value.1
  {
    hide ReadInstruction, ValidInstruction, FirstOutside;
    var nKeys := |table.keys|;
    var ixs: seq<Instruction>, i := [], start;
    raws := [];
    PrependNone(ReadInstructions(msg[start..], n, nKeys));
    for k := 0 to n
      invariant start <= i <= |msg|
      invariant Prepend(raws, ReadInstructions(msg[i..], n - k, nKeys)) == ReadInstructions(msg[start..], n, nKeys)
      invariant AllValid(raws, nKeys) && |raws| == k && ixs == ResolveInstructions(table, raws)
    {
      var raw, next := ReadOne(msg, i, nKeys, n - k, raws, ReadInstructions(msg[start..], n, nKeys));
      if raw.Err? {
        return Err(raw.error), [];
      }
      var ix := raw.value;
      var resolved := ResolveAt(table, ix);
      ixs, i := ixs + [resolved], next;
      raws := raws + [ix];
    }
    assert raws + [] == raws;
    r := Ok((ixs, i));
  }

  /** One turn of the loop, with what it leaves the rest of the loop to do. */
  method ReadOne(msg: Bytes, i: nat, nKeys: nat, left: nat, ghost raws: seq<RawInstruction>,
                 ghost whole: Result<Step<seq<RawInstruction>>, ParseError>)
      returns (raw: Result<RawInstruction, ParseError>, next: nat)
    requires i <= |msg| && left > 0 && AllValid(raws, nKeys)
    requires Prepend(raws, ReadInstructions(msg[i..], left, nKeys)) == whole
    ensures raw.Err? ==> whole == Err(raw.error)
    ensures raw.Ok? ==>
      && i <= next <= |msg|
      && ValidInstruction(raw.value, nKeys) && AllValid(raws + [raw.value], nKeys)
      && Prepend(raws + [raw.value], ReadInstructions(msg[next..], left - 1, nKeys)) == whole
  {
    hide ReadInstruction, SerializeInstruction;
    var got := InstructionAt(msg, i, nKeys);
    if got.Err? {
      return Err(got.error), i;
    }
    raw, next := Ok(got.value.0), got.value.1;
    ReadInstructionSound(msg[i..], nKeys);
    PrependOne(raws, raw.value, ReadInstructions(msg[next..], left - 1, nKeys));
  }

  method ResolveAt(table: Wire, ix: RawInstruction) returns (resolved: Instruction)
    requires ValidInstruction(ix, |table.keys|)
    ensures resolved == ResolveInstruction(table, ix)
  {
    var n := |ix.accounts|;
    resolved := Instruction(
      table.keys[ix.program],
      seq(n, j requires 0 <= j < n => table.keys[ix.accounts[j]]),
      seq(n, j requires 0 <= j < n => table.Signer(ix.accounts[j])),
      seq(n, j requires 0 <= j < n => table.Writable(ix.accounts[j])),
      ix.data);
  }

  method EndAt(msg: Bytes, start: nat, versioned: bool) returns (r: Result<(), ParseError>)
    requires start <= |msg|
    ensures r == ReadEnd(msg[start..], versioned)
  {
    var i := start;
    if versioned {
      var n :- PrefixAt(msg, i);
      if n.0 != 0 {
        return Err(Lookups(n.0));
      }
      i := n.1;
    }
    if i != |msg| {
      return Err(Trailing(|msg| - i));
    }
    r := Ok(());
  }

  function ResolveResult(w: Result<Wire, ParseError>): Result<Parsed, ParseError>
    requires w.Ok? ==> AllValid(w.value.instructions, |w.value.keys|)
  {
    match w
    case Err(e) => Err(e)
    case Ok(wire) => Ok(Resolve(wire))
  }

  method BodyAt(msg: Bytes, start: nat, versioned: bool) returns (r: Result<Parsed, ParseError>)
    requires start + 3 <= |msg|
    ensures ReadBody(msg[start..], versioned).Ok? ==>
      var w := ReadBody(msg[start..], versioned).value; AllValid(w.instructions, |w.keys|)
    ensures r == ResolveResult(ReadBody(msg[start..], versioned))
  {
    hide Prefix, ReadKeys, ReadInstructions, ReadEnd, ResolveInstructions;
    var reqSig, roSigned, roUnsigned := msg[start], msg[start + 1], msg[start + 2];
    assert msg[start..][3..] == msg[start + 3..];
    var nKeys :- PrefixAt(msg, start + 3);
    if !(0 < nKeys.0 <= MAX_KEYS) {
      return Err(KeyCount(nKeys.0));
    }
    if reqSig > nKeys.0 || roSigned > reqSig || roUnsigned > nKeys.0 - reqSig {
      return Err(InconsistentHeader);
    }
    var keys :- KeysAt(msg, nKeys.1, nKeys.0);
    ReadKeysSound(msg[nKeys.1..], nKeys.0);
    var blockhash :- TakeAt(msg, keys.1, 32);
    var nIxs :- PrefixAt(msg, blockhash.1);
    if nIxs.0 > MAX_INSTRUCTIONS {
      return Err(InstructionCount(nIxs.0));
    }
    var table := Wire(versioned, reqSig, roSigned, roUnsigned, keys.0, blockhash.0, []);
    var ixs, raws := InstructionsAt(msg, nIxs.1, nIxs.0, table);
    if ixs.Err? {
      return Err(ixs.error);
    }
    var _ :- EndAt(msg, ixs.value.1, versioned);
    ghost var w := table.(instructions := raws);
    ResolveByTable(table, w, raws);
    r := Ok(Parsed(keys.0, ixs.value.0, versioned, reqSig));
  }

  method ParseMessage(msg: Bytes) returns (r: Result<Parsed, ParseError>)
    ensures r == Parse(msg)
  {
    hide ReadBody;
    if |msg| < 4 {
      return Err(TooShort);
    }
    var versioned := msg[0] >= 128;
    if versioned && msg[0] % 128 != 0 {
      return Err(UnsupportedVersion(msg[0] % 128));
    }
    var i := if versioned then 1 else 0;
    assert msg[0..] == msg;
    r := BodyAt(msg, i, versioned);
  }
}
