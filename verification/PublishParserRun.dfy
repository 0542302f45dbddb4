/** `parse_legacy_message` and `_build_msg` as they run. */
module PublishParserRun {
  import opened Prelude
  import opened PublishParser
  import Message
  import ShortVec

  lemma DropTwice(s: Bytes, i: nat, n: nat)
    ensures Drop(Drop(s, i), n) == Drop(s, i + n)
    ensures Slice(Drop(s, i), 0, n) == Slice(s, i, i + n)
  {
  }

  lemma SliceOfRest(s: Bytes, i: nat, k: nat, n: nat)
    requires n > 0
    ensures Slice(Drop(s, i), k, k + n) == Slice(s, i + k, i + k + n)
  {
  }

  method PrefixAt(msg: Bytes, i: nat) returns (r: Result<(nat, nat), LenientError>)
    ensures match Prefix(Drop(msg, i))
            case Err(e) => r == Err(e)
            case Ok(step) => r.Ok? && r.value.0 == step.value && step.rest == Drop(msg, r.value.1)
  {
    var p := ShortVec.ReadLenientAt(msg, i);
    r := match p
      case Err(_) => Err(TruncatedPrefix)
      case Ok(v) => Ok(v);
  }

  method CountedAt(msg: Bytes, i: nat) returns (r: Result<(Bytes, nat), LenientError>)
    ensures match Counted(Drop(msg, i))
            case Err(e) => r == Err(e)
            case Ok(step) => r.Ok? && r.value.0 == step.value && step.rest == Drop(msg, r.value.1)
  {
    hide Prefix, Drop, Slice;
    var n :- PrefixAt(msg, i);
    DropTwice(msg, n.1, n.0);
    r := Ok((Slice(msg, n.1, n.1 + n.0), n.1 + n.0));
  }

  method InstructionAt(msg: Bytes, start: nat, keys: seq<Bytes>)
      returns (r: Result<(LenientInstruction, nat), LenientError>)
    ensures match ReadInstruction(Drop(msg, start), keys)
            case Err(e) => r == Err(e)
            case Ok(step) => r.Ok? && r.value.0 == step.value && step.rest == Drop(msg, r.value.1)
  {
    if start >= |msg| {
      return Err(IndexError);
    }
    var program := msg[start];
    assert Drop(msg, start) != [] && Drop(msg, start)[0] == program && Drop(msg, start)[1..] == Drop(msg, start + 1);
    hide Counted, Lookup, Drop;
    var accounts :- CountedAt(msg, start + 1);
    var data :- CountedAt(msg, accounts.1);
    var ix :- Lookup(keys, program, accounts.0, data.0);
    r := Ok((ix, data.1));
  }

  function Prepend(done: seq<LenientInstruction>, tail: Result<seq<LenientInstruction>, LenientError>)
    : Result<seq<LenientInstruction>, LenientError>
  {
    match tail
    case Err(e) => Err(e)
    case Ok(ixs) => Ok(done + ixs)
  }

  lemma PrependOne(done: seq<LenientInstruction>, x: LenientInstruction,
                   tail: Result<seq<LenientInstruction>, LenientError>)
    ensures Prepend(done, Prepend([x], tail)) == Prepend(done + [x], tail)
    ensures Prepend([], tail) == tail
  {
    if tail.Ok? {
      assert done + ([x] + tail.value) == (done + [x]) + tail.value;
      assert [] + tail.value == tail.value;
    }
  }

  method InstructionsAt(msg: Bytes, start: nat, n: nat, keys: seq<Bytes>)
      returns (r: Result<seq<LenientInstruction>, LenientError>)
    ensures r == ReadInstructions(Drop(msg, start), n, keys)
  {
    hide ReadInstruction;
    var ixs: seq<LenientInstruction>, i := [], start;
    PrependOne([], LenientInstruction([], [], []), ReadInstructions(Drop(msg, start), n, keys));
    for k := 0 to n
      invariant Prepend(ixs, ReadInstructions(Drop(msg, i), n - k, keys)) == ReadInstructions(Drop(msg, start), n, keys)
    {
      var ix :- InstructionAt(msg, i, keys);
      PrependOne(ixs, ix.0, ReadInstructions(Drop(msg, ix.1), n - k - 1, keys));
      ixs, i := ixs + [ix.0], ix.1;
    }
    assert ixs + [] == ixs;
    r := Ok(ixs);
  }

  method KeysAt(msg: Bytes, i: nat, n: nat) returns (keys: seq<Bytes>)
    ensures keys == KeySlices(Drop(msg, i), n)
  {
    hide Drop, Slice;
    keys := [];
    for k := 0 to n
      invariant |keys| == k
      invariant forall j :: 0 <= j < k ==> keys[j] == KeySlices(Drop(msg, i), n)[j]
    {
      SliceOfRest(msg, i, 32 * k, 32);
      keys := keys + [Slice(msg, i + k * 32, i + (k + 1) * 32)];
    }
  }

  method ParseLegacyMessage(msg: Bytes) returns (r: Result<LenientMessage, LenientError>)
    ensures r == ParseLegacy(msg)
  {
    hide Prefix, KeySlices, ReadInstructions, Drop, Slice;
    if msg != [] && msg[0] >= 128 {
      return Err(VersionedMessage(msg[0] % 128));
    }
    var n :- PrefixAt(msg, 3);
    var keys := KeysAt(msg, n.1, n.0);
    DropTwice(msg, n.1, 32 * n.0 + 32);
    var m :- PrefixAt(msg, n.1 + n.0 * 32 + 32);
    var ixs :- InstructionsAt(msg, m.1, m.0, keys);
    r := Ok(LenientMessage(keys, ixs));
  }

  // ---------------------------------------------------------------------------
  // The builder
  // ---------------------------------------------------------------------------

  /** The message `_build_msg` writes: header 1, 0, 1 and a zero blockhash. */
  function Built(keys: seq<Key>, ixs: seq<Message.RawInstruction>): Message.Wire {
    Message.Wire(false, 1, 0, 1, keys, Message.ZeroHash(), ixs)
  }

  method BuildInstruction(ix: Message.RawInstruction) returns (out: Bytes)
    ensures out == Message.SerializeInstruction(ix)
  {
    var nAccounts := ShortVec.Write(|ix.accounts|);
    var nData := ShortVec.Write(|ix.data|);
    out := [ix.program] + (nAccounts + (ix.accounts + (nData + ix.data)));
  }

  method BuildMessage(keys: seq<Key>, ixs: seq<Message.RawInstruction>) returns (out: Bytes)
    ensures out == Message.SerializeBody(Built(keys, ixs), [])
  {
    hide Message.SerializeInstruction, Message.SerializeKeys;
    var nKeys := ShortVec.Write(|keys|);
    var table := Message.WriteKeys(keys);
    var nIxs := ShortVec.Write(|ixs|);
    var body: Bytes := [];
    for k := 0 to |ixs|
      invariant body == Message.SerializeInstructions(ixs[..k])
    {
      var one := BuildInstruction(ixs[k]);
      Message.SerializeInstructionsAppend(ixs[..k], ixs[k]);
      assert ixs[..k + 1] == ixs[..k] + [ixs[k]];
      body := body + one;
    }
    assert ixs[..|ixs|] == ixs;
    assert body + [] == body;
    out := [1, 0, 1] + (nKeys + (table + (Message.ZeroHash() + (nIxs + body))));
  }

  /** The lenient parser inverts the builder for any 32-byte keys and in-range indexes. */
  lemma ParseInvertsBuild(keys: seq<Key>, ixs: seq<Message.RawInstruction>)
    requires AllInRange(ixs, |keys|)
    ensures ParseLegacy(Message.SerializeBody(Built(keys, ixs), [])) ==
              Ok(LenientMessage(AsSlices(keys), Meanings(keys, ixs)))
  {
    hide AllInRange;
    LenientReads(Built(keys, ixs), []);
  }
}
