/** The lenient legacy-message parser of the publish path, its builder, and its agreement with the strict parser. */
module PublishParser {
  import opened Prelude
  import Message
  import ShortVec

  datatype LenientError = TruncatedPrefix | VersionedMessage(version: nat) | IndexError

  /** Keys are slices of the message, so near its end they may be short. */
  datatype LenientInstruction = LenientInstruction(program: Bytes, accounts: seq<Bytes>, data: Bytes)

  datatype LenientMessage = LenientMessage(keys: seq<Bytes>, instructions: seq<LenientInstruction>)

  datatype Step<+T> = Step(value: T, rest: Bytes)

  function Prefix(s: Bytes): Result<Step<nat>, LenientError> {
    match ShortVec.ReadLenient(s)
    case Err(_) => Err(TruncatedPrefix)
    case Ok(r) => Ok(Step(r.value, r.rest))
  }

  /** The key slices, clamped at the end of the message instead of refused. */
  function KeySlices(s: Bytes, n: nat): (keys: seq<Bytes>)
    ensures |keys| == n && forall k :: 0 <= k < n ==> keys[k] == Slice(s, 32 * k, 32 * k + 32)
  {
    seq(n, k requires 0 <= k < n => Slice(s, 32 * k, 32 * k + 32))
  }

  predicate IndexesIn(accounts: Bytes, n: nat) {
    forall j :: 0 <= j < |accounts| ==> accounts[j] < n
  }

  function Lookup(keys: seq<Bytes>, program: byte, accounts: Bytes, data: Bytes)
    : Result<LenientInstruction, LenientError>
  {
    if program >= |keys| || !IndexesIn(accounts, |keys|) then Err(IndexError) else
      Ok(LenientInstruction(keys[program],
                            seq(|accounts|, j requires 0 <= j < |accounts| => keys[accounts[j]]),
                            data))
  }

  /** A length prefix and that many bytes, or as many as there are. */
  function Counted(s: Bytes): Result<Step<Bytes>, LenientError> {
    var n :- Prefix(s);
    Ok(Step(Slice(n.rest, 0, n.value), Drop(n.rest, n.value)))
  }

  function ReadInstruction(s: Bytes, keys: seq<Bytes>): Result<Step<LenientInstruction>, LenientError> {
    if s == [] then Err(IndexError) else
      var accounts :- Counted(s[1..]);
      var data :- Counted(accounts.rest);
      var ix :- Lookup(keys, s[0], accounts.value, data.value);
      Ok(Step(ix, data.rest))
  }

  function ReadInstructions(s: Bytes, n: nat, keys: seq<Bytes>): Result<seq<LenientInstruction>, LenientError>
    decreases n
  {
    if n == 0 then Ok([]) else
      var ix :- ReadInstruction(s, keys);
      var others :- ReadInstructions(ix.rest, n - 1, keys);
      Ok([ix.value] + others)
  }

  /** `parse_legacy_message`; bytes after the last instruction are ignored. */
  function ParseLegacy(msg: Bytes): Result<LenientMessage, LenientError> {
    if msg != [] && msg[0] >= 128 then Err(VersionedMessage(msg[0] - 128)) else
      var n :- Prefix(Drop(msg, 3));
      var keys := KeySlices(n.rest, n.value);
      var m :- Prefix(Drop(n.rest, 32 * n.value + 32));
      var ixs :- ReadInstructions(m.rest, m.value, keys);
      Ok(LenientMessage(keys, ixs))
  }

  // ---------------------------------------------------------------------------
  // Reading what was written
  // ---------------------------------------------------------------------------

  /** All the lenient parser relies on: indexes inside the key table, and a first byte that is no version. */
  predicate InRange(w: Message.Wire) {
    w.reqSig < 128 && AllInRange(w.instructions, |w.keys|)
  }

  function AsSlices(keys: seq<Key>): (out: seq<Bytes>)
    ensures |out| == |keys| && forall k :: 0 <= k < |keys| ==> out[k] == keys[k]
  {
    seq(|keys|, k requires 0 <= k < |keys| => keys[k])
  }

  function Meaning(keys: seq<Key>, ix: Message.RawInstruction): LenientInstruction
    requires ix.program < |keys| && IndexesIn(ix.accounts, |keys|)
  {
    var n := |ix.accounts|;
    LenientInstruction(keys[ix.program], seq(n, j requires 0 <= j < n => keys[ix.accounts[j]]), ix.data)
  }

  predicate AllInRange(ixs: seq<Message.RawInstruction>, n: nat) {
    forall k :: 0 <= k < |ixs| ==> ixs[k].program < n && IndexesIn(ixs[k].accounts, n)
  }

  function Meanings(keys: seq<Key>, ixs: seq<Message.RawInstruction>): (out: seq<LenientInstruction>)
    requires AllInRange(ixs, |keys|)
    ensures |out| == |ixs| && forall k :: 0 <= k < |ixs| ==> out[k] == Meaning(keys, ixs[k])
  {
    seq(|ixs|, k requires 0 <= k < |ixs| => Meaning(keys, ixs[k]))
  }

  function MeaningOf(w: Message.Wire): LenientMessage
    requires InRange(w)
  {
    LenientMessage(AsSlices(w.keys), Meanings(w.keys, w.instructions))
  }

  lemma PrefixInverts(n: nat, rest: Bytes)
    ensures Prefix(ShortVec.Encode(n) + rest) == Ok(Step(n, rest))
  {
    ShortVec.ReadLenientInverts(n, rest);
  }

  lemma CutInverts(head: Bytes, rest: Bytes)
    ensures Slice(head + rest, 0, |head|) == head && Drop(head + rest, |head|) == rest
  {
  }

  lemma {:induction false} KeySlicesInvert(keys: seq<Key>, rest: Bytes, k: nat)
    requires k < |keys|
    ensures 32 * k + 32 <= |Message.SerializeKeys(keys) + rest|
    ensures Slice(Message.SerializeKeys(keys) + rest, 32 * k, 32 * k + 32) == keys[k]
    decreases k
  {
    var s, t := Message.SerializeKeys(keys) + rest, Message.SerializeKeys(keys[1..]) + rest;
    Reassociate(keys[0], Message.SerializeKeys(keys[1..]), rest);
    assert s == keys[0] + t;
    if k > 0 {
      KeySlicesInvert(keys[1..], rest, k - 1);
      hide Message.SerializeKeys;
      ShiftedSlice(keys[0], t, 32 * k - 32);
    }
  }

  lemma ShiftedSlice(head: Key, t: Bytes, i: nat)
    requires i + 32 <= |t|
    ensures (head + t)[i + 32..i + 64] == t[i..i + 32]
  {
  }

  lemma KeyTableInverts(keys: seq<Key>, rest: Bytes)
    ensures KeySlices(Message.SerializeKeys(keys) + rest, |keys|) == AsSlices(keys)
  {
    var s := Message.SerializeKeys(keys) + rest;
    hide Message.SerializeKeys, Slice, KeySlices, AsSlices;
    forall k | 0 <= k < |keys|
      ensures Slice(s, 32 * k, 32 * k + 32) == keys[k]
    {
      KeySlicesInvert(keys, rest, k);
    }
    assert KeySlices(s, |keys|) == AsSlices(keys);
  }

  lemma KeyTableEnds(keys: seq<Key>, rest: Bytes)
    ensures Drop(Message.SerializeKeys(keys) + rest, 32 * |keys|) == rest
  {
    Message.SerializeKeysLength(keys);
    hide Message.SerializeKeys;
  }

  lemma LookupInverts(keys: seq<Key>, ix: Message.RawInstruction)
    requires ix.program < |keys| && IndexesIn(ix.accounts, |keys|)
    ensures Lookup(AsSlices(keys), ix.program, ix.accounts, ix.data) == Ok(Meaning(keys, ix))
  {
    var found := Lookup(AsSlices(keys), ix.program, ix.accounts, ix.data).value;
    assert found.accounts == Meaning(keys, ix).accounts;
  }

  lemma InstructionInverts(keys: seq<Key>, ix: Message.RawInstruction, rest: Bytes)
    requires ix.program < |keys| && IndexesIn(ix.accounts, |keys|)
    ensures ReadInstruction(Message.SerializeInstruction(ix) + rest, AsSlices(keys)) ==
              Ok(Step(Meaning(keys, ix), rest))
  {
    var afterAccounts := ShortVec.Encode(|ix.data|) + (ix.data + rest);
    var afterProgram := ShortVec.Encode(|ix.accounts|) + (ix.accounts + afterAccounts);
    var s := Message.SerializeInstruction(ix) + rest;
    assert s == [ix.program] + afterProgram;
    assert s[1..] == afterProgram;
    hide Counted, Lookup, ShortVec.Encode, Message.SerializeInstruction;
    CountedInverts(ix.accounts, afterAccounts);
    CountedInverts(ix.data, rest);
    LookupInverts(keys, ix);
  }

  lemma CountedInverts(data: Bytes, rest: Bytes)
    ensures Counted(ShortVec.Encode(|data|) + (data + rest)) == Ok(Step(data, rest))
  {
    PrefixInverts(|data|, data + rest);
    CutInverts(data, rest);
  }

  lemma {:induction false} InstructionsInvert(keys: seq<Key>, ixs: seq<Message.RawInstruction>, rest: Bytes)
    requires AllInRange(ixs, |keys|)
    ensures ReadInstructions(Message.SerializeInstructions(ixs) + rest, |ixs|, AsSlices(keys)) ==
              Ok(Meanings(keys, ixs))
    decreases |ixs|
  {
    hide ReadInstruction, Meaning, Meanings, Message.SerializeInstruction, IndexesIn;
    if ixs == [] {
      assert Meanings(keys, ixs) == [];
      assert Message.SerializeInstructions(ixs) + rest == rest;
    } else {
      var others := Message.SerializeInstructions(ixs[1..]);
      Reassociate(Message.SerializeInstruction(ixs[0]), others, rest);
      InstructionInverts(keys, ixs[0], others + rest);
      InstructionsInvert(keys, ixs[1..], rest);
      assert [Meaning(keys, ixs[0])] + Meanings(keys, ixs[1..]) == Meanings(keys, ixs);
    }
  }

  /** The lenient parser reads back any message whose indexes are in range, however long, whatever follows it. */
  lemma LenientReads(w: Message.Wire, tail: Bytes)
    requires InRange(w)
    ensures ParseLegacy(Message.SerializeBody(w, tail)) == Ok(MeaningOf(w))
  {
    hide Prefix, KeySlices, ReadInstructions, Drop, Slice, Meanings, ShortVec.Encode, Message.SerializeKeys,
      Message.SerializeInstructions, AllInRange;
    var s4 := Message.SerializeInstructions(w.instructions) + tail;
    var s3 := ShortVec.Encode(|w.instructions|) + s4;
    var s1 := Message.SerializeKeys(w.keys) + (w.blockhash + s3);
    var s := Message.SerializeBody(w, tail);
    CutInverts([w.reqSig, w.roSigned, w.roUnsigned], ShortVec.Encode(|w.keys|) + s1);
    assert s[0] == w.reqSig;
    PrefixInverts(|w.keys|, s1);
    KeyTableInverts(w.keys, w.blockhash + s3);
    KeyTableEnds(w.keys, w.blockhash + s3);
    SkipTable(Message.SerializeKeys(w.keys), w.blockhash, s3, |w.keys|);
    PrefixInverts(|w.instructions|, s4);
    InstructionsInvert(w.keys, w.instructions, tail);
  }

  lemma SkipTable(table: Bytes, blockhash: Key, rest: Bytes, n: nat)
    requires Drop(table + (blockhash + rest), 32 * n) == blockhash + rest
    ensures Drop(table + (blockhash + rest), 32 * n + 32) == rest
  {
    var s := table + (blockhash + rest);
    assert s[32 * n..][32..] == s[32 * n + 32..];
  }

  /** The lenient reading drops the flags of a strict one. */
  predicate SameReading(lenient: LenientMessage, strict: Message.Parsed) {
    && lenient.keys == AsSlices(strict.keys)
    && |lenient.instructions| == |strict.instructions|
    && forall k :: 0 <= k < |strict.instructions| ==>
         && lenient.instructions[k].program == strict.instructions[k].program
         && lenient.instructions[k].accounts == AsSlices(strict.instructions[k].accounts)
         && lenient.instructions[k].data == strict.instructions[k].data
  }

  /** On every legacy message the strict parser accepts, the lenient one reads the same keys and instructions. */
  lemma TwoParsersOneMeaning(msg: Bytes)
    requires Message.Parse(msg).Ok? && !Message.Parse(msg).value.versioned
    ensures ParseLegacy(msg).Ok? && SameReading(ParseLegacy(msg).value, Message.Parse(msg).value)
  {
    Message.ParsedIsValid(msg);
    var w := Message.ParseWire(msg).value;
    LenientReads(w, []);
  }
}
