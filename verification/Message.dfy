/** The strict transaction-message parser: legacy and v0 without address-table lookups. */
module Message {
  import opened Prelude
  import ShortVec

  const MAX_KEYS: nat := 256
  const MAX_INSTRUCTIONS: nat := 64

  datatype ParseError =
    | TooShort
    | UnsupportedVersion(version: nat)
    | BadPrefix(cause: ShortVec.ReadError)
    | KeyCount(keys: nat)
    | InconsistentHeader
    | Truncated
    | InstructionCount(instructions: nat)
    | ProgramIndex(index: nat)
    | AccountIndex(index: nat)
    | Lookups(lookups: nat)
    | Trailing(bytes: nat)
    | EmptyTransaction
    | MultiByteSignatureCount
    | SignaturesOverrun

  /** An instruction as the bytes state it: indexes into the key table. */
  datatype RawInstruction = RawInstruction(program: byte, accounts: Bytes, data: Bytes)

  /** A message as the bytes state it. */
  datatype Wire = Wire(
    versioned: bool, reqSig: byte, roSigned: byte, roUnsigned: byte,
    keys: seq<Key>, blockhash: Key, instructions: seq<RawInstruction>)
  {
    predicate Signer(k: nat) {
      k < reqSig
    }

    predicate Writable(k: nat) {
      if k < reqSig then k < reqSig - roSigned else k < |keys| - roUnsigned
    }
  }

  /** An instruction with its indexes resolved to keys and flags. */
  datatype Instruction = Instruction(
    program: Key, accounts: seq<Key>, signer: seq<bool>, writable: seq<bool>, data: Bytes)

  datatype Parsed = Parsed(keys: seq<Key>, instructions: seq<Instruction>, versioned: bool, reqSig: byte)

  // ---------------------------------------------------------------------------
  // The wire format, as an independent definition: what a message's bytes are
  // ---------------------------------------------------------------------------

  predicate ValidInstruction(ix: RawInstruction, nKeys: nat) {
    && ix.program < nKeys
    && (forall j :: 0 <= j < |ix.accounts| ==> ix.accounts[j] < nKeys)
    && |ix.accounts| < ShortVec.LIMIT
    && |ix.data| < ShortVec.LIMIT
  }

  predicate AllValid(ixs: seq<RawInstruction>, nKeys: nat) {
    forall k :: 0 <= k < |ixs| ==> ValidInstruction(ixs[k], nKeys)
  }

  predicate ValidHeader(reqSig: nat, roSigned: nat, roUnsigned: nat, nKeys: nat) {
    reqSig <= nKeys && roSigned <= reqSig && roUnsigned <= nKeys - reqSig
  }

  predicate Valid(w: Wire) {
    && 0 < |w.keys| <= 256
    && ValidHeader(w.reqSig, w.roSigned, w.roUnsigned, |w.keys|)
    && |w.instructions| <= 64
    && AllValid(w.instructions, |w.keys|)
    && (!w.versioned ==> w.reqSig < 128)
  }

  function SerializeInstruction(ix: RawInstruction): Bytes {
    [ix.program] + (ShortVec.Encode(|ix.accounts|) + (ix.accounts + (ShortVec.Encode(|ix.data|) + ix.data)))
  }

  function SerializeInstructions(ixs: seq<RawInstruction>): Bytes {
    if ixs == [] then [] else SerializeInstruction(ixs[0]) + SerializeInstructions(ixs[1..])
  }

  function SerializeKeys(keys: seq<Key>): Bytes {
    if keys == [] then [] else keys[0] + SerializeKeys(keys[1..])
  }

  /** Everything after the version byte, up to the lookup count of a v0 message. */
  function SerializeBody(w: Wire, tail: Bytes): Bytes {
    [w.reqSig, w.roSigned, w.roUnsigned] + (ShortVec.Encode(|w.keys|) + (SerializeKeys(w.keys) + (w.blockhash +
    (ShortVec.Encode(|w.instructions|) + (SerializeInstructions(w.instructions) + tail)))))
  }

  function Serialize(w: Wire): Bytes {
    if w.versioned then [0x80] + SerializeBody(w, [0]) else SerializeBody(w, [])
  }

  // ---------------------------------------------------------------------------
  // Writing the pieces, for the builders
  // ---------------------------------------------------------------------------

  /** The blockhash the builders leave blank. */
  function ZeroHash(): Key {
    seq(32, _ => 0)
  }

  lemma SerializeInstructionsAppend(raws: seq<RawInstruction>, raw: RawInstruction)
    ensures SerializeInstructions(raws + [raw]) == SerializeInstructions(raws) + SerializeInstruction(raw)
    decreases |raws|
  {
    if raws == [] {
      assert SerializeInstructions([raw]) == SerializeInstruction(raw) + SerializeInstructions([]);
    } else {
      assert (raws + [raw])[1..] == raws[1..] + [raw];
      SerializeInstructionsAppend(raws[1..], raw);
      Reassociate(SerializeInstruction(raws[0]), SerializeInstructions(raws[1..]), SerializeInstruction(raw));
    }
  }

  lemma SerializeKeysAppend(keys: seq<Key>, k: Key)
    ensures SerializeKeys(keys + [k]) == SerializeKeys(keys) + k
    decreases |keys|
  {
    if keys == [] {
      assert SerializeKeys([k]) == k + SerializeKeys([]);
    } else {
      assert (keys + [k])[1..] == keys[1..] + [k];
      SerializeKeysAppend(keys[1..], k);
      Reassociate(keys[0], SerializeKeys(keys[1..]), k);
    }
  }

  method WriteKeys(keys: seq<Key>) returns (out: Bytes)
    ensures out == SerializeKeys(keys)
  {
    out := [];
    for k := 0 to |keys|
      invariant out == SerializeKeys(keys[..k])
    {
      SerializeKeysAppend(keys[..k], keys[k]);
      assert keys[..k + 1] == keys[..k] + [keys[k]];
      out := out + keys[k];
    }
    assert keys[..|keys|] == keys;
  }

  // ---------------------------------------------------------------------------
  // The parser's decisions, in the order the source takes them
  // ---------------------------------------------------------------------------

  datatype Step<+T> = Step(value: T, rest: Bytes)

  function Prefix(s: Bytes): Result<Step<nat>, ParseError> {
    match ShortVec.ReadStrict(s)
    case Err(e) => Err(BadPrefix(e))
    case Ok(r) => Ok(Step(r.value, r.rest))
  }

  function Take(s: Bytes, n: nat): Result<Step<Bytes>, ParseError> {
    if n > |s| then Err(Truncated) else Ok(Step(s[..n], s[n..]))
  }

  function ReadKeys(s: Bytes, n: nat): Result<Step<seq<Key>>, ParseError>
    decreases n
  {
    if n == 0 then Ok(Step([], s)) else
      var k :- Take(s, 32);
      var others :- ReadKeys(k.rest, n - 1);
      Ok(Step([k.value] + others.value, others.rest))
  }

  function FirstOutside(accounts: Bytes, nKeys: nat): Option<nat> {
    if accounts == [] then None
    else if accounts[0] >= nKeys then Some(accounts[0])
    else FirstOutside(accounts[1..], nKeys)
  }

  function ReadInstruction(s: Bytes, nKeys: nat): Result<Step<RawInstruction>, ParseError> {
    var p :- Take(s, 1);
    if p.value[0] >= nKeys then Err(ProgramIndex(p.value[0])) else
      var n :- Prefix(p.rest);
      var accounts :- Take(n.rest, n.value);
      match FirstOutside(accounts.value, nKeys)
      case Some(a) => Err(AccountIndex(a))
      case None =>
        var d :- Prefix(accounts.rest);
        var data :- Take(d.rest, d.value);
        Ok(Step(RawInstruction(p.value[0], accounts.value, data.value), data.rest))
  }

  function ReadInstructions(s: Bytes, n: nat, nKeys: nat): Result<Step<seq<RawInstruction>>, ParseError>
    decreases n
  {
    if n == 0 then Ok(Step([], s)) else
      var ix :- ReadInstruction(s, nKeys);
      var others :- ReadInstructions(ix.rest, n - 1, nKeys);
      Ok(Step([ix.value] + others.value, others.rest))
  }

  /** The end of a message: no lookups, and nothing after the message. */
  function ReadEnd(s: Bytes, versioned: bool): Result<(), ParseError> {
    var rest :- if versioned then
                  var n :- Prefix(s);
                  if n.value != 0 then Err(Lookups(n.value)) else Ok(n.rest)
                else Ok(s);
    if rest != [] then Err(Trailing(|rest|)) else Ok(())
  }

  function ReadBody(s: Bytes, versioned: bool): Result<Wire, ParseError>
    requires |s| >= 3
  {
    var reqSig, roSigned, roUnsigned := s[0], s[1], s[2];
    var n :- Prefix(s[3..]);
    if !(0 < n.value <= MAX_KEYS) then Err(KeyCount(n.value))
    else if !ValidHeader(reqSig, roSigned, roUnsigned, n.value) then Err(InconsistentHeader)
    else
      var keys :- ReadKeys(n.rest, n.value);
      var blockhash :- Take(keys.rest, 32);
      var m :- Prefix(blockhash.rest);
      if m.value > MAX_INSTRUCTIONS then Err(InstructionCount(m.value)) else
        var ixs :- ReadInstructions(m.rest, m.value, n.value);
        var _ :- ReadEnd(ixs.rest, versioned);
        Ok(Wire(versioned, reqSig, roSigned, roUnsigned, keys.value, blockhash.value, ixs.value))
  }

  function ParseWire(msg: Bytes): Result<Wire, ParseError> {
    if |msg| < 4 then Err(TooShort)
    else if msg[0] >= 128 then
      if msg[0] != 128 then Err(UnsupportedVersion(msg[0] - 128)) else ReadBody(msg[1..], true)
    else ReadBody(msg, false)
  }

  function ResolveInstruction(w: Wire, ix: RawInstruction): Instruction
    requires ValidInstruction(ix, |w.keys|)
  {
    var n := |ix.accounts|;
    Instruction(
      w.keys[ix.program],
      seq(n, j requires 0 <= j < n => w.keys[ix.accounts[j]]),
      seq(n, j requires 0 <= j < n => w.Signer(ix.accounts[j])),
      seq(n, j requires 0 <= j < n => w.Writable(ix.accounts[j])),
      ix.data)
  }

  function ResolveInstructions(w: Wire, ixs: seq<RawInstruction>): (out: seq<Instruction>)
    requires AllValid(ixs, |w.keys|)
    ensures |out| == |ixs| && forall k :: 0 <= k < |ixs| ==> out[k] == ResolveInstruction(w, ixs[k])
  {
    seq(|ixs|, k requires 0 <= k < |ixs| => ResolveInstruction(w, ixs[k]))
  }

  function Resolve(w: Wire): Parsed
    requires AllValid(w.instructions, |w.keys|)
  {
    Parsed(w.keys, ResolveInstructions(w, w.instructions), w.versioned, w.reqSig)
  }

  // ---------------------------------------------------------------------------
  // Exactness: every accepted message is the one serialization of what was read
  // ---------------------------------------------------------------------------

  lemma PrefixExact(s: Bytes, n: nat, rest: Bytes)
    ensures Prefix(s) == Ok(Step(n, rest)) <==> n < ShortVec.LIMIT && s == ShortVec.Encode(n) + rest
  {
    ShortVec.ReadStrictExact(s, n, rest);
  }

  lemma PrefixSound(s: Bytes)
    requires Prefix(s).Ok?
    ensures Prefix(s).value.value < ShortVec.LIMIT
    ensures s == ShortVec.Encode(Prefix(s).value.value) + Prefix(s).value.rest
  {
    PrefixExact(s, Prefix(s).value.value, Prefix(s).value.rest);
  }

  lemma TakeInverts(head: Bytes, rest: Bytes)
    ensures Take(head + rest, |head|) == Ok(Step(head, rest))
  {
  }

  lemma {:induction false} ReadKeysSound(s: Bytes, n: nat)
    requires ReadKeys(s, n).Ok?
    ensures |ReadKeys(s, n).value.value| == n
    ensures s == SerializeKeys(ReadKeys(s, n).value.value) + ReadKeys(s, n).value.rest
    decreases n
  {
    if n > 0 {
      ReadKeysSound(s[32..], n - 1);
      var others := ReadKeys(s[32..], n - 1).value;
      assert ([s[..32]] + others.value)[1..] == others.value;
      Reassociate(s[..32], SerializeKeys(others.value), others.rest);
      assert s == s[..32] + s[32..];
    }
  }

  lemma {:induction false} ReadKeysComplete(keys: seq<Key>, rest: Bytes)
    ensures ReadKeys(SerializeKeys(keys) + rest, |keys|) == Ok(Step(keys, rest))
    decreases |keys|
  {
    if keys == [] {
      assert SerializeKeys(keys) + rest == rest;
    } else {
      Reassociate(keys[0], SerializeKeys(keys[1..]), rest);
      TakeInverts(keys[0], SerializeKeys(keys[1..]) + rest);
      ReadKeysComplete(keys[1..], rest);
      assert [keys[0]] + keys[1..] == keys;
    }
  }

  lemma FirstOutsideNone(accounts: Bytes, nKeys: nat)
    ensures FirstOutside(accounts, nKeys).None? <==> forall j :: 0 <= j < |accounts| ==> accounts[j] < nKeys
  {
    if accounts != [] {
      FirstOutsideNone(accounts[1..], nKeys);
      assert forall j :: 0 <= j < |accounts| ==> accounts[j] == if j == 0 then accounts[0] else accounts[1..][j - 1];
    }
  }

  /** Where the reads of one instruction start and stop. */
  lemma ReadInstructionFields(s: Bytes, nKeys: nat)
      returns (ix: RawInstruction, s1: Bytes, s2: Bytes, s3: Bytes, s4: Bytes, s5: Bytes)
    requires ReadInstruction(s, nKeys).Ok?
    ensures ReadInstruction(s, nKeys) == Ok(Step(ix, s5))
    ensures s == [ix.program] + s1 && ix.program < nKeys
    ensures Prefix(s1) == Ok(Step(|ix.accounts|, s2))
    ensures s2 == ix.accounts + s3 && FirstOutside(ix.accounts, nKeys).None?
    ensures Prefix(s3) == Ok(Step(|ix.data|, s4))
    ensures s4 == ix.data + s5
  {
    hide Prefix, FirstOutside;
    ix, s5 := ReadInstruction(s, nKeys).value.value, ReadInstruction(s, nKeys).value.rest;
    s1 := s[1..];
    s2 := Prefix(s1).value.rest;
    s3 := s2[|ix.accounts|..];
    s4 := Prefix(s3).value.rest;
  }

  lemma ReadInstructionSound(s: Bytes, nKeys: nat)
    requires ReadInstruction(s, nKeys).Ok?
    ensures var r := ReadInstruction(s, nKeys).value;
            ValidInstruction(r.value, nKeys) && s == SerializeInstruction(r.value) + r.rest
  {
    hide ReadInstruction, Prefix;
    var ix, s1, s2, s3, s4, s5 := ReadInstructionFields(s, nKeys);
    PrefixSound(s1);
    PrefixSound(s3);
    FirstOutsideNone(ix.accounts, nKeys);
    Nest(s, [ix.program], s1, ShortVec.Encode(|ix.accounts|), s2, ix.accounts, s3,
         ShortVec.Encode(|ix.data|), s4, ix.data, s5);
  }

  /** Five consecutive fields, split off one after another, are a prefix of the whole. */
  lemma Nest(s: Bytes, a: Bytes, s1: Bytes, b: Bytes, s2: Bytes, c: Bytes, s3: Bytes, d: Bytes, s4: Bytes,
             e: Bytes, s5: Bytes)
    requires s == a + s1 && s1 == b + s2 && s2 == c + s3 && s3 == d + s4 && s4 == e + s5
    ensures s == (a + (b + (c + (d + e)))) + s5
  {
    assert s3 == (d + e) + s5;
    assert s2 == (c + (d + e)) + s5;
    assert s1 == (b + (c + (d + e))) + s5;
  }

  lemma ReadInstructionComplete(ix: RawInstruction, rest: Bytes, nKeys: nat)
    requires ValidInstruction(ix, nKeys)
    ensures ReadInstruction(SerializeInstruction(ix) + rest, nKeys) == Ok(Step(ix, rest))
  {
    var afterData := ix.data + rest;
    var afterCount := ShortVec.Encode(|ix.data|) + afterData;
    var afterAccounts := ix.accounts + afterCount;
    var afterProgram := ShortVec.Encode(|ix.accounts|) + afterAccounts;
    assert SerializeInstruction(ix) + rest == [ix.program] + afterProgram;
    TakeInverts([ix.program], afterProgram);
    PrefixExact(afterProgram, |ix.accounts|, afterAccounts);
    TakeInverts(ix.accounts, afterCount);
    FirstOutsideNone(ix.accounts, nKeys);
    PrefixExact(afterCount, |ix.data|, afterData);
    TakeInverts(ix.data, rest);
  }

  lemma AllValidCons(ix: RawInstruction, ixs: seq<RawInstruction>, nKeys: nat)
    requires ValidInstruction(ix, nKeys) && AllValid(ixs, nKeys)
    ensures AllValid([ix] + ixs, nKeys)
    ensures SerializeInstructions([ix] + ixs) == SerializeInstruction(ix) + SerializeInstructions(ixs)
  {
    assert ([ix] + ixs)[1..] == ixs;
  }

  lemma {:induction false} ReadInstructionsSound(s: Bytes, n: nat, nKeys: nat)
    requires ReadInstructions(s, n, nKeys).Ok?
    ensures var r := ReadInstructions(s, n, nKeys).value;
            |r.value| == n && AllValid(r.value, nKeys) && s == SerializeInstructions(r.value) + r.rest
    decreases n
  {
    hide ReadInstruction, SerializeInstruction, ValidInstruction;
    if n > 0 {
      ReadInstructionSound(s, nKeys);
      var ix := ReadInstruction(s, nKeys).value;
      ReadInstructionsSound(ix.rest, n - 1, nKeys);
      var others := ReadInstructions(ix.rest, n - 1, nKeys).value;
      AllValidCons(ix.value, others.value, nKeys);
      Reassociate(SerializeInstruction(ix.value), SerializeInstructions(others.value), others.rest);
    }
  }

  lemma {:induction false} ReadInstructionsComplete(ixs: seq<RawInstruction>, rest: Bytes, nKeys: nat)
    requires AllValid(ixs, nKeys)
    ensures ReadInstructions(SerializeInstructions(ixs) + rest, |ixs|, nKeys) == Ok(Step(ixs, rest))
    decreases |ixs|
  {
    hide ReadInstruction, SerializeInstruction, ValidInstruction;
    if ixs == [] {
      assert SerializeInstructions(ixs) + rest == rest;
    } else {
      var others := SerializeInstructions(ixs[1..]) + rest;
      Reassociate(SerializeInstruction(ixs[0]), SerializeInstructions(ixs[1..]), rest);
      ReadInstructionComplete(ixs[0], others, nKeys);
      ReadInstructionsComplete(ixs[1..], rest, nKeys);
      assert [ixs[0]] + ixs[1..] == ixs;
    }
  }

  function Tail(versioned: bool): Bytes {
    if versioned then [0] else []
  }

  lemma ReadEndExact(s: Bytes, versioned: bool)
    ensures ReadEnd(s, versioned).Ok? <==> s == Tail(versioned)
  {
    if versioned {
      PrefixExact(s, 0, []);
      assert ShortVec.Encode(0) + [] == [0];
    }
  }

  /** Where the reads of one message body start and stop. */
  lemma ReadBodyFields(s: Bytes, versioned: bool)
      returns (w: Wire, s1: Bytes, s2: Bytes, s3: Bytes, s4: Bytes, s5: Bytes)
    requires |s| >= 3 && ReadBody(s, versioned).Ok?
    ensures ReadBody(s, versioned) == Ok(w) && w.versioned == versioned
    ensures s[..3] == [w.reqSig, w.roSigned, w.roUnsigned]
    ensures Prefix(s[3..]) == Ok(Step(|w.keys|, s1)) && 0 < |w.keys| <= MAX_KEYS
    ensures ValidHeader(w.reqSig, w.roSigned, w.roUnsigned, |w.keys|)
    ensures ReadKeys(s1, |w.keys|) == Ok(Step(w.keys, s2))
    ensures s2 == w.blockhash + s3
    ensures Prefix(s3) == Ok(Step(|w.instructions|, s4)) && |w.instructions| <= MAX_INSTRUCTIONS
    ensures ReadInstructions(s4, |w.instructions|, |w.keys|) == Ok(Step(w.instructions, s5))
    ensures ReadEnd(s5, versioned).Ok?
  {
    hide Prefix, ReadEnd;
    w := ReadBody(s, versioned).value;
    s1 := Prefix(s[3..]).value.rest;
    ReadKeysSound(s1, Prefix(s[3..]).value.value);
    s2 := ReadKeys(s1, |w.keys|).value.rest;
    s3 := s2[32..];
    s4 := Prefix(s3).value.rest;
    ReadInstructionsSound(s4, Prefix(s3).value.value, |w.keys|);
    s5 := ReadInstructions(s4, |w.instructions|, |w.keys|).value.rest;
  }

  lemma ReadBodySound(s: Bytes, versioned: bool)
    requires |s| >= 3 && ReadBody(s, versioned).Ok?
    ensures var w := ReadBody(s, versioned).value;
            && w.versioned == versioned
            && Valid(w.(versioned := true))
            && s == SerializeBody(w, Tail(versioned))
  {
    var w, s1, s2, s3, s4, s5 := ReadBodyFields(s, versioned);
    hide ReadBody, Prefix, ReadKeys, ReadInstructions, ReadEnd;
    PrefixSound(s[3..]);
    ReadKeysSound(s1, |w.keys|);
    PrefixSound(s3);
    ReadInstructionsSound(s4, |w.instructions|, |w.keys|);
    ReadEndExact(s5, versioned);
    assert s == s[..3] + s[3..];
  }

  lemma ReadBodyComplete(w: Wire)
    requires Valid(w.(versioned := true))
    ensures ReadBody(SerializeBody(w, Tail(w.versioned)), w.versioned) == Ok(w)
  {
    var tail := Tail(w.versioned);
    var s := SerializeBody(w, tail);
    var s4 := SerializeInstructions(w.instructions) + tail;
    var s3 := ShortVec.Encode(|w.instructions|) + s4;
    var s2 := w.blockhash + s3;
    var s1 := SerializeKeys(w.keys) + s2;
    assert s[3..] == ShortVec.Encode(|w.keys|) + s1;
    PrefixExact(s[3..], |w.keys|, s1);
    ReadKeysComplete(w.keys, s2);
    TakeInverts(w.blockhash, s3);
    PrefixExact(s3, |w.instructions|, s4);
    ReadInstructionsComplete(w.instructions, tail, |w.keys|);
    ReadEndExact(tail, w.versioned);
  }

  /**
   * The parser accepts a byte string as `w` exactly when `w` is a valid message and the bytes are its
   * serialization: every byte is accounted for once, and no message has a second accepted spelling.
   */
  lemma ParseExact(msg: Bytes, w: Wire)
    ensures ParseWire(msg) == Ok(w) <==> Valid(w) && msg == Serialize(w)
  {
    if ParseWire(msg) == Ok(w) {
      if msg[0] >= 128 {
        ReadBodySound(msg[1..], true);
        assert msg == [msg[0]] + msg[1..];
      } else {
        ReadBodySound(msg, false);
      }
    }
    if Valid(w) && msg == Serialize(w) {
      ReadBodyComplete(w);
      SerializeKeysLength(w.keys);
      if w.versioned {
        assert msg[1..] == SerializeBody(w, [0]);
      }
    }
  }

  lemma SerializeKeysLength(keys: seq<Key>)
    ensures |SerializeKeys(keys)| == 32 * |keys|
  {
  }

  lemma ParsedIsValid(msg: Bytes)
    requires ParseWire(msg).Ok?
    ensures Valid(ParseWire(msg).value) && msg == Serialize(ParseWire(msg).value)
  {
    ParseExact(msg, ParseWire(msg).value);
  }

  /** Two accepted messages that read the same in index form are the same bytes. */
  lemma ParseInjective(a: Bytes, b: Bytes)
    requires ParseWire(a).Ok? && ParseWire(a) == ParseWire(b)
    ensures a == b
  {
    ParsedIsValid(a);
    ParsedIsValid(b);
  }

  /** What `parse_message` returns. */
  function Parse(msg: Bytes): Result<Parsed, ParseError> {
    match ParseWire(msg)
    case Err(e) => Err(e)
    case Ok(w) => ParsedIsValid(msg); Ok(Resolve(w))
  }

  /** The v0 spelling of a legacy message. */
  function AsV0(msg: Bytes): Bytes {
    [0x80] + msg + [0]
  }

  lemma SerializeBodyTail(w: Wire, tail: Bytes)
    ensures SerializeBody(w, tail) == SerializeBody(w, []) + tail
  {
    var ixs := SerializeInstructions(w.instructions);
    Nest(SerializeBody(w, tail),
         [w.reqSig, w.roSigned, w.roUnsigned], SerializeBody(w, tail)[3..],
         ShortVec.Encode(|w.keys|),
         SerializeKeys(w.keys) + (w.blockhash + (ShortVec.Encode(|w.instructions|) + (ixs + tail))),
         SerializeKeys(w.keys), w.blockhash + (ShortVec.Encode(|w.instructions|) + (ixs + tail)),
         w.blockhash, ShortVec.Encode(|w.instructions|) + (ixs + tail),
         ShortVec.Encode(|w.instructions|) + ixs, tail);
    assert ixs + [] == ixs;
    Reassociate(w.blockhash, ShortVec.Encode(|w.instructions|), ixs);
  }

  lemma V0Serialization(w: Wire)
    requires Valid(w) && !w.versioned
    ensures Valid(w.(versioned := true)) && Serialize(w.(versioned := true)) == AsV0(Serialize(w))
  {
    var v := w.(versioned := true);
    SerializeBodyTail(w, [0]);
    assert SerializeBody(v, [0]) == SerializeBody(w, [0]);
    Reassociate([0x80], SerializeBody(w, []), [0]);
  }

  /** Re-spelling an accepted legacy message as v0 changes no key, flag or instruction. */
  lemma VersionIndependence(msg: Bytes)
    requires Parse(msg).Ok? && !Parse(msg).value.versioned
    ensures Parse(AsV0(msg)) == Ok(Parse(msg).value.(versioned := true))
  {
    ParsedIsValid(msg);
    var w := ParseWire(msg).value;
    var v := w.(versioned := true);
    V0Serialization(w);
    ParseExact(AsV0(msg), v);
    hide ParseWire, Serialize, AsV0;
    ResolveByTable(v, w, w.instructions);
  }

  /** Resolution looks only at the key table and the header counts. */
  lemma ResolveByTable(v: Wire, w: Wire, ixs: seq<RawInstruction>)
    requires v.keys == w.keys && v.reqSig == w.reqSig && v.roSigned == w.roSigned && v.roUnsigned == w.roUnsigned
    requires AllValid(ixs, |w.keys|)
    ensures ResolveInstructions(v, ixs) == ResolveInstructions(w, ixs)
  {
    forall k | 0 <= k < |ixs|
      ensures ResolveInstruction(v, ixs[k]) == ResolveInstruction(w, ixs[k])
    {
      var accounts := ixs[k].accounts;
      assert forall j :: 0 <= j < |accounts| ==>
        v.Signer(accounts[j]) == w.Signer(accounts[j]) && v.Writable(accounts[j]) == w.Writable(accounts[j]);
    }
  }

  /** Every account list carries one flag of each kind per account. */
  predicate Shaped(ix: Instruction) {
    |ix.signer| == |ix.accounts| == |ix.writable|
  }

  /** A parsed message's instructions carry one flag of each kind per account. */
  lemma ParsedIsShaped(msg: Bytes)
    requires Parse(msg).Ok?
    ensures forall k :: 0 <= k < |Parse(msg).value.instructions| ==> Shaped(Parse(msg).value.instructions[k])
  {
    ParsedIsValid(msg);
    hide ParseWire;
  }

  /** `message_of`: the bytes after the signature vector. */
  function MessageOf(tx: Bytes): Result<Bytes, ParseError> {
    if tx == [] then Err(EmptyTransaction)
    else if tx[0] >= 128 then Err(MultiByteSignatureCount)
    else if |tx| < 1 + (tx[0] as nat) * 64 then Err(SignaturesOverrun)
    else Ok(tx[1 + (tx[0] as nat) * 64..])
  }

  /** `n` signatures of 64 bytes behind a one-byte count, and then the message. */
  ghost predicate IsTransaction(tx: Bytes, msg: Bytes) {
    exists n: byte, signatures: Bytes :: n < 128 && |signatures| == 64 * n && tx == [n] + signatures + msg
  }

  /** The message is what follows the signatures, however many there are. */
  lemma MessageOfExact(tx: Bytes, msg: Bytes)
    ensures MessageOf(tx) == Ok(msg) <==> IsTransaction(tx, msg)
  {
    if MessageOf(tx) == Ok(msg) {
      var n := tx[0] as nat;
      assert tx == [tx[0]] + tx[1..1 + n * 64] + msg;
    }
    if IsTransaction(tx, msg) {
      var n: byte, signatures: Bytes :| n < 128 && |signatures| == 64 * n && tx == [n] + signatures + msg;
      assert tx[0] == n && tx[1 + (n as nat) * 64..] == msg;
    }
  }
}
