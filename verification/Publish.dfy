/** The publish certifier, and the broadcaster that signs exactly what was certified. */
module Publish {
  import opened Prelude
  import opened PublishParser
  import Base58
  import Programs
  import PublishParserRun

  datatype PublishRefusal =
    | ValueError
    | EmptyTransaction
    | MultiByteSignatureCount
    | Unreadable(cause: LenientError)
    | InstructionCount(instructions: nat)
    | FirstNotSystem | FirstNotAdvance | WrongNonce
    | SecondNotOracle | SecondAccountCount(accounts: nat) | WrongFeed
    | UnexpectedProgram

  function AdvanceNonceTag(): Bytes {
    [4, 0, 0, 0]
  }

  function DecodeName(s: string): Result<Bytes, PublishRefusal> {
    if Base58.Valid(s) then Ok(Base58.Decoded(s)) else Err(ValueError)
  }

  /** The message after the signature vector: a short transaction leaves an empty message, not an error. */
  function MessageOf(tx: Bytes): Bytes
    requires tx != []
  {
    Drop(tx, 1 + (tx[0] as nat) * 64)
  }

  function ReadTransaction(tx: Bytes): Result<seq<LenientInstruction>, PublishRefusal> {
    if tx == [] then Err(EmptyTransaction)
    else if tx[0] >= 128 then Err(MultiByteSignatureCount)
    else match ParseLegacy(MessageOf(tx))
      case Err(e) => Err(Unreadable(e))
      case Ok(m) => Ok(m.instructions)
  }

  /** The checks on the instruction list, in order; None accepts. */
  function InstructionRefusal(ixs: seq<LenientInstruction>, oracle: Bytes, feed: Bytes, nonce: Option<Bytes>)
    : Option<PublishRefusal>
  {
    if |ixs| != 2 then Some(InstructionCount(|ixs|))
    else if ixs[0].program != Programs.System() then Some(FirstNotSystem)
    else if Slice(ixs[0].data, 0, 4) != AdvanceNonceTag() then Some(FirstNotAdvance)
    else if nonce.Some? && nonce.value !in ixs[0].accounts then Some(WrongNonce)
    else if ixs[1].program != oracle then Some(SecondNotOracle)
    else if |ixs[1].accounts| != 2 then Some(SecondAccountCount(|ixs[1].accounts|))
    else if ixs[1].accounts[0] != feed then Some(WrongFeed)
    else if ixs[0].program !in [Programs.System(), oracle] || ixs[1].program !in [Programs.System(), oracle] then
      Some(UnexpectedProgram)
    else None
  }

  /** What `certify_publish_tx` returns or raises; the empty nonce stands for one not given. */
  function Certify(tx: Bytes, oracle: string, feed: string, nonce: string): Result<(), PublishRefusal> {
    var o :- DecodeName(oracle);
    var f :- DecodeName(feed);
    var n :- if nonce == "" then Ok(None) else (var k :- DecodeName(nonce); Ok(Some(k)));
    var ixs :- ReadTransaction(tx);
    match InstructionRefusal(ixs, o, f, n)
    case Some(refusal) => Err(refusal)
    case None => Ok(())
  }

  /** Exactly a nonce advance on our nonce, then our oracle with two accounts and our feed first. */
  predicate IsPublish(ixs: seq<LenientInstruction>, oracle: Bytes, feed: Bytes, nonce: Option<Bytes>) {
    && |ixs| == 2
    && ixs[0].program == Programs.System() && [4, 0, 0, 0] <= ixs[0].data
    && (nonce.Some? ==> nonce.value in ixs[0].accounts)
    && ixs[1].program == oracle
    && |ixs[1].accounts| == 2 && ixs[1].accounts[0] == feed
  }

  /** The certifier accepts exactly the publish intent. */
  lemma CertifyExact(tx: Bytes, oracle: string, feed: string, nonce: string)
    ensures Certify(tx, oracle, feed, nonce).Ok? <==>
              && Base58.Valid(oracle) && Base58.Valid(feed) && Base58.Valid(nonce)
              && ReadTransaction(tx).Ok?
              && IsPublish(ReadTransaction(tx).value, Base58.Decoded(oracle), Base58.Decoded(feed),
                           if nonce == "" then None else Some(Base58.Decoded(nonce)))
  {
    hide ReadTransaction, Base58.Decoded, Programs.System;
    if Base58.Valid(oracle) && Base58.Valid(feed) && Base58.Valid(nonce) && ReadTransaction(tx).Ok? {
      InstructionRefusalExact(ReadTransaction(tx).value, Base58.Decoded(oracle), Base58.Decoded(feed),
                              if nonce == "" then None else Some(Base58.Decoded(nonce)));
      hide InstructionRefusal, IsPublish;
    }
  }

  lemma InstructionRefusalExact(ixs: seq<LenientInstruction>, oracle: Bytes, feed: Bytes, nonce: Option<Bytes>)
    ensures InstructionRefusal(ixs, oracle, feed, nonce).None? <==> IsPublish(ixs, oracle, feed, nonce)
  {
    hide Programs.System;
    if |ixs| == 2 {
      assert AdvanceNonceTag() <= ixs[0].data <==> Slice(ixs[0].data, 0, 4) == AdvanceNonceTag();
    }
  }

  method CertifyTransaction(tx: Bytes, oracle: string, feed: string, nonce: string)
      returns (r: Result<(), PublishRefusal>)
    ensures r == Certify(tx, oracle, feed, nonce)
  {
    hide Base58.Decoded, ParseLegacy, InstructionRefusal;
    var o := Base58.DecodeLenient(oracle);
    if o.Err? {
      return Err(ValueError);
    }
    var f := Base58.DecodeLenient(feed);
    if f.Err? {
      return Err(ValueError);
    }
    var n: Option<Bytes> := None;
    if nonce != "" {
      var k := Base58.DecodeLenient(nonce);
      if k.Err? {
        return Err(ValueError);
      }
      n := Some(k.value);
    }
    if tx == [] {
      return Err(EmptyTransaction);
    }
    if tx[0] >= 128 {
      return Err(MultiByteSignatureCount);
    }
    var m := PublishParserRun.ParseLegacyMessage(MessageOf(tx));
    if m.Err? {
      return Err(Unreadable(m.error));
    }
    var refusal := InstructionRefusal(m.value.instructions, o.value, f.value, n);
    r := match refusal
      case Some(e) => Err(e)
      case None => Ok(());
  }

  // ---------------------------------------------------------------------------
  // The broadcaster
  // ---------------------------------------------------------------------------

  type Signature = s: Bytes | |s| == 64 witness seq(64, _ => 0)

  /** The session key's signing function. */
  type Signer = Bytes -> Signature

  datatype BroadcastRefusal =
    | NoNonce | NotCertified(cause: PublishRefusal) | TooFewSlots(slots: nat) | SlotTaken | DeviceMissing

  /** Signature slot `i`, clamped at the end of the transaction. */
  function Slot(tx: Bytes, i: nat): Bytes {
    Slice(tx, 1 + i * 64, 1 + (i + 1) * 64)
  }

  function Blank(): Signature {
    seq(64, _ => 0)
  }

  function Slots(tx: Bytes, i: nat, n: nat): Bytes
    decreases n - i
  {
    if i >= n then [] else Slot(tx, i) + Slots(tx, i + 1, n)
  }

  /** Certify, split, check the slots, sign slot 0, reassemble: the bytes sent, or the refusal. */
  function Broadcast(tx: Bytes, oracle: string, feed: string, nonce: string, sign: Signer)
    : Result<Bytes, BroadcastRefusal>
  {
    if nonce == "" then Err(NoNonce)
    else match Certify(tx, oracle, feed, nonce)
      case Err(e) => Err(NotCertified(e))
      case Ok(_) =>
        var n := tx[0] as nat;
        var msg := MessageOf(tx);
        if n < 2 then Err(TooFewSlots(n))
        else if Slot(tx, 0) != Blank() then Err(SlotTaken)
        else if Slot(tx, 1) == Blank() then Err(DeviceMissing)
        else Ok([tx[0]] + (sign(msg) + (Slots(tx, 1, n) + msg)))
  }

  /** A certified transaction holds its whole signature vector. */
  lemma CertifiedHoldsSlots(tx: Bytes, oracle: string, feed: string, nonce: string)
    requires Certify(tx, oracle, feed, nonce).Ok?
    ensures tx != [] && tx[0] < 128 && 1 + (tx[0] as nat) * 64 < |tx|
  {
    hide Base58.Decoded, Base58.Valid, InstructionRefusal;
    assert ParseLegacy([]).Err?;
    hide ParseLegacy;
    assert MessageOf(tx) != [];
  }

  lemma SlotsAreTheMiddle(tx: Bytes, i: nat, n: nat)
    requires i <= n && 1 + n * 64 <= |tx|
    ensures Slots(tx, i, n) == tx[1 + i * 64..1 + n * 64]
    decreases n - i
  {
    if i < n {
      SlotsAreTheMiddle(tx, i + 1, n);
      assert tx[1 + i * 64..1 + n * 64] == tx[1 + i * 64..1 + (i + 1) * 64] + tx[1 + (i + 1) * 64..1 + n * 64];
    }
  }

  /**
   * When the broadcaster reaches signing, what it signed is byte for byte the certified message, its output
   * differs from its input in signature slot 0 only, and certifying the output again gives the same verdict.
   */
  lemma SignsWhatWasCertified(tx: Bytes, oracle: string, feed: string, nonce: string, sign: Signer)
    requires Broadcast(tx, oracle, feed, nonce, sign).Ok?
    ensures Certify(tx, oracle, feed, nonce).Ok?
    ensures tx != [] && 2 <= tx[0] < 128 && 1 + (tx[0] as nat) * 64 < |tx|
    ensures var out := Broadcast(tx, oracle, feed, nonce, sign).value;
            && |out| == |tx|
            && out[0] == tx[0]
            && out[1..65] == sign(tx[1 + (tx[0] as nat) * 64..])
            && out[65..] == tx[65..]
            && (forall i :: 1 <= i < 65 ==> tx[i] == 0)
            && MessageOf(out) == MessageOf(tx)
            && Certify(out, oracle, feed, nonce) == Certify(tx, oracle, feed, nonce)
  {
    hide Base58.Decoded, Base58.Valid, InstructionRefusal, ParseLegacy;
    CertifiedHoldsSlots(tx, oracle, feed, nonce);
    var n := tx[0] as nat;
    var out, msg := Broadcast(tx, oracle, feed, nonce, sign).value, MessageOf(tx);
    SlotsAreTheMiddle(tx, 1, n);
    assert Slots(tx, 1, n) + msg == tx[65..];
    assert out == [tx[0]] + (sign(msg) + tx[65..]);
    OnlySlotZero(tx, sign(msg), out);
  }

  lemma OnlySlotZero(tx: Bytes, sig: Signature, out: Bytes)
    requires tx != [] && tx[0] >= 2 && 1 + (tx[0] as nat) * 64 < |tx| && out == [tx[0]] + (sig + tx[65..])
    ensures |out| == |tx| && out[0] == tx[0] && out[1..65] == sig && out[65..] == tx[65..]
    ensures MessageOf(out) == MessageOf(tx)
  {
    var i := 1 + (tx[0] as nat) * 64;
    assert out[65..][i - 65..] == out[i..] && tx[65..][i - 65..] == tx[i..];
  }

  /** It reaches signing exactly when the nonce is set, the bytes are certified, slot 0 is blank and slot 1 is not. */
  lemma ReachesSigning(tx: Bytes, oracle: string, feed: string, nonce: string, sign: Signer)
    ensures Broadcast(tx, oracle, feed, nonce, sign).Ok? <==>
              && nonce != ""
              && Certify(tx, oracle, feed, nonce).Ok?
              && tx[0] >= 2
              && (forall i :: 1 <= i < 65 ==> tx[i] == 0)
              && (exists i :: 65 <= i < 129 && tx[i] != 0)
  {
    hide Base58.Decoded, Base58.Valid, InstructionRefusal, ParseLegacy;
    if Certify(tx, oracle, feed, nonce).Ok? {
      CertifiedHoldsSlots(tx, oracle, feed, nonce);
      hide Certify;
      if tx[0] >= 2 {
        BlankExact(tx[1..65]);
        BlankExact(tx[65..129]);
        assert Slot(tx, 0) == tx[1..65] && Slot(tx, 1) == tx[65..129];
        assert (forall i :: 0 <= i < 64 ==> tx[1..65][i] == 0) <==> forall i :: 1 <= i < 65 ==> tx[i] == 0 by {
          assert forall i :: 1 <= i < 65 ==> tx[i] == tx[1..65][i - 1];
        }
        assert (forall i :: 0 <= i < 64 ==> tx[65..129][i] == 0) <==> forall i :: 65 <= i < 129 ==> tx[i] == 0 by {
          assert forall i :: 65 <= i < 129 ==> tx[i] == tx[65..129][i - 65];
        }
      }
    }
  }

  lemma BlankExact(slot: Bytes)
    requires |slot| == 64
    ensures slot == Blank() <==> forall i :: 0 <= i < 64 ==> slot[i] == 0
  {
  }
}
