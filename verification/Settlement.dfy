/** Deciding from one transaction response whether it is a payment the merchant received. */
module Settlement {
  import opened Prelude
  import Base58

  /** `amount` is None when it is missing or is not an integer. */
  datatype Balance = Balance(
    accountIndex: Option<int>, owner: Option<string>, mint: Option<string>, amount: Option<int>, decimals: Option<int>)

  datatype AccountKey = BareKey | DetailedKey(pubkey: string, signer: bool)

  datatype Response =
    | NotAnObject
    | Transaction(failed: bool, pre: seq<Balance>, post: seq<Balance>, keys: seq<AccountKey>,
                  slot: Option<int>, blockTime: Option<int>)

  datatype Record = Record(
    signature: string, slot: Option<int>, blockTime: Option<int>, amountRaw: int, decimals: int,
    tokenAccount: Option<int>, payer: Option<string>)

  /** A string shaped like a base58 transaction signature. */
  predicate IsSignature(s: string) {
    86 <= |s| <= 88 && Base58.Valid(s)
  }

  /** The raw balance before, zero when the account had none; of several entries for an index the last counts. */
  function PreAmount(pre: seq<Balance>, index: Option<int>): int
    decreases |pre|
  {
    if pre == [] then 0
    else
      var last := pre[|pre| - 1];
      if last.accountIndex == index then if last.amount.Some? then last.amount.value else 0
      else PreAmount(pre[..|pre| - 1], index)
  }

  predicate Concerns(bal: Balance, merchant: string, mint: string) {
    bal.owner == Some(merchant) && bal.mint == Some(mint)
  }

  /** The merchant's balance in the mint went up in this entry. */
  predicate Credited(tx: Response, post: Balance, merchant: string, mint: string)
    requires tx.Transaction?
  {
    && Concerns(post, merchant, mint)
    && post.amount.Some? && post.decimals.Some?
    && post.amount.value > PreAmount(tx.pre, post.accountIndex)
  }

  /** The first key marked as a signer. */
  function Payer(keys: seq<AccountKey>): Option<string> {
    if keys == [] then None
    else if keys[0].DetailedKey? && keys[0].signer then Some(keys[0].pubkey)
    else Payer(keys[1..])
  }

  function RecordOf(tx: Response, post: Balance, signature: string, merchant: string, mint: string): Record
    requires tx.Transaction? && Credited(tx, post, merchant, mint)
  {
    Record(signature, tx.slot, tx.blockTime, post.amount.value - PreAmount(tx.pre, post.accountIndex),
           post.decimals.value, post.accountIndex, Payer(tx.keys))
  }

  function FirstCredit(tx: Response, i: nat, signature: string, merchant: string, mint: string): Option<Record>
    requires tx.Transaction? && i <= |tx.post|
    decreases |tx.post| - i
  {
    if i == |tx.post| then None
    else if Credited(tx, tx.post[i], merchant, mint) then Some(RecordOf(tx, tx.post[i], signature, merchant, mint))
    else FirstCredit(tx, i + 1, signature, merchant, mint)
  }

  /** What `settlement_from_tx` returns. */
  function FromTransaction(tx: Response, signature: string, merchant: string, mint: string): Option<Record> {
    if tx.NotAnObject? || tx.failed then None else FirstCredit(tx, 0, signature, merchant, mint)
  }

  lemma {:induction false} FirstCreditExact(tx: Response, i: nat, signature: string, merchant: string, mint: string)
    requires tx.Transaction? && i <= |tx.post|
    ensures var r := FirstCredit(tx, i, signature, merchant, mint);
            && (r.Some? <==> exists k :: i <= k < |tx.post| && Credited(tx, tx.post[k], merchant, mint))
            && (r.Some? ==> r.value.signature == signature && r.value.amountRaw > 0)
    decreases |tx.post| - i
  {
    if i < |tx.post| {
      FirstCreditExact(tx, i + 1, signature, merchant, mint);
    }
  }

  /** A record is made exactly when the transaction succeeded and credited the merchant; its amount is positive. */
  lemma FromTransactionExact(tx: Response, signature: string, merchant: string, mint: string)
    ensures var r := FromTransaction(tx, signature, merchant, mint);
            && (r.Some? <==> (&& tx.Transaction? && !tx.failed
                              && exists k :: 0 <= k < |tx.post| && Credited(tx, tx.post[k], merchant, mint)))
            && (r.Some? ==> r.value.signature == signature && r.value.amountRaw > 0)
  {
    if tx.Transaction? {
      FirstCreditExact(tx, 0, signature, merchant, mint);
    }
  }

  // ---------------------------------------------------------------------------
  // The record, told by positions in the response
  // ---------------------------------------------------------------------------

  /** The last entry before the transaction with this account index has the amount, or there is none and it is 0. */
  predicate HeldBefore(pre: seq<Balance>, index: Option<int>, amount: int) {
    || (exists j :: 0 <= j < |pre| && pre[j].accountIndex == index
                    && (amount == if pre[j].amount.Some? then pre[j].amount.value else 0)
                    && forall i :: j < i < |pre| ==> pre[i].accountIndex != index)
    || ((forall i :: 0 <= i < |pre| ==> pre[i].accountIndex != index) && amount == 0)
  }

  /** Entry `k` is a readable balance of the merchant in the mint, and went from `before` to `before + rise`. */
  predicate Rises(tx: Response, k: nat, merchant: string, mint: string, before: int, rise: int)
    requires tx.Transaction?
  {
    && k < |tx.post|
    && tx.post[k].owner == Some(merchant) && tx.post[k].mint == Some(mint)
    && tx.post[k].amount == Some(before + rise) && tx.post[k].decimals.Some?
    && HeldBefore(tx.pre, tx.post[k].accountIndex, before)
  }

  /** Entry `k` is the first that went up, by `rise`. */
  ghost predicate FirstRise(tx: Response, k: nat, merchant: string, mint: string, rise: int)
    requires tx.Transaction?
  {
    && rise > 0 && (exists before: int :: Rises(tx, k, merchant, mint, before, rise))
    && forall j: nat, before: int, other: int :: j < k && Rises(tx, j, merchant, mint, before, other) ==> other <= 0
  }

  /** The first key marked as a signer, if any. */
  predicate PayerIs(keys: seq<AccountKey>, payer: Option<string>) {
    match payer
    case None => forall i :: 0 <= i < |keys| ==> !(keys[i].DetailedKey? && keys[i].signer)
    case Some(key) =>
      exists i :: 0 <= i < |keys| && keys[i] == DetailedKey(key, true)
                  && forall j :: 0 <= j < i ==> !(keys[j].DetailedKey? && keys[j].signer)
  }

  lemma {:induction false} PreAmountExact(pre: seq<Balance>, index: Option<int>, amount: int)
    ensures HeldBefore(pre, index, amount) <==> amount == PreAmount(pre, index)
    decreases |pre|
  {
    if pre != [] {
      var n := |pre| - 1;
      PreAmountExact(pre[..n], index, amount);
      assert forall i :: 0 <= i < n ==> pre[..n][i] == pre[i];
    }
  }

  lemma CreditedExact(tx: Response, k: nat, merchant: string, mint: string, before: int, rise: int)
    requires tx.Transaction?
    ensures Rises(tx, k, merchant, mint, before, rise) <==>
              && k < |tx.post| && Concerns(tx.post[k], merchant, mint)
              && tx.post[k].amount.Some? && tx.post[k].decimals.Some?
              && before == PreAmount(tx.pre, tx.post[k].accountIndex)
              && rise == tx.post[k].amount.value - before
  {
    hide HeldBefore, PreAmount;
    if k < |tx.post| {
      PreAmountExact(tx.pre, tx.post[k].accountIndex, before);
    }
  }

  lemma {:induction false} PayerExact(keys: seq<AccountKey>, payer: Option<string>)
    ensures PayerIs(keys, payer) <==> payer == Payer(keys)
  {
    if keys != [] {
      PayerExact(keys[1..], payer);
      assert forall i :: 1 <= i < |keys| ==> keys[i] == keys[1..][i - 1];
      if keys[0].DetailedKey? && keys[0].signer {
        PayerOfFirst(keys, payer);
      } else {
        PayerOfRest(keys, payer);
      }
    }
  }

  lemma PayerOfFirst(keys: seq<AccountKey>, payer: Option<string>)
    requires keys != [] && keys[0].DetailedKey? && keys[0].signer
    ensures PayerIs(keys, payer) <==> payer == Some(keys[0].pubkey)
  {
  }

  lemma PayerOfRest(keys: seq<AccountKey>, payer: Option<string>)
    requires keys != [] && !(keys[0].DetailedKey? && keys[0].signer)
    ensures PayerIs(keys, payer) <==> PayerIs(keys[1..], payer)
  {
    if PayerIs(keys, payer) && payer.Some? {
      var i :| 0 <= i < |keys| && keys[i] == DetailedKey(payer.value, true)
               && forall j :: 0 <= j < i ==> !(keys[j].DetailedKey? && keys[j].signer);
      assert keys[1..][i - 1] == keys[i];
    }
    if PayerIs(keys[1..], payer) && payer.Some? {
      var i :| 0 <= i < |keys| - 1 && keys[1..][i] == DetailedKey(payer.value, true)
               && forall j :: 0 <= j < i ==> !(keys[1..][j].DetailedKey? && keys[1..][j].signer);
      assert keys[i + 1] == keys[1..][i];
      assert forall j :: 1 <= j < i + 1 ==> keys[j] == keys[1..][j - 1];
    }
  }

  /** The record says what the response says. */
  ghost predicate IsRecordOf(tx: Response, signature: string, merchant: string, mint: string, k: nat, r: Record)
    requires tx.Transaction?
  {
    && FirstRise(tx, k, merchant, mint, r.amountRaw)
    && r.signature == signature && r.slot == tx.slot && r.blockTime == tx.blockTime
    && k < |tx.post| && Some(r.decimals) == tx.post[k].decimals && r.tokenAccount == tx.post[k].accountIndex
    && PayerIs(tx.keys, r.payer)
  }

  lemma {:induction false} FirstCreditAt(tx: Response, i: nat, signature: string, merchant: string, mint: string)
    returns (k: nat)
    requires tx.Transaction? && i <= |tx.post|
    ensures var r := FirstCredit(tx, i, signature, merchant, mint);
            && (r.Some? ==> i <= k < |tx.post| && Credited(tx, tx.post[k], merchant, mint)
                            && r == Some(RecordOf(tx, tx.post[k], signature, merchant, mint)))
            && (r.None? ==> k == |tx.post|)
            && forall j :: i <= j < k ==> !Credited(tx, tx.post[j], merchant, mint)
    decreases |tx.post| - i
  {
    hide Credited, Payer, PreAmount;
    if i == |tx.post| || Credited(tx, tx.post[i], merchant, mint) {
      k := i;
    } else {
      k := FirstCreditAt(tx, i + 1, signature, merchant, mint);
    }
  }

  lemma CreditedRises(tx: Response, j: nat, merchant: string, mint: string)
    requires tx.Transaction? && j < |tx.post|
    ensures Credited(tx, tx.post[j], merchant, mint) ==>
              exists before: int, rise: int :: rise > 0 && Rises(tx, j, merchant, mint, before, rise)
  {
    if Credited(tx, tx.post[j], merchant, mint) {
      var before := PreAmount(tx.pre, tx.post[j].accountIndex);
      CreditedExact(tx, j, merchant, mint, before, tx.post[j].amount.value - before);
    }
  }

  lemma FirstRiseExact(tx: Response, k: nat, merchant: string, mint: string, rise: int)
    requires tx.Transaction?
    ensures FirstRise(tx, k, merchant, mint, rise) <==>
              && k < |tx.post| && Credited(tx, tx.post[k], merchant, mint)
              && rise == tx.post[k].amount.value - PreAmount(tx.pre, tx.post[k].accountIndex)
              && forall j: nat :: j < k ==> !Credited(tx, tx.post[j], merchant, mint)
  {
    hide Rises, PreAmount, Concerns;
    forall j: nat, before: int, other: int {
      CreditedExact(tx, j, merchant, mint, before, other);
    }
    forall j: nat | j < |tx.post| {
      CreditedRises(tx, j, merchant, mint);
    }
    if k < |tx.post| && Credited(tx, tx.post[k], merchant, mint)
       && rise == tx.post[k].amount.value - PreAmount(tx.pre, tx.post[k].accountIndex) {
      assert Rises(tx, k, merchant, mint, PreAmount(tx.pre, tx.post[k].accountIndex), rise);
    }
  }

  /**
   * A record is made exactly when the transaction succeeded and some balance of the merchant in the mint went up: of
   * the first that did, by exactly what it went up, with the slot, time, decimals, account and payer the response has.
   */
  lemma RecordExact(tx: Response, signature: string, merchant: string, mint: string, r: Record)
    ensures FromTransaction(tx, signature, merchant, mint) == Some(r) <==>
              tx.Transaction? && !tx.failed && exists k: nat :: IsRecordOf(tx, signature, merchant, mint, k, r)
  {
    hide FirstRise, PayerIs, Payer, PreAmount, FirstCredit;
    if tx.Transaction? && !tx.failed {
      var made := FromTransaction(tx, signature, merchant, mint);
      var first := FirstCreditAt(tx, 0, signature, merchant, mint);
      PayerExact(tx.keys, r.payer);
      forall k: nat {
        FirstRiseExact(tx, k, merchant, mint, r.amountRaw);
      }
      if made == Some(r) {
        assert IsRecordOf(tx, signature, merchant, mint, first, r);
      }
      if k: nat :| IsRecordOf(tx, signature, merchant, mint, k, r) {
        assert k == first;
      }
    }
  }

  method FindPayer(keys: seq<AccountKey>) returns (payer: Option<string>)
    ensures payer == Payer(keys)
  {
    for k := 0 to |keys|
      invariant Payer(keys[k..]) == Payer(keys)
    {
      assert keys[k..][1..] == keys[k + 1..];
      if keys[k].DetailedKey? && keys[k].signer {
        return Some(keys[k].pubkey);
      }
    }
    payer := None;
  }

  method IndexPre(pre: seq<Balance>) returns (byIndex: map<Option<int>, Balance>)
    ensures forall index :: PreAmount(pre, index) == AmountIn(byIndex, index)
  {
    byIndex := map[];
    for k := 0 to |pre|
      invariant forall index :: PreAmount(pre[..k], index) == AmountIn(byIndex, index)
    {
      assert pre[..k + 1][..k] == pre[..k];
      byIndex := byIndex[pre[k].accountIndex := pre[k]];
    }
    assert pre[..|pre|] == pre;
  }

  function AmountIn(byIndex: map<Option<int>, Balance>, index: Option<int>): int {
    if index in byIndex && byIndex[index].amount.Some? then byIndex[index].amount.value else 0
  }

  method SettlementFromTx(tx: Response, signature: string, merchant: string, mint: string) returns (r: Option<Record>)
    ensures r == FromTransaction(tx, signature, merchant, mint)
  {
    if tx.NotAnObject? || tx.failed {
      return None;
    }
    var preByIndex := IndexPre(tx.pre);
    for i := 0 to |tx.post|
      invariant FirstCredit(tx, i, signature, merchant, mint) == FirstCredit(tx, 0, signature, merchant, mint)
    {
      var post := tx.post[i];
      if !Concerns(post, merchant, mint) || post.amount.None? || post.decimals.None? {
        continue;
      }
      assert PreAmount(tx.pre, post.accountIndex) == AmountIn(preByIndex, post.accountIndex);
      var delta := post.amount.value - AmountIn(preByIndex, post.accountIndex);
      if delta <= 0 {
        continue;
      }
      var payer := FindPayer(tx.keys);
      return Some(Record(signature, tx.slot, tx.blockTime, delta, post.decimals.value, post.accountIndex, payer));
    }
    r := None;
  }
}
