/** `certify_x402_payment_tx` as it runs: its loops over the instructions and its fee state. */
module CertifierRun {
  import opened Prelude
  import opened Message
  import opened Certifier
  import Address
  import Base58
  import MessageParser
  import Programs

  method CheckInstructions(policy: Policy, ixs: seq<Instruction>) returns (r: Result<Budget, Refusal>)
    ensures r == CheckAll(policy, ixs, Budget(DefaultLimit(|ixs|), 0))
  {
    hide CheckInstruction, DefaultLimit;
    var cb := Budget(DefaultLimit(|ixs|), 0);
    for k := 0 to |ixs|
      invariant CheckAll(policy, ixs[k..], cb) == CheckAll(policy, ixs, Budget(DefaultLimit(|ixs|), 0))
    {
      assert ixs[k..][1..] == ixs[k + 1..];
      cb :- CheckOne(policy, ixs[k], cb);
    }
    r := Ok(cb);
  }

  method CheckOne(policy: Policy, ix: Instruction, before: Budget) returns (r: Result<Budget, Refusal>)
    ensures r == CheckInstruction(policy, ix, before)
  {
    hide Programs.KindOf, LittleEndian;
    var cb := before;
    match Kind(ix) {
    case IsAllowance =>
    case IsSystem =>
      if SystemRefusal(policy, ix).Some? {
        return Err(SystemRefusal(policy, ix).value);
      }
    case IsComputeBudget =>
      if ix.data == [] {
        return Err(EmptyBudgetInstruction);
      }
      if ix.data[0] == CB_SET_UNIT_LIMIT && |ix.data| == 5 {
        cb := cb.(limit := LittleEndian(ix.data[1..5]));
        assert ix.data[1..5] == ix.data[1..];
      } else if ix.data[0] == CB_SET_UNIT_PRICE && |ix.data| == 9 {
        cb := cb.(price := LittleEndian(ix.data[1..9]));
        assert ix.data[1..9] == ix.data[1..];
      } else {
        return Err(UnknownBudgetInstruction);
      }
      var fee := cb.Fee();
      if fee > policy.maxPriority {
        return Err(FeeOverCeiling(fee));
      }
    case IsAta =>
      if AtaRefusal(policy, ix).Some? {
        return Err(AtaRefusal(policy, ix).value);
      }
    case IsMemo =>
    case IsOther =>
      return Err(UnexpectedProgram(ix.program));
    }
    r := Ok(cb);
  }

  method Select(ixs: seq<Instruction>, kind: Programs.Kind) returns (out: seq<Instruction>)
    ensures out == Invoking(ixs, kind)
  {
    hide Kind;
    out := [];
    for k := 0 to |ixs|
      invariant out + Invoking(ixs[k..], kind) == Invoking(ixs, kind)
    {
      assert ixs[k..][1..] == ixs[k + 1..];
      if Kind(ixs[k]) == kind {
        out := out + [ixs[k]];
      }
    }
  }

  method CheckAuthority(ixs: seq<Instruction>, delegatee: Key) returns (refusal: Option<Refusal>)
    ensures refusal == AuthorityRefusal(ixs, delegatee)
  {
    hide Kind;
    for k := 0 to |ixs|
      invariant AuthorityRefusal(ixs[k..], delegatee) == AuthorityRefusal(ixs, delegatee)
    {
      assert ixs[k..][1..] == ixs[k + 1..];
      if Kind(ixs[k]) != Programs.IsSystem {
        continue;
      }
      if |ixs[k].accounts| < 3 {
        return Some(AdvanceTooShort);
      }
      if ixs[k].accounts[2] != delegatee {
        return Some(WrongAuthority);
      }
    }
    refusal := None;
  }

  method CheckSpend(sha: Address.Hash, policy: Policy, ixs: seq<Instruction>, spend: Instruction)
      returns (refusal: Option<Refusal>)
    requires Readable(spend)
    ensures refusal == SpendRefusal(sha, policy, ixs, spend)
  {
    hide TargetRefusal, DebitRefusal, WritableRefusal, AuthorityRefusal, Amount, Invoking;
    refusal := TargetRefusal(policy, spend);
    if refusal.Some? {
      return;
    }
    refusal := DebitRefusal(sha, policy, spend);
    if refusal.Some? {
      return;
    }
    if !spend.signer[A_DELEGATEE] {
      return Some(DelegateeNotSigner);
    }
    refusal := CheckAuthority(ixs, spend.accounts[A_DELEGATEE]);
    if refusal.Some? {
      return;
    }
    refusal := WritableRefusal(spend);
    if refusal.Some? {
      return;
    }
    if policy.maxAmount.Some? && Amount(spend) > policy.maxAmount.value {
      return Some(AmountOverCeiling(Amount(spend)));
    }
    var advances := Select(ixs, Programs.IsSystem);
    if policy.nonce.Some? && advances == [] {
      return Some(MissingAdvance);
    }
    if |advances| > 1 {
      return Some(ManyAdvances(|advances|));
    }
    var memos := Select(ixs, Programs.IsMemo);
    if policy.memo.None? {
      return if memos != [] then Some(UnexpectedMemo) else None;
    }
    if memos == [] {
      return Some(MissingMemo);
    }
    if |memos| != 1 {
      return Some(ManyMemos(|memos|));
    }
    refusal := if memos[0].data != policy.memo.value then Some(WrongMemo) else None;
  }

  method CertifyTransaction(sha: Address.Hash, cfg: Config, tx: Bytes) returns (r: Result<Verdict, Refusal>)
    ensures r == Certify(sha, cfg, tx)
  {
    hide Setup, Parse, CheckAll, Invoking, FormRefusal, SpendRefusal, Amount, Base58.Encode;
    var policy :- Setup(sha, cfg);
    var msg := MessageOf(tx);
    if msg.Err? {
      return Err(Unparsable(msg.error));
    }
    var parsed := MessageParser.ParseMessage(msg.value);
    if parsed.Err? {
      return Err(Unparsable(parsed.error));
    }
    ParsedIsShaped(msg.value);
    var ixs := parsed.value.instructions;
    if ixs == [] {
      return Err(NoInstructions);
    }
    var cb :- CheckInstructions(policy, ixs);
    var spends := Select(ixs, Programs.IsAllowance);
    if |spends| != 1 {
      return Err(SpendCount(|spends|));
    }
    var spend := spends[0];
    InvokingKeepsShape(ixs, Programs.IsAllowance);
    var form := FormRefusal(spend);
    if form.Some? {
      return Err(form.value);
    }
    assert Readable(spend) by {
      ReadableByForm(spend);
    }
    var refusal := CheckSpend(sha, policy, ixs, spend);
    if refusal.Some? {
      return Err(refusal.value);
    }
    var receiver := Base58.EncodeByDivision(policy.wantAta);
    r := Ok(Verdict(|ixs|, Amount(spend), receiver, cfg.delegation, cfg.mint, cb.Fee()));
  }
}
