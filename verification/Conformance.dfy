/** Exactly which transactions are certified, said about the instruction list as a whole. */
module Conformance {
  import opened Prelude
  import opened Message
  import opened Certifier
  import Address
  import Base58
  import Programs

  // ---------------------------------------------------------------------------
  // The declarative statement
  // ---------------------------------------------------------------------------

  /** Exactly the instruction at `s` invokes the program of this role. */
  predicate OnlyAt(ixs: seq<Instruction>, kind: Programs.Kind, s: int) {
    forall k :: 0 <= k < |ixs| ==> (Kind(ixs[k]) == kind <==> k == s)
  }

  /** The one payment: transferFixed with its accounts, flags and payload pinned, within the local ceiling. */
  predicate PinnedSpend(sha: Address.Hash, policy: Policy, ix: Instruction) {
    && Readable(ix)
    && ix.data[0] == IX_TRANSFER_FIXED
    && ix.accounts[A_RECEIVER_ATA] == policy.wantAta
    && ix.accounts[A_DELEGATION] == policy.delegation
    && ix.accounts[A_TOKEN_MINT] == policy.mint
    && ix.accounts[A_TOKEN_PROGRAM] == policy.tokenProgram
    && ix.accounts[A_SUBSCRIPTIONS_PROGRAM] == Programs.Allowance()
    && ix.data[41..73] == policy.mint
    && (policy.delegator.Some? ==>
          && ix.data[9..41] == policy.delegator.value
          && Address.DeriveAta(sha, policy.delegator.value, policy.mint, policy.tokenProgram)
               == Some(ix.accounts[A_DELEGATOR_ATA]))
    && ix.signer[A_DELEGATEE]
    && ix.writable[A_DELEGATION] && ix.writable[A_DELEGATOR_ATA] && ix.writable[A_RECEIVER_ATA]
    && (policy.maxAmount.Some? ==> Amount(ix) <= policy.maxAmount.value)
  }

  /** An advance of the configured nonce authorised by the delegatee. */
  predicate PinnedAdvance(nonce: Key, delegatee: Key, ix: Instruction) {
    ix.data == AdvanceNonceTag() && |ix.accounts| >= 3 && ix.accounts[0] == nonce && ix.accounts[2] == delegatee
  }

  predicate PinnedAta(policy: Policy, ix: Instruction) {
    && ix.data != [] && ix.data[0] == IX_CREATE_IDEMPOTENT
    && |ix.accounts| >= 4 && ix.accounts[1] == policy.wantAta && ix.accounts[3] == policy.mint
  }

  predicate Permitted(policy: Policy, ix: Instruction) {
    match Kind(ix)
    case IsAllowance => true
    case IsSystem => true
    case IsMemo => true
    case IsComputeBudget => SetsLimit(ix) || SetsPrice(ix)
    case IsAta => PinnedAta(policy, ix)
    case IsOther => false
  }

  predicate AllPermitted(policy: Policy, ixs: seq<Instruction>) {
    forall k :: 0 <= k < |ixs| ==> Permitted(policy, ixs[k])
  }

  /** The value the last of the first `n` instructions that `sets` gave; None if none did. */
  function LastSet(ixs: seq<Instruction>, n: nat, limit: bool): Option<nat>
    requires n <= |ixs|
  {
    if n == 0 then None
    else if (if limit then SetsLimit(ixs[n - 1]) else SetsPrice(ixs[n - 1])) then
      Some(LittleEndian(ixs[n - 1].data[1..]))
    else LastSet(ixs, n - 1, limit)
  }

  function Or(v: Option<nat>, default: nat): nat {
    if v.Some? then v.value else default
  }

  /** The limit and price in force after the first `n` instructions. */
  function BudgetAfter(ixs: seq<Instruction>, n: nat): Budget
    requires n <= |ixs|
  {
    Budget(Or(LastSet(ixs, n, true), DefaultLimit(|ixs|)), Or(LastSet(ixs, n, false), 0))
  }

  /** The fee never passes the ceiling at any point where it is set. */
  predicate FeeBounded(ixs: seq<Instruction>, ceiling: int) {
    forall k :: 0 <= k < |ixs| && Kind(ixs[k]).IsComputeBudget? ==> BudgetAfter(ixs, k + 1).Fee() <= ceiling
  }

  predicate NonceConforms(policy: Policy, ixs: seq<Instruction>, delegatee: Key, a: int) {
    match policy.nonce
    case None => OnlyAt(ixs, Programs.IsSystem, -1)
    case Some(nonce) => 0 <= a < |ixs| && OnlyAt(ixs, Programs.IsSystem, a) && PinnedAdvance(nonce, delegatee, ixs[a])
  }

  predicate MemoConforms(policy: Policy, ixs: seq<Instruction>, m: int) {
    match policy.memo
    case None => OnlyAt(ixs, Programs.IsMemo, -1)
    case Some(expected) => 0 <= m < |ixs| && OnlyAt(ixs, Programs.IsMemo, m) && ixs[m].data == expected
  }

  /** The instruction list is the configured payment, made at `s`, with its nonce advance at `a` and memo at `m`. */
  predicate Conforms(sha: Address.Hash, policy: Policy, ixs: seq<Instruction>, s: nat, a: int, m: int) {
    && s < |ixs|
    && OnlyAt(ixs, Programs.IsAllowance, s)
    && PinnedSpend(sha, policy, ixs[s])
    && NonceConforms(policy, ixs, ixs[s].accounts[A_DELEGATEE], a)
    && MemoConforms(policy, ixs, m)
    && AllPermitted(policy, ixs)
    && FeeBounded(ixs, policy.maxPriority)
  }

  // ---------------------------------------------------------------------------
  // The fee state
  // ---------------------------------------------------------------------------

  predicate Passes(policy: Policy, ixs: seq<Instruction>, k: nat)
    requires k < |ixs|
  {
    && Permitted(policy, ixs[k])
    && (Kind(ixs[k]).IsSystem? ==> SystemRefusal(policy, ixs[k]).None?)
    && (Kind(ixs[k]).IsComputeBudget? ==> BudgetAfter(ixs, k + 1).Fee() <= policy.maxPriority)
  }

  lemma CheckStep(policy: Policy, ixs: seq<Instruction>, k: nat)
    requires k < |ixs|
    ensures var next := CheckInstruction(policy, ixs[k], BudgetAfter(ixs, k));
            && (next.Ok? <==> Passes(policy, ixs, k))
            && (next.Ok? ==> next.value == BudgetAfter(ixs, k + 1))
  {
    hide LittleEndian, Programs.KindOf;
  }

  lemma {:induction false} CheckAllExact(policy: Policy, ixs: seq<Instruction>, n: nat)
    requires n <= |ixs|
    ensures var r := CheckAll(policy, ixs[n..], BudgetAfter(ixs, n));
            && (r.Ok? <==> forall k :: n <= k < |ixs| ==> Passes(policy, ixs, k))
            && (r.Ok? ==> r.value == BudgetAfter(ixs, |ixs|))
    decreases |ixs| - n
  {
    hide CheckInstruction, BudgetAfter, Passes;
    if n < |ixs| {
      CheckStep(policy, ixs, n);
      CheckAllExact(policy, ixs, n + 1);
      assert ixs[n..][1..] == ixs[n + 1..];
    }
  }

  // ---------------------------------------------------------------------------
  // Counting instructions of one role
  // ---------------------------------------------------------------------------

  lemma {:induction false} InvokingNone(ixs: seq<Instruction>, kind: Programs.Kind)
    ensures Invoking(ixs, kind) == [] <==> OnlyAt(ixs, kind, -1)
    decreases |ixs|
  {
    hide Kind;
    if ixs != [] {
      InvokingNone(ixs[1..], kind);
      assert forall k :: 0 <= k < |ixs| - 1 ==> ixs[1..][k] == ixs[k + 1];
      assert OnlyAt(ixs, kind, -1) ==> Kind(ixs[0]) != kind;
      if OnlyAt(ixs, kind, -1) {
        assert OnlyAt(ixs[1..], kind, -1);
      }
    }
  }

  lemma {:induction false} InvokingAt(ixs: seq<Instruction>, kind: Programs.Kind, s: nat)
    requires s < |ixs| && OnlyAt(ixs, kind, s)
    ensures Invoking(ixs, kind) == [ixs[s]]
    decreases |ixs|
  {
    hide Kind;
    if s == 0 {
      InvokingNone(ixs[1..], kind);
      assert OnlyAt(ixs[1..], kind, -1);
    } else {
      assert OnlyAt(ixs[1..], kind, s - 1);
      InvokingAt(ixs[1..], kind, s - 1);
    }
  }

  lemma {:induction false} InvokingOne(ixs: seq<Instruction>, kind: Programs.Kind) returns (s: nat)
    requires |Invoking(ixs, kind)| == 1
    ensures s < |ixs| && OnlyAt(ixs, kind, s) && Invoking(ixs, kind) == [ixs[s]]
    decreases |ixs|
  {
    hide Kind;
    if Kind(ixs[0]) == kind {
      InvokingNone(ixs[1..], kind);
      assert OnlyAt(ixs[1..], kind, -1);
      s := 0;
      assert forall k :: 1 <= k < |ixs| ==> ixs[k] == ixs[1..][k - 1];
    } else {
      var t := InvokingOne(ixs[1..], kind);
      s := t + 1;
      assert forall k :: 1 <= k < |ixs| ==> ixs[k] == ixs[1..][k - 1];
    }
  }

  predicate AllAuthorised(ixs: seq<Instruction>, delegatee: Key) {
    forall k :: 0 <= k < |ixs| && Kind(ixs[k]).IsSystem? ==>
      |ixs[k].accounts| >= 3 && ixs[k].accounts[2] == delegatee
  }

  lemma AuthorityExact(ixs: seq<Instruction>, delegatee: Key)
    ensures AuthorityRefusal(ixs, delegatee).None? <==> AllAuthorised(ixs, delegatee)
  {
    hide Kind;
    if ixs != [] {
      AuthorityExact(ixs[1..], delegatee);
      assert forall k :: 1 <= k < |ixs| ==> ixs[k] == ixs[1..][k - 1];
      if AllAuthorised(ixs, delegatee) {
        assert AllAuthorised(ixs[1..], delegatee);
      }
    }
  }

  // ---------------------------------------------------------------------------
  // The decision is the statement
  // ---------------------------------------------------------------------------

  /** What is checked of the spend on its own. */
  predicate SpendOnItsOwn(sha: Address.Hash, policy: Policy, spend: Instruction)
    requires Readable(spend)
  {
    && TargetRefusal(policy, spend).None?
    && DebitRefusal(sha, policy, spend).None?
    && spend.signer[A_DELEGATEE]
    && WritableRefusal(spend).None?
    && (policy.maxAmount.Some? ==> Amount(spend) <= policy.maxAmount.value)
  }

  lemma FormExact(spend: Instruction)
    requires Shaped(spend)
    ensures FormRefusal(spend).None? <==> Readable(spend) && spend.data[0] == IX_TRANSFER_FIXED
  {
  }

  lemma TargetExact(policy: Policy, spend: Instruction)
    requires Readable(spend)
    ensures TargetRefusal(policy, spend).None? <==>
              && spend.accounts[A_RECEIVER_ATA] == policy.wantAta
              && spend.accounts[A_DELEGATION] == policy.delegation
              && spend.accounts[A_TOKEN_MINT] == policy.mint
              && spend.accounts[A_TOKEN_PROGRAM] == policy.tokenProgram
              && spend.accounts[A_SUBSCRIPTIONS_PROGRAM] == Programs.Allowance()
              && spend.data[41..73] == policy.mint
  {
    hide Programs.Allowance;
  }

  lemma DebitExact(sha: Address.Hash, policy: Policy, spend: Instruction)
    requires Readable(spend)
    ensures DebitRefusal(sha, policy, spend).None? <==>
              (policy.delegator.Some? ==>
                 && spend.data[9..41] == policy.delegator.value
                 && Address.DeriveAta(sha, policy.delegator.value, policy.mint, policy.tokenProgram)
                      == Some(spend.accounts[A_DELEGATOR_ATA]))
  {
    hide Address.DeriveAta;
  }

  lemma PinnedSpendExact(sha: Address.Hash, policy: Policy, spend: Instruction)
    requires Shaped(spend)
    ensures PinnedSpend(sha, policy, spend) <==>
              FormRefusal(spend).None? && SpendOnItsOwn(sha, policy, spend)
  {
    FormExact(spend);
    if Readable(spend) {
      TargetExact(policy, spend);
      DebitExact(sha, policy, spend);
    }
    hide Amount, Address.DeriveAta, Programs.Allowance, FormRefusal, TargetRefusal, DebitRefusal;
  }

  lemma SpendRefusalExact(sha: Address.Hash, policy: Policy, ixs: seq<Instruction>, spend: Instruction)
    requires Readable(spend)
    ensures SpendRefusal(sha, policy, ixs, spend).None? <==>
              && SpendOnItsOwn(sha, policy, spend)
              && AllAuthorised(ixs, spend.accounts[A_DELEGATEE])
              && CompanyRefusal(policy, ixs).None?
  {
    hide TargetRefusal, DebitRefusal, WritableRefusal, AuthorityRefusal, AllAuthorised, Amount, CompanyRefusal, Kind,
      Invoking;
    AuthorityExact(ixs, spend.accounts[A_DELEGATEE]);
  }

  /** Every System instruction passes its own check. */
  predicate AdvancesPass(policy: Policy, ixs: seq<Instruction>) {
    forall k :: 0 <= k < |ixs| && Kind(ixs[k]).IsSystem? ==> SystemRefusal(policy, ixs[k]).None?
  }

  lemma AcceptedNonce(policy: Policy, ixs: seq<Instruction>, delegatee: Key) returns (a: int)
    requires AdvancesPass(policy, ixs) && AllAuthorised(ixs, delegatee) && CompanyRefusal(policy, ixs).None?
    ensures NonceConforms(policy, ixs, delegatee, a)
  {
    hide Kind;
    if policy.nonce.None? {
      a := -1;
    } else {
      a := InvokingOne(ixs, Programs.IsSystem);
    }
  }

  lemma AcceptedMemo(policy: Policy, ixs: seq<Instruction>) returns (m: int)
    requires CompanyRefusal(policy, ixs).None?
    ensures MemoConforms(policy, ixs, m)
  {
    hide Kind;
    if policy.memo.None? {
      InvokingNone(ixs, Programs.IsMemo);
      m := -1;
    } else {
      m := InvokingOne(ixs, Programs.IsMemo);
    }
  }

  lemma ConformingCompany(policy: Policy, ixs: seq<Instruction>, delegatee: Key, a: int, m: int)
    requires NonceConforms(policy, ixs, delegatee, a) && MemoConforms(policy, ixs, m)
    ensures AdvancesPass(policy, ixs) && AllAuthorised(ixs, delegatee) && CompanyRefusal(policy, ixs).None?
  {
    hide Kind;
    if policy.nonce.None? {
      InvokingNone(ixs, Programs.IsSystem);
    } else {
      InvokingAt(ixs, Programs.IsSystem, a);
    }
    if policy.memo.None? {
      InvokingNone(ixs, Programs.IsMemo);
    } else {
      InvokingAt(ixs, Programs.IsMemo, m);
    }
  }

  predicate AllPass(policy: Policy, ixs: seq<Instruction>) {
    forall k :: 0 <= k < |ixs| ==> Passes(policy, ixs, k)
  }

  lemma AllPassExact(policy: Policy, ixs: seq<Instruction>)
    ensures AllPass(policy, ixs) <==>
              AllPermitted(policy, ixs) && AdvancesPass(policy, ixs) && FeeBounded(ixs, policy.maxPriority)
  {
    hide Kind, Permitted, SystemRefusal, BudgetAfter;
    if AllPass(policy, ixs) {
      forall k | 0 <= k < |ixs|
        ensures Permitted(policy, ixs[k])
        ensures Kind(ixs[k]).IsSystem? ==> SystemRefusal(policy, ixs[k]).None?
        ensures Kind(ixs[k]).IsComputeBudget? ==> BudgetAfter(ixs, k + 1).Fee() <= policy.maxPriority
      {
        assert Passes(policy, ixs, k);
      }
    }
  }

  /** What accepting says about the parts of the decision. */
  lemma JudgeParts(sha: Address.Hash, policy: Policy, ixs: seq<Instruction>, s: nat)
    requires AllShaped(ixs)
    requires s < |ixs| && Invoking(ixs, Programs.IsAllowance) == [ixs[s]]
    ensures Judge(sha, policy, ixs).Ok? <==>
              && CheckAll(policy, ixs, BudgetAfter(ixs, 0)).Ok?
              && FormRefusal(ixs[s]).None?
              && Readable(ixs[s])
              && SpendRefusal(sha, policy, ixs, ixs[s]).None?
    ensures Judge(sha, policy, ixs).Ok? ==>
      Judge(sha, policy, ixs) == Ok((Amount(ixs[s]), CheckAll(policy, ixs, BudgetAfter(ixs, 0)).value.Fee()))
  {
    assert BudgetAfter(ixs, 0) == Budget(DefaultLimit(|ixs|), 0);
    if FormRefusal(ixs[s]).None? {
      ReadableByForm(ixs[s]);
    }
    hide CheckAll, BudgetAfter, Kind, FormRefusal, SpendRefusal, Amount, Shaped;
  }

  /** Accepting means the list conforms. */
  lemma AcceptedConforms(sha: Address.Hash, policy: Policy, ixs: seq<Instruction>) returns (s: nat, a: int, m: int)
    requires AllShaped(ixs) && Judge(sha, policy, ixs).Ok?
    ensures Conforms(sha, policy, ixs, s, a, m)
  {
    hide CheckAll, BudgetAfter, Kind, FormRefusal, SpendRefusal, SystemRefusal, PinnedSpend, CompanyRefusal, Passes,
      AdvancesPass, AllPermitted, FeeBounded, AllAuthorised, NonceConforms, MemoConforms;
    s := InvokingOne(ixs, Programs.IsAllowance);
    JudgeParts(sha, policy, ixs, s);
    hide Judge;
    CheckAllExact(policy, ixs, 0);
    assert ixs[0..] == ixs;
    var spend := ixs[s];
    PinnedSpendExact(sha, policy, spend);
    SpendRefusalExact(sha, policy, ixs, spend);
    AllPassExact(policy, ixs);
    a := AcceptedNonce(policy, ixs, spend.accounts[A_DELEGATEE]);
    m := AcceptedMemo(policy, ixs);
  }

  /** A conforming list is accepted, with the amount of its spend and the fee last in force. */
  lemma ConformsAccepted(sha: Address.Hash, policy: Policy, ixs: seq<Instruction>, s: nat, a: int, m: int)
    requires AllShaped(ixs) && Conforms(sha, policy, ixs, s, a, m)
    ensures Judge(sha, policy, ixs) == Ok((Amount(ixs[s]), BudgetAfter(ixs, |ixs|).Fee()))
  {
    hide CheckAll, BudgetAfter, Kind, FormRefusal, SpendRefusal, SystemRefusal, PinnedSpend, Amount,
      CompanyRefusal, Judge, Passes, AdvancesPass, FeeBounded, AllAuthorised, NonceConforms, MemoConforms;
    var spend := ixs[s];
    PinnedSpendExact(sha, policy, spend);
    ReadableByForm(spend);
    ConformingCompany(policy, ixs, spend.accounts[A_DELEGATEE], a, m);
    SpendRefusalExact(sha, policy, ixs, spend);
    AllPassExact(policy, ixs);
    CheckAllExact(policy, ixs, 0);
    assert ixs[0..] == ixs;
    InvokingAt(ixs, Programs.IsAllowance, s);
    JudgeParts(sha, policy, ixs, s);
  }

  ghost predicate SomeConforms(sha: Address.Hash, policy: Policy, ixs: seq<Instruction>) {
    exists s: nat, a: int, m: int :: Conforms(sha, policy, ixs, s, a, m)
  }

  lemma JudgeExact(sha: Address.Hash, policy: Policy, ixs: seq<Instruction>)
    requires AllShaped(ixs)
    ensures Judge(sha, policy, ixs).Ok? <==> SomeConforms(sha, policy, ixs)
  {
    hide Judge, Conforms, Amount, BudgetAfter;
    if Judge(sha, policy, ixs).Ok? {
      var s, a, m := AcceptedConforms(sha, policy, ixs);
    }
    if SomeConforms(sha, policy, ixs) {
      var s: nat, a: int, m: int :| Conforms(sha, policy, ixs, s, a, m);
      ConformsAccepted(sha, policy, ixs, s, a, m);
    }
  }

  /**
   * A transaction is certified exactly when the configuration is complete, the bytes parse, and the instructions
   * are the configured payment and nothing else.
   */
  lemma CertifyExact(sha: Address.Hash, cfg: Config, tx: Bytes)
    ensures Certify(sha, cfg, tx).Ok? <==>
              && Setup(sha, cfg).Ok?
              && Instructions(tx).Ok?
              && SomeConforms(sha, Setup(sha, cfg).value, Instructions(tx).value)
  {
    hide Setup, Judge, SomeConforms, Base58.Encode;
    if Setup(sha, cfg).Ok? && Instructions(tx).Ok? {
      JudgeExact(sha, Setup(sha, cfg).value, Instructions(tx).value);
    }
  }

  /** The verdict reports the amount of the one spend and the fee for the last limit and price set. */
  lemma CertifyReports(sha: Address.Hash, cfg: Config, tx: Bytes, s: nat, a: int, m: int)
    requires Setup(sha, cfg).Ok? && Instructions(tx).Ok?
    requires Conforms(sha, Setup(sha, cfg).value, Instructions(tx).value, s, a, m)
    ensures var policy, ixs := Setup(sha, cfg).value, Instructions(tx).value;
            Certify(sha, cfg, tx) == Ok(Verdict(|ixs|, Amount(ixs[s]), Base58.Encode(policy.wantAta), cfg.delegation,
                                                cfg.mint, BudgetAfter(ixs, |ixs|).Fee()))
  {
    hide Setup, Judge, Base58.Encode, Amount, BudgetAfter;
    ConformsAccepted(sha, Setup(sha, cfg).value, Instructions(tx).value, s, a, m);
  }

  lemma OnlyBudgetInstructionsMove(ixs: seq<Instruction>, n: nat)
    requires 0 < n <= |ixs|
    ensures !Kind(ixs[n - 1]).IsComputeBudget? ==> BudgetAfter(ixs, n) == BudgetAfter(ixs, n - 1)
  {
  }

  lemma FreeBeforeAnyPrice(ixs: seq<Instruction>)
    ensures BudgetAfter(ixs, 0).Fee() == 0
  {
    assert BudgetAfter(ixs, 0).price == 0;
  }

  /** The fee of a certified transaction never passes a non-negative ceiling, in whatever order it was set. */
  lemma {:induction false} FeeNeverPassesCeiling(ixs: seq<Instruction>, ceiling: nat, n: nat)
    requires n <= |ixs| && FeeBounded(ixs, ceiling)
    ensures BudgetAfter(ixs, n).Fee() <= ceiling
    decreases n
  {
    hide BudgetAfter, Kind, Budget.Fee;
    if n > 0 {
      FeeNeverPassesCeiling(ixs, ceiling, n - 1);
      OnlyBudgetInstructionsMove(ixs, n);
    } else {
      FreeBeforeAnyPrice(ixs);
    }
  }

  /** What makes one message the part after the signatures makes any longer one that. */
  lemma SameSignatures(signatures: Bytes, msg: Bytes, longer: Bytes)
    requires MessageOf(signatures + msg) == Ok(msg) && |msg| <= |longer|
    requires msg != []
    ensures MessageOf(signatures + longer) == Ok(longer)
  {
    var tx, i := signatures + msg, 1 + ((signatures + msg)[0] as nat) * 64;
    assert |tx[i..]| == |msg|;
    assert signatures != [];
  }

  /** Two spellings of the same instructions get the same verdict under every configuration. */
  lemma VersionIndependentVerdict(sha: Address.Hash, cfg: Config, signatures: Bytes, msg: Bytes)
    requires MessageOf(signatures + msg) == Ok(msg)
    requires Parse(msg).Ok? && !Parse(msg).value.versioned
    ensures Certify(sha, cfg, signatures + msg) == Certify(sha, cfg, signatures + AsV0(msg))
  {
    VersionIndependence(msg);
    SameSignatures(signatures, msg, AsV0(msg));
    hide Setup, Judge, Parse, AsV0, MessageOf, Base58.Encode;
  }

  /** Certification is not out of reach: an authorised advance, a pinned spend and the exact memo, in that order. */
  lemma CompletePaymentConforms(sha: Address.Hash, policy: Policy, ixs: seq<Instruction>)
    requires policy.nonce.Some? && policy.memo.Some? && |ixs| == 3
    requires Kind(ixs[0]).IsSystem? && Kind(ixs[1]).IsAllowance? && Kind(ixs[2]).IsMemo?
    requires PinnedSpend(sha, policy, ixs[1])
    requires PinnedAdvance(policy.nonce.value, ixs[1].accounts[A_DELEGATEE], ixs[0])
    requires ixs[2].data == policy.memo.value
    ensures Conforms(sha, policy, ixs, 1, 0, 2)
  {
    hide Kind, PinnedAdvance, BudgetAfter, PinnedAta, SetsLimit, SetsPrice, PinnedSpend;
  }

  /** It is accepted with the amount of its spend, and costs no priority fee. */
  lemma CompletePaymentIsAccepted(sha: Address.Hash, policy: Policy, ixs: seq<Instruction>)
    requires |ixs| == 3 && AllShaped(ixs) && Conforms(sha, policy, ixs, 1, 0, 2)
    requires Kind(ixs[0]).IsSystem? && Kind(ixs[1]).IsAllowance? && Kind(ixs[2]).IsMemo?
    ensures Judge(sha, policy, ixs) == Ok((Amount(ixs[1]), 0))
  {
    hide Kind, Amount, BudgetAfter, Judge;
    NoFeeWithoutBudget(ixs, 3);
    ConformsAccepted(sha, policy, ixs, 1, 0, 2);
  }

  lemma {:induction false} NoFeeWithoutBudget(ixs: seq<Instruction>, n: nat)
    requires n <= |ixs| && forall k :: 0 <= k < n ==> !Kind(ixs[k]).IsComputeBudget?
    ensures BudgetAfter(ixs, n).Fee() == 0
    decreases n
  {
    hide Kind;
    if n == 0 {
      FreeBeforeAnyPrice(ixs);
    } else {
      NoFeeWithoutBudget(ixs, n - 1);
      OnlyBudgetInstructionsMove(ixs, n);
    }
  }
}
