/** What is certified, said against the configuration and the bytes, without the certifier's own functions. */
module Configured {
  import opened Prelude
  import opened Message
  import opened Certifier
  import opened Conformance
  import Address
  import Base58
  import Programs

  // ---------------------------------------------------------------------------
  // The configuration
  // ---------------------------------------------------------------------------

  /** An argument that may be left out spells a key when it is given. */
  predicate OptionalKeyIs(s: string, k: Option<Key>) {
    if s == "" then k.None? else Base58.NamesKey(s) && k == Some(Base58.Decoded(s))
  }

  /** Exactly one of receiver and token account is given, and it leads to `ata`. */
  ghost predicate ReceiverIs(sha: Address.Hash, cfg: Config, mint: Key, tokenProgram: Key, ata: Key) {
    && (cfg.receiver == "" <==> cfg.receiverAta != "")
    && if cfg.receiverAta != ""
       then Base58.NamesKey(cfg.receiverAta) && ata == Base58.Decoded(cfg.receiverAta)
       else Base58.NamesKey(cfg.receiver) && Address.IsAta(sha, Base58.Decoded(cfg.receiver), mint, tokenProgram, ata)
  }

  /** The policy is the configuration, field by field. */
  ghost predicate Reads(sha: Address.Hash, cfg: Config, p: Policy) {
    && Base58.NamesKey(cfg.mint) && p.mint == Base58.Decoded(cfg.mint)
    && Base58.NamesKey(cfg.delegation) && p.delegation == Base58.Decoded(cfg.delegation)
    && Base58.NamesKey(cfg.tokenProgram) && p.tokenProgram == Base58.Decoded(cfg.tokenProgram)
    && OptionalKeyIs(cfg.nonce, p.nonce)
    && OptionalKeyIs(cfg.delegator, p.delegator)
    && ReceiverIs(sha, cfg, p.mint, p.tokenProgram, p.wantAta)
    && p.maxAmount == cfg.maxAmount && p.maxPriority == cfg.maxPriority && p.memo == cfg.memo
  }

  lemma KeyFromExact(s: string, what: string)
    ensures KeyFrom(s, what).Ok? <==> Base58.NamesKey(s)
    ensures Base58.NamesKey(s) ==> KeyFrom(s, what) == Ok(Base58.Decoded(s)) && s != ""
  {
    hide Base58.DecodeKey;
    Base58.DecodeKeyExact(s);
  }

  lemma OptionalKeyExact(s: string, what: string, k: Option<Key>)
    ensures OptionalKey(s, what) == Ok(k) <==> OptionalKeyIs(s, k)
  {
    hide Base58.NamesKey, KeyFrom;
    KeyFromExact(s, what);
  }

  lemma WantedAtaExact(sha: Address.Hash, cfg: Config, mint: Key, tokenProgram: Key, ata: Key)
    requires cfg.receiver == "" || cfg.receiverAta == ""
    ensures WantedAta(sha, cfg, mint, tokenProgram) == Ok(ata) <==> ReceiverIs(sha, cfg, mint, tokenProgram, ata)
  {
    hide Base58.Decoded, KeyFrom, Address.DeriveAta, Address.IsAta;
    KeyFromExact(cfg.receiverAta, "receiver token account");
    KeyFromExact(cfg.receiver, "receiver");
    if Base58.NamesKey(cfg.receiver) {
      Address.AtaExact(sha, Base58.Decoded(cfg.receiver), mint, tokenProgram, ata);
    }
  }

  /** The configuration is accepted exactly when it can be read, and then the policy is what it spells. */
  lemma SetupExact(sha: Address.Hash, cfg: Config, p: Policy)
    ensures Setup(sha, cfg) == Ok(p) <==> Reads(sha, cfg, p)
  {
    hide Base58.NamesKey, Base58.Decoded, KeyFrom, OptionalKey, WantedAta, ReceiverIs, OptionalKeyIs;
    KeyFromExact(cfg.mint, "mint");
    KeyFromExact(cfg.delegation, "delegation");
    KeyFromExact(cfg.tokenProgram, "token program");
    OptionalKeyExact(cfg.nonce, "nonce", p.nonce);
    OptionalKeyExact(cfg.delegator, "delegator", p.delegator);
    if cfg.receiver == "" || cfg.receiverAta == "" {
      WantedAtaExact(sha, cfg, p.mint, p.tokenProgram, p.wantAta);
    } else {
      NotBoth(sha, cfg, p.mint, p.tokenProgram, p.wantAta);
    }
  }

  lemma NotBoth(sha: Address.Hash, cfg: Config, mint: Key, tokenProgram: Key, ata: Key)
    requires cfg.receiver != "" && cfg.receiverAta != ""
    ensures !ReceiverIs(sha, cfg, mint, tokenProgram, ata)
  {
  }

  // ---------------------------------------------------------------------------
  // The payment
  // ---------------------------------------------------------------------------

  /** The instruction at `k` is the only one of its program. */
  predicate OnlyOne(ixs: seq<Instruction>, program: Key, k: nat) {
    k < |ixs| && forall i :: 0 <= i < |ixs| ==> (ixs[i].program == program <==> i == k)
  }

  predicate NoneOf(ixs: seq<Instruction>, program: Key) {
    forall i :: 0 <= i < |ixs| ==> ixs[i].program != program
  }

  /**
   * transferFixed (discriminator 4, an amount, the delegator, the mint) over nine accounts: delegation, delegator's
   * account, receiver's account, mint, token program, delegatee and the allowances program in slots 0, 2 to 6 and 8.
   */
  ghost predicate IsPayment(sha: Address.Hash, cfg: Config, ix: Instruction)
    requires |ix.signer| == |ix.writable| == |ix.accounts|
  {
    && |ix.data| == 73 && ix.data[0] == 4 && |ix.accounts| == 9
    && Base58.NamesKey(cfg.delegation) && ix.accounts[0] == Base58.Decoded(cfg.delegation)
    && Base58.NamesKey(cfg.mint) && ix.accounts[4] == Base58.Decoded(cfg.mint) == ix.data[41..73]
    && Base58.NamesKey(cfg.tokenProgram) && ix.accounts[5] == Base58.Decoded(cfg.tokenProgram)
    && ix.accounts[8] == Programs.Allowance()
    && ReceiverIs(sha, cfg, ix.accounts[4], ix.accounts[5], ix.accounts[3])
    && (cfg.delegator != "" ==>
          && Base58.NamesKey(cfg.delegator) && ix.data[9..41] == Base58.Decoded(cfg.delegator)
          && Address.IsAta(sha, Base58.Decoded(cfg.delegator), ix.accounts[4], ix.accounts[5], ix.accounts[2]))
    && ix.signer[6] && ix.writable[0] && ix.writable[2] && ix.writable[3]
    && (cfg.maxAmount.Some? ==> LittleEndian(ix.data[1..9]) <= cfg.maxAmount.value)
  }

  /** One advance of the configured nonce under this authority, or no System instruction at all. */
  ghost predicate NonceIsSpent(cfg: Config, ixs: seq<Instruction>, authority: Key) {
    if cfg.nonce == "" then NoneOf(ixs, Programs.System())
    else && Base58.NamesKey(cfg.nonce)
         && exists k: nat ::
              OnlyOne(ixs, Programs.System(), k) && Advances(ixs[k], Base58.Decoded(cfg.nonce), authority)
  }

  predicate Advances(ix: Instruction, nonce: Key, authority: Key) {
    ix.data == [4, 0, 0, 0] && |ix.accounts| >= 3 && ix.accounts[0] == nonce && ix.accounts[2] == authority
  }

  /** One memo with exactly the configured bytes, or none. */
  ghost predicate MemoIsExact(cfg: Config, ixs: seq<Instruction>) {
    if cfg.memo.None? then NoneOf(ixs, Programs.Memo())
    else exists k: nat :: OnlyOne(ixs, Programs.Memo(), k) && ixs[k].data == cfg.memo.value
  }

  predicate IsLimit(ix: Instruction) {
    ix.program == Programs.ComputeBudget() && |ix.data| == 5 && ix.data[0] == 2
  }

  predicate IsPrice(ix: Instruction) {
    ix.program == Programs.ComputeBudget() && |ix.data| == 9 && ix.data[0] == 3
  }

  /** Five programs, and of two of them only these instructions: a limit or a price, and the receiver's own account. */
  predicate IsExpected(ix: Instruction, receiver: Key, mint: Key) {
    && ix.program in {Programs.Allowance(), Programs.System(), Programs.ComputeBudget(), Programs.Ata(),
                      Programs.Memo()}
    && (ix.program == Programs.ComputeBudget() ==> IsLimit(ix) || IsPrice(ix))
    && (ix.program == Programs.Ata() ==>
          && |ix.data| >= 1 && ix.data[0] == 1
          && |ix.accounts| >= 4 && ix.accounts[1] == receiver && ix.accounts[3] == mint)
  }

  /** The unit limit, or the unit price, that an instruction sets. */
  function Sets(ix: Instruction, limit: bool): Option<nat> {
    if limit then if IsLimit(ix) then Some(LittleEndian(ix.data[1..5])) else None
    else if IsPrice(ix) then Some(LittleEndian(ix.data[1..9])) else None
  }

  /** Of the first `n` instructions the last that sets it sets it to `v`, or none does and `v` is the default. */
  predicate InForce(ixs: seq<Instruction>, n: nat, limit: bool, default: nat, v: nat)
    requires n <= |ixs|
  {
    || (exists j :: 0 <= j < n && Sets(ixs[j], limit) == Some(v) && forall i :: j < i < n ==> Sets(ixs[i], limit).None?)
    || ((forall i :: 0 <= i < n ==> Sets(ixs[i], limit).None?) && v == default)
  }

  /** By default each instruction has 200,000 units, all together at most 1,400,000. */
  predicate LimitIs(ixs: seq<Instruction>, n: nat, v: nat)
    requires n <= |ixs|
  {
    InForce(ixs, n, true, if 200_000 * |ixs| <= 1_400_000 then 200_000 * |ixs| else 1_400_000, v)
  }

  predicate PriceIs(ixs: seq<Instruction>, n: nat, v: nat)
    requires n <= |ixs|
  {
    InForce(ixs, n, false, 0, v)
  }

  /** `fee` is the whole number of lamports that millionths of `limit * price` come to. */
  predicate IsFee(limit: nat, price: nat, fee: nat) {
    fee * 1_000_000 <= limit * price < (fee + 1) * 1_000_000
  }

  ghost predicate FeeIs(ixs: seq<Instruction>, n: nat, fee: nat)
    requires n <= |ixs|
  {
    exists limit: nat, price: nat :: LimitIs(ixs, n, limit) && PriceIs(ixs, n, price) && IsFee(limit, price, fee)
  }

  /** Each time a limit or a price is set the fee is within the ceiling. */
  ghost predicate FeesWithin(ixs: seq<Instruction>, ceiling: int) {
    forall k :: 0 <= k < |ixs| && ixs[k].program == Programs.ComputeBudget() ==>
      FeeAtMost(ixs, k + 1, ceiling)
  }

  ghost predicate FeeAtMost(ixs: seq<Instruction>, n: nat, ceiling: int)
    requires n <= |ixs|
  {
    exists fee: nat :: FeeIs(ixs, n, fee) && fee <= ceiling
  }

  /** The instruction list makes the configured payment at `s`, with what is configured beside it and nothing else. */
  ghost predicate MakesPayment(sha: Address.Hash, cfg: Config, ixs: seq<Instruction>, s: nat)
    requires AllShaped(ixs)
  {
    && OnlyOne(ixs, Programs.Allowance(), s) && Shaped(ixs[s]) && IsPayment(sha, cfg, ixs[s])
    && NonceIsSpent(cfg, ixs, ixs[s].accounts[6])
    && MemoIsExact(cfg, ixs)
    && (forall k :: 0 <= k < |ixs| ==> IsExpected(ixs[k], ixs[s].accounts[3], ixs[s].accounts[4]))
    && FeesWithin(ixs, cfg.maxPriority)
  }

  // ---------------------------------------------------------------------------
  // The certifier's statement is this one
  // ---------------------------------------------------------------------------

  /** Each role is one program. */
  lemma Roles(ix: Instruction)
    ensures Kind(ix).IsAllowance? <==> ix.program == Programs.Allowance()
    ensures Kind(ix).IsSystem? <==> ix.program == Programs.System()
    ensures Kind(ix).IsComputeBudget? <==> ix.program == Programs.ComputeBudget()
    ensures Kind(ix).IsAta? <==> ix.program == Programs.Ata()
    ensures Kind(ix).IsMemo? <==> ix.program == Programs.Memo()
  {
    hide Programs.KindOf, Programs.Allowance, Programs.System, Programs.ComputeBudget, Programs.Ata, Programs.Memo;
    Programs.KindExact(ix.program);
  }

  lemma AllRoles(ixs: seq<Instruction>)
    ensures forall k :: 0 <= k < |ixs| ==>
              && (Kind(ixs[k]).IsAllowance? <==> ixs[k].program == Programs.Allowance())
              && (Kind(ixs[k]).IsSystem? <==> ixs[k].program == Programs.System())
              && (Kind(ixs[k]).IsMemo? <==> ixs[k].program == Programs.Memo())
  {
    hide Kind, Programs.Allowance, Programs.System, Programs.Memo;
    forall k | 0 <= k < |ixs| {
      Roles(ixs[k]);
    }
  }

  lemma SpendExact(sha: Address.Hash, cfg: Config, p: Policy, ix: Instruction)
    requires Reads(sha, cfg, p) && Shaped(ix)
    ensures PinnedSpend(sha, p, ix) <==> IsPayment(sha, cfg, ix)
  {
    hide Base58.Decoded, Base58.Valid, LittleEndian, Programs.Allowance, Address.IsAta, Address.DeriveAta;
    if Readable(ix) && p.delegator.Some? {
      Address.AtaExact(sha, p.delegator.value, p.mint, p.tokenProgram, ix.accounts[A_DELEGATOR_ATA]);
    }
    ReceiverUnique(sha, cfg, p.mint, p.tokenProgram, p.wantAta);
    hide ReceiverIs;
  }

  /** The configuration leads to one receiver's account only. */
  lemma ReceiverUnique(sha: Address.Hash, cfg: Config, mint: Key, tokenProgram: Key, ata: Key)
    requires ReceiverIs(sha, cfg, mint, tokenProgram, ata)
    ensures forall other: Key :: ReceiverIs(sha, cfg, mint, tokenProgram, other) ==> other == ata
  {
    forall other: Key | ReceiverIs(sha, cfg, mint, tokenProgram, other)
      ensures other == ata
    {
      WantedAtaExact(sha, cfg, mint, tokenProgram, ata);
      WantedAtaExact(sha, cfg, mint, tokenProgram, other);
    }
  }

  lemma NonceExact(cfg: Config, p: Policy, ixs: seq<Instruction>, authority: Key)
    requires OptionalKeyIs(cfg.nonce, p.nonce)
    ensures NonceIsSpent(cfg, ixs, authority) <==> exists a: int :: NonceConforms(p, ixs, authority, a)
  {
    hide Base58.Decoded, Base58.Valid, Kind, Programs.System;
    AllRoles(ixs);
    if p.nonce.None? {
      if NonceIsSpent(cfg, ixs, authority) {
        assert NonceConforms(p, ixs, authority, -1);
      }
    } else {
      if NonceIsSpent(cfg, ixs, authority) {
        var k: nat :| OnlyOne(ixs, Programs.System(), k) && Advances(ixs[k], p.nonce.value, authority);
        assert NonceConforms(p, ixs, authority, k);
      }
      if a: int :| NonceConforms(p, ixs, authority, a) {
        assert OnlyOne(ixs, Programs.System(), a) && Advances(ixs[a], p.nonce.value, authority);
      }
    }
  }

  lemma MemoExact(cfg: Config, p: Policy, ixs: seq<Instruction>)
    requires p.memo == cfg.memo
    ensures MemoIsExact(cfg, ixs) <==> exists m: int :: MemoConforms(p, ixs, m)
  {
    hide Kind, Programs.Memo;
    AllRoles(ixs);
    if p.memo.None? {
      if MemoIsExact(cfg, ixs) {
        assert MemoConforms(p, ixs, -1);
      }
    } else {
      if MemoIsExact(cfg, ixs) {
        var k: nat :| OnlyOne(ixs, Programs.Memo(), k) && ixs[k].data == p.memo.value;
        assert MemoConforms(p, ixs, k);
      }
      if m: int :| MemoConforms(p, ixs, m) {
        assert OnlyOne(ixs, Programs.Memo(), m);
      }
    }
  }

  /** Every instruction is of a program with a role, and one without is refused. */
  lemma ExpectedExact(p: Policy, ix: Instruction)
    ensures Permitted(p, ix) <==> IsExpected(ix, p.wantAta, p.mint)
  {
    Roles(ix);
    Programs.AllDistinct();
    hide Programs.KindOf, Programs.Allowance, Programs.System, Programs.ComputeBudget, Programs.Ata, Programs.Memo,
      Programs.Token, Programs.Token2022;
    ProgramsDiffer();
  }

  lemma ProgramsDiffer()
    ensures Programs.ComputeBudget() != Programs.Ata()
  {
    Programs.AllDistinct();
    hide Programs.Allowance, Programs.System, Programs.ComputeBudget, Programs.Ata, Programs.Memo, Programs.Token,
      Programs.Token2022;
    var ids := [Programs.System(), Programs.Allowance(), Programs.ComputeBudget(), Programs.Ata(), Programs.Memo(),
                Programs.Token(), Programs.Token2022()];
    assert ids[2] != ids[3];
  }

  lemma Whole(data: Bytes)
    requires data != []
    ensures data[1..] == data[1..|data|]
  {
  }

  lemma SettersExact(ix: Instruction, limit: bool)
    ensures (if limit then SetsLimit(ix) else SetsPrice(ix)) <==> Sets(ix, limit).Some?
    ensures Sets(ix, limit).Some? ==> |ix.data| > 1 && Sets(ix, limit) == Some(LittleEndian(ix.data[1..]))
  {
    hide Kind, Programs.ComputeBudget, LittleEndian;
    Roles(ix);
    if ix.data != [] {
      Whole(ix.data);
    }
  }

  lemma InForceStep(ixs: seq<Instruction>, n: nat, limit: bool, default: nat, v: nat)
    requires 0 < n <= |ixs|
    ensures InForce(ixs, n, limit, default, v) <==>
              if Sets(ixs[n - 1], limit).Some? then Sets(ixs[n - 1], limit) == Some(v)
              else InForce(ixs, n - 1, limit, default, v)
  {
    hide Sets;
  }

  lemma {:induction false} InForceExact(ixs: seq<Instruction>, n: nat, limit: bool, default: nat, v: nat)
    requires n <= |ixs|
    ensures InForce(ixs, n, limit, default, v) <==> v == Or(LastSet(ixs, n, limit), default)
    decreases n
  {
    hide Sets, LittleEndian, SetsLimit, SetsPrice;
    if n > 0 {
      hide InForce, LastSet;
      InForceExact(ixs, n - 1, limit, default, v);
      InForceStep(ixs, n, limit, default, v);
      LastSetStep(ixs, n, limit);
    }
  }

  lemma LastSetStep(ixs: seq<Instruction>, n: nat, limit: bool)
    requires 0 < n <= |ixs|
    ensures LastSet(ixs, n, limit) == if Sets(ixs[n - 1], limit).Some? then Sets(ixs[n - 1], limit)
                                      else LastSet(ixs, n - 1, limit)
  {
    hide Sets, SetsLimit, SetsPrice, LittleEndian;
    SettersExact(ixs[n - 1], limit);
  }

  lemma BudgetExact(ixs: seq<Instruction>, n: nat, limit: nat, price: nat)
    requires n <= |ixs|
    ensures LimitIs(ixs, n, limit) && PriceIs(ixs, n, price) <==> BudgetAfter(ixs, n) == Budget(limit, price)
  {
    hide InForce, LastSet;
    InForceExact(ixs, n, true, DefaultLimit(|ixs|), limit);
    InForceExact(ixs, n, false, 0, price);
  }

  lemma FeeExact(ixs: seq<Instruction>, n: nat, fee: nat)
    requires n <= |ixs|
    ensures FeeIs(ixs, n, fee) <==> fee == BudgetAfter(ixs, n).Fee()
  {
    var b := BudgetAfter(ixs, n);
    hide LimitIs, PriceIs, BudgetAfter, Budget.Fee, IsFee;
    FeeIsFloor(b, fee);
    forall limit: nat, price: nat
      ensures LimitIs(ixs, n, limit) && PriceIs(ixs, n, price) <==> limit == b.limit && price == b.price
    {
      BudgetExact(ixs, n, limit, price);
    }
    if FeeIs(ixs, n, fee) {
      var limit: nat, price: nat :| LimitIs(ixs, n, limit) && PriceIs(ixs, n, price) && IsFee(limit, price, fee);
      assert limit == b.limit && price == b.price;
    }
    assert LimitIs(ixs, n, b.limit) && PriceIs(ixs, n, b.price);
  }

  lemma FeeIsFloor(b: Budget, fee: nat)
    ensures IsFee(b.limit, b.price, fee) <==> fee == b.Fee()
  {
  }

  lemma FeeAtMostExact(ixs: seq<Instruction>, n: nat, ceiling: int)
    requires n <= |ixs|
    ensures FeeAtMost(ixs, n, ceiling) <==> BudgetAfter(ixs, n).Fee() <= ceiling
  {
    hide FeeIs, BudgetAfter, Budget.Fee;
    FeeExact(ixs, n, BudgetAfter(ixs, n).Fee());
    if FeeAtMost(ixs, n, ceiling) {
      var fee: nat :| FeeIs(ixs, n, fee) && fee <= ceiling;
      FeeExact(ixs, n, fee);
    }
  }

  /** The ceiling after the instruction at `k`, in both spellings. */
  lemma OneFeeExact(ixs: seq<Instruction>, k: nat, ceiling: int)
    requires k < |ixs|
    ensures (Kind(ixs[k]).IsComputeBudget? ==> BudgetAfter(ixs, k + 1).Fee() <= ceiling) <==>
              (ixs[k].program == Programs.ComputeBudget() ==> FeeAtMost(ixs, k + 1, ceiling))
  {
    hide *;
    Roles(ixs[k]);
    FeeAtMostExact(ixs, k + 1, ceiling);
  }

  lemma FeesExact(ixs: seq<Instruction>, ceiling: int)
    ensures FeesWithin(ixs, ceiling) <==> FeeBounded(ixs, ceiling)
  {
    hide FeeAtMost, BudgetAfter, Budget.Fee, Kind, Programs.ComputeBudget;
    forall k | 0 <= k < |ixs| {
      OneFeeExact(ixs, k, ceiling);
    }
  }

  lemma AllowanceOnly(ixs: seq<Instruction>, s: nat)
    ensures OnlyOne(ixs, Programs.Allowance(), s) <==> s < |ixs| && OnlyAt(ixs, Programs.IsAllowance, s)
  {
    hide Kind, Programs.Allowance;
    AllRoles(ixs);
  }

  lemma AllExpectedExact(p: Policy, ixs: seq<Instruction>)
    ensures AllPermitted(p, ixs) <==> forall k :: 0 <= k < |ixs| ==> IsExpected(ixs[k], p.wantAta, p.mint)
  {
    hide Permitted, IsExpected;
    forall k | 0 <= k < |ixs| {
      ExpectedExact(p, ixs[k]);
    }
  }

  lemma MakesPaymentExact(sha: Address.Hash, cfg: Config, p: Policy, ixs: seq<Instruction>, s: nat)
    requires Reads(sha, cfg, p) && AllShaped(ixs)
    ensures MakesPayment(sha, cfg, ixs, s) <==> exists a: int, m: int :: Conforms(sha, p, ixs, s, a, m)
  {
    hide Reads, OptionalKeyIs, PinnedSpend, IsPayment, NonceConforms, MemoConforms, NonceIsSpent, MemoIsExact, OnlyAt,
      OnlyOne, AllPermitted, IsExpected, FeesWithin, FeeBounded, Programs.Allowance, Shaped;
    ReadsParts(sha, cfg, p);
    AllowanceOnly(ixs, s);
    if s < |ixs| {
      assert Shaped(ixs[s]) by { assert AllShaped(ixs); }
      SpendExact(sha, cfg, p, ixs[s]);
      MemoExact(cfg, p, ixs);
      AllExpectedExact(p, ixs);
      FeesExact(ixs, cfg.maxPriority);
      if PinnedSpend(sha, p, ixs[s]) {
        PinnedSlots(sha, p, ixs[s]);
        NonceExact(cfg, p, ixs, ixs[s].accounts[6]);
        if MakesPayment(sha, cfg, ixs, s) {
          var a: int :| NonceConforms(p, ixs, ixs[s].accounts[6], a);
          var m: int :| MemoConforms(p, ixs, m);
          assert Conforms(sha, p, ixs, s, a, m);
        }
        if a: int, m: int :| Conforms(sha, p, ixs, s, a, m) {
          assert NonceConforms(p, ixs, ixs[s].accounts[6], a) && MemoConforms(p, ixs, m);
        }
      }
    }
  }

  lemma ReadsParts(sha: Address.Hash, cfg: Config, p: Policy)
    requires Reads(sha, cfg, p)
    ensures OptionalKeyIs(cfg.nonce, p.nonce) && p.memo == cfg.memo && p.maxPriority == cfg.maxPriority
  {
  }

  lemma PinnedSlots(sha: Address.Hash, p: Policy, ix: Instruction)
    requires PinnedSpend(sha, p, ix)
    ensures Readable(ix) && ix.accounts[3] == p.wantAta && ix.accounts[4] == p.mint
    ensures Shaped(ix) && |ix.accounts| == 9
  {
  }

  /** What is reported of the payment at `s`. */
  predicate Reports(cfg: Config, ixs: seq<Instruction>, s: nat, v: Verdict) {
    && s < |ixs| && |ixs[s].accounts| == 9 && |ixs[s].data| == 73
    && v.instructions == |ixs|
    && v.amount == LittleEndian(ixs[s].data[1..9])
    && v.receiverAta == Base58.Encode(ixs[s].accounts[3])
    && v.delegation == cfg.delegation && v.mint == cfg.mint
  }

  /**
   * A transaction is certified exactly when the configuration can be read, the bytes parse, and the instructions make
   * the payment the configuration describes; and then that payment and its fee are reported.
   */
  lemma CertifiedExactlyWhen(sha: Address.Hash, cfg: Config, tx: Bytes)
    ensures Certify(sha, cfg, tx).Ok? <==>
              && (exists p :: Reads(sha, cfg, p))
              && Instructions(tx).Ok?
              && exists s: nat :: MakesPayment(sha, cfg, Instructions(tx).value, s)
    ensures Certify(sha, cfg, tx).Ok? ==>
              var ixs := Instructions(tx).value;
              forall s: nat :: MakesPayment(sha, cfg, ixs, s) ==>
                && Reports(cfg, ixs, s, Certify(sha, cfg, tx).value)
                && FeeIs(ixs, |ixs|, Certify(sha, cfg, tx).value.fee)
  {
    hide Reads, Setup, Certify, Instructions, MakesPayment, Conforms, Reports, FeeIs, SomeConforms;
    CertifyExact(sha, cfg, tx);
    if p :| Reads(sha, cfg, p) {
      SetupExact(sha, cfg, p);
      if Instructions(tx).Ok? {
        var ixs := Instructions(tx).value;
        forall s: nat
          ensures MakesPayment(sha, cfg, ixs, s) <==> exists a: int, m: int :: Conforms(sha, p, ixs, s, a, m)
        {
          MakesPaymentExact(sha, cfg, p, ixs, s);
        }
        SomePayment(sha, cfg, p, ixs);
        forall s: nat | Certify(sha, cfg, tx).Ok? && MakesPayment(sha, cfg, ixs, s)
          ensures Reports(cfg, ixs, s, Certify(sha, cfg, tx).value)
          ensures FeeIs(ixs, |ixs|, Certify(sha, cfg, tx).value.fee)
        {
          var a: int, m: int :| Conforms(sha, p, ixs, s, a, m);
          ReportExact(sha, cfg, p, tx, s, a, m);
        }
      }
    } else if Setup(sha, cfg).Ok? {
      SetupExact(sha, cfg, Setup(sha, cfg).value);
    }
  }

  lemma SomePayment(sha: Address.Hash, cfg: Config, p: Policy, ixs: seq<Instruction>)
    requires Reads(sha, cfg, p) && AllShaped(ixs)
    ensures SomeConforms(sha, p, ixs) <==> exists s: nat :: MakesPayment(sha, cfg, ixs, s)
  {
    hide Reads, Conforms, MakesPayment, AllShaped;
    if SomeConforms(sha, p, ixs) {
      var s: nat, a: int, m: int :| Conforms(sha, p, ixs, s, a, m);
      MakesPaymentExact(sha, cfg, p, ixs, s);
    }
    if s: nat :| MakesPayment(sha, cfg, ixs, s) {
      MakesPaymentExact(sha, cfg, p, ixs, s);
    }
  }

  lemma ReportExact(sha: Address.Hash, cfg: Config, p: Policy, tx: Bytes, s: nat, a: int, m: int)
    requires Setup(sha, cfg) == Ok(p) && Instructions(tx).Ok? && Conforms(sha, p, Instructions(tx).value, s, a, m)
    ensures Certify(sha, cfg, tx).Ok?
    ensures var ixs, v := Instructions(tx).value, Certify(sha, cfg, tx).value;
            && Reports(cfg, ixs, s, v) && FeeIs(ixs, |ixs|, v.fee)
  {
    hide Setup, Certify, Instructions, FeeIs, PinnedSpend, NonceConforms, MemoConforms, AllPermitted, FeeBounded,
      BudgetAfter, Budget.Fee, OnlyAt, Base58.Encode, LittleEndian;
    var ixs := Instructions(tx).value;
    CertifyReports(sha, cfg, tx, s, a, m);
    PinnedSlots(sha, p, ixs[s]);
    FeeExact(ixs, |ixs|, BudgetAfter(ixs, |ixs|).Fee());
  }
}
