/**
 * What a certified transaction does when it runs. The executor is an abstraction of the chain: System transfers,
 * direct token transfers and delegated spends move balances, creating a token account adds an empty one, and a
 * failing instruction undoes the whole transaction. A token account belongs to one mint and one token program, and a
 * transfer between accounts that disagree on either fails.
 */
module Effect {
  import opened Prelude
  import opened Message
  import opened Certifier
  import opened Conformance
  import Address
  import Base58
  import Programs

  datatype TokenAccount = TokenAccount(mint: Key, program: Key, amount: nat)

  type Balances = map<Key, nat>

  type Accounts = map<Key, TokenAccount>

  datatype Chain = Chain(tokens: Accounts, lamports: Balances)

  function Held(m: Accounts, a: Key): nat {
    if a in m then m[a].amount else 0
  }

  /** Both accounts exist, hold the mint under the program, and the source has the amount. */
  predicate Payable(m: Accounts, source: Key, target: Key, mint: Key, program: Key, amount: nat) {
    && source in m && target in m
    && m[source].mint == mint && m[target].mint == mint
    && m[source].program == program && m[target].program == program
    && m[source].amount >= amount
  }

  function MoveTokens(st: Chain, source: Key, target: Key, mint: Key, program: Key, amount: nat): Option<Chain> {
    var m := st.tokens;
    if !Payable(m, source, target, mint, program, amount) then None
    else if source == target then Some(st)
    else
      var debited := m[source := m[source].(amount := m[source].amount - amount)];
      Some(st.(tokens := debited[target := m[target].(amount := m[target].amount + amount)]))
  }

  /** Moves lamports between two existing accounts; None when the source cannot pay. */
  function MoveLamports(st: Chain, source: Key, target: Key, amount: nat): Option<Chain> {
    var m := st.lamports;
    if source !in m || target !in m || m[source] < amount then None
    else if source == target then Some(st)
    else Some(st.(lamports := m[source := m[source] - amount][target := m[target] + amount]))
  }

  function IsTokenProgram(program: Key): bool {
    program == Programs.Token() || program == Programs.Token2022()
  }

  function ExecuteSystem(ix: Instruction, st: Chain): Option<Chain> {
    if |ix.data| == 12 && ix.data[..4] == [2, 0, 0, 0] && |ix.accounts| >= 2 then
      MoveLamports(st, ix.accounts[0], ix.accounts[1], LittleEndian(ix.data[4..]))
    else Some(st)
  }

  /**
   * A delegated spend: the accounts are of the mint in slot 4 under the program in slot 5, and the payload's mint
   * agrees with slot 4, or it fails.
   */
  function ExecuteAllowance(ix: Instruction, st: Chain): Option<Chain> {
    if && |ix.data| == TRANSFER_DATA_LEN && |ix.accounts| >= 6
       && ix.data[0] in [IX_TRANSFER_FIXED, IX_TRANSFER_RECURRING]
    then
      if ix.data[41..73] != ix.accounts[A_TOKEN_MINT] then None
      else MoveTokens(st, ix.accounts[A_DELEGATOR_ATA], ix.accounts[A_RECEIVER_ATA], ix.accounts[A_TOKEN_MINT],
                      ix.accounts[A_TOKEN_PROGRAM], LittleEndian(ix.data[1..9]))
    else Some(st)
  }

  /** CreateIdempotent: an account that exists stays as it is; a new one is empty. */
  function ExecuteAta(ix: Instruction, st: Chain): Option<Chain> {
    if |ix.accounts| >= 4 && ix.accounts[1] !in st.tokens then
      var program := if |ix.accounts| >= 6 then ix.accounts[5] else Programs.Token();
      Some(st.(tokens := st.tokens[ix.accounts[1] := TokenAccount(ix.accounts[3], program, 0)]))
    else Some(st)
  }

  /** Transfer, which takes its mint from the source account, and TransferChecked, which names it. */
  function ExecuteToken(ix: Instruction, st: Chain): Option<Chain> {
    if |ix.data| >= 9 && ix.data[0] == 3 && |ix.accounts| >= 2 then
      if ix.accounts[0] !in st.tokens then None
      else MoveTokens(st, ix.accounts[0], ix.accounts[1], st.tokens[ix.accounts[0]].mint, ix.program,
                      LittleEndian(ix.data[1..9]))
    else if |ix.data| >= 9 && ix.data[0] == 12 && |ix.accounts| >= 3 then
      MoveTokens(st, ix.accounts[0], ix.accounts[2], ix.accounts[1], ix.program, LittleEndian(ix.data[1..9]))
    else Some(st)
  }

  function Execute(ix: Instruction, st: Chain): Option<Chain> {
    if IsTokenProgram(ix.program) then ExecuteToken(ix, st)
    else match Kind(ix)
      case IsSystem => ExecuteSystem(ix, st)
      case IsAllowance => ExecuteAllowance(ix, st)
      case IsAta => ExecuteAta(ix, st)
      case _ => Some(st)
  }

  function Run(ixs: seq<Instruction>, st: Chain): Option<Chain>
    decreases |ixs|
  {
    if ixs == [] then Some(st) else
      match Execute(ixs[0], st)
      case None => None
      case Some(next) => Run(ixs[1..], next)
  }

  /** A failed transaction changes nothing. */
  function Outcome(ixs: seq<Instruction>, st: Chain): Chain {
    match Run(ixs, st)
    case None => st
    case Some(out) => out
  }

  /** What the certifier keeps out does move balances: a System transfer in the company of the spend, */
  lemma SystemTransferMoves(ix: Instruction, st: Chain, amount: nat)
    requires ix.program == Programs.System() && |ix.data| == 12 && |ix.accounts| >= 2
    requires ix.data[0] == 2 && ix.data[1] == 0 && ix.data[2] == 0 && ix.data[3] == 0
    requires LittleEndian(ix.data[4..12]) == amount
    requires ix.accounts[0] != ix.accounts[1] && ix.accounts[0] in st.lamports && ix.accounts[1] in st.lamports
    requires st.lamports[ix.accounts[0]] >= amount
    ensures var from, to := ix.accounts[0], ix.accounts[1];
            var out := Execute(ix, st);
            && out.Some? && out.value.tokens == st.tokens && out.value.lamports.Keys == st.lamports.Keys
            && out.value.lamports[from] + amount == st.lamports[from]
            && out.value.lamports[to] == st.lamports[to] + amount
  {
    hide Execute, Programs.System, LittleEndian, MoveLamports;
    SystemExecutes(ix, st);
    TransferData(ix.data);
    LamportsMove(st, ix.accounts[0], ix.accounts[1], amount);
  }

  lemma TransferData(data: Bytes)
    requires |data| == 12 && data[0] == 2 && data[1] == 0 && data[2] == 0 && data[3] == 0
    ensures data[..4] == [2, 0, 0, 0] && data[4..] == data[4..12]
  {
  }

  lemma LamportsMove(st: Chain, from: Key, to: Key, amount: nat)
    requires from != to && from in st.lamports && to in st.lamports && st.lamports[from] >= amount
    ensures var out := MoveLamports(st, from, to, amount);
            && out.Some? && out.value.tokens == st.tokens && out.value.lamports.Keys == st.lamports.Keys
            && out.value.lamports[from] + amount == st.lamports[from]
            && out.value.lamports[to] == st.lamports[to] + amount
  {
  }

  lemma SystemExecutes(ix: Instruction, st: Chain)
    requires ix.program == Programs.System()
    ensures Execute(ix, st) == ExecuteSystem(ix, st)
  {
    hide Programs.KindOf, IsTokenProgram, Programs.System, ExecuteSystem, ExecuteToken;
    TokenProgramsAreOther(ix.program);
    Programs.KindExact(ix.program);
  }

  /** or a transfer that goes to a token program directly. */
  lemma DirectTransferMoves(ix: Instruction, st: Chain, amount: nat)
    requires ix.program == Programs.Token() || ix.program == Programs.Token2022()
    requires |ix.data| >= 9 && ix.data[0] == 3 && |ix.accounts| >= 2 && LittleEndian(ix.data[1..9]) == amount
    requires ix.accounts[0] != ix.accounts[1] && ix.accounts[0] in st.tokens && ix.accounts[1] in st.tokens
    requires var from, to := st.tokens[ix.accounts[0]], st.tokens[ix.accounts[1]];
             from.mint == to.mint && from.program == to.program == ix.program && from.amount >= amount
    ensures var out := Execute(ix, st);
            && out.Some? && out.value.lamports == st.lamports
            && Held(out.value.tokens, ix.accounts[0]) + amount == Held(st.tokens, ix.accounts[0])
            && Held(out.value.tokens, ix.accounts[1]) == Held(st.tokens, ix.accounts[1]) + amount
  {
    hide Programs.Token, Programs.Token2022, LittleEndian;
  }

  // ---------------------------------------------------------------------------
  // The total of each mint
  // ---------------------------------------------------------------------------

  /** What the accounts of one mint hold. */
  function OfMint(m: Accounts, mint: Key): Balances {
    map a | a in m && m[a].mint == mint :: m[a].amount
  }

  ghost function Total(m: Balances): nat {
    if m == map[] then 0 else
      var k :| k in m;
      m[k] + Total(m - {k})
  }

  ghost function Supply(m: Accounts, mint: Key): nat {
    Total(OfMint(m, mint))
  }

  lemma {:induction false} TotalSplits(m: Balances, a: Key)
    requires a in m
    ensures Total(m) == m[a] + Total(m - {a})
    decreases |m|
  {
    var k :| k in m && Total(m) == m[k] + Total(m - {k});
    if k != a {
      TotalSplits(m - {k}, a);
      TotalSplits(m - {a}, k);
      assert m - {k} - {a} == m - {a} - {k};
    }
  }

  lemma {:induction false} TotalUpdated(m: Balances, a: Key, v: nat)
    ensures Total(m[a := v]) == Total(m) - (if a in m then m[a] else 0) + v
  {
    TotalSplits(m[a := v], a);
    if a in m {
      TotalSplits(m, a);
      assert m[a := v] - {a} == m - {a};
    } else {
      assert m[a := v] - {a} == m;
    }
  }

  /** Changing one account's amount changes its own mint's supply by as much, and no other's. */
  lemma {:induction false} SupplyUpdated(m: Accounts, a: Key, v: TokenAccount, mint: Key)
    requires a in m ==> m[a].mint == v.mint
    ensures Supply(m[a := v], mint) == Supply(m, mint) + if v.mint == mint then v.amount - Held(m, a) else 0
  {
    if v.mint == mint {
      assert OfMint(m[a := v], mint) == OfMint(m, mint)[a := v.amount];
      TotalUpdated(OfMint(m, mint), a, v.amount);
    } else {
      assert OfMint(m[a := v], mint) == OfMint(m, mint);
    }
  }

  // ---------------------------------------------------------------------------
  // One instruction
  // ---------------------------------------------------------------------------

  /** Every account is still there, of the same mint under the same program. */
  predicate SameKinds(before: Accounts, after: Accounts) {
    forall a :: a in before ==> a in after && after[a].mint == before[a].mint && after[a].program == before[a].program
  }

  ghost predicate SameSupplies(before: Accounts, after: Accounts) {
    forall mint: Key :: Supply(after, mint) == Supply(before, mint)
  }

  /** `amount` went from `source` to `target`; no other balance, no lamport and no mint's supply changed. */
  ghost predicate Moved(before: Chain, after: Chain, source: Key, target: Key, amount: nat) {
    && after.lamports == before.lamports
    && SameKinds(before.tokens, after.tokens)
    && SameSupplies(before.tokens, after.tokens)
    && forall a :: Held(after.tokens, a) + (if a == source then amount else 0)
                == Held(before.tokens, a) + (if a == target then amount else 0)
  }

  lemma MoveConserves(st: Chain, source: Key, target: Key, mint: Key, program: Key, amount: nat)
    requires MoveTokens(st, source, target, mint, program, amount).Some?
    ensures Moved(st, MoveTokens(st, source, target, mint, program, amount).value, source, target, amount)
  {
    hide Supply;
    var m, after := st.tokens, MoveTokens(st, source, target, mint, program, amount).value.tokens;
    if source != target {
      var debited := m[source := m[source].(amount := m[source].amount - amount)];
      forall other: Key
        ensures Supply(after, other) == Supply(m, other)
      {
        SupplyUpdated(m, source, debited[source], other);
        SupplyUpdated(debited, target, after[target], other);
      }
    }
  }

  /** Everything permitted beside the spend leaves every balance as it was. */
  lemma PermittedIsInert(policy: Policy, ix: Instruction, st: Chain, source: Key, target: Key)
    requires Permitted(policy, ix) && !Kind(ix).IsAllowance?
    requires Kind(ix).IsSystem? ==> ix.data == AdvanceNonceTag()
    ensures Execute(ix, st).Some? && Moved(st, Execute(ix, st).value, source, target, 0)
  {
    TokenProgramsAreOther(ix.program);
    hide Programs.KindOf, IsTokenProgram, PinnedAta, Moved;
    if Kind(ix).IsAta? {
      NewAccountIsInert(ix, st, source, target);
    } else {
      NothingMoves(st, source, target);
    }
  }

  lemma NewAccountIsInert(ix: Instruction, st: Chain, source: Key, target: Key)
    ensures ExecuteAta(ix, st).Some? && Moved(st, ExecuteAta(ix, st).value, source, target, 0)
  {
    hide Supply, Programs.Token;
    if |ix.accounts| >= 4 && ix.accounts[1] !in st.tokens {
      var after := ExecuteAta(ix, st).value.tokens;
      forall mint: Key
        ensures Supply(after, mint) == Supply(st.tokens, mint)
      {
        SupplyUpdated(st.tokens, ix.accounts[1], after[ix.accounts[1]], mint);
      }
    }
  }

  lemma TokenProgramsAreOther(program: Key)
    ensures IsTokenProgram(program) ==> Programs.KindOf(program).IsOther?
  {
    Programs.AllDistinct();
    hide Programs.KindOf, Programs.Allowance, Programs.System, Programs.ComputeBudget, Programs.Ata, Programs.Memo,
      Programs.Token, Programs.Token2022;
    var ids := [Programs.System(), Programs.Allowance(), Programs.ComputeBudget(), Programs.Ata(), Programs.Memo(),
                Programs.Token(), Programs.Token2022()];
    assert forall i :: 0 <= i < 5 ==> ids[i] != ids[5] && ids[i] != ids[6];
    Programs.KindExact(program);
    assert ids[0] == Programs.System() && ids[1] == Programs.Allowance() && ids[2] == Programs.ComputeBudget();
    assert ids[3] == Programs.Ata() && ids[4] == Programs.Memo() && ids[5] == Programs.Token();
  }

  // ---------------------------------------------------------------------------
  // The whole transaction
  // ---------------------------------------------------------------------------

  lemma MovedTwice(a: Chain, b: Chain, c: Chain, source: Key, target: Key, x: nat, y: nat)
    requires Moved(a, b, source, target, x) && Moved(b, c, source, target, y) && (x == 0 || y == 0)
    ensures Moved(a, c, source, target, x + y)
  {
    hide Supply;
    forall mint: Key
      ensures Supply(c.tokens, mint) == Supply(a.tokens, mint)
    {
      assert Supply(b.tokens, mint) == Supply(a.tokens, mint);
    }
    forall k: Key
      ensures Held(c.tokens, k) + (if k == source then x + y else 0)
           == Held(a.tokens, k) + (if k == target then x + y else 0)
    {
      assert Held(b.tokens, k) + (if k == source then x else 0) == Held(a.tokens, k) + (if k == target then x else 0);
      assert Held(c.tokens, k) + (if k == source then y else 0) == Held(b.tokens, k) + (if k == target then y else 0);
    }
  }

  /** The spend's source can pay its amount of the policy's mint, under the policy's program. */
  predicate CanPay(st: Chain, policy: Policy, spend: Instruction)
    requires Readable(spend)
  {
    Payable(st.tokens, spend.accounts[A_DELEGATOR_ATA], policy.wantAta, policy.mint, policy.tokenProgram, Amount(spend))
  }

  lemma SpendMoves(sha: Address.Hash, policy: Policy, spend: Instruction, st: Chain)
    requires PinnedSpend(sha, policy, spend) && Kind(spend).IsAllowance?
    ensures CanPay(st, policy, spend) <==> Execute(spend, st).Some?
    ensures Execute(spend, st).Some? ==>
              Moved(st, Execute(spend, st).value, spend.accounts[A_DELEGATOR_ATA], policy.wantAta, Amount(spend))
  {
    SpendIsMove(sha, policy, spend, st);
    hide Execute, Moved, Amount, PinnedSpend;
    if Execute(spend, st).Some? {
      MoveConserves(st, spend.accounts[A_DELEGATOR_ATA], policy.wantAta, policy.mint, policy.tokenProgram,
                    Amount(spend));
    }
  }

  /** A pinned spend executes as a transfer of the policy's mint, under its program, to its account. */
  lemma SpendIsMove(sha: Address.Hash, policy: Policy, spend: Instruction, st: Chain)
    requires PinnedSpend(sha, policy, spend) && Kind(spend).IsAllowance?
    ensures Execute(spend, st) ==
              MoveTokens(st, spend.accounts[A_DELEGATOR_ATA], policy.wantAta, policy.mint, policy.tokenProgram,
                         Amount(spend))
  {
    TokenProgramsAreOther(spend.program);
    hide Programs.KindOf, IsTokenProgram, LittleEndian, MoveTokens, Address.DeriveAta, Programs.Allowance;
  }

  /** Whatever the state, the instruction runs and moves nothing. */
  ghost predicate IsInert(ix: Instruction, source: Key, target: Key) {
    forall st: Chain :: Execute(ix, st).Some? && Moved(st, Execute(ix, st).value, source, target, 0)
  }

  lemma ConformingStepIsInert(sha: Address.Hash, policy: Policy, ixs: seq<Instruction>, s: nat, a: int, m: int, k: nat,
                              source: Key)
    requires Conforms(sha, policy, ixs, s, a, m) && k < |ixs| && k != s
    ensures IsInert(ixs[k], source, policy.wantAta)
  {
    hide Programs.KindOf, Moved, Execute, Permitted, FeeBounded, MemoConforms, PinnedSpend;
    forall st: Chain
      ensures Execute(ixs[k], st).Some? && Moved(st, Execute(ixs[k], st).value, source, policy.wantAta, 0)
    {
      PermittedIsInert(policy, ixs[k], st, source, policy.wantAta);
    }
  }

  lemma CanPayStays(st: Chain, next: Chain, policy: Policy, spend: Instruction)
    requires Readable(spend) && Moved(st, next, spend.accounts[A_DELEGATOR_ATA], policy.wantAta, 0)
    ensures CanPay(st, policy, spend) ==> CanPay(next, policy, spend)
  {
    hide SameSupplies;
    var source := spend.accounts[A_DELEGATOR_ATA];
    assert Held(next.tokens, source) == Held(st.tokens, source);
  }

  lemma {:induction false} RunAppend(a: seq<Instruction>, b: seq<Instruction>, st: Chain)
    ensures Run(a + b, st) == match Run(a, st)
                              case None => None
                              case Some(mid) => Run(b, mid)
    decreases |a|
  {
    hide Execute;
    if a == [] {
      assert a + b == b;
    } else {
      assert (a + b)[0] == a[0] && (a + b)[1..] == a[1..] + b;
      if Execute(a[0], st).Some? {
        RunAppend(a[1..], b, Execute(a[0], st).value);
      }
    }
  }

  lemma {:induction false} RunOne(ixs: seq<Instruction>, lo: nat, hi: nat, st: Chain)
    requires lo <= hi <= |ixs|
    ensures lo == hi ==> Run(ixs[lo..hi], st) == Some(st)
    ensures lo < hi && Execute(ixs[lo], st).Some? ==>
              Run(ixs[lo..hi], st) == Run(ixs[lo + 1..hi], Execute(ixs[lo], st).value)
  {
    hide Execute;
    if lo < hi {
      assert ixs[lo..hi][0] == ixs[lo] && ixs[lo..hi][1..] == ixs[lo + 1..hi];
    }
  }

  /** A stretch of inert instructions always runs, and moves nothing. */
  lemma {:induction false} InertRun(ixs: seq<Instruction>, lo: nat, hi: nat, source: Key, target: Key, st: Chain)
    requires lo <= hi <= |ixs| && forall k :: lo <= k < hi ==> IsInert(ixs[k], source, target)
    ensures Run(ixs[lo..hi], st).Some? && Moved(st, Run(ixs[lo..hi], st).value, source, target, 0)
    decreases hi - lo
  {
    hide Run, Execute, Moved;
    RunOne(ixs, lo, hi, st);
    if lo == hi {
      NothingMoves(st, source, target);
    } else {
      assert IsInert(ixs[lo], source, target);
      var next := Execute(ixs[lo], st).value;
      InertRun(ixs, lo + 1, hi, source, target, next);
      MovedTwice(st, next, Run(ixs[lo..hi], st).value, source, target, 0, 0);
    }
  }

  lemma NothingMoves(st: Chain, source: Key, target: Key)
    ensures Moved(st, st, source, target, 0)
  {
  }

  /** The account is of the policy's mint, under the policy's token program. */
  predicate Denominated(m: Accounts, policy: Policy, a: Key) {
    a in m && m[a].mint == policy.mint && m[a].program == policy.tokenProgram
  }

  lemma DenominatedStays(policy: Policy, before: Chain, next: Chain, after: Chain, spend: Instruction, amount: nat)
    requires Readable(spend) && CanPay(before, policy, spend)
    requires Moved(before, next, spend.accounts[A_DELEGATOR_ATA], policy.wantAta, amount)
    requires Moved(next, after, spend.accounts[A_DELEGATOR_ATA], policy.wantAta, 0)
    ensures Denominated(after.tokens, policy, spend.accounts[A_DELEGATOR_ATA])
    ensures Denominated(after.tokens, policy, policy.wantAta)
  {
    hide SameSupplies;
  }

  /** What running a list does, told by its spend and the state in which the spend's turn comes. */
  ghost predicate Pays(policy: Policy, ixs: seq<Instruction>, spend: Instruction, st: Chain, before: Chain)
    requires Readable(spend)
  {
    var source, after := spend.accounts[A_DELEGATOR_ATA], Outcome(ixs, st);
    && Moved(st, before, source, policy.wantAta, 0)
    && (CanPay(st, policy, spend) ==> CanPay(before, policy, spend))
    && if CanPay(before, policy, spend)
       then && Moved(st, after, source, policy.wantAta, Amount(spend))
            && Denominated(after.tokens, policy, source) && Denominated(after.tokens, policy, policy.wantAta)
       else after == st
  }

  /** The one allowance instruction of a list. */
  predicate IsTheSpend(ixs: seq<Instruction>, spend: Instruction) {
    Invoking(ixs, Programs.IsAllowance) == [spend] && Readable(spend)
  }

  lemma ConformingEffect(sha: Address.Hash, policy: Policy, ixs: seq<Instruction>, s: nat, a: int, m: int, st: Chain)
      returns (before: Chain)
    requires Conforms(sha, policy, ixs, s, a, m)
    ensures s < |ixs| && IsTheSpend(ixs, ixs[s]) && Run(ixs[..s], st) == Some(before)
    ensures Pays(policy, ixs, ixs[s], st, before)
  {
    hide Run, Moved, Execute, CanPay, Amount, Kind, PinnedSpend, FeeBounded, NonceConforms, MemoConforms, AllPermitted,
      Invoking, Pays;
    var spend := ixs[s];
    PinnedIsReadable(sha, policy, spend);
    var source := spend.accounts[A_DELEGATOR_ATA];
    InvokingAt(ixs, Programs.IsAllowance, s);
    forall k | 0 <= k < |ixs| && k != s
      ensures IsInert(ixs[k], source, policy.wantAta)
    {
      ConformingStepIsInert(sha, policy, ixs, s, a, m, k, source);
    }
    hide IsInert, OnlyAt;
    InertRun(ixs, 0, s, source, policy.wantAta, st);
    assert ixs[0..s] == ixs[..s];
    before := Run(ixs[..s], st).value;
    SpendMoves(sha, policy, spend, before);
    SpendPays(policy, ixs, s, st, before);
  }

  /** With inert company, what the list does is what its spend does. */
  lemma SpendPays(policy: Policy, ixs: seq<Instruction>, s: nat, st: Chain, before: Chain)
    requires s < |ixs| && Readable(ixs[s]) && Run(ixs[..s], st) == Some(before)
    requires var source := ixs[s].accounts[A_DELEGATOR_ATA];
             && Moved(st, before, source, policy.wantAta, 0)
             && (forall k :: s < k < |ixs| ==> IsInert(ixs[k], source, policy.wantAta))
             && (CanPay(before, policy, ixs[s]) <==> Execute(ixs[s], before).Some?)
             && (Execute(ixs[s], before).Some? ==>
                   Moved(before, Execute(ixs[s], before).value, source, policy.wantAta, Amount(ixs[s])))
    ensures Pays(policy, ixs, ixs[s], st, before)
  {
    hide Run, Moved, Execute, CanPay, Amount, Denominated, IsInert;
    var spend := ixs[s];
    var source, amount := spend.accounts[A_DELEGATOR_ATA], Amount(spend);
    CanPayStays(st, before, policy, spend);
    SpendsTurn(ixs, s, st, before);
    if CanPay(before, policy, spend) {
      var next := Execute(spend, before).value;
      InertRun(ixs, s + 1, |ixs|, source, policy.wantAta, next);
      var after := Run(ixs[s + 1..|ixs|], next).value;
      MovedTwice(st, before, next, source, policy.wantAta, 0, amount);
      MovedTwice(st, next, after, source, policy.wantAta, amount, 0);
      DenominatedStays(policy, before, next, after, spend, amount);
    }
  }

  lemma PinnedIsReadable(sha: Address.Hash, policy: Policy, spend: Instruction)
    requires PinnedSpend(sha, policy, spend)
    ensures Readable(spend)
    ensures policy.delegator.Some? ==>
      Address.DeriveAta(sha, policy.delegator.value, policy.mint, policy.tokenProgram)
        == Some(spend.accounts[A_DELEGATOR_ATA])
  {
  }

  /** Running a list is running what precedes instruction `s`, that instruction, and the rest. */
  lemma SpendsTurn(ixs: seq<Instruction>, s: nat, st: Chain, before: Chain)
    requires s < |ixs| && Run(ixs[..s], st) == Some(before)
    ensures Run(ixs, st) == match Execute(ixs[s], before)
                            case None => None
                            case Some(next) => Run(ixs[s + 1..|ixs|], next)
  {
    hide Execute;
    assert ixs == ixs[..s] + ixs[s..];
    RunAppend(ixs[..s], ixs[s..], st);
    assert ixs[s..][0] == ixs[s] && ixs[s..][1..] == ixs[s + 1..|ixs|];
  }

  /**
   * Running a certified transaction either changes nothing or moves exactly the reported amount of the configured
   * mint from the source slot of its one delegated spend, instruction `s`, to the configured receiver's account; no
   * other balance, no lamport and no mint's supply changes. It pays if and only if the source can in `before`, which
   * is what the instructions ahead of the spend make of the state; it can there if it could at the start.
   */
  lemma CertifiedEffect(sha: Address.Hash, cfg: Config, tx: Bytes, st: Chain) returns (s: nat, before: Chain)
    requires Certify(sha, cfg, tx).Ok?
    ensures Setup(sha, cfg).Ok? && Instructions(tx).Ok? && s < |Instructions(tx).value|
    ensures IsTheSpend(Instructions(tx).value, Instructions(tx).value[s])
    ensures Certify(sha, cfg, tx).value.amount == Amount(Instructions(tx).value[s])
    ensures Run(Instructions(tx).value[..s], st) == Some(before)
    ensures Pays(Setup(sha, cfg).value, Instructions(tx).value, Instructions(tx).value[s], st, before)
    ensures Setup(sha, cfg).value.delegator.Some? ==>
      var policy := Setup(sha, cfg).value;
      Address.DeriveAta(sha, policy.delegator.value, policy.mint, policy.tokenProgram)
        == Some(Instructions(tx).value[s].accounts[A_DELEGATOR_ATA])
  {
    hide Setup, Instructions, Judge, BudgetAfter, Amount, Certify, Pays, Address.DeriveAta, Base58.Encode, PinnedSpend,
      Invoking, NonceConforms, MemoConforms, AllPermitted, FeeBounded, OnlyAt, IsTheSpend, Run;
    CertifyExact(sha, cfg, tx);
    var policy, ixs := Setup(sha, cfg).value, Instructions(tx).value;
    var at: nat, a: int, m: int :| Conforms(sha, policy, ixs, at, a, m);
    s := at;
    before := ConformingEffect(sha, policy, ixs, s, a, m, st);
    CertifyReports(sha, cfg, tx, s, a, m);
    PinnedIsReadable(sha, policy, ixs[s]);
  }
}
