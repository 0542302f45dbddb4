/** The fail-closed payment certifier: what it decides from the bytes, and exactly when it accepts. */
module Certifier {
  import opened Prelude
  import opened Message
  import Address
  import Base58
  import Programs

  const IX_TRANSFER_FIXED: byte := 4
  const IX_TRANSFER_RECURRING: byte := 5
  const IX_CREATE_IDEMPOTENT: byte := 1
  const CB_SET_UNIT_LIMIT: byte := 2
  const CB_SET_UNIT_PRICE: byte := 3
  const DEFAULT_UNIT_LIMIT_PER_IX: nat := 200_000
  const MAX_UNIT_LIMIT: nat := 1_400_000
  const TRANSFER_DATA_LEN: nat := 73
  const TRANSFER_ACCOUNTS: nat := 9

  const A_DELEGATION: nat := 0
  const A_DELEGATOR_ATA: nat := 2
  const A_RECEIVER_ATA: nat := 3
  const A_TOKEN_MINT: nat := 4
  const A_TOKEN_PROGRAM: nat := 5
  const A_DELEGATEE: nat := 6
  const A_SUBSCRIPTIONS_PROGRAM: nat := 8

  /** The little-endian tag of AdvanceNonceAccount. */
  function AdvanceNonceTag(): Bytes {
    [4, 0, 0, 0]
  }

  /** Operator configuration; the empty string stands for an argument not given. */
  datatype Config = Config(
    receiver: string, mint: string, delegation: string, receiverAta: string, delegator: string,
    tokenProgram: string, maxAmount: Option<int>, maxPriority: int, memo: Option<Bytes>, nonce: string)

  /** The configuration with every address decoded. */
  datatype Policy = Policy(
    mint: Key, delegation: Key, tokenProgram: Key, wantAta: Key, nonce: Option<Key>, delegator: Option<Key>,
    maxAmount: Option<int>, maxPriority: int, memo: Option<Bytes>)

  datatype Refusal =
    | MintRequired | DelegationRequired | OneReceiver | BadKey(what: string, cause: Base58.KeyError) | NoOffCurveBump
    | Unparsable(parse: ParseError) | NoInstructions
    | SystemWithoutNonce | NotAdvanceNonce | WrongNonceAccount
    | EmptyBudgetInstruction | UnknownBudgetInstruction | FeeOverCeiling(fee: nat)
    | NotCreateIdempotent | WrongTokenAccount | WrongAtaMint | UnexpectedProgram(program: Key)
    | SpendCount(spends: nat) | NoSpendData | Recurring | WrongDiscriminator | WrongDataLength | WrongAccountCount
    | WrongReceiver | WrongDelegation | WrongMint | WrongTokenProgram | WrongTrailingProgram | WrongPayloadMint
    | WrongPayloadDelegator | WrongDelegatorAta | DelegateeNotSigner | AdvanceTooShort | WrongAuthority
    | NotWritable(slot: nat) | AmountOverCeiling(amount: nat)
    | MissingAdvance | ManyAdvances(advances: nat) | UnexpectedMemo | MissingMemo | ManyMemos(memos: nat) | WrongMemo

  datatype Verdict = Verdict(
    instructions: nat, amount: nat, receiverAta: string, delegation: string, mint: string, fee: nat)

  // ---------------------------------------------------------------------------
  // Configuration
  // ---------------------------------------------------------------------------

  function KeyFrom(s: string, what: string): Result<Key, Refusal> {
    match Base58.DecodeKey(s)
    case Err(e) => Err(BadKey(what, e))
    case Ok(k) => Ok(k)
  }

  function OptionalKey(s: string, what: string): Result<Option<Key>, Refusal> {
    if s == "" then Ok(None) else
      var k :- KeyFrom(s, what);
      Ok(Some(k))
  }

  function WantedAta(sha: Address.Hash, cfg: Config, mint: Key, tokenProgram: Key): Result<Key, Refusal> {
    if cfg.receiverAta != "" then KeyFrom(cfg.receiverAta, "receiver token account")
    else if cfg.receiver != "" then
      var wallet :- KeyFrom(cfg.receiver, "receiver");
      match Address.DeriveAta(sha, wallet, mint, tokenProgram)
      case None => Err(NoOffCurveBump)
      case Some(ata) => Ok(ata)
    else Err(OneReceiver)
  }

  function Setup(sha: Address.Hash, cfg: Config): Result<Policy, Refusal> {
    if cfg.mint == "" then Err(MintRequired)
    else if cfg.delegation == "" then Err(DelegationRequired)
    else if cfg.receiver != "" && cfg.receiverAta != "" then Err(OneReceiver)
    else
      var mint :- KeyFrom(cfg.mint, "mint");
      var delegation :- KeyFrom(cfg.delegation, "delegation");
      var tokenProgram :- KeyFrom(cfg.tokenProgram, "token program");
      var nonce :- OptionalKey(cfg.nonce, "nonce");
      var delegator :- OptionalKey(cfg.delegator, "delegator");
      var wantAta :- WantedAta(sha, cfg, mint, tokenProgram);
      Ok(Policy(mint, delegation, tokenProgram, wantAta, nonce, delegator, cfg.maxAmount, cfg.maxPriority, cfg.memo))
  }

  // ---------------------------------------------------------------------------
  // One instruction at a time, with the running fee state
  // ---------------------------------------------------------------------------

  /** The `cb_state` dict. */
  datatype Budget = Budget(limit: nat, price: nat) {
    function Fee(): nat {
      limit * price / 1_000_000
    }
  }

  function DefaultLimit(instructions: nat): nat {
    if DEFAULT_UNIT_LIMIT_PER_IX * instructions <= MAX_UNIT_LIMIT then DEFAULT_UNIT_LIMIT_PER_IX * instructions
    else MAX_UNIT_LIMIT
  }

  function Kind(ix: Instruction): Programs.Kind {
    Programs.KindOf(ix.program)
  }

  predicate SetsLimit(ix: Instruction) {
    Kind(ix).IsComputeBudget? && |ix.data| == 5 && ix.data[0] == CB_SET_UNIT_LIMIT
  }

  predicate SetsPrice(ix: Instruction) {
    Kind(ix).IsComputeBudget? && |ix.data| == 9 && ix.data[0] == CB_SET_UNIT_PRICE
  }

  function SystemRefusal(policy: Policy, ix: Instruction): Option<Refusal> {
    if policy.nonce.None? then Some(SystemWithoutNonce)
    else if ix.data != AdvanceNonceTag() then Some(NotAdvanceNonce)
    else if ix.accounts == [] || ix.accounts[0] != policy.nonce.value then Some(WrongNonceAccount)
    else None
  }

  function AtaRefusal(policy: Policy, ix: Instruction): Option<Refusal> {
    if ix.data == [] || ix.data[0] != IX_CREATE_IDEMPOTENT then Some(NotCreateIdempotent)
    else if |ix.accounts| < 4 || ix.accounts[1] != policy.wantAta then Some(WrongTokenAccount)
    else if ix.accounts[3] != policy.mint then Some(WrongAtaMint)
    else None
  }

  function ApplyBudget(policy: Policy, ix: Instruction, cb: Budget): Result<Budget, Refusal>
    requires Kind(ix).IsComputeBudget?
  {
    if ix.data == [] then Err(EmptyBudgetInstruction)
    else if !SetsLimit(ix) && !SetsPrice(ix) then Err(UnknownBudgetInstruction)
    else
      var next := if SetsLimit(ix) then cb.(limit := LittleEndian(ix.data[1..]))
                  else cb.(price := LittleEndian(ix.data[1..]));
      if next.Fee() > policy.maxPriority then Err(FeeOverCeiling(next.Fee())) else Ok(next)
  }

  function Unless(refusal: Option<Refusal>, cb: Budget): Result<Budget, Refusal> {
    if refusal.Some? then Err(refusal.value) else Ok(cb)
  }

  function CheckInstruction(policy: Policy, ix: Instruction, cb: Budget): Result<Budget, Refusal> {
    match Kind(ix)
    case IsAllowance => Ok(cb)
    case IsSystem => Unless(SystemRefusal(policy, ix), cb)
    case IsComputeBudget => ApplyBudget(policy, ix, cb)
    case IsAta => Unless(AtaRefusal(policy, ix), cb)
    case IsMemo => Ok(cb)
    case IsOther => Err(UnexpectedProgram(ix.program))
  }

  function CheckAll(policy: Policy, ixs: seq<Instruction>, cb: Budget): Result<Budget, Refusal>
    decreases |ixs|
  {
    if ixs == [] then Ok(cb) else
      var next :- CheckInstruction(policy, ixs[0], cb);
      CheckAll(policy, ixs[1..], next)
  }

  // ---------------------------------------------------------------------------
  // The spend and what must surround it
  // ---------------------------------------------------------------------------

  /** The instructions that invoke the program of one role. */
  function Invoking(ixs: seq<Instruction>, kind: Programs.Kind): seq<Instruction> {
    if ixs == [] then []
    else (if Kind(ixs[0]) == kind then [ixs[0]] else []) + Invoking(ixs[1..], kind)
  }

  function FormRefusal(spend: Instruction): Option<Refusal> {
    if spend.data == [] then Some(NoSpendData)
    else if spend.data[0] == IX_TRANSFER_RECURRING then Some(Recurring)
    else if spend.data[0] != IX_TRANSFER_FIXED then Some(WrongDiscriminator)
    else if |spend.data| != TRANSFER_DATA_LEN then Some(WrongDataLength)
    else if |spend.accounts| != TRANSFER_ACCOUNTS then Some(WrongAccountCount)
    else None
  }

  /** A spend whose slots and payload can be read by position. */
  predicate Readable(spend: Instruction) {
    Shaped(spend) && |spend.data| == TRANSFER_DATA_LEN && |spend.accounts| == TRANSFER_ACCOUNTS
  }

  lemma ReadableByForm(spend: Instruction)
    requires Shaped(spend) && FormRefusal(spend).None?
    ensures Readable(spend)
  {
  }

  function TargetRefusal(policy: Policy, spend: Instruction): Option<Refusal>
    requires Readable(spend)
  {
    if spend.accounts[A_RECEIVER_ATA] != policy.wantAta then Some(WrongReceiver)
    else if spend.accounts[A_DELEGATION] != policy.delegation then Some(WrongDelegation)
    else if spend.accounts[A_TOKEN_MINT] != policy.mint then Some(WrongMint)
    else if spend.accounts[A_TOKEN_PROGRAM] != policy.tokenProgram then Some(WrongTokenProgram)
    else if spend.accounts[A_SUBSCRIPTIONS_PROGRAM] != Programs.Allowance() then Some(WrongTrailingProgram)
    else if spend.data[41..73] != policy.mint then Some(WrongPayloadMint)
    else None
  }

  function DebitRefusal(sha: Address.Hash, policy: Policy, spend: Instruction): Option<Refusal>
    requires Readable(spend)
  {
    match policy.delegator
    case None => None
    case Some(delegator) =>
      if spend.data[9..41] != delegator then Some(WrongPayloadDelegator) else
        match Address.DeriveAta(sha, delegator, policy.mint, policy.tokenProgram)
        case None => Some(NoOffCurveBump)
        case Some(ata) => if spend.accounts[A_DELEGATOR_ATA] != ata then Some(WrongDelegatorAta) else None
  }

  function AuthorityRefusal(ixs: seq<Instruction>, delegatee: Key): Option<Refusal> {
    if ixs == [] then None
    else if !Kind(ixs[0]).IsSystem? then AuthorityRefusal(ixs[1..], delegatee)
    else if |ixs[0].accounts| < 3 then Some(AdvanceTooShort)
    else if ixs[0].accounts[2] != delegatee then Some(WrongAuthority)
    else AuthorityRefusal(ixs[1..], delegatee)
  }

  function WritableRefusal(spend: Instruction): Option<Refusal>
    requires Readable(spend)
  {
    if !spend.writable[A_DELEGATION] then Some(NotWritable(A_DELEGATION))
    else if !spend.writable[A_DELEGATOR_ATA] then Some(NotWritable(A_DELEGATOR_ATA))
    else if !spend.writable[A_RECEIVER_ATA] then Some(NotWritable(A_RECEIVER_ATA))
    else None
  }

  function Amount(spend: Instruction): nat
    requires |spend.data| == TRANSFER_DATA_LEN
  {
    LittleEndian(spend.data[1..9])
  }

  function CompanyRefusal(policy: Policy, ixs: seq<Instruction>): Option<Refusal> {
    var advances, memos := Invoking(ixs, Programs.IsSystem), Invoking(ixs, Programs.IsMemo);
    if policy.nonce.Some? && advances == [] then Some(MissingAdvance)
    else if |advances| > 1 then Some(ManyAdvances(|advances|))
    else match policy.memo
      case None => if memos != [] then Some(UnexpectedMemo) else None
      case Some(expected) =>
        if memos == [] then Some(MissingMemo)
        else if |memos| != 1 then Some(ManyMemos(|memos|))
        else if memos[0].data != expected then Some(WrongMemo)
        else None
  }

  function SpendRefusal(sha: Address.Hash, policy: Policy, ixs: seq<Instruction>, spend: Instruction): Option<Refusal>
    requires Readable(spend)
  {
    if TargetRefusal(policy, spend).Some? then TargetRefusal(policy, spend)
    else if DebitRefusal(sha, policy, spend).Some? then DebitRefusal(sha, policy, spend)
    else if !spend.signer[A_DELEGATEE] then Some(DelegateeNotSigner)
    else if AuthorityRefusal(ixs, spend.accounts[A_DELEGATEE]).Some? then
      AuthorityRefusal(ixs, spend.accounts[A_DELEGATEE])
    else if WritableRefusal(spend).Some? then WritableRefusal(spend)
    else if policy.maxAmount.Some? && Amount(spend) > policy.maxAmount.value then Some(AmountOverCeiling(Amount(spend)))
    else CompanyRefusal(policy, ixs)
  }

  predicate AllShaped(ixs: seq<Instruction>) {
    forall k :: 0 <= k < |ixs| ==> Shaped(ixs[k])
  }

  lemma {:induction false} InvokingKeepsShape(ixs: seq<Instruction>, kind: Programs.Kind)
    requires AllShaped(ixs)
    ensures AllShaped(Invoking(ixs, kind))
    decreases |ixs|
  {
    hide Kind, Shaped;
    if ixs != [] {
      assert AllShaped(ixs[1..]);
      InvokingKeepsShape(ixs[1..], kind);
    }
  }

  /** The decision on an instruction list: the amount it moves and the fee it pays, or the first refusal. */
  function Judge(sha: Address.Hash, policy: Policy, ixs: seq<Instruction>): Result<(nat, nat), Refusal>
    requires AllShaped(ixs)
  {
    if ixs == [] then Err(NoInstructions) else
      var cb :- CheckAll(policy, ixs, Budget(DefaultLimit(|ixs|), 0));
      var spends := Invoking(ixs, Programs.IsAllowance);
      if |spends| != 1 then Err(SpendCount(|spends|)) else
        var spend := spends[0];
        InvokingKeepsShape(ixs, Programs.IsAllowance);
        if FormRefusal(spend).Some? then Err(FormRefusal(spend).value) else
          ReadableByForm(spend);
          var refusal := SpendRefusal(sha, policy, ixs, spend);
          if refusal.Some? then Err(refusal.value) else Ok((Amount(spend), cb.Fee()))
  }

  function Instructions(tx: Bytes): (r: Result<seq<Instruction>, ParseError>)
    ensures r.Ok? ==> AllShaped(r.value)
  {
    var msg :- MessageOf(tx);
    var parsed :- Parse(msg);
    ParsedIsShaped(msg);
    Ok(parsed.instructions)
  }

  /** What `certify_x402_payment_tx` returns or raises. */
  function Certify(sha: Address.Hash, cfg: Config, tx: Bytes): Result<Verdict, Refusal> {
    var policy :- Setup(sha, cfg);
    match Instructions(tx)
    case Err(e) => Err(Unparsable(e))
    case Ok(ixs) =>
      var judged :- Judge(sha, policy, ixs);
      Ok(Verdict(|ixs|, judged.0, Base58.Encode(policy.wantAta), cfg.delegation, cfg.mint, judged.1))
  }
}
