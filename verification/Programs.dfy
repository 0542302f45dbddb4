/** The program ids the certifiers name, with the proof that each is a 32-byte key and that no two coincide. */
module Programs {
  import opened Prelude
  import opened Base58
  import ModArith

  const ALLOWANCE_B58 := "De1egAFMkMWZSN5rYXRj9CAdheBamobVNubTsi9avR44"
  const TOKEN_B58 := "TokenkegQfeZyiNwAJbNbGKPFXCWuBvf9Ss623VQ5DA"
  const TOKEN_2022_B58 := "TokenzQdBNbLqP5VEhdkAS6EPFLC1PHnBqCXEpPxuEb"
  const ATA_B58 := "ATokenGPvbdGVxr1b2hvZbsiqW5xWH25efTNsLJA8knL"
  const MEMO_B58 := "MemoSq4gqABAXKb96qnH8TysNcWxMyWCqXgDLGmfcHr"
  const COMPUTE_BUDGET_B58 := "ComputeBudget111111111111111111111111111111"

  /** The System program's id is 32 zero bytes. */
  function System(): Key {
    AsBytes(Zeros(32))
  }

  // ---------------------------------------------------------------------------
  // How many bytes a string names
  // ---------------------------------------------------------------------------

  lemma {:induction false} LeadingDigitBounds(ds: Digits)
    requires Below(ds, 58) && ds != []
    ensures ds[0] * ModArith.Pow(58, |ds| - 1) <= ToNat(58, ds) < (ds[0] + 1) * ModArith.Pow(58, |ds| - 1)
    decreases |ds|
  {
    if |ds| == 1 {
      assert ds[..0] == [];
      assert ToNat(58, []) == 0;
    } else {
      LeadingDigitBounds(ds[..|ds| - 1]);
      ShiftBounds(ds[0], ModArith.Pow(58, |ds| - 2), ToNat(58, ds[..|ds| - 1]), ds[|ds| - 1]);
    }
  }

  lemma ShiftBounds(top: nat, x: int, q: nat, last: nat)
    requires top * x <= q < (top + 1) * x && last < 58
    ensures top * (58 * x) <= q * 58 + last < (top + 1) * (58 * x)
  {
    assert top * (58 * x) == 58 * (top * x);
    assert (top + 1) * (58 * x) == 58 * ((top + 1) * x);
  }

  lemma {:induction false} NumeralLength(n: nat, k: nat)
    requires k > 0 && ModArith.Pow(256, k - 1) <= n < ModArith.Pow(256, k)
    ensures |FromNat(256, n)| == k
    decreases k
  {
    if k == 1 {
      assert ModArith.Pow(256, 1) == 256 * ModArith.Pow(256, 0);
      assert FromNat(256, n / 256) == [];
    } else {
      NumeralLength(n / 256, k - 1);
    }
  }

  /** Names 32 bytes: a non-zero leading digit that puts the value between 256^31 and 256^32. */
  lemma NamesAKey(s: string, top: nat)
    requires Valid(s) && s != "" && top == ValueOf(s[0]) > 0
    requires ModArith.Pow(256, 31) <= top * ModArith.Pow(58, |s| - 1)
    requires (top + 1) * ModArith.Pow(58, |s| - 1) <= ModArith.Pow(256, 32)
    ensures |Decoded(s)| == 32
  {
    var ds := DigitsOf(s);
    hide ModArith.Pow;
    LeadingDigitBounds(ds);
    NumeralLength(ToNat(58, ds), 32);
    assert LeadingZeros(ds) == 0;
  }

  lemma Powers()
    ensures ModArith.Pow(58, 42) == 115871260020027757769182095419415455604368209753879122781949129969750769664
    ensures ModArith.Pow(58, 43) == 6720533081161609950612561534326096425053356165724989121353049538245544640512
    ensures ModArith.Pow(256, 31) == 452312848583266388373324160190187140051835877600158453279131187530910662656
    ensures ModArith.Pow(256, 32) == 115792089237316195423570985008687907853269984665640564039457584007913129639936
  {
    assert ModArith.Pow(58, 7) == 2207984167552;
    ModArith.PowAdd(58, 7, 7);
    ModArith.PowAdd(58, 14, 7);
    ModArith.PowAdd(58, 21, 21);
    assert ModArith.Pow(58, 43) == 58 * ModArith.Pow(58, 42);
    assert ModArith.Pow(256, 7) == 72057594037927936;
    assert ModArith.Pow(256, 8) == 256 * ModArith.Pow(256, 7);
    ModArith.PowAdd(256, 8, 8);
    ModArith.PowAdd(256, 16, 8);
    ModArith.PowAdd(256, 24, 7);
    assert ModArith.Pow(256, 32) == 256 * ModArith.Pow(256, 31);
  }

  lemma NotSystem(s: string)
    requires Valid(s) && s != "" && ValueOf(s[0]) > 0 && |Decoded(s)| == 32
    ensures Decoded(s) != System()
  {
    assert LeadingZeros(DigitsOf(s)) == 0;
    assert Decoded(s)[0] != 0;
  }

  /** The lengths and leading characters the ids have all name 32 bytes. */
  lemma KeyShaped(s: string)
    requires Valid(s) && (|s| == 43 || |s| == 44)
    requires 4 <= ValueOf(s[0]) && (|s| == 44 ==> ValueOf(s[0]) <= 16)
    ensures DecodeKey(s) == Ok(Decoded(s)) && Decoded(s) != System()
  {
    Powers();
    hide ModArith.Pow, Decoded;
    NamesAKey(s, ValueOf(s[0]));
    NotSystem(s);
  }

  // ---------------------------------------------------------------------------
  // The ids
  // ---------------------------------------------------------------------------

  /** The programs whose ids are spelled in base58. */
  datatype Named = AllowanceProgram | TokenProgram | Token2022Program | AtaProgram | MemoProgram | ComputeBudgetProgram

  function Spelling(p: Named): string {
    match p
    case AllowanceProgram => ALLOWANCE_B58
    case TokenProgram => TOKEN_B58
    case Token2022Program => TOKEN_2022_B58
    case AtaProgram => ATA_B58
    case MemoProgram => MEMO_B58
    case ComputeBudgetProgram => COMPUTE_BUDGET_B58
  }

  lemma AllowanceSpelling()
    ensures Valid(ALLOWANCE_B58) && |ALLOWANCE_B58| == 44 && ALLOWANCE_B58[0] == 'D'
  {
    hide Decoded, DecodeKey, Decode, DigitsOf;
  }

  lemma TokenSpelling()
    ensures Valid(TOKEN_B58) && |TOKEN_B58| == 43 && TOKEN_B58[0] == 'T' && TOKEN_B58[5] == 'k'
  {
    hide Decoded, DecodeKey, Decode, DigitsOf;
  }

  lemma Token2022Spelling()
    ensures Valid(TOKEN_2022_B58) && |TOKEN_2022_B58| == 43 && TOKEN_2022_B58[0] == 'T' && TOKEN_2022_B58[5] == 'z'
  {
    hide Decoded, DecodeKey, Decode, DigitsOf;
  }

  lemma AtaSpelling()
    ensures Valid(ATA_B58) && |ATA_B58| == 44 && ATA_B58[0] == 'A'
  {
    hide Decoded, DecodeKey, Decode, DigitsOf;
  }

  lemma MemoSpelling()
    ensures Valid(MEMO_B58) && |MEMO_B58| == 43 && MEMO_B58[0] == 'M'
  {
    hide Decoded, DecodeKey, Decode, DigitsOf;
  }

  lemma ComputeBudgetSpelling()
    ensures Valid(COMPUTE_BUDGET_B58) && |COMPUTE_BUDGET_B58| == 43 && COMPUTE_BUDGET_B58[0] == 'C'
  {
    hide Decoded, DecodeKey, Decode, DigitsOf;
  }

  /** What the spellings have in common, and what tells them apart. */
  lemma Spelled(p: Named)
    ensures Valid(Spelling(p)) && |Spelling(p)| == if p.AllowanceProgram? || p.AtaProgram? then 44 else 43
    ensures Spelling(p)[0] == match p
                              case AllowanceProgram => 'D'
                              case TokenProgram => 'T'
                              case Token2022Program => 'T'
                              case AtaProgram => 'A'
                              case MemoProgram => 'M'
                              case ComputeBudgetProgram => 'C'
    ensures p.TokenProgram? ==> Spelling(p)[5] == 'k'
    ensures p.Token2022Program? ==> Spelling(p)[5] == 'z'
  {
    AllowanceSpelling();
    TokenSpelling();
    Token2022Spelling();
    AtaSpelling();
    MemoSpelling();
    ComputeBudgetSpelling();
    hide Valid, ALLOWANCE_B58, TOKEN_B58, TOKEN_2022_B58, ATA_B58, MEMO_B58, COMPUTE_BUDGET_B58;
  }

  lemma SpelledIsKey(p: Named)
    ensures Valid(Spelling(p)) && DecodeKey(Spelling(p)) == Ok(Decoded(Spelling(p))) && Decoded(Spelling(p)) != System()
  {
    Spelled(p);
    hide Spelling, Valid, Decoded, DecodeKey;
    KeyShaped(Spelling(p));
  }

  /** The 32-byte key a spelling names. */
  function IdOf(p: Named): (k: Key)
    ensures Valid(Spelling(p)) && DecodeKey(Spelling(p)) == Ok(k)
    ensures k == Decoded(Spelling(p)) != System()
  {
    SpelledIsKey(p);
    Decoded(Spelling(p))
  }

  /** No two program ids coincide, because their spellings differ and decoding is injective. */
  lemma IdsDiffer(p: Named, q: Named)
    requires p != q
    ensures IdOf(p) != IdOf(q)
  {
    Spelled(p);
    Spelled(q);
    hide Spelling, Valid, Decoded, DecodeKey;
    if IdOf(p) == IdOf(q) {
      DecodedInjective(Spelling(p), Spelling(q));
    }
  }

  function Allowance(): Key {
    IdOf(AllowanceProgram)
  }

  function Token(): Key {
    IdOf(TokenProgram)
  }

  function Token2022(): Key {
    IdOf(Token2022Program)
  }

  function Ata(): Key {
    IdOf(AtaProgram)
  }

  function Memo(): Key {
    IdOf(MemoProgram)
  }

  function ComputeBudget(): Key {
    IdOf(ComputeBudgetProgram)
  }

  /** The seven ids, the System program's among them, are seven keys. */
  lemma AllDistinct()
    ensures Distinct([System(), Allowance(), ComputeBudget(), Ata(), Memo(), Token(), Token2022()])
  {
    hide System, Spelling, Valid, Decoded, DecodeKey, IdOf;
    var ids := [System(), Allowance(), ComputeBudget(), Ata(), Memo(), Token(), Token2022()];
    var names :=
      [AllowanceProgram, ComputeBudgetProgram, AtaProgram, MemoProgram, TokenProgram, Token2022Program];
    forall i, j | 0 <= i < j < |ids|
      ensures ids[i] != ids[j]
    {
      if i > 0 {
        IdsDiffer(names[i - 1], names[j - 1]);
      }
    }
  }

  /** The role a program id plays for the payment certifier. */
  datatype Kind = IsAllowance | IsSystem | IsComputeBudget | IsAta | IsMemo | IsOther

  function KindOf(program: Key): Kind {
    if program == Allowance() then IsAllowance
    else if program == System() then IsSystem
    else if program == ComputeBudget() then IsComputeBudget
    else if program == Ata() then IsAta
    else if program == Memo() then IsMemo
    else IsOther
  }

  /** The order of the comparisons does not matter: each role belongs to one id. */
  lemma KindExact(program: Key)
    ensures KindOf(program) == IsAllowance <==> program == Allowance()
    ensures KindOf(program) == IsSystem <==> program == System()
    ensures KindOf(program) == IsComputeBudget <==> program == ComputeBudget()
    ensures KindOf(program) == IsAta <==> program == Ata()
    ensures KindOf(program) == IsMemo <==> program == Memo()
  {
    AllDistinct();
    hide Allowance, System, ComputeBudget, Ata, Memo, Token, Token2022;
    var ids := [System(), Allowance(), ComputeBudget(), Ata(), Memo(), Token(), Token2022()];
    assert ids[0] != ids[1] && ids[0] != ids[2] && ids[0] != ids[3] && ids[0] != ids[4] && ids[1] != ids[2]
      && ids[1] != ids[3] && ids[1] != ids[4] && ids[2] != ids[3] && ids[2] != ids[4] && ids[3] != ids[4];
  }
}
