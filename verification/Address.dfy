/** Program-derived addresses: the highest bump whose hash is off the curve. SHA-256 is a parameter. */
module Address {
  import opened Prelude
  import Curve
  import ModArith
  import Programs

  type Hash = Bytes -> Key

  /** The ASCII bytes of "ProgramDerivedAddress". */
  function Marker(): Bytes {
    [80, 114, 111, 103, 114, 97, 109, 68, 101, 114, 105, 118, 101, 100, 65, 100, 100, 114, 101, 115, 115]
  }

  function Preimage(seeds: seq<Bytes>, bump: byte, program: Bytes): Bytes {
    Flatten(seeds) + [bump] + program + Marker()
  }

  function Attempt(sha: Hash, seeds: seq<Bytes>, program: Bytes, bump: byte): Key {
    sha(Preimage(seeds, bump, program))
  }

  /** Tries `bumps - 1` down to 0. */
  function FindBelow(sha: Hash, seeds: seq<Bytes>, program: Bytes, bumps: nat): Option<(Key, byte)>
    requires bumps <= 256
  {
    if bumps == 0 then None
    else if !Curve.OnCurve(Attempt(sha, seeds, program, bumps - 1)) then
      Some((Attempt(sha, seeds, program, bumps - 1), bumps - 1))
    else FindBelow(sha, seeds, program, bumps - 1)
  }

  function Find(sha: Hash, seeds: seq<Bytes>, program: Bytes): Option<(Key, byte)> {
    FindBelow(sha, seeds, program, 256)
  }

  /** `find_program_address`; None is its refusal. */
  method FindProgramAddress(sha: Hash, seeds: seq<Bytes>, program: Bytes) returns (r: Option<(Key, byte)>)
    ensures r == Find(sha, seeds, program)
  {
    hide Curve.OnCurve;
    var prefix: Bytes := [];
    for k := 0 to |seeds|
      invariant prefix + Flatten(seeds[k..]) == Flatten(seeds)
    {
      prefix := prefix + seeds[k];
      assert seeds[k..][1..] == seeds[k + 1..];
    }
    assert prefix == Flatten(seeds);
    for bump := 256 downto 0
      invariant FindBelow(sha, seeds, program, bump) == Find(sha, seeds, program)
    {
      var candidate := sha(prefix + [bump] + program + Marker());
      if !Curve.OnCurve(candidate) {
        return Some((candidate, bump));
      }
    }
    r := None;
  }

  /** `derive_ata`. */
  function DeriveAta(sha: Hash, wallet: Key, mint: Key, tokenProgram: Key): Option<Key> {
    match Find(sha, [wallet, tokenProgram, mint], Programs.Ata())
    case None => None
    case Some(found) => Some(found.0)
  }

  /** The marker is the ASCII spelling of a name. */
  lemma MarkerSpells(i: nat)
    ensures |Marker()| == |"ProgramDerivedAddress"|
    ensures i < |Marker()| ==> Marker()[i] as char == "ProgramDerivedAddress"[i]
  {
  }

  /** The account is the hash under the highest bump that the on-curve test rejects. */
  ghost predicate IsAta(sha: Hash, wallet: Key, mint: Key, tokenProgram: Key, ata: Key) {
    exists bump: byte :: IsAtaUnder(sha, wallet, mint, tokenProgram, ata, bump)
  }

  ghost predicate IsAtaUnder(sha: Hash, wallet: Key, mint: Key, tokenProgram: Key, ata: Key, bump: byte) {
    && ata == sha(wallet + tokenProgram + mint + [bump] + Programs.Ata() + Marker())
    && !Curve.OnCurve(ata)
    && forall b: byte :: b > bump ==> Curve.OnCurve(sha(wallet + tokenProgram + mint + [b] + Programs.Ata() + Marker()))
  }

  lemma AttemptHashes(sha: Hash, wallet: Key, mint: Key, tokenProgram: Key, bump: byte)
    ensures Attempt(sha, [wallet, tokenProgram, mint], Programs.Ata(), bump)
         == sha(wallet + tokenProgram + mint + [bump] + Programs.Ata() + Marker())
  {
    hide Programs.Ata, Marker;
    var seeds: seq<Bytes> := [wallet, tokenProgram, mint];
    assert seeds[1..] == [tokenProgram, mint] && seeds[1..][1..] == [mint] && seeds[1..][1..][1..] == [];
    assert Flatten(seeds[1..][1..]) == mint + Flatten(seeds[1..][1..][1..]) == mint;
    assert Flatten(seeds[1..]) == tokenProgram + mint;
    Reassociate(wallet, tokenProgram, mint);
  }

  lemma {:induction false} FindBelowHighest(sha: Hash, seeds: seq<Bytes>, program: Bytes, bumps: nat)
    requires bumps <= 256
    ensures match FindBelow(sha, seeds, program, bumps)
            case Some(found) =>
              && found.1 < bumps && found.0 == Attempt(sha, seeds, program, found.1) && !Curve.OnCurve(found.0)
              && forall b: byte :: found.1 < b < bumps ==> Curve.OnCurve(Attempt(sha, seeds, program, b))
            case None => forall b: byte :: b < bumps ==> Curve.OnCurve(Attempt(sha, seeds, program, b))
    decreases bumps
  {
    hide Curve.OnCurve, Attempt;
    if bumps > 0 {
      FindBelowHighest(sha, seeds, program, bumps - 1);
    }
  }

  /** Deriving an associated token account hashes wallet, token program and mint, in that order, and the bump. */
  lemma AtaExact(sha: Hash, wallet: Key, mint: Key, tokenProgram: Key, ata: Key)
    ensures DeriveAta(sha, wallet, mint, tokenProgram) == Some(ata) <==> IsAta(sha, wallet, mint, tokenProgram, ata)
  {
    var seeds: seq<Bytes> := [wallet, tokenProgram, mint];
    FindBelowHighest(sha, seeds, Programs.Ata(), 256);
    forall b: byte {
      AttemptHashes(sha, wallet, mint, tokenProgram, b);
    }
    hide Curve.OnCurve, Attempt, FindBelow, Programs.Ata, Marker;
    var found := DeriveAta(sha, wallet, mint, tokenProgram);
    if found.Some? {
      var bump := Find(sha, seeds, Programs.Ata()).value.1;
      assert IsAtaUnder(sha, wallet, mint, tokenProgram, found.value, bump);
    }
    if IsAta(sha, wallet, mint, tokenProgram, ata) {
      var bump: byte :| IsAtaUnder(sha, wallet, mint, tokenProgram, ata, bump);
      assert found.Some? && Find(sha, seeds, Programs.Ata()).value.1 == bump;
    }
  }

  lemma {:induction false} FindBelowExact(sha: Hash, seeds: seq<Bytes>, program: Bytes, bumps: nat)
    requires ModArith.Prime(Curve.P) && bumps <= 256
    ensures match FindBelow(sha, seeds, program, bumps)
            case Some(found) =>
              && found.1 < bumps
              && found.0 == Attempt(sha, seeds, program, found.1)
              && !Curve.NamesPoint(found.0)
              && forall b: byte :: found.1 < b < bumps ==> Curve.NamesPoint(Attempt(sha, seeds, program, b))
            case None => forall b: byte :: b < bumps ==> Curve.NamesPoint(Attempt(sha, seeds, program, b))
    decreases bumps
  {
    hide Curve.OnCurve, Curve.NamesPoint, ModArith.Prime, Attempt;
    if bumps > 0 {
      Curve.OnCurveExact(Attempt(sha, seeds, program, bumps - 1));
      FindBelowExact(sha, seeds, program, bumps - 1);
    }
  }

  /**
   * The derived address is the hash under the highest bump that is no point of the curve, and the search
   * refuses only when all 256 hashes are points.
   */
  lemma FindExact(sha: Hash, seeds: seq<Bytes>, program: Bytes)
    requires ModArith.Prime(Curve.P)
    ensures match Find(sha, seeds, program)
            case Some(found) =>
              && found.0 == sha(Flatten(seeds) + [found.1] + program + Marker())
              && !Curve.NamesPoint(found.0)
              && forall b: byte :: b > found.1 ==> Curve.NamesPoint(sha(Flatten(seeds) + [b] + program + Marker()))
            case None => forall b: byte :: Curve.NamesPoint(sha(Flatten(seeds) + [b] + program + Marker()))
  {
    forall b: byte
      ensures Attempt(sha, seeds, program, b) == sha(Flatten(seeds) + [b] + program + Marker())
    {
    }
    hide Curve.NamesPoint, ModArith.Prime, FindBelow, Marker, Flatten, Attempt;
    FindBelowExact(sha, seeds, program, 256);
  }
}
