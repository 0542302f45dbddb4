/** A checkout whose manifest is emitted with an empty mint scan: every deployed text names the devnet mint. */
module DroppedScan {
  import opened Prelude
  import opened DeployMap
  import opened SelfCheck
  import opened Manifest
  import Base58
  import Patterns
  import Triangle

  const MERCHANT := "C331X4YCHCdcESexRTKSjE5etjsWyWJLK73Z18ZWiLHJ"

  // ---------------------------------------------------------------------------
  // The checkout
  // ---------------------------------------------------------------------------

  /** Below "skills/": the notes a.md to i.md, and the script that enforces the pins. */
  function Rel(i: nat): string
    requires i < 10
  {
    if i < 9 then [(97 + i) as char] + ".md" else PIN_SOURCE[7..]
  }

  function File(i: nat): Path
    requires i < 10
  {
    "skills/" + Rel(i)
  }

  function Place(i: nat): Path
    requires i < 10
  {
    "shared/" + Rel(i)
  }

  /** The tracked files, sorted. */
  function Files(): (r: seq<Path>)
    ensures |r| == 10 && forall i :: 0 <= i < 10 ==> r[i] == File(i)
  {
    seq(10, i requires 0 <= i < 10 => File(i))
  }

  /** Both pins, and beside them the mint the shop used before. */
  function Script(): string {
    Patterns.PinLine("MERCHANT", MERCHANT) + "\n"
    + (Patterns.PinLine("MINT", MAINNET_MINT) + "\n" + (Patterns.PinLine("OLD", DEVNET_MINT) + "\n"))
  }

  function Warning(): string {
    "never pay with " + DEVNET_MINT
  }

  function Content(f: Path): string {
    if f == PIN_SOURCE then Script() else Warning() + "\n"
  }

  /** What the example leaves open: the hash function, glob patterns, and the state of the repository. */
  datatype Rest = Rest(sha: Bytes -> Digest, matches: (string, string) -> bool, head: string, dirty: bool)

  function Skills(): Entry {
    Entry("skills", "shared", "", false)
  }

  function Tracked(u: Rest): Git {
    Git(prefix => Patterns.ListedUnder(prefix, Files()), Patterns.Relative, Patterns.NameOf, u.matches)
  }

  function Texts(u: Rest): Reading {
    Reading(u.sha, Patterns.Decode, Patterns.TokensOf, Patterns.Lines, Patterns.Lower, Patterns.Prohibits)
  }

  function Questions(): Rules {
    Rules(Patterns.Suffix, Patterns.IsTest, t => Patterns.PinIn("MERCHANT", t), t => Patterns.PinIn("MINT", t),
          Patterns.IsAddress, Patterns.Normal)
  }

  lemma AsciiAddress(s: string)
    requires Base58.Valid(s)
    ensures Patterns.Ascii(s)
  {
  }

  lemma MerchantSpelling()
    ensures Base58.Valid(MERCHANT) && |MERCHANT| == 44 && MERCHANT[0] == 'C'
  {
    hide Base58.Decoded, Base58.DecodeKey, Base58.Decode, Base58.DigitsOf;
  }

  lemma MainnetSpelling()
    ensures Base58.Valid(MAINNET_MINT) && |MAINNET_MINT| == 44 && MAINNET_MINT[0] == 'E'
  {
    hide Base58.Decoded, Base58.DecodeKey, Base58.Decode, Base58.DigitsOf;
  }

  lemma DevnetSpelling()
    ensures Base58.Valid(DEVNET_MINT) && |DEVNET_MINT| == 44 && DEVNET_MINT[0] == '4'
  {
    hide Base58.Decoded, Base58.DecodeKey, Base58.Decode, Base58.DigitsOf;
  }

  lemma Addresses()
    ensures Patterns.IsAddress(MERCHANT) && Patterns.IsAddress(MAINNET_MINT) && Patterns.IsAddress(DEVNET_MINT)
    ensures MERCHANT[0] == 'C' && MAINNET_MINT[0] == 'E' && DEVNET_MINT[0] == '4'
  {
    MerchantSpelling();
    MainnetSpelling();
    DevnetSpelling();
    hide Base58.Valid, MERCHANT, MAINNET_MINT, DEVNET_MINT;
  }

  lemma AsciiParts(a: string, b: string)
    requires Patterns.Ascii(a) && Patterns.Ascii(b)
    ensures Patterns.Ascii(a + b)
  {
  }

  lemma AsciiLine(name: string, v: string)
    requires Patterns.Ascii(name) && Base58.Valid(v)
    ensures Patterns.Ascii(Patterns.PinLine(name, v) + "\n")
  {
    AsciiAddress(v);
    hide Base58.Valid;
    AsciiParts(name, " = \"");
    AsciiParts(name + " = \"", v);
    AsciiParts(name + " = \"" + v, "\"");
    AsciiParts(name + " = \"" + v + "\"", "\n");
  }

  lemma AsciiContent(f: Path)
    ensures Patterns.Ascii(Content(f))
  {
    Addresses();
    assert Patterns.Ascii("MERCHANT") && Patterns.Ascii("MINT") && Patterns.Ascii("OLD");
    assert Patterns.Ascii("never pay with ") && Patterns.Ascii("\n");
    AsciiAddress(DEVNET_MINT);
    hide Patterns.Ascii, Base58.Valid, MERCHANT, MAINNET_MINT, DEVNET_MINT, PIN_SOURCE, Patterns.PinLine;
    AsciiLine("MERCHANT", MERCHANT);
    AsciiLine("MINT", MAINNET_MINT);
    AsciiLine("OLD", DEVNET_MINT);
    AsciiParts(Patterns.PinLine("MINT", MAINNET_MINT) + "\n", Patterns.PinLine("OLD", DEVNET_MINT) + "\n");
    AsciiParts(Patterns.PinLine("MERCHANT", MERCHANT) + "\n",
               Patterns.PinLine("MINT", MAINNET_MINT) + "\n" + (Patterns.PinLine("OLD", DEVNET_MINT) + "\n"));
    AsciiParts("never pay with ", DEVNET_MINT);
    AsciiParts(Warning(), "\n");
  }

  function Tree(): map<Path, Bytes> {
    map f | f in Files() :: (AsciiContent(f); Patterns.Encode(Content(f)))
  }

  function Example(u: Rest): Config {
    Config(Tracked(u), Texts(u), Questions(), Tree(), Targets([Skills()], {}, {}, [], []), [], map[], _ => None,
           u.head, u.dirty)
  }

  // ---------------------------------------------------------------------------
  // The files and their places
  // ---------------------------------------------------------------------------

  lemma NoteName(i: nat)
    requires i < 9
    ensures Patterns.Suffix(File(i)) == ".md" && !Patterns.IsTest(File(i)) && File(i) != PIN_SOURCE
  {
    assert |File(i)| == 11 < |PIN_SOURCE|;
    assert File(i) == "skills" + "/" + ([(97 + i) as char] + "." + "md");
    hide File, PIN_SOURCE, Patterns.Suffix, Patterns.NameOf;
    Patterns.NameParts("skills", [(97 + i) as char], "md");
  }

  lemma ScriptPath()
    ensures PIN_SOURCE == "skills/solana-pay/scripts" + "/" + ("pay_link" + "." + "py")
  {
  }

  lemma ScriptPlace()
    ensures File(9) == PIN_SOURCE
  {
    SkillsFirst();
    hide PIN_SOURCE;
    assert PIN_SOURCE == PIN_SOURCE[..7] + PIN_SOURCE[7..];
  }

  lemma SkillsFirst()
    ensures |PIN_SOURCE| >= 7 && PIN_SOURCE[..7] == "skills/"
  {
  }

  lemma ScriptName()
    ensures Patterns.Suffix(PIN_SOURCE) == ".py" && !Patterns.IsTest(PIN_SOURCE)
  {
    hide PIN_SOURCE, Patterns.Suffix, Patterns.NameOf;
    ScriptPath();
    Patterns.NameParts("skills/solana-pay/scripts", "pay_link", "py");
    assert ("pay_link" + "." + "py")[0] == 'p';
  }

  lemma PlacesDiffer(i: nat, j: nat)
    requires i < j < 10
    ensures Place(i) != Place(j)
  {
    assert Place(i)[7] == (97 + i) as char;
    assert Place(j)[7] == if j < 9 then (97 + j) as char else PIN_SOURCE[7];
    assert PIN_SOURCE[7] == 's';
  }

  lemma {:induction false} MatchedInPlace(u: Rest, n: nat)
    requires n <= 10
    ensures Matched(Tracked(u), Skills(), Files()[..n]) == seq(n, i requires 0 <= i < n => (File(i), Place(i)))
  {
    hide Place, File, Tracked, Skills, Rel;
    if n > 0 {
      assert Files()[..n][..n - 1] == Files()[..n - 1];
      MatchedInPlace(u, n - 1);
      ClaimInPlace(u, n - 1);
    }
  }

  lemma ClaimInPlace(u: Rest, i: nat)
    requires i < 10
    ensures ClaimOf(Tracked(u), Skills(), File(i)) == Some((File(i), Place(i)))
  {
    hide Rel;
    Stripped();
    assert Patterns.Relative(File(i), "skills") == Rel(i);
    assert "shared" + "/" + Rel(i) == Place(i);
  }

  lemma Stripped()
    ensures Strip("skills") == "skills" && Strip("shared") == "shared"
  {
  }

  /** The claims of ten files on ten places. */
  predicate InPlace(claims: seq<Claim>) {
    |claims| == 10 && forall i :: 0 <= i < 10 ==> claims[i] == (File(i), Place(i))
  }

  lemma ExampleClaims(u: Rest) returns (claims: seq<Claim>)
    ensures claims == Claims(Tracked(u), [Skills()]) == EntryClaims(Tracked(u), Skills()) && Usable(Skills())
    ensures InPlace(claims)
  {
    Stripped();
    hide Rel, Place, Strip;
    forall f | f in Files()
      ensures Patterns.IsUnder("skills", f)
    {
      var i :| 0 <= i < 10 && Files()[i] == f;
      assert "skills" + "/" == "skills/";
    }
    Patterns.AllListed("skills", Files());
    assert Files()[..10] == Files();
    MatchedInPlace(u, 10);
    claims := EntryClaims(Tracked(u), Skills());
    assert [Skills()][..0] == [];
    assert Claims(Tracked(u), []) == [];
    assert Claims(Tracked(u), [Skills()]) == [] + claims;
  }

  lemma {:induction false} OwnersOfDistinct(claims: seq<Claim>)
    requires forall i, j :: 0 <= i < j < |claims| ==> claims[i].1 != claims[j].1
    ensures |Owners(claims)| == |claims|
  {
    if claims != [] {
      var n := |claims| - 1;
      OwnersOfDistinct(claims[..n]);
      OwnersClaimed(claims[..n]);
      hide Owners;
      assert claims[n].1 !in Owners(claims[..n]);
      OneMoreOwner(claims);
    }
  }

  lemma {:induction false} OneMoreOwner(claims: seq<Claim>)
    requires claims != [] && claims[|claims| - 1].1 !in Owners(claims[..|claims| - 1])
    ensures |Owners(claims)| == |Owners(claims[..|claims| - 1])| + 1
  {
  }

  lemma DistinctPlaces(claims: seq<Claim>)
    requires InPlace(claims)
    ensures Agree(claims) && |Owners(claims)| == 10
  {
    hide File, Place, Owners;
    forall i, j | 0 <= i < j < |claims|
      ensures claims[i].1 != claims[j].1
    {
      PlacesDiffer(i, j);
    }
    OwnersOfDistinct(claims);
  }

  predicate AllPlaced(placed: map<Path, Path>) {
    && (forall i :: 0 <= i < 10 ==> Place(i) in placed && placed[Place(i)] == File(i))
    && (forall b :: b in placed ==> placed[b] in Files())
  }

  lemma OwnersInPlace(claims: seq<Claim>)
    requires InPlace(claims)
    ensures AllPlaced(Owners(claims))
  {
    hide File, Place, Owners;
    forall i | 0 <= i < 10
      ensures Place(i) in Owners(claims) && Owners(claims)[Place(i)] == File(i)
    {
      forall j | 0 <= j < i
        ensures claims[j].1 != claims[i].1
      {
        PlacesDiffer(j, i);
      }
      FirstClaimWins(claims, i);
    }
    OwnersClaimed(claims);
    forall b | b in Owners(claims)
      ensures Owners(claims)[b] in Files()
    {
      var i :| 0 <= i < 10 && claims[i] == (Owners(claims)[b], b);
      assert Files()[i] in Files();
    }
  }

  lemma ExamplePlaced(u: Rest)
    ensures Trusted(Tracked(u), [Skills()]) && |Placed(Example(u))| == 10 && AllPlaced(Placed(Example(u)))
  {
    hide Claims, EntryClaims, Owners, Place, File, Usable, Example, Skills, Tracked, Placed, Agree, AllPlaced;
    var claims := ExampleClaims(u);
    ExampleOwners(u);
    DistinctPlaces(claims);
    OwnersInPlace(claims);
  }

  lemma ExampleOwners(u: Rest)
    ensures Placed(Example(u)) == Owners(Claims(Tracked(u), [Skills()]))
  {
    hide Claims, Owners, Tracked, Skills;
  }

  // ---------------------------------------------------------------------------
  // The texts
  // ---------------------------------------------------------------------------

  /** A tracked file reads back as its content. */
  lemma ReadsBack(u: Rest, i: nat)
    requires i < 10
    ensures var cfg, f := Example(u), File(i);
            f in cfg.tree && cfg.rd.text(cfg.tree[f]) == Content(f)
  {
    hide Content, File;
    assert Files()[i] in Files();
    AsciiContent(File(i));
    Patterns.DecodeUndoesEncode(Content(File(i)));
  }

  /** The one script and the nine notes, as the generator sees them. */
  lemma FileFacts(u: Rest, i: nat)
    requires i < 10
    ensures var cfg, f := Example(u), File(i);
            && f in cfg.tree && cfg.rd.text(cfg.tree[f]) == (if i < 9 then Warning() + "\n" else Script())
            && cfg.rules.suffix(f) == (if i < 9 then ".md" else ".py") && !cfg.rules.isTest(f)
            && (i == 9 ==> f == PIN_SOURCE)
  {
    ReadsBack(u, i);
    if i < 9 {
      NoteName(i);
    } else {
      ScriptPlace();
      ScriptName();
    }
    hide File, Script, Warning, PIN_SOURCE, Patterns.Suffix, Patterns.IsTest, Tree, Tracked;
  }

  lemma ContainsInside(before: string, w: string, after: string)
    ensures Contains(before + w + after, w)
  {
    var s := before + w + after;
    assert s[|before|..] == w + after;
  }

  lemma ScriptPins()
    ensures Patterns.PinIn("MERCHANT", Script()) == MERCHANT && Patterns.PinIn("MINT", Script()) == MAINNET_MINT
  {
    Addresses();
    hide MERCHANT, MAINNET_MINT, DEVNET_MINT, Patterns.PinAt, Patterns.IsAddress;
    var last := Patterns.PinLine("OLD", DEVNET_MINT) + "\n";
    var rest := Patterns.PinLine("MINT", MAINNET_MINT) + "\n" + last;
    Patterns.PinMatches("MERCHANT", MERCHANT, rest);
    Patterns.PinMatches("MINT", MAINNET_MINT, last);
    NoMintYet(rest);
    NoNewline(MERCHANT);
    Patterns.SkipLine("MINT", Patterns.PinLine("MERCHANT", MERCHANT), rest, true);
  }

  lemma NoMintYet(rest: string)
    ensures Patterns.PinAt("MINT", Patterns.PinLine("MERCHANT", MERCHANT) + "\n" + rest).None?
  {
    hide MERCHANT;
    var t := Patterns.PinLine("MERCHANT", MERCHANT) + "\n" + rest;
    assert t[1] == 'E' && "MINT"[1] == 'I';
  }

  lemma NoNewline(s: string)
    requires Patterns.IsAddress(s)
    ensures '\n' !in Patterns.PinLine("MERCHANT", s)
  {
    assert forall i :: 0 <= i < |s| ==> s[i] != '\n';
    assert '\n' !in "MERCHANT" && '\n' !in " = \"" && '\n' !in "\"";
  }

  lemma ScriptCarriesPins()
    ensures Contains(Script(), MERCHANT) && Contains(Script(), MAINNET_MINT)
  {
    hide MERCHANT, MAINNET_MINT, DEVNET_MINT, Contains;
    var last := Patterns.PinLine("OLD", DEVNET_MINT) + "\n";
    var rest := Patterns.PinLine("MINT", MAINNET_MINT) + "\n" + last;
    var first := Patterns.PinLine("MERCHANT", MERCHANT) + "\n" + "MINT = \"";
    assert Script() == "MERCHANT = \"" + MERCHANT + ("\"\n" + rest);
    ContainsInside("MERCHANT = \"", MERCHANT, "\"\n" + rest);
    assert Script() == first + MAINNET_MINT + ("\"\n" + last);
    ContainsInside(first, MAINNET_MINT, "\"\n" + last);
  }

  /** Both texts name the devnet mint. */
  lemma BothNameDevnet()
    ensures DEVNET_MINT in Patterns.TokensOf(Script()) && DEVNET_MINT in Patterns.TokensOf(Warning() + "\n")
  {
    Addresses();
    hide MERCHANT, MAINNET_MINT, DEVNET_MINT, Patterns.TokensOf, Patterns.IsAddress;
    var before := Patterns.PinLine("MERCHANT", MERCHANT) + "\n"
                  + (Patterns.PinLine("MINT", MAINNET_MINT) + "\n" + "OLD = \"");
    assert Script() == before + DEVNET_MINT + "\"\n";
    Patterns.TokenInside(before, DEVNET_MINT, "\"\n");
    assert Warning() + "\n" == "never pay with " + DEVNET_MINT + "\n";
    Patterns.TokenInside("never pay with ", DEVNET_MINT, "\n");
  }

  lemma WarningIsOneLine()
    ensures Patterns.Lines(Warning() + "\n") == [Warning()] && Patterns.Prohibits(Warning())
  {
    hide MERCHANT, MAINNET_MINT, DEVNET_MINT, Patterns.IsAddress, Patterns.IsBreak, Patterns.Prohibits,
      Patterns.Lines;
    Addresses();
    NoBreaks(DEVNET_MINT);
    Patterns.OneLine(Warning());
    Patterns.NeverProhibits("pay with " + DEVNET_MINT);
    assert "never " + ("pay with " + DEVNET_MINT) == Warning();
  }

  lemma NoBreaks(s: string)
    requires Patterns.IsAddress(s)
    ensures var line := "never pay with " + s;
            forall i :: 0 <= i < |line| ==> !Patterns.IsBreak(line[i])
  {
  }

  // ---------------------------------------------------------------------------
  // The manifest
  // ---------------------------------------------------------------------------

  /** What the rest of the run takes from the configuration. */
  lemma ExampleAsks(u: Rest, t: string, f: Path)
    ensures var cfg := Example(u);
            && cfg.rules.merchantIn(t) == Patterns.PinIn("MERCHANT", t)
            && cfg.rules.mintIn(t) == Patterns.PinIn("MINT", t)
            && cfg.rd.tokens(t) == Patterns.TokensOf(t)
            && cfg.rd.lines(t) == Patterns.Lines(t)
            && cfg.rd.lower(t) == Patterns.Lower(t)
            && cfg.rd.prohibits(t) == Patterns.Prohibits(t)
            && (f in cfg.tree <==> f in Files())
  {
    hide Patterns.PinIn, Patterns.TokensOf, Patterns.Lines, Patterns.Lower, Patterns.Prohibits, Files, Tracked;
  }

  lemma ExampleTargets(u: Rest)
    ensures var cfg := Example(u);
            && cfg.git == Tracked(u) && cfg.targets.entries == [Skills()] && cfg.plugins == []
            && cfg.targets.allowed == cfg.targets.knownOther == {}
            && PoliciesKnown(cfg) && RetiredExtrasGood(cfg)
            && Declared(cfg, "denylist") == {} == Declared(cfg, "allowlist")
  {
    hide Mint, Tracked, Tree, Texts, Questions;
  }

  lemma ExamplePins(u: Rest)
    ensures Merchant(Example(u)) == MERCHANT && Mint(Example(u)) == MAINNET_MINT
  {
    hide Script, MERCHANT, MAINNET_MINT, PIN_SOURCE, File, Example, Patterns.PinIn;
    FileFacts(u, 9);
    ScriptPins();
    ExampleAsks(u, Script(), PIN_SOURCE);
  }

  lemma ExamplePinned(u: Rest)
    requires AllPlaced(Placed(Example(u)))
    ensures Pinned(Example(u)) != {}
  {
    hide Placed, Script, MERCHANT, MAINNET_MINT, DEVNET_MINT, PIN_SOURCE, Contains, File, Place, Example, Files,
      Merchant, Mint, Base58.Valid;
    FileFacts(u, 9);
    ExamplePins(u);
    ScriptCarriesPins();
    Addresses();
    assert IsPinned(Example(u), File(9));
    assert Place(9) in Pinned(Example(u));
  }

  lemma ExamplePresent(u: Rest)
    requires AllPlaced(Placed(Example(u)))
    ensures AllPresent(Example(u))
  {
    hide Placed, Example, File, Place, Files;
    forall f
      ensures f in Example(u).tree <==> f in Files()
    {
      ExampleAsks(u, "", f);
    }
  }

  lemma ExampleProse(u: Rest)
    requires AllPlaced(Placed(Example(u)))
    ensures KeptProse(Example(u)) != {}
  {
    hide Placed, Warning, MERCHANT, MAINNET_MINT, Forbidden, Contains, File, Place, Example, Files, Merchant, Mint,
      Patterns.Lines, Patterns.Prohibits, ProseHonest, AllPlaced;
    FileFacts(u, 0);
    ExamplePins(u);
    KnownNetwork();
    ExampleAsks(u, "mainnet", File(0));
    SomeLower("mainnet");
    var cfg, b := Example(u), Place(0);
    assert b in Placed(cfg) && Placed(cfg)[b] == File(0) by { FirstPlaced(Placed(cfg)); }
    assert b in Prose(cfg);
    WarningIsHonest(u, Base(cfg).(proseScan := {b}), Reference(cfg), b);
    assert b in KeptProse(cfg);
  }

  lemma FirstPlaced(placed: map<Path, Path>)
    requires AllPlaced(placed)
    ensures Place(0) in placed && placed[Place(0)] == File(0)
  {
    hide Place, File;
  }

  lemma WarningIsHonest(u: Rest, inv: Invariants, box: Box, p: Path)
    requires p in box && Example(u).rd.text(box[p]) == Warning() + "\n"
    ensures ProseHonest(inv, box, Example(u).rd, p)
  {
    hide Warning, Example, Forbidden, Contains, Patterns.Lines, Patterns.Prohibits;
    WarningIsOneLine();
    ExampleAsks(u, Warning() + "\n", p);
    ExampleAsks(u, Warning(), p);
    assert LineHonest(inv, Example(u).rd, Warning());
  }

  lemma SomeLower(s: string)
    requires s != ""
    ensures Patterns.Lower(s) != ""
  {
    assert |Patterns.Lower(s)| == |s|;
  }

  lemma ExampleMint(u: Rest)
    requires AllPlaced(Placed(Example(u)))
    ensures KeptMint(Example(u)) == {}
  {
    hide Placed, Example, Scannable, Declared, MintHolds, Base, Reference, AllPlaced;
    ExampleTargets(u);
    ScannableIsPlaced(Example(u));
    forall b | b in Scannable(Example(u))
      ensures !MintHolds(Base(Example(u)).(mintScan := {b}), Reference(Example(u)), Example(u).rd)
    {
      DroppedAlone(u, b);
    }
  }

  lemma DroppedAlone(u: Rest, b: Path)
    requires AllPlaced(Placed(Example(u))) && b in Placed(Example(u))
    ensures var cfg := Example(u); !MintHolds(Base(cfg).(mintScan := {b}), Reference(cfg), cfg.rd)
  {
    hide Placed, Merchant, Mint, File, Place, Script, Warning, Example, MERCHANT, MAINNET_MINT, DEVNET_MINT, Allowed,
      Retired, Declared, PoliciesKnown, RetiredExtrasGood, StateFree, AddressesKnown, Patterns.TokensOf;
    var cfg := Example(u);
    var i :| 0 <= i < 10 && Placed(cfg)[b] == File(i);
    FileFacts(u, i);
    ExampleTargets(u);
    ExamplePins(u);
    ForeignMint(Base(cfg).(mintScan := {b}));
    NamesForeign(u, Base(cfg).(mintScan := {b}), Reference(cfg), b);
  }

  lemma NamesForeign(u: Rest, inv: Invariants, box: Box, p: Path)
    requires p in inv.mintScan && DEVNET_MINT !in Allowed(inv) + inv.knownOther
    requires p in box && Example(u).rd.text(box[p]) in {Script(), Warning() + "\n"}
    ensures !MintHolds(inv, box, Example(u).rd)
  {
    hide Script, Warning, Example, DEVNET_MINT, Allowed, Patterns.TokensOf, Retired, StateFree;
    BothNameDevnet();
    ExampleAsks(u, Example(u).rd.text(box[p]), p);
    assert !AddressesKnown(inv, box, Example(u).rd, p);
  }

  lemma ScannableIsPlaced(cfg: Config)
    ensures forall b :: b in Scannable(cfg) ==> b in Placed(cfg)
  {
    hide Placed;
  }

  lemma ForeignMint(inv: Invariants)
    requires inv.mint == MAINNET_MINT && inv.merchant == MERCHANT && inv.allowed == {} && inv.knownOther == {}
    ensures DEVNET_MINT !in Allowed(inv) + inv.knownOther
  {
    Addresses();
    hide MERCHANT, MAINNET_MINT, DEVNET_MINT, Patterns.IsAddress;
  }

  lemma KnownNetwork()
    ensures NetworkOf(MAINNET_MINT) == "mainnet" && MERCHANT != ""
  {
  }

  /** The generator emits a manifest for it, with an empty mint scan that is red on every box. */
  lemma EmptyMintScanIsEmitted(u: Rest, box: Box)
    ensures Emittable(Example(u), false) && KeptMint(Example(u)) == {}
    ensures !MintHolds(ManifestOf(Example(u)), box, Example(u).rd)
  {
    hide Placed, Trusted, AllPlaced, Example, Skills, Tracked, Pinned, KeptProse, KeptMint, AllPresent, PoliciesKnown,
      RetiredExtrasGood, RetiredMints, Declared, Mint, Merchant, MintHolds, ManifestOf, NetworkOf, MERCHANT,
      MAINNET_MINT, StateFree;
    ExamplePlaced(u);
    ExampleTargets(u);
    ExamplePins(u);
    ExamplePinned(u);
    ExamplePresent(u);
    ExampleProse(u);
    ExampleMint(u);
    KnownNetwork();
    Triangle.DroppedMintScan(Example(u), false, box);
  }
}
