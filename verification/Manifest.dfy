/** The generator of the manifest, which runs the box's own checks over the repository's bytes before it emits. */
module Manifest {
  import opened Prelude
  import opened DeployMap
  import opened SelfCheck

  const MIN_FILES: nat := 10
  const PIN_SOURCE: Path := "skills/solana-pay/scripts/pay_link.py"
  const MAINNET_MINT := "EPjFWdd5AufqSSqeM2qN1xzybapC8G4wEGGkZwyTDt1v"
  const DEVNET_MINT := "4zMMC9srt5Ri5X14GAgXhaHii3GnPAEERYPJgZJDncDU"

  function TextSuffixes(): set<string> {
    {".md", ".py", ".toml", ".sh", ".txt", ".json"}
  }

  function KnownMints(): set<string> {
    {MAINNET_MINT, DEVNET_MINT}
  }

  /** The network follows from the mint; an unknown mint has none. */
  function NetworkOf(mint: string): string {
    if mint == MAINNET_MINT then "mainnet" else if mint == DEVNET_MINT then "devnet" else ""
  }

  /**
   * Questions about file names, the regular expressions over file texts, and `normal`, which strips a policy and puts
   * it in lower case.
   */
  datatype Rules = Rules(
    suffix: Path -> string,
    isTest: Path -> bool,
    merchantIn: string -> string,
    mintIn: string -> string,
    isAddress: string -> bool,
    normal: string -> string)

  /** A declared scan target outside the repository; an absent policy is the empty string. */
  datatype Extra = Extra(path: Path, policy: string, enabled: bool)

  datatype Targets = Targets(
    entries: seq<Entry>,
    allowed: set<string>,
    knownOther: set<string>,
    extras: seq<Extra>,
    retiredExtras: seq<string>)

  /** A built binary's hash, recorded with the hash of the source it was built from. */
  datatype Blessing = Blessing(boxPath: Path, sha: Digest, source: Option<Digest>)

  /** Everything one run of the generator reads. */
  datatype Config = Config(
    git: Git,
    rd: Reading,
    rules: Rules,
    tree: map<Path, Bytes>,
    targets: Targets,
    plugins: seq<string>,
    blessed: map<string, Blessing>,
    source: string -> Option<Digest>,
    head: string,
    dirty: bool)

  datatype Outcome = Emitted(inv: Invariants, dropped: set<Path>, stale: seq<string>) | Refused | Broken

  // ---------------------------------------------------------------------------
  // What the manifest says, field by field
  // ---------------------------------------------------------------------------

  /** Box path to repository path. */
  function Placed(cfg: Config): map<Path, Path> {
    Owners(Claims(cfg.git, cfg.targets.entries))
  }

  predicate AllPresent(cfg: Config) {
    forall b :: b in Placed(cfg) ==> Placed(cfg)[b] in cfg.tree
  }

  /** A box that holds the repository's bytes at the mapped places, and nothing else. */
  function Reference(cfg: Config): Box {
    map b | b in Placed(cfg) && Placed(cfg)[b] in cfg.tree :: cfg.tree[Placed(cfg)[b]]
  }

  function MappedHashes(cfg: Config): map<Path, Digest> {
    map b | b in Placed(cfg) && Placed(cfg)[b] in cfg.tree :: cfg.rd.sha(cfg.tree[Placed(cfg)[b]])
  }

  function PinText(cfg: Config): string {
    if PIN_SOURCE in cfg.tree then cfg.rd.text(cfg.tree[PIN_SOURCE]) else ""
  }

  function Merchant(cfg: Config): string {
    if PIN_SOURCE in cfg.tree then cfg.rules.merchantIn(PinText(cfg)) else ""
  }

  function Mint(cfg: Config): string {
    if PIN_SOURCE in cfg.tree then cfg.rules.mintIn(PinText(cfg)) else ""
  }

  predicate IsScannable(cfg: Config, repo: Path) {
    cfg.rules.suffix(repo) in TextSuffixes() && !cfg.rules.isTest(repo)
  }

  /** A script whose source carries both pins. */
  predicate IsPinned(cfg: Config, repo: Path) {
    && Merchant(cfg) != "" && Mint(cfg) != ""
    && !cfg.rules.isTest(repo) && cfg.rules.suffix(repo) == ".py"
    && repo in cfg.tree
    && Contains(cfg.rd.text(cfg.tree[repo]), Merchant(cfg)) && Contains(cfg.rd.text(cfg.tree[repo]), Mint(cfg))
  }

  function Scannable(cfg: Config): set<Path> {
    set b | b in Placed(cfg) && IsScannable(cfg, Placed(cfg)[b])
  }

  function Prose(cfg: Config): set<Path> {
    set b | b in Scannable(cfg) && cfg.rules.suffix(Placed(cfg)[b]) == ".md"
  }

  function Pinned(cfg: Config): set<Path> {
    set b | b in Placed(cfg) && IsPinned(cfg, Placed(cfg)[b])
  }

  /** The default stands in for an absent policy only: one of blanks is stripped to nothing and is then unknown. */
  function Policy(cfg: Config, e: Extra): string {
    if e.policy == "" then "allowlist" else cfg.rules.normal(e.policy)
  }

  /** The enabled declared targets with one policy. */
  function Declared(cfg: Config, policy: string): set<Path> {
    set e | e in cfg.targets.extras && e.enabled && Policy(cfg, e) == policy :: e.path
  }

  predicate PoliciesKnown(cfg: Config) {
    forall e :: e in cfg.targets.extras && e.enabled ==> Policy(cfg, e) in {"allowlist", "denylist"}
  }

  function RetiredMints(cfg: Config): set<string> {
    (KnownMints() - {Mint(cfg)}) + set t | t in cfg.targets.retiredExtras && cfg.rules.isAddress(t) && t != Mint(cfg)
  }

  predicate RetiredExtrasGood(cfg: Config) {
    var extras := cfg.targets.retiredExtras;
    forall k :: 0 <= k < |extras| ==> cfg.rules.isAddress(extras[k]) && extras[k] != Mint(cfg)
  }

  /** What the dry run gives the checks, before any scan target. */
  function Base(cfg: Config): Invariants {
    Invariants("", false, map[], Merchant(cfg), Mint(cfg), NetworkOf(Mint(cfg)), cfg.targets.allowed,
               cfg.targets.knownOther, {}, {}, {}, {}, {})
  }

  function KeptProse(cfg: Config): set<Path> {
    set b | b in Prose(cfg) && ProseHolds(Base(cfg).(proseScan := {b}), Reference(cfg), cfg.rd)
  }

  function KeptMint(cfg: Config): set<Path> {
    Declared(cfg, "allowlist")
    + set b | b in Scannable(cfg) && MintHolds(Base(cfg).(mintScan := {b}), Reference(cfg), cfg.rd)
  }

  /** Each blessed binary's recorded hash, laid over the mapped files in plugin order. */
  function WithBlessed(cfg: Config, plugins: seq<string>): map<Path, Digest> {
    if plugins == [] then MappedHashes(cfg) else
      var n := |plugins| - 1;
      var rest := WithBlessed(cfg, plugins[..n]);
      if plugins[n] in cfg.blessed then rest[cfg.blessed[plugins[n]].boxPath := cfg.blessed[plugins[n]].sha] else rest
  }

  predicate IsStale(cfg: Config, plugin: string) {
    plugin in cfg.blessed && cfg.source(plugin) != cfg.blessed[plugin].source
  }

  /** The manifest a run emits, if it emits one. */
  function ManifestOf(cfg: Config): Invariants {
    Invariants(if cfg.head == "" then "unknown" else cfg.head, cfg.dirty, WithBlessed(cfg, cfg.plugins), Merchant(cfg),
               Mint(cfg), NetworkOf(Mint(cfg)), cfg.targets.allowed, cfg.targets.knownOther, RetiredMints(cfg),
               KeptMint(cfg), Declared(cfg, "denylist"), KeptProse(cfg), Pinned(cfg))
  }

  // ---------------------------------------------------------------------------
  // What the manifest says, told by the configuration
  // ---------------------------------------------------------------------------

  /** The mapped file at `b` is a text that is no test. */
  predicate IsText(cfg: Config, b: Path) {
    && b in Placed(cfg)
    && cfg.rules.suffix(Placed(cfg)[b]) in {".md", ".py", ".toml", ".sh", ".txt", ".json"}
    && !cfg.rules.isTest(Placed(cfg)[b])
  }

  /** The mapped file at `b` names no address but the manifest's own. */
  predicate NamesOwnAddresses(cfg: Config, m: Invariants, b: Path)
    requires b in Placed(cfg)
  {
    && Placed(cfg)[b] in cfg.tree && m.mint != ""
    && forall t :: t in cfg.rd.tokens(cfg.rd.text(cfg.tree[Placed(cfg)[b]])) ==>
         t == m.mint || t == m.merchant || t in m.allowed || t in m.knownOther
  }

  /** Every line of the mapped file at `b` that names a network names the manifest's, or forbids another. */
  predicate NamesOwnNetwork(cfg: Config, m: Invariants, b: Path)
    requires b in Placed(cfg)
  {
    && Placed(cfg)[b] in cfg.tree && cfg.rd.lower(m.network) != ""
    && forall line :: line in cfg.rd.lines(cfg.rd.text(cfg.tree[Placed(cfg)[b]])) ==>
         cfg.rd.prohibits(line)
         || forall w :: w in {"devnet", "testnet", "localnet"} && Contains(cfg.rd.lower(line), w) ==>
              w == cfg.rd.lower(m.network)
  }

  /** The dry run of one target asks just that of its file. */
  lemma AloneExact(cfg: Config, b: Path)
    requires b in Placed(cfg)
    ensures MintHolds(Base(cfg).(mintScan := {b}), Reference(cfg), cfg.rd) <==>
              NamesOwnAddresses(cfg, ManifestOf(cfg), b)
    ensures ProseHolds(Base(cfg).(proseScan := {b}), Reference(cfg), cfg.rd) <==>
              NamesOwnNetwork(cfg, ManifestOf(cfg), b)
  {
    hide Placed, Contains, MintHolds, ProseHolds, WithBlessed, RetiredMints, NetworkOf, KeptMint, KeptProse, Declared,
      Pinned, Mint, Merchant;
    MintHoldsExact(Base(cfg).(mintScan := {b}), Reference(cfg), cfg.rd);
    ProseHoldsExact(Base(cfg).(proseScan := {b}), Reference(cfg), cfg.rd);
    assert b in Reference(cfg) <==> Placed(cfg)[b] in cfg.tree;
  }

  /** Everything a check reads besides hashes: pins, network, declared addresses and the four lists of targets. */
  lemma ManifestExact(cfg: Config, b: Path)
    ensures var m := ManifestOf(cfg);
            && m.repoCommit == (if cfg.head == "" then "unknown" else cfg.head) && m.repoDirty == cfg.dirty
            && m.allowed == cfg.targets.allowed && m.knownOther == cfg.targets.knownOther
            && (PIN_SOURCE in cfg.tree ==>
                  var text := cfg.rd.text(cfg.tree[PIN_SOURCE]);
                  m.merchant == cfg.rules.merchantIn(text) && m.mint == cfg.rules.mintIn(text))
            && (b in m.mintScan <==>
                  || (exists e :: e in cfg.targets.extras && e.enabled && e.path == b
                                  && (e.policy == "" || cfg.rules.normal(e.policy) == "allowlist"))
                  || (IsText(cfg, b) && NamesOwnAddresses(cfg, m, b)))
            && (b in m.stateScan <==>
                  exists e :: e in cfg.targets.extras && e.enabled && e.path == b
                              && e.policy != "" && cfg.rules.normal(e.policy) == "denylist")
            && (b in m.proseScan <==>
                  && IsText(cfg, b) && cfg.rules.suffix(Placed(cfg)[b]) == ".md"
                  && NamesOwnNetwork(cfg, m, b))
            && (b in m.pinnedScripts <==>
                  && b in Placed(cfg) && Placed(cfg)[b] in cfg.tree
                  && cfg.rules.suffix(Placed(cfg)[b]) == ".py" && !cfg.rules.isTest(Placed(cfg)[b])
                  && m.merchant != "" && m.mint != ""
                  && Contains(cfg.rd.text(cfg.tree[Placed(cfg)[b]]), m.merchant)
                  && Contains(cfg.rd.text(cfg.tree[Placed(cfg)[b]]), m.mint))
  {
    hide Placed, Contains, MintHolds, ProseHolds, Reference, Base, WithBlessed, RetiredMints, NetworkOf,
      NamesOwnAddresses, NamesOwnNetwork, Declared;
    DeclaredExact(cfg, "allowlist", b);
    DeclaredExact(cfg, "denylist", b);
    if b in Placed(cfg) {
      AloneExact(cfg, b);
    }
  }

  lemma DeclaredExact(cfg: Config, policy: string, b: Path)
    ensures b in Declared(cfg, policy) <==>
              exists e :: e in cfg.targets.extras && e.enabled && e.path == b
                          && (if e.policy == "" then policy == "allowlist" else cfg.rules.normal(e.policy) == policy)
  {
  }

  /** The retired mints are the known ones and the declared extras, without the mint in use. */
  lemma RetiredExact(cfg: Config, t: string)
    requires RetiredExtrasGood(cfg)
    ensures t in ManifestOf(cfg).retired <==>
              && t != ManifestOf(cfg).mint
              && (t == MAINNET_MINT || t == DEVNET_MINT || t in cfg.targets.retiredExtras)
  {
    hide Mint, Merchant, WithBlessed, KeptMint, KeptProse, Pinned, Declared, NetworkOf;
    if t in cfg.targets.retiredExtras {
      var k :| 0 <= k < |cfg.targets.retiredExtras| && cfg.targets.retiredExtras[k] == t;
    }
  }

  /** A manifest generated from a dirty checkout, or from none, fails the version check beside every marker. */
  lemma UnnamedCommitIsRed(cfg: Config, marker: Option<string>)
    requires cfg.dirty || !IsCommitSha(cfg.head)
    ensures !VintageHolds(ManifestOf(cfg), marker)
  {
    hide Placed, Mint, Merchant, WithBlessed, KeptMint, KeptProse, Pinned, Declared, NetworkOf, RetiredMints;
    assert |"unknown"| != 40;
  }

  /** Nothing stands in the way of emitting a manifest. */
  ghost predicate Emittable(cfg: Config, allowStale: bool) {
    && Trusted(cfg.git, cfg.targets.entries) && |Placed(cfg)| >= MIN_FILES
    && AllPresent(cfg)
    && Merchant(cfg) != "" && NetworkOf(Mint(cfg)) != ""
    && Pinned(cfg) != {}
    && PoliciesKnown(cfg) && RetiredExtrasGood(cfg)
    && (Declared(cfg, "denylist") != {} ==> RetiredMints(cfg) != {})
    && KeptProse(cfg) != {}
    && (allowStale || forall p :: p in cfg.plugins ==> !IsStale(cfg, p))
  }

  /** The reasons not to emit a manifest, one by one. */
  lemma EmittableExact(cfg: Config, allowStale: bool)
    ensures Emittable(cfg, allowStale) <==>
              && Trusted(cfg.git, cfg.targets.entries) && |Placed(cfg)| >= 10
              && (forall b :: b in Placed(cfg) ==> Placed(cfg)[b] in cfg.tree)
              && var m := ManifestOf(cfg);
                 && m.merchant != "" && (m.mint == MAINNET_MINT || m.mint == DEVNET_MINT)
                 && (m.network == if m.mint == MAINNET_MINT then "mainnet" else "devnet")
                 && m.pinnedScripts != {} && m.proseScan != {}
                 && (forall e :: e in cfg.targets.extras && e.enabled ==>
                       e.policy == "" || cfg.rules.normal(e.policy) in {"allowlist", "denylist"})
                 && (forall t :: t in cfg.targets.retiredExtras ==> cfg.rules.isAddress(t) && t != m.mint)
                 && (m.stateScan != {} ==> m.retired != {})
                 && (allowStale || forall p :: p in cfg.plugins && p in cfg.blessed ==>
                       cfg.source(p) == cfg.blessed[p].source)
  {
    hide Placed, Merchant, Mint, Trusted, KeptProse, Pinned, Declared, RetiredMints, KeptMint, WithBlessed;
    MintsDiffer();
    hide MAINNET_MINT, DEVNET_MINT;
    var extras := cfg.targets.retiredExtras;
    assert RetiredExtrasGood(cfg) <==>
        forall t :: t in extras ==> cfg.rules.isAddress(t) && t != Mint(cfg) by {
      if forall t :: t in extras ==> cfg.rules.isAddress(t) && t != Mint(cfg) {
        assert forall k :: 0 <= k < |extras| ==> extras[k] in extras;
      }
    }
  }

  lemma MintsDiffer()
    ensures MAINNET_MINT != DEVNET_MINT
  {
    assert MAINNET_MINT[0] == 'E' && DEVNET_MINT[0] == '4';
  }

  // ---------------------------------------------------------------------------
  // The generator
  // ---------------------------------------------------------------------------

  /** The loop over the mapped pairs that hashes what is there; `absent` counts what is not. */
  method HashFiles(cfg: Config) returns (files: map<Path, Digest>, absent: nat)
    ensures files == MappedHashes(cfg)
    ensures absent == 0 <==> AllPresent(cfg)
  {
    hide Placed;
    var pairs := Placed(cfg);
    files, absent := map[], 0;
    var todo := pairs.Keys;
    while todo != {}
      invariant todo <= pairs.Keys
      invariant forall b :: b in files <==> b in pairs && b !in todo && pairs[b] in cfg.tree
      invariant forall b :: b in files ==> files[b] == cfg.rd.sha(cfg.tree[pairs[b]])
      invariant absent == 0 <==> forall b :: b in pairs && b !in todo ==> pairs[b] in cfg.tree
      decreases |todo|
    {
      var box :| box in todo;
      todo := todo - {box};
      if pairs[box] !in cfg.tree {
        absent := absent + 1;
        continue;
      }
      files := files[box := cfg.rd.sha(cfg.tree[pairs[box]])];
    }
  }

  /** The scans, all derived from the resolved pairs. */
  method DeriveScans(cfg: Config) returns (mintScan: set<Path>, proseScan: set<Path>, pinned: set<Path>)
    ensures mintScan == Scannable(cfg) && proseScan == Prose(cfg) && pinned == Pinned(cfg)
  {
    hide Placed, IsScannable, IsPinned;
    var pairs := Placed(cfg);
    mintScan, proseScan, pinned := {}, {}, {};
    var todo := pairs.Keys;
    while todo != {}
      invariant todo <= pairs.Keys
      invariant forall b :: b in mintScan <==> b in pairs && b !in todo && IsScannable(cfg, pairs[b])
      invariant forall b :: b in proseScan <==> b in mintScan && cfg.rules.suffix(pairs[b]) == ".md"
      invariant forall b :: b in pinned <==> b in pairs && b !in todo && IsPinned(cfg, pairs[b])
      decreases |todo|
    {
      var box :| box in todo;
      todo := todo - {box};
      if IsScannable(cfg, pairs[box]) {
        mintScan := mintScan + {box};
        if cfg.rules.suffix(pairs[box]) == ".md" {
          proseScan := proseScan + {box};
        }
      }
      if IsPinned(cfg, pairs[box]) {
        pinned := pinned + {box};
      }
    }
  }

  /** Declared box-only targets, split by polarity; `unknown` counts policies that are neither. */
  method SplitExtras(cfg: Config) returns (allow: set<Path>, deny: set<Path>, unknown: nat)
    ensures allow == Declared(cfg, "allowlist") && deny == Declared(cfg, "denylist")
    ensures unknown == 0 <==> PoliciesKnown(cfg)
  {
    hide Policy;
    allow, deny, unknown := {}, {}, 0;
    var extras := cfg.targets.extras;
    for i := 0 to |extras|
      invariant allow == set e | e in extras[..i] && e.enabled && Policy(cfg, e) == "allowlist" :: e.path
      invariant deny == set e | e in extras[..i] && e.enabled && Policy(cfg, e) == "denylist" :: e.path
      invariant unknown == 0 <==>
                  forall e :: e in extras[..i] && e.enabled ==> Policy(cfg, e) in {"allowlist", "denylist"}
    {
      assert extras[..i + 1] == extras[..i] + [extras[i]];
      var e := extras[i];
      if !e.enabled {
        continue;
      }
      var policy := Policy(cfg, e);
      if policy == "denylist" {
        deny := deny + {e.path};
      } else if policy == "allowlist" {
        allow := allow + {e.path};
      } else {
        unknown := unknown + 1;
      }
    }
    assert extras[..|extras|] == extras;
  }

  /** `derive_retired_mints` */
  method DeriveRetired(cfg: Config) returns (retired: set<string>, wrong: nat)
    ensures retired == RetiredMints(cfg)
    ensures wrong == 0 <==> RetiredExtrasGood(cfg)
  {
    hide Mint, KnownMints;
    var mint, extras := Mint(cfg), cfg.targets.retiredExtras;
    retired, wrong := KnownMints() - {mint}, 0;
    for i := 0 to |extras|
      invariant forall t :: t in retired <==>
                  t in KnownMints() - {mint} || (t in extras[..i] && cfg.rules.isAddress(t) && t != mint)
      invariant wrong == 0 <==> forall k :: 0 <= k < i ==> cfg.rules.isAddress(extras[k]) && extras[k] != mint
    {
      assert extras[..i + 1] == extras[..i] + [extras[i]];
      if !cfg.rules.isAddress(extras[i]) || extras[i] == mint {
        wrong := wrong + 1;
        continue;
      }
      retired := retired + {extras[i]};
    }
    assert extras[..|extras|] == extras;
  }

  /** One target alone before a check of its own. */
  method SurvivesProse(base: Invariants, ref: Box, rd: Reading, target: Path) returns (ok: bool)
    ensures ok <==> ProseHolds(base.(proseScan := {target}), ref, rd)
  {
    var r := new SelfCheck.Result();
    CheckNetworkProse(base.(proseScan := {target}), ref, rd, r);
    return r.checks[0].ok;
  }

  method SurvivesMint(base: Invariants, ref: Box, rd: Reading, target: Path) returns (ok: bool)
    ensures ok <==> MintHolds(base.(mintScan := {target}), ref, rd)
  {
    var r := new SelfCheck.Result();
    CheckMintProhibition(base.(mintScan := {target}), ref, rd, r);
    return r.checks[0].ok;
  }

  /**
   * `validate_scans`: each target is put alone before the check that will read it on the box, over a copy of the
   * repository's bytes, and dropped when the check is red on them. Declared targets are not in the repository.
   */
  method ValidateScans(cfg: Config, mintScan: set<Path>, proseScan: set<Path>, declared: set<Path>)
    returns (keepMint: set<Path>, keepProse: set<Path>, dropped: set<Path>)
    ensures keepProse == set b | b in proseScan && ProseHolds(Base(cfg).(proseScan := {b}), Reference(cfg), cfg.rd)
    ensures keepMint ==
              set b | b in mintScan
                      && (b in declared || MintHolds(Base(cfg).(mintScan := {b}), Reference(cfg), cfg.rd))
    ensures dropped == (proseScan - keepProse) + (mintScan - keepMint)
  {
    hide ProseHolds, MintHolds, Reference, Base;
    keepProse := KeepProse(Base(cfg), Reference(cfg), cfg.rd, proseScan);
    keepMint := KeepMint(Base(cfg), Reference(cfg), cfg.rd, mintScan, declared);
    dropped := (proseScan - keepProse) + (mintScan - keepMint);
  }

  method KeepProse(base: Invariants, ref: Box, rd: Reading, proseScan: set<Path>) returns (keep: set<Path>)
    ensures keep == set b | b in proseScan && ProseHolds(base.(proseScan := {b}), ref, rd)
  {
    hide ProseHolds;
    keep := {};
    var todo := proseScan;
    while todo != {}
      invariant todo <= proseScan
      invariant forall b :: b in keep <==> b in proseScan && b !in todo && ProseHolds(base.(proseScan := {b}), ref, rd)
      decreases |todo|
    {
      var target :| target in todo;
      todo := todo - {target};
      var survives := SurvivesProse(base, ref, rd, target);
      if survives {
        keep := keep + {target};
      }
    }
  }

  method KeepMint(base: Invariants, ref: Box, rd: Reading, mintScan: set<Path>, declared: set<Path>)
    returns (keep: set<Path>)
    ensures keep == set b | b in mintScan && (b in declared || MintHolds(base.(mintScan := {b}), ref, rd))
  {
    hide MintHolds;
    keep := {};
    var todo := mintScan;
    while todo != {}
      invariant todo <= mintScan
      invariant forall b :: b in keep <==>
                  b in mintScan && b !in todo && (b in declared || MintHolds(base.(mintScan := {b}), ref, rd))
      decreases |todo|
    {
      var target :| target in todo;
      todo := todo - {target};
      if target in declared {
        keep := keep + {target};
        continue;
      }
      var survives := SurvivesMint(base, ref, rd, target);
      if survives {
        keep := keep + {target};
      }
    }
  }

  /** The loop over the plugins: recorded hashes laid over the files, and which of them are stale. */
  method AddBinaries(cfg: Config, mapped: map<Path, Digest>) returns (files: map<Path, Digest>, stale: seq<string>)
    requires mapped == MappedHashes(cfg)
    ensures files == WithBlessed(cfg, cfg.plugins)
    ensures forall p :: p in stale <==> p in cfg.plugins && IsStale(cfg, p)
  {
    hide MappedHashes;
    files, stale := mapped, [];
    for i := 0 to |cfg.plugins|
      invariant files == WithBlessed(cfg, cfg.plugins[..i])
      invariant forall p :: p in stale <==> p in cfg.plugins[..i] && IsStale(cfg, p)
    {
      assert cfg.plugins[..i + 1][..i] == cfg.plugins[..i];
      assert cfg.plugins[..i + 1] == cfg.plugins[..i] + [cfg.plugins[i]];
      var plugin := cfg.plugins[i];
      if plugin !in cfg.blessed {
        continue;
      }
      files := files[cfg.blessed[plugin].boxPath := cfg.blessed[plugin].sha];
      if cfg.source(plugin) != cfg.blessed[plugin].source {
        stale := stale + [plugin];
      }
    }
    assert cfg.plugins[..|cfg.plugins|] == cfg.plugins;
  }

  /** `build_manifest`: exactly when a manifest is emitted, and exactly what it says. */
  method BuildManifest(cfg: Config, allowStale: bool) returns (r: Outcome)
    ensures r.Emitted? <==> Emittable(cfg, allowStale)
    ensures r.Emitted? ==> r.inv == ManifestOf(cfg)
    ensures r.Emitted? ==> r.dropped == (Prose(cfg) - KeptProse(cfg)) + (Scannable(cfg) - KeptMint(cfg))
    ensures r.Emitted? ==> forall p :: p in r.stale <==> p in cfg.plugins && IsStale(cfg, p)
    ensures r.Broken? <==> !Trusted(cfg.git, cfg.targets.entries) || |Placed(cfg)| < MIN_FILES
  {
    hide Trusted, AllPresent, MappedHashes, Merchant, Mint, NetworkOf, Pinned, Scannable, Prose, Declared,
      PoliciesKnown, RetiredMints, RetiredExtrasGood, Reference, Base, ProseHolds, MintHolds, WithBlessed, IsStale;
    var pairs, broken := ResolveMap(cfg.git, cfg.targets.entries);
    if broken != [] || |pairs| < MIN_FILES {
      return Broken;
    }
    var hashes, absent := HashFiles(cfg);
    var mintScan, proseScan, pinned := DeriveScans(cfg);
    var allow, deny, unknown := SplitExtras(cfg);
    var retired, wrong := DeriveRetired(cfg);
    if absent > 0 || Merchant(cfg) == "" || NetworkOf(Mint(cfg)) == "" || pinned == {} || unknown > 0 || wrong > 0
      || (deny != {} && retired == {})
    {
      return Refused;
    }
    var keepMint, keepProse, dropped := ValidateScans(cfg, mintScan + allow, proseScan, allow);
    var files, stale := AddBinaries(cfg, hashes);
    if keepProse == {} || (stale != [] && !allowStale) {
      StaleExists(cfg, stale);
      return Refused;
    }
    StaleExists(cfg, stale);
    assert keepMint == KeptMint(cfg);
    r := Emitted(ManifestOf(cfg).(files := files, retired := retired, mintScan := keepMint, stateScan := deny,
                                  proseScan := keepProse, pinnedScripts := pinned), dropped, stale);
  }

  lemma StaleExists(cfg: Config, stale: seq<string>)
    requires forall p :: p in stale <==> p in cfg.plugins && IsStale(cfg, p)
    ensures stale == [] <==> forall p :: p in cfg.plugins ==> !IsStale(cfg, p)
  {
    if stale != [] {
      assert stale[0] in stale;
    }
  }
}
