/** Generator, synchroniser and checker together: what one emits and the other copies, the third accepts. */
module Triangle {
  import opened Prelude
  import opened DeployMap
  import opened SelfCheck
  import opened Manifest
  import opened Sync
  import opened Deployed

  /** The box holds the repository's bytes at the mapped paths. */
  predicate HoldsRepoBytes(cfg: Config, box: Box) {
    forall b :: b in Placed(cfg) && Placed(cfg)[b] in cfg.tree ==> b in box && box[b] == cfg.tree[Placed(cfg)[b]]
  }

  predicate IsBlessed(cfg: Config, plugin: string) {
    plugin in cfg.plugins && plugin in cfg.blessed
  }

  /** Every blessed binary is on the box, with the recorded hash, outside the map. */
  predicate BinariesPlanted(cfg: Config, box: Box) {
    forall p :: p in cfg.plugins && IsBlessed(cfg, p) ==>
      var path := cfg.blessed[p].boxPath;
      path !in Placed(cfg) && path in box && cfg.rd.sha(box[path]) == cfg.blessed[p].sha
  }

  predicate Sits(cfg: Config, plugins: seq<string>, p: string, path: Path) {
    p in plugins && p in cfg.blessed && cfg.blessed[p].boxPath == path
  }

  /** A pinned path has the recorded hash of a binary blessed there, or, where none is, the mapped file's hash. */
  lemma {:induction false} PinnedPaths(cfg: Config, plugins: seq<string>, path: Path)
    ensures var files, mapped := WithBlessed(cfg, plugins), MappedHashes(cfg);
            if exists p :: Sits(cfg, plugins, p, path)
            then path in files && exists p :: Sits(cfg, plugins, p, path) && cfg.blessed[p].sha == files[path]
            else (path in files <==> path in mapped) && (path in files ==> files[path] == mapped[path])
  {
    hide MappedHashes;
    if plugins != [] {
      var n := |plugins| - 1;
      assert plugins == plugins[..n] + [plugins[n]];
      PinnedPaths(cfg, plugins[..n], path);
      assert forall p :: Sits(cfg, plugins[..n], p, path) ==> Sits(cfg, plugins, p, path);
      if plugins[n] in cfg.blessed && cfg.blessed[plugins[n]].boxPath == path {
        assert Sits(cfg, plugins, plugins[n], path);
      } else {
        assert forall p :: Sits(cfg, plugins, p, path) ==> Sits(cfg, plugins[..n], p, path);
      }
    }
  }

  /** No blessing changes what the manifest says of a mapped file: a check on the configuration alone. */
  predicate MapUnchanged(cfg: Config) {
    var files, mapped := WithBlessed(cfg, cfg.plugins), MappedHashes(cfg);
    forall b :: b in mapped ==> b in files && files[b] == mapped[b]
  }

  /** The box answers for every pinned path outside the map. */
  predicate HoldsUnmapped(cfg: Config, box: Box) {
    var files := WithBlessed(cfg, cfg.plugins);
    forall path :: path in files && path !in Placed(cfg) ==> path in box && cfg.rd.sha(box[path]) == files[path]
  }

  /**
   * On a box that holds the repository's bytes at the mapped paths and the blessed binaries elsewhere, the manifest
   * check passes exactly when every mapped path is still pinned to its file's hash, whatever is blessed there.
   */
  lemma GreenExactlyWhenMapUnchanged(cfg: Config, allowStale: bool, box: Box)
    requires Emittable(cfg, allowStale) && HoldsRepoBytes(cfg, box) && HoldsUnmapped(cfg, box)
    ensures ManifestHolds(ManifestOf(cfg), box, cfg.rd) <==> MapUnchanged(cfg)
  {
    hide Emittable, Placed, WithBlessed, HoldsRepoBytes, MappedHashes, ManifestOf;
    var files := WithBlessed(cfg, cfg.plugins);
    MappedIsPinned(cfg, allowStale);
    MappedIsHeld(cfg, box);
    ManifestFiles(cfg);
    HeldExactly(files, MappedHashes(cfg), box, cfg.rd);
  }

  lemma ManifestFiles(cfg: Config)
    ensures ManifestOf(cfg).files == WithBlessed(cfg, cfg.plugins)
  {
  }

  lemma HeldExactly(files: map<Path, Digest>, mapped: map<Path, Digest>, box: Box, rd: Reading)
    requires mapped.Keys <= files.Keys
    requires forall b :: b in mapped ==> b in box && rd.sha(box[b]) == mapped[b]
    requires forall p :: p in files && p !in mapped ==> p in box && rd.sha(box[p]) == files[p]
    ensures (forall p :: p in files ==> p in box && rd.sha(box[p]) == files[p]) <==>
              forall b :: b in mapped ==> b in files && files[b] == mapped[b]
  {
  }

  /** Every mapped path is pinned, and there is one. */
  lemma MappedIsPinned(cfg: Config, allowStale: bool)
    requires Emittable(cfg, allowStale)
    ensures MappedHashes(cfg).Keys == Placed(cfg).Keys <= WithBlessed(cfg, cfg.plugins).Keys
    ensures WithBlessed(cfg, cfg.plugins) != map[]
  {
    hide Contains, Placed, WithBlessed, Merchant, Mint, KeptMint, KeptProse, RetiredMints, Declared;
    assert AllPresent(cfg);
    forall b | b in MappedHashes(cfg)
      ensures b in WithBlessed(cfg, cfg.plugins)
    {
      PinnedPaths(cfg, cfg.plugins, b);
    }
    var some :| some in Pinned(cfg);
    assert some in WithBlessed(cfg, cfg.plugins);
  }

  lemma MappedIsHeld(cfg: Config, box: Box)
    requires HoldsRepoBytes(cfg, box)
    ensures forall b :: b in MappedHashes(cfg) ==> b in box && cfg.rd.sha(box[b]) == MappedHashes(cfg)[b]
  {
    hide Placed;
  }

  /** Binaries planted outside the map change nothing inside it, and are held. */
  lemma PlantedIsUnmapped(cfg: Config, box: Box)
    requires BinariesPlanted(cfg, box)
    ensures MapUnchanged(cfg) && HoldsUnmapped(cfg, box)
  {
    hide Placed, WithBlessed;
    forall path
      ensures !(path in Placed(cfg) && exists p :: Sits(cfg, cfg.plugins, p, path))
    {
      if p :| Sits(cfg, cfg.plugins, p, path) {
        assert IsBlessed(cfg, p);
      }
    }
    forall b | b in MappedHashes(cfg)
      ensures b in WithBlessed(cfg, cfg.plugins) && WithBlessed(cfg, cfg.plugins)[b] == MappedHashes(cfg)[b]
    {
      PinnedPaths(cfg, cfg.plugins, b);
    }
    forall path | path in WithBlessed(cfg, cfg.plugins) && path !in Placed(cfg)
      ensures path in box && cfg.rd.sha(box[path]) == WithBlessed(cfg, cfg.plugins)[path]
    {
      PinnedPaths(cfg, cfg.plugins, path);
      var p :| Sits(cfg, cfg.plugins, p, path) && cfg.blessed[p].sha == WithBlessed(cfg, cfg.plugins)[path];
      assert IsBlessed(cfg, p);
    }
  }

  /** What the manifest says of a mapped file, the box answers. */
  lemma FilesAgree(cfg: Config, allowStale: bool, box: Box)
    requires Emittable(cfg, allowStale) && HoldsRepoBytes(cfg, box) && BinariesPlanted(cfg, box)
    ensures ManifestHolds(ManifestOf(cfg), box, cfg.rd)
  {
    hide Emittable, HoldsRepoBytes, HoldsUnmapped, MapUnchanged, BinariesPlanted, ManifestHolds, ManifestOf;
    PlantedIsUnmapped(cfg, box);
    GreenExactlyWhenMapUnchanged(cfg, allowStale, box);
  }

  lemma PinsAgree(cfg: Config, allowStale: bool, box: Box)
    requires Emittable(cfg, allowStale) && HoldsRepoBytes(cfg, box)
    ensures PinsHold(ManifestOf(cfg), box, cfg.rd)
  {
    hide Contains, Placed, Merchant, Mint, WithBlessed, KeptMint, KeptProse, RetiredMints, Declared;
    forall p | p in Pinned(cfg)
      ensures p in box && CarriesBothPins(ManifestOf(cfg), cfg.rd, box[p])
    {
      assert IsPinned(cfg, Placed(cfg)[p]);
    }
  }

  lemma ProseAgrees(cfg: Config, allowStale: bool, box: Box)
    requires Emittable(cfg, allowStale) && HoldsRepoBytes(cfg, box)
    ensures ProseHolds(ManifestOf(cfg), box, cfg.rd)
  {
    hide Contains, Placed, Merchant, Mint, Scannable;
    forall b | b in KeptProse(cfg)
      ensures cfg.rd.lower(NetworkOf(Mint(cfg))) != "" && ProseHonest(ManifestOf(cfg), box, cfg.rd, b)
    {
      var alone := Base(cfg).(proseScan := {b});
      assert ProseHolds(alone, Reference(cfg), cfg.rd) && b in alone.proseScan;
      assert ProseHonest(alone, Reference(cfg), cfg.rd, b);
      assert box[b] == Reference(cfg)[b];
    }
    var some :| some in KeptProse(cfg);
  }

  /** A file the generator kept in the mint scan is clean on the box; only declared targets can differ there. */
  lemma MintAgrees(cfg: Config, allowStale: bool, box: Box)
    requires Emittable(cfg, allowStale) && HoldsRepoBytes(cfg, box)
    ensures var m := ManifestOf(cfg);
            MintHolds(m, box, cfg.rd) <==>
              && (KeptMint(cfg) != {} || Declared(cfg, "denylist") != {})
              && (forall p :: p in Declared(cfg, "allowlist") ==> AddressesKnown(m, box, cfg.rd, p))
              && (forall p :: p in Declared(cfg, "denylist") ==> StateFree(m, box, cfg.rd, p))
  {
    hide Placed, Merchant, Mint, Scannable, RetiredMints, Retired, StateFree, AddressesKnown, KeptProse, Pinned,
      WithBlessed, HoldsRepoBytes, MintHolds, AllPresent, NetworkOf, PoliciesKnown, RetiredExtrasGood, Trusted;
    var m := ManifestOf(cfg);
    OtherMintIsRetired(cfg);
    forall b | b in KeptMint(cfg) && b !in Declared(cfg, "allowlist")
      ensures AddressesKnown(m, box, cfg.rd, b)
    {
      KeptFileIsClean(cfg, box, b);
    }
    assert Declared(cfg, "allowlist") <= m.mintScan && m.stateScan == Declared(cfg, "denylist");
    MintHoldsSplit(m, box, cfg.rd, Declared(cfg, "allowlist"));
  }

  lemma MintHoldsSplit(m: Invariants, box: Box, rd: Reading, declared: set<Path>)
    requires m.mint != "" && Retired(m) != {} && declared <= m.mintScan
    requires forall p :: p in m.mintScan && p !in declared ==> AddressesKnown(m, box, rd, p)
    ensures MintHolds(m, box, rd) <==>
              && (m.mintScan != {} || m.stateScan != {})
              && (forall p :: p in declared ==> AddressesKnown(m, box, rd, p))
              && (forall p :: p in m.stateScan ==> StateFree(m, box, rd, p))
  {
    hide AddressesKnown, StateFree, Retired;
  }

  lemma KeptFileIsClean(cfg: Config, box: Box, b: Path)
    requires HoldsRepoBytes(cfg, box) && b in KeptMint(cfg) && b !in Declared(cfg, "allowlist")
    ensures AddressesKnown(ManifestOf(cfg), box, cfg.rd, b)
  {
    hide Placed, Merchant, Mint, Scannable, Declared, RetiredMints, KeptProse, Pinned, WithBlessed;
    var alone := Base(cfg).(mintScan := {b});
    assert MintHolds(alone, Reference(cfg), cfg.rd) && b in alone.mintScan;
    assert AddressesKnown(alone, Reference(cfg), cfg.rd, b);
    assert box[b] == Reference(cfg)[b];
  }

  /** With two known mints, the one not in use is always retired. */
  lemma OtherMintIsRetired(cfg: Config)
    requires NetworkOf(Mint(cfg)) != ""
    ensures Mint(cfg) != "" && Retired(ManifestOf(cfg)) != {}
  {
    hide Mint;
    var other := if Mint(cfg) == MAINNET_MINT then DEVNET_MINT else MAINNET_MINT;
    assert MAINNET_MINT[0] == 'E' && DEVNET_MINT[0] == '4';
    assert other in RetiredMints(cfg) && other != "";
    assert other in Retired(ManifestOf(cfg));
  }

  /**
   * Generator and checker agree: on a box that holds the repository's bytes at the mapped paths and the blessed
   * binaries outside them, three checks pass, and the fourth fails only over what the repository does not hold.
   */
  lemma GeneratorAgreesWithChecker(cfg: Config, allowStale: bool, box: Box)
    requires Emittable(cfg, allowStale) && HoldsRepoBytes(cfg, box) && BinariesPlanted(cfg, box)
    ensures var m := ManifestOf(cfg);
            && ManifestHolds(m, box, cfg.rd) && ProseHolds(m, box, cfg.rd) && PinsHold(m, box, cfg.rd)
            && (Declared(cfg, "allowlist") + Declared(cfg, "denylist") == {} ==>
                  (MintHolds(m, box, cfg.rd) <==> m.mintScan != {}))
  {
    FilesAgree(cfg, allowStale, box);
    ProseAgrees(cfg, allowStale, box);
    PinsAgree(cfg, allowStale, box);
    MintAgrees(cfg, allowStale, box);
    hide ManifestHolds, ProseHolds, PinsHold, MintHolds, Emittable, HoldsRepoBytes, BinariesPlanted;
    assert Declared(cfg, "allowlist") + Declared(cfg, "denylist") == {} ==>
        Declared(cfg, "allowlist") == {} && Declared(cfg, "denylist") == {};
  }

  /** A manifest all of whose file targets were dropped passes on exactly the boxes whose agent state is clean. */
  lemma DroppedMintScan(cfg: Config, allowStale: bool, box: Box)
    requires Emittable(cfg, allowStale) && KeptMint(cfg) == {}
    ensures MintHolds(ManifestOf(cfg), box, cfg.rd) <==>
              && Declared(cfg, "denylist") != {}
              && forall p :: p in Declared(cfg, "denylist") ==> StateFree(ManifestOf(cfg), box, cfg.rd, p)
  {
    OtherMintIsRetired(cfg);
    hide Mint, Merchant, Declared, RetiredMints, Retired, StateFree, AddressesKnown, Pinned, WithBlessed, KeptMint,
      KeptProse, NetworkOf, AllPresent, PoliciesKnown, RetiredExtrasGood, Trusted, MintHolds;
    MintHoldsSplit(ManifestOf(cfg), box, cfg.rd, {});
  }

  /** The plugin at `i` is the last of those whose binary is blessed at `path`. */
  predicate SitsLast(cfg: Config, plugins: seq<string>, i: nat, path: Path) {
    && i < |plugins| && Sits(cfg, plugins, plugins[i], path)
    && forall j :: i < j < |plugins| ==> !Sits(cfg, plugins, plugins[j], path)
  }

  lemma {:induction false} LastBlessingWins(cfg: Config, plugins: seq<string>, i: nat, path: Path)
    requires SitsLast(cfg, plugins, i, path)
    ensures path in WithBlessed(cfg, plugins) && WithBlessed(cfg, plugins)[path] == cfg.blessed[plugins[i]].sha
    decreases |plugins|
  {
    hide MappedHashes;
    var n := |plugins| - 1;
    if i < n {
      assert !Sits(cfg, plugins, plugins[n], path);
      LastBlessingWins(cfg, plugins[..n], i, path);
    }
  }

  /**
   * Every mapped path and every place of a blessed binary is pinned, and nothing else is: to the last blessing's
   * recorded hash, or to the mapped file's hash where nothing is blessed. One of them missing on the box or hashing
   * to anything else, and the manifest check is red.
   */
  lemma AnyDriftIsCaught(cfg: Config, allowStale: bool, box: Box, path: Path)
    requires Emittable(cfg, allowStale)
    ensures var files := ManifestOf(cfg).files;
            && (path in files <==> path in Placed(cfg) || exists p :: Sits(cfg, cfg.plugins, p, path))
            && (path in Placed(cfg) && (forall p :: !Sits(cfg, cfg.plugins, p, path)) ==>
                  files[path] == cfg.rd.sha(cfg.tree[Placed(cfg)[path]]))
            && (forall i: nat :: SitsLast(cfg, cfg.plugins, i, path) ==>
                  files[path] == cfg.blessed[cfg.plugins[i]].sha)
            && (path in files && (path !in box || cfg.rd.sha(box[path]) != files[path]) ==>
                  !ManifestHolds(ManifestOf(cfg), box, cfg.rd))
  {
    PinnedPaths(cfg, cfg.plugins, path);
    MappedIsPinned(cfg, allowStale);
    ManifestFiles(cfg);
    hide Placed, WithBlessed, ManifestOf, Emittable;
    forall i: nat | SitsLast(cfg, cfg.plugins, i, path)
      ensures WithBlessed(cfg, cfg.plugins)[path] == cfg.blessed[cfg.plugins[i]].sha
    {
      LastBlessingWins(cfg, cfg.plugins, i, path);
    }
  }

  /** In particular a binary blessed at a mapped path makes a perfect box red when no blessing there agrees. */
  lemma BlessedOverMappedIsRed(cfg: Config, allowStale: bool, box: Box, path: Path)
    requires Emittable(cfg, allowStale) && HoldsRepoBytes(cfg, box) && path in Placed(cfg)
    requires exists p :: Sits(cfg, cfg.plugins, p, path)
    requires forall p :: Sits(cfg, cfg.plugins, p, path) ==>
               cfg.blessed[p].sha != cfg.rd.sha(cfg.tree[Placed(cfg)[path]])
    ensures !ManifestHolds(ManifestOf(cfg), box, cfg.rd)
  {
    PinnedPaths(cfg, cfg.plugins, path);
    hide Placed, WithBlessed, KeptMint, KeptProse, RetiredMints, Declared, Pinned;
  }

  /** The version check does not see "-dirty": a clean manifest beside a dirty deployment still reads as agreeing. */
  lemma RecordedVersionAgrees(inv: Invariants, plan: Plan)
    requires IsCommitSha(inv.repoCommit) && !inv.repoDirty && plan.head == inv.repoCommit
    ensures VintageHolds(inv, Some(Recorded(plan)))
  {
    assert Slice(plan.head, 0, 12) == plan.head[..12];
    assert Recorded(plan)[..12] == plan.head[..12];
  }

  // ---------------------------------------------------------------------------
  // From the checkout to a green box
  // ---------------------------------------------------------------------------

  /** The files of the deployment, relative to its root. */
  ghost predicate IsBox(disk: Disk, at: Places, box: Box) {
    forall p: Path :: (p in box <==> Under(at.zc, p) in disk) && (p in box ==> box[p] == disk[Under(at.zc, p)])
  }

  /** The checkout a run copies from is the tree the manifest was generated from, and both used one map. */
  predicate SameCheckout(cfg: Config, disk: Disk, at: Places, plan: Plan) {
    forall b :: b in Placed(cfg) && Placed(cfg)[b] in cfg.tree ==>
      && (Placed(cfg)[b], b) in plan.pairs
      && Under(at.root, Placed(cfg)[b]) in disk && disk[Under(at.root, Placed(cfg)[b])] == cfg.tree[Placed(cfg)[b]]
  }

  /**
   * The whole triangle: generate from a clean checkout, synchronise undisturbed, and every check of the box passes,
   * the version check included.
   */
  lemma DeployedBoxIsGreen(cfg: Config, allowStale: bool, disk: Disk, at: Places, plan: Plan, fmt: Format,
                           allowDirty: bool, stamp: string, before: Box, box: Box)
    requires Emittable(cfg, allowStale) && KeptMint(cfg) != {}
    requires Declared(cfg, "allowlist") + Declared(cfg, "denylist") == {}
    requires Guarded(disk, at, plan, allowDirty) && plan.manifestCommit == Some(ManifestOf(cfg).repoCommit)
    requires Apart(Jobs(at, plan), stamp) && MarkerApart(Jobs(at, plan), stamp, Marker(at))
    requires NoCollision(disk, fmt.sha) && SameCheckout(cfg, disk, at, plan)
    requires IsBox(disk, at, before) && BinariesPlanted(cfg, before)
    requires forall p :: p in cfg.plugins && IsBlessed(cfg, p) ==>
               var path := Under(at.zc, cfg.blessed[p].boxPath);
               path != Marker(at) && !Touched(disk, Jobs(at, plan), stamp, path)
    requires IsBox(After(disk, at, plan, fmt, true, allowDirty, stamp), at, box)
    requires fmt.read(fmt.write(Recorded(plan))) == Recorded(plan)
    requires IsCommitSha(plan.head) && !cfg.dirty
    ensures var m := ManifestOf(cfg);
            && ManifestHolds(m, box, cfg.rd) && MintHolds(m, box, cfg.rd)
            && ProseHolds(m, box, cfg.rd) && PinsHold(m, box, cfg.rd)
            && VintageHolds(m, Some(MarkerOn(After(disk, at, plan, fmt, true, allowDirty, stamp), at, fmt)))
  {
    hide Placed, Jobs, Apart, MarkerApart, Touched, Declared, KeptMint, WithBlessed, Marker, MarkerOn, After, Recorded,
      KeptProse, Pinned, RetiredMints, Merchant, Mint, Emittable, Guarded;
    var after := After(disk, at, plan, fmt, true, allowDirty, stamp);
    forall b | b in Placed(cfg) && Placed(cfg)[b] in cfg.tree
      ensures b in box && box[b] == cfg.tree[Placed(cfg)[b]]
    {
      assert (Placed(cfg)[b], b) in plan.pairs;
      JobsExact(at, plan, Job(Under(at.root, Placed(cfg)[b]), Under(at.zc, b)));
      EveryDestinationMatches(disk, at, plan, fmt, allowDirty, stamp,
                              Job(Under(at.root, Placed(cfg)[b]), Under(at.zc, b)));
    }
    forall p | p in cfg.plugins && IsBlessed(cfg, p)
      ensures var path := cfg.blessed[p].boxPath;
              path !in Placed(cfg) && path in box && cfg.rd.sha(box[path]) == cfg.blessed[p].sha
    {
      UntouchedStays(disk, at, plan, fmt, allowDirty, stamp, Under(at.zc, cfg.blessed[p].boxPath));
    }
    GeneratorAgreesWithChecker(cfg, allowStale, box);
    MarkerIsRecorded(disk, at, plan, fmt, allowDirty, stamp);
    ManifestNamesTheCommit(cfg, disk, at, plan, allowDirty);
    RecordedVersionAgrees(ManifestOf(cfg), plan);
  }

  lemma ManifestNamesTheCommit(cfg: Config, disk: Disk, at: Places, plan: Plan, allowDirty: bool)
    requires Guarded(disk, at, plan, allowDirty) && plan.manifestCommit == Some(ManifestOf(cfg).repoCommit)
    ensures ManifestOf(cfg).repoCommit == plan.head
  {
  }

  lemma MarkerIsRecorded(disk: Disk, at: Places, plan: Plan, fmt: Format, allowDirty: bool, stamp: string)
    requires Guarded(disk, at, plan, allowDirty)
    requires Apart(Jobs(at, plan), stamp) && MarkerApart(Jobs(at, plan), stamp, Marker(at))
    requires fmt.read(fmt.write(Recorded(plan))) == Recorded(plan)
    ensures MarkerOn(After(disk, at, plan, fmt, true, allowDirty, stamp), at, fmt) == Recorded(plan)
  {
    SecondRunDoesNothing(disk, at, plan, fmt, allowDirty, stamp, stamp);
  }
}
