/** The checks the box runs on itself against the manifest it was deployed with. */
module SelfCheck {
  import opened Prelude
  import opened DeployMap

  type Digest = string

  /** The files below the deployment's root. */
  type Box = map<Path, Bytes>

  /** How file contents are read: hashing, decoding, and the patterns searched for. */
  datatype Reading = Reading(
    sha: Bytes -> Digest,
    text: Bytes -> string,
    tokens: string -> set<string>,
    lines: string -> seq<string>,
    lower: string -> string,
    prohibits: string -> bool)

  /** The manifest's statements the checks consume; lists are sets, and an absent field is the empty string. */
  datatype Invariants = Invariants(
    repoCommit: string,
    repoDirty: bool,
    files: map<Path, Digest>,
    merchant: string,
    mint: string,
    network: string,
    allowed: set<string>,
    knownOther: set<string>,
    retired: set<string>,
    mintScan: set<Path>,
    stateScan: set<Path>,
    proseScan: set<Path>,
    pinnedScripts: set<Path>)

  datatype Finding =
    | NothingToCompare
    | Missing(path: Path)
    | HashDiffers(path: Path, got: Digest)
    | UnexpectedAddress(path: Path, token: string)
    | RetiredMint(path: Path, token: string)
    | WrongNetwork(path: Path, line: nat, words: set<string>)
    | PinAbsent(path: Path, field: string)
    | NoUsableCommit
    | DirtyTree
    | LabelDisagrees(marker: string)

  datatype Check = Check(name: string, ok: bool, findings: set<Finding>)

  class Result {
    var checks: seq<Check>

    constructor ()
      ensures checks == []
    {
      checks := [];
    }

    method Add(name: string, ok: bool, findings: set<Finding>)
      modifies this
      ensures checks == old(checks) + [Check(name, ok, findings)]
    {
      checks := checks + [Check(name, ok, findings)];
    }

    /** All of them, and at least one. */
    predicate Ok()
      reads this
    {
      checks != [] && forall i :: 0 <= i < |checks| ==> checks[i].ok
    }
  }

  /** Everything found over a set of targets. */
  function Found(targets: set<Path>, find: Path -> set<Finding>): set<Finding> {
    set p, f | p in targets && f in find(p) :: f
  }

  /** Checks that pass for every target alone pass jointly, and the other way round. */
  lemma CleanTogether(targets: set<Path>, find: Path -> set<Finding>)
    ensures Found(targets, find) == {} <==> forall p :: p in targets ==> find(p) == {}
  {
    forall p, f | p in targets && f in find(p)
      ensures f in Found(targets, find)
    {
    }
    assert forall f :: f in Found(targets, find) ==> exists p :: p in targets && f in find(p);
  }

  /** The loop each check runs over its targets, collecting what it finds. */
  method Gather(targets: set<Path>, find: Path -> set<Finding>) returns (findings: set<Finding>)
    ensures findings == Found(targets, find)
  {
    findings := {};
    var todo := targets;
    while todo != {}
      invariant todo <= targets
      invariant findings == Found(targets - todo, find)
      decreases |todo|
    {
      var p :| p in todo;
      findings := findings + find(p);
      todo := todo - {p};
      assert targets - todo == (targets - (todo + {p})) + {p};
      assert targets - (todo + {p}) <= targets - todo;
    }
    assert targets - todo == targets;
  }

  // ---------------------------------------------------------------------------
  // Deployed bytes
  // ---------------------------------------------------------------------------

  function DriftOf(files: map<Path, Digest>, box: Box, rd: Reading): Path -> set<Finding> {
    p => if p !in files then {}
         else if p !in box then {Missing(p)}
         else if rd.sha(box[p]) != files[p] then {HashDiffers(p, rd.sha(box[p]))}
         else {}
  }

  /** Something is pinned, and every pinned path is there with the pinned hash. */
  predicate ManifestHolds(inv: Invariants, box: Box, rd: Reading) {
    inv.files != map[] && forall p :: p in inv.files ==> p in box && rd.sha(box[p]) == inv.files[p]
  }

  /** A finding names a pinned path that is missing, or one whose hash differs with the hash it has. */
  lemma DriftExact(files: map<Path, Digest>, box: Box, rd: Reading, f: Finding)
    ensures f in Found(files.Keys, DriftOf(files, box, rd)) <==>
              || (f.Missing? && f.path in files && f.path !in box)
              || (f.HashDiffers? && f.path in files && f.path in box && f.got == rd.sha(box[f.path]) != files[f.path])
  {
    var find := DriftOf(files, box, rd);
    if f in Found(files.Keys, find) {
      var p :| p in files.Keys && f in find(p);
    }
    if f.Missing? || f.HashDiffers? {
      assert f.path in files.Keys && f in find(f.path) ==> f in Found(files.Keys, find);
    }
  }

  /** `check_manifest` passes exactly when nothing pinned is missing or differs, and names what does. */
  method CheckManifest(inv: Invariants, box: Box, rd: Reading, r: Result)
    modifies r
    ensures |r.checks| == |old(r.checks)| + 1 && r.checks[..|old(r.checks)|] == old(r.checks)
    ensures var c := r.checks[|old(r.checks)|];
            && c.name == "manifest"
            && (c.ok <==> ManifestHolds(inv, box, rd))
            && (inv.files != map[] ==> c.findings == Found(inv.files.Keys, DriftOf(inv.files, box, rd)))
  {
    if inv.files == map[] {
      r.Add("manifest", false, {NothingToCompare});
      return;
    }
    var bad := Gather(inv.files.Keys, DriftOf(inv.files, box, rd));
    CleanTogether(inv.files.Keys, DriftOf(inv.files, box, rd));
    r.Add("manifest", bad == {}, bad);
  }

  // ---------------------------------------------------------------------------
  // Addresses
  // ---------------------------------------------------------------------------

  function Allowed(inv: Invariants): set<string> {
    {inv.mint, inv.merchant} + inv.allowed
  }

  /** Deployed files carry an allowlist: any other address is a finding. */
  function AddressFindings(inv: Invariants, box: Box, rd: Reading): Path -> set<Finding> {
    p => if p !in box then {Missing(p)}
         else (set t | t in rd.tokens(rd.text(box[p])) && t !in Allowed(inv) && t !in inv.knownOther ::
                 UnexpectedAddress(p, t))
  }

  function Retired(inv: Invariants): set<string> {
    inv.retired - {"", inv.mint}
  }

  /** Agent state carries a denylist: only a retired mint is a finding. */
  function StateFindings(inv: Invariants, box: Box, rd: Reading): Path -> set<Finding> {
    p => if p !in box then {Missing(p)}
         else set t | t in Retired(inv) && t in rd.tokens(rd.text(box[p])) :: RetiredMint(p, t)
  }

  predicate AddressesKnown(inv: Invariants, box: Box, rd: Reading, p: Path) {
    p in box && rd.tokens(rd.text(box[p])) <= Allowed(inv) + inv.knownOther
  }

  predicate StateFree(inv: Invariants, box: Box, rd: Reading, p: Path) {
    p in box && rd.tokens(rd.text(box[p])) !! Retired(inv)
  }

  predicate MintHolds(inv: Invariants, box: Box, rd: Reading) {
    && inv.mint != ""
    && (inv.mintScan != {} || inv.stateScan != {})
    && (inv.stateScan != {} ==> Retired(inv) != {})
    && (forall p :: p in inv.mintScan ==> AddressesKnown(inv, box, rd, p))
    && (forall p :: p in inv.stateScan ==> StateFree(inv, box, rd, p))
  }

  /** The two tiers, address by address. */
  lemma MintHoldsExact(inv: Invariants, box: Box, rd: Reading)
    ensures MintHolds(inv, box, rd) <==>
              && inv.mint != "" && (inv.mintScan != {} || inv.stateScan != {})
              && (inv.stateScan != {} ==> exists t :: t in inv.retired && t != "" && t != inv.mint)
              && (forall p :: p in inv.mintScan ==>
                    && p in box
                    && forall t :: t in rd.tokens(rd.text(box[p])) ==>
                         t == inv.mint || t == inv.merchant || t in inv.allowed || t in inv.knownOther)
              && (forall p :: p in inv.stateScan ==>
                    && p in box
                    && forall t :: t in rd.tokens(rd.text(box[p])) ==>
                         t !in inv.retired || t == "" || t == inv.mint)
  {
    forall p | p in box
      ensures AddressesKnown(inv, box, rd, p) <==>
                forall t :: t in rd.tokens(rd.text(box[p])) ==>
                  t == inv.mint || t == inv.merchant || t in inv.allowed || t in inv.knownOther
      ensures StateFree(inv, box, rd, p) <==>
                forall t :: t in rd.tokens(rd.text(box[p])) ==> t !in inv.retired || t == "" || t == inv.mint
    {
      OneTarget(inv, box, rd, p);
    }
    assert Retired(inv) != {} <==> exists t :: t in inv.retired && t != "" && t != inv.mint by {
      if t :| t in inv.retired && t != "" && t != inv.mint {
        assert t in Retired(inv);
      }
      if Retired(inv) != {} {
        var t :| t in Retired(inv);
      }
    }
    hide AddressesKnown, StateFree, Retired;
  }

  lemma OneTarget(inv: Invariants, box: Box, rd: Reading, p: Path)
    requires p in box
    ensures AddressesKnown(inv, box, rd, p) <==>
              forall t :: t in rd.tokens(rd.text(box[p])) ==>
                t == inv.mint || t == inv.merchant || t in inv.allowed || t in inv.knownOther
    ensures StateFree(inv, box, rd, p) <==>
              forall t :: t in rd.tokens(rd.text(box[p])) ==> t !in inv.retired || t == "" || t == inv.mint
  {
    var tokens := rd.tokens(rd.text(box[p]));
    assert tokens !! Retired(inv) <==> forall t :: t in tokens ==> t !in Retired(inv);
  }

  lemma AddressesExact(inv: Invariants, box: Box, rd: Reading, p: Path)
    ensures AddressFindings(inv, box, rd)(p) == {} <==> AddressesKnown(inv, box, rd, p)
    ensures StateFindings(inv, box, rd)(p) == {} <==> StateFree(inv, box, rd, p)
  {
    if p in box {
      var tokens := rd.tokens(rd.text(box[p]));
      if t :| t in tokens && t !in Allowed(inv) && t !in inv.knownOther {
        assert UnexpectedAddress(p, t) in AddressFindings(inv, box, rd)(p);
      }
      if t :| t in tokens && t in Retired(inv) {
        assert RetiredMint(p, t) in StateFindings(inv, box, rd)(p);
      }
    }
  }

  /** `check_mint_prohibition`, with a different polarity per tier. */
  method CheckMintProhibition(inv: Invariants, box: Box, rd: Reading, r: Result)
    modifies r
    ensures |r.checks| == |old(r.checks)| + 1 && r.checks[..|old(r.checks)|] == old(r.checks)
    ensures var c := r.checks[|old(r.checks)|];
            c.name == "mint-prohibition" && (c.ok <==> MintHolds(inv, box, rd))
  {
    if inv.mint == "" {
      r.Add("mint-prohibition", false, {NothingToCompare});
      return;
    }
    if inv.mintScan == {} && inv.stateScan == {} {
      r.Add("mint-prohibition", false, {NothingToCompare});
      return;
    }
    if inv.stateScan != {} && Retired(inv) == {} {
      r.Add("mint-prohibition", false, {NothingToCompare});
      return;
    }
    var inFiles := Gather(inv.mintScan, AddressFindings(inv, box, rd));
    var inState := Gather(inv.stateScan, StateFindings(inv, box, rd));
    CleanTogether(inv.mintScan, AddressFindings(inv, box, rd));
    CleanTogether(inv.stateScan, StateFindings(inv, box, rd));
    forall p {
      AddressesExact(inv, box, rd, p);
    }
    hide AddressesKnown, StateFree, AddressFindings, StateFindings, Found;
    r.Add("mint-prohibition", inFiles + inState == {}, inFiles + inState);
  }

  // ---------------------------------------------------------------------------
  // The network the prose names
  // ---------------------------------------------------------------------------

  predicate Contains(s: string, w: string) {
    exists i :: 0 <= i <= |s| && w <= s[i..]
  }

  function Forbidden(inv: Invariants, rd: Reading): set<string> {
    {"devnet", "testnet", "localnet"} - {rd.lower(inv.network)}
  }

  /** The forbidden words a line names. */
  function Hits(inv: Invariants, rd: Reading, line: string): set<string> {
    set w | w in Forbidden(inv, rd) && Contains(rd.lower(line), w)
  }

  /** A line that names no other network, or names it to forbid it. */
  predicate LineHonest(inv: Invariants, rd: Reading, line: string) {
    rd.prohibits(line) || forall w :: w in Forbidden(inv, rd) ==> !Contains(rd.lower(line), w)
  }

  function ProseFindings(inv: Invariants, box: Box, rd: Reading): Path -> set<Finding> {
    p => if p !in box then {Missing(p)} else
      var lines := rd.lines(rd.text(box[p]));
      set i | 0 <= i < |lines| && Hits(inv, rd, lines[i]) != {} && !rd.prohibits(lines[i]) ::
        WrongNetwork(p, i + 1, Hits(inv, rd, lines[i]))
  }

  predicate ProseHonest(inv: Invariants, box: Box, rd: Reading, p: Path) {
    p in box && forall line :: line in rd.lines(rd.text(box[p])) ==> LineHonest(inv, rd, line)
  }

  lemma LineExact(inv: Invariants, rd: Reading, line: string)
    ensures LineHonest(inv, rd, line) <==> Hits(inv, rd, line) == {} || rd.prohibits(line)
  {
    hide Contains, Forbidden;
    if w :| w in Forbidden(inv, rd) && Contains(rd.lower(line), w) {
      assert w in Hits(inv, rd, line);
    }
  }

  lemma ProseExact(inv: Invariants, box: Box, rd: Reading, p: Path)
    ensures ProseFindings(inv, box, rd)(p) == {} <==> ProseHonest(inv, box, rd, p)
  {
    hide Contains, Forbidden, LineHonest, Hits;
    if p in box {
      var lines := rd.lines(rd.text(box[p]));
      forall i | 0 <= i < |lines|
        ensures LineHonest(inv, rd, lines[i]) <==> Hits(inv, rd, lines[i]) == {} || rd.prohibits(lines[i])
      {
        LineExact(inv, rd, lines[i]);
      }
      if i :| 0 <= i < |lines| && !LineHonest(inv, rd, lines[i]) {
        assert WrongNetwork(p, i + 1, Hits(inv, rd, lines[i])) in ProseFindings(inv, box, rd)(p);
      }
    }
  }

  lemma ContainsExact(s: string, w: string)
    ensures Contains(s, w) <==> exists before: string, after: string :: s == before + w + after
  {
    if Contains(s, w) {
      var i :| 0 <= i <= |s| && w <= s[i..];
      assert s == s[..i] + w + s[i + |w|..];
    }
    if before: string, after: string :| s == before + w + after {
      assert s[|before|..] == w + after;
    }
  }

  /** Every line, word by word. */
  lemma ProseHoldsExact(inv: Invariants, box: Box, rd: Reading)
    ensures ProseHolds(inv, box, rd) <==>
              && rd.lower(inv.network) != ""
              && forall p :: p in inv.proseScan ==>
                   && p in box
                   && forall line :: line in rd.lines(rd.text(box[p])) ==>
                        rd.prohibits(line)
                        || forall w :: w in {"devnet", "testnet", "localnet"} && Contains(rd.lower(line), w) ==>
                             w == rd.lower(inv.network)
  {
    hide Contains;
  }

  /** An empty scan passes: nothing read, nothing wrong. */
  predicate ProseHolds(inv: Invariants, box: Box, rd: Reading) {
    rd.lower(inv.network) != "" && forall p :: p in inv.proseScan ==> ProseHonest(inv, box, rd, p)
  }

  method CheckNetworkProse(inv: Invariants, box: Box, rd: Reading, r: Result)
    modifies r
    ensures |r.checks| == |old(r.checks)| + 1 && r.checks[..|old(r.checks)|] == old(r.checks)
    ensures var c := r.checks[|old(r.checks)|];
            c.name == "network-prose" && (c.ok <==> ProseHolds(inv, box, rd))
  {
    if rd.lower(inv.network) == "" {
      r.Add("network-prose", false, {NothingToCompare});
      return;
    }
    var bad := Gather(inv.proseScan, ProseFindings(inv, box, rd));
    CleanTogether(inv.proseScan, ProseFindings(inv, box, rd));
    forall p {
      ProseExact(inv, box, rd, p);
    }
    hide ProseHonest, ProseFindings, Found;
    r.Add("network-prose", bad == {}, bad);
  }

  // ---------------------------------------------------------------------------
  // The pins in the scripts that build links
  // ---------------------------------------------------------------------------

  predicate CarriesBothPins(inv: Invariants, rd: Reading, content: Bytes) {
    && inv.merchant != "" && Contains(rd.text(content), inv.merchant)
    && inv.mint != "" && Contains(rd.text(content), inv.mint)
  }

  function PinFindings(inv: Invariants, box: Box, rd: Reading): Path -> set<Finding> {
    p => if p !in box then {Missing(p)} else
      var src := rd.text(box[p]);
      (if inv.merchant == "" || !Contains(src, inv.merchant) then {PinAbsent(p, "merchant")} else {})
      + if inv.mint == "" || !Contains(src, inv.mint) then {PinAbsent(p, "mint")} else {}
  }

  predicate PinsHold(inv: Invariants, box: Box, rd: Reading) {
    && inv.pinnedScripts != {}
    && forall p :: p in inv.pinnedScripts ==> p in box && CarriesBothPins(inv, rd, box[p])
  }

  /** Each listed script is there and carries both constants somewhere in its text. */
  lemma PinsHoldExact(inv: Invariants, box: Box, rd: Reading)
    ensures PinsHold(inv, box, rd) <==>
              && inv.pinnedScripts != {} && inv.merchant != "" && inv.mint != ""
              && forall p :: p in inv.pinnedScripts ==>
                   && p in box
                   && Contains(rd.text(box[p]), inv.merchant) && Contains(rd.text(box[p]), inv.mint)
  {
    hide Contains;
    if PinsHold(inv, box, rd) {
      var some :| some in inv.pinnedScripts;
    }
  }

  /** A check with nothing to compare is red, whatever is on the box: all but the prose scan fail closed. */
  lemma FailsClosed(inv: Invariants, box: Box, rd: Reading)
    ensures inv.files == map[] ==> !ManifestHolds(inv, box, rd)
    ensures inv.mint == "" || inv.mintScan + inv.stateScan == {} ==> !MintHolds(inv, box, rd)
    ensures rd.lower(inv.network) == "" ==> !ProseHolds(inv, box, rd)
    ensures inv.proseScan == {} && rd.lower(inv.network) != "" ==> ProseHolds(inv, box, rd)
    ensures inv.pinnedScripts == {} ==> !PinsHold(inv, box, rd)
    ensures forall p :: p in inv.files && (p !in box || rd.sha(box[p]) != inv.files[p]) ==> !ManifestHolds(inv, box, rd)
  {
    hide Contains;
  }

  method CheckPins(inv: Invariants, box: Box, rd: Reading, r: Result)
    modifies r
    ensures |r.checks| == |old(r.checks)| + 1 && r.checks[..|old(r.checks)|] == old(r.checks)
    ensures var c := r.checks[|old(r.checks)|];
            c.name == "code-pins" && (c.ok <==> PinsHold(inv, box, rd))
  {
    hide Contains;
    var bad := Gather(inv.pinnedScripts, PinFindings(inv, box, rd));
    CleanTogether(inv.pinnedScripts, PinFindings(inv, box, rd));
    var checked := |set p | p in inv.pinnedScripts && p in box|;
    SomeChecked(inv.pinnedScripts, box, bad);
    r.Add("code-pins", bad == {} && checked > 0, bad);
  }

  /** With nothing missing, a script was checked exactly when one was listed. */
  lemma SomeChecked(scripts: set<Path>, box: Box, bad: set<Finding>)
    ensures (forall p :: p in scripts ==> p in box) ==>
              (|set p | p in scripts && p in box| > 0 <==> scripts != {})
  {
    var seen := set p | p in scripts && p in box;
    if forall p :: p in scripts ==> p in box {
      assert seen == scripts;
    }
  }

  // ---------------------------------------------------------------------------
  // The commit the deployment names
  // ---------------------------------------------------------------------------

  predicate IsHex(c: char) {
    '0' <= c <= '9' || 'a' <= c <= 'f' || 'A' <= c <= 'F'
  }

  predicate IsCommitSha(s: string) {
    |s| == 40 && forall i :: 0 <= i < |s| ==> IsHex(s[i])
  }

  /** A full commit id: forty hexadecimal digits, in either case. */
  lemma CommitShaExact(s: string)
    ensures IsCommitSha(s) <==> |s| == 40 && forall i :: 0 <= i < |s| ==> s[i] in "0123456789" + "abcdef" + "ABCDEF"
  {
    forall c: char
      ensures IsHex(c) <==> c in "0123456789" + "abcdef" + "ABCDEF"
    {
      HexExact(c);
    }
    hide IsHex;
  }

  lemma HexExact(c: char)
    ensures IsHex(c) <==> c in "0123456789" + "abcdef" + "ABCDEF"
  {
    assert "0123456789"[c as int % 10] in "0123456789";
    assert c in "0123456789" <==> '0' <= c <= '9';
    assert c in "abcdef" <==> 'a' <= c <= 'f';
    assert c in "ABCDEF" <==> 'A' <= c <= 'F';
  }

  /** `s.startswith(prefix)` */
  predicate StartsWith(s: string, prefix: string) {
    prefix <= s
  }

  predicate VintageHolds(inv: Invariants, marker: Option<string>) {
    && IsCommitSha(inv.repoCommit) && !inv.repoDirty
    && (marker.Some? ==>
          || StartsWith(marker.value, Slice(inv.repoCommit, 0, 12))
          || StartsWith(inv.repoCommit, Slice(marker.value, 0, 12)))
  }

  /** `marker` is the stripped version marker, `None` when it is absent or blank. */
  method CheckVintage(inv: Invariants, marker: Option<string>, r: Result)
    modifies r
    ensures |r.checks| == |old(r.checks)| + 1 && r.checks[..|old(r.checks)|] == old(r.checks)
    ensures var c := r.checks[|old(r.checks)|];
            c.name == "deploy-vintage" && (c.ok <==> VintageHolds(inv, marker))
  {
    var generated := inv.repoCommit;
    if !IsCommitSha(generated) {
      r.Add("deploy-vintage", false, {NoUsableCommit});
      return;
    }
    if inv.repoDirty {
      r.Add("deploy-vintage", false, {DirtyTree});
      return;
    }
    if marker.None? {
      r.Add("deploy-vintage", true, {});
      return;
    }
    var agree :=
      StartsWith(marker.value, Slice(generated, 0, 12)) || StartsWith(generated, Slice(marker.value, 0, 12));
    r.Add("deploy-vintage", agree, if agree then {} else {LabelDisagrees(marker.value)});
  }

  /** Two records agree exactly when the shorter of commit and marker, cut to twelve characters, starts the other. */
  lemma VintageComparesTwelve(inv: Invariants, marker: string)
    requires IsCommitSha(inv.repoCommit) && !inv.repoDirty
    ensures |marker| >= 12 ==> (VintageHolds(inv, Some(marker)) <==> marker[..12] == inv.repoCommit[..12])
    ensures |marker| < 12 ==> (VintageHolds(inv, Some(marker)) <==> marker <= inv.repoCommit)
  {
    var c := inv.repoCommit;
    assert Slice(c, 0, 12) == c[..12];
    if |marker| >= 12 {
      assert Slice(marker, 0, 12) == marker[..12];
      assert marker[..12] <= c <==> marker[..12] == c[..12];
      assert c[..12] <= marker <==> c[..12] == marker[..12];
    } else {
      assert Slice(marker, 0, 12) == marker;
    }
  }
}
