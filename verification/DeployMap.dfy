/** The map from tracked repository files to their places on the box. */
module DeployMap {
  import opened Prelude

  type Path = string

  /** One entry of the declared map; an absent field is the empty string. */
  datatype Entry = Entry(src: string, dst: string, pattern: string, flatten: bool)

  /** What git and pathlib answer: tracked files under a prefix, and questions about path names. */
  datatype Git = Git(
    ls: string -> seq<Path>,
    relative: (Path, string) -> string,
    name: string -> string,
    matches: (string, string) -> bool)

  datatype Problem =
    | MissingSrcOrDst(entry: Entry)
    | MatchedNothing(entry: Entry)
    | ClaimedTwice(box: Path, first: Path, second: Path)

  /** (repository path, box path) */
  type Claim = (Path, Path)

  /** `s.strip("/")` */
  function Strip(s: string): string
    decreases |s|
  {
    if s == "" then s
    else if s[0] == '/' then Strip(s[1..])
    else if s[|s| - 1] == '/' then Strip(s[..|s| - 1])
    else s
  }

  predicate Usable(e: Entry) {
    Strip(e.src) != "" && Strip(e.dst) != ""
  }

  /** Where `entry` sends the tracked file `f`, if its include pattern takes it. */
  function ClaimOf(git: Git, e: Entry, f: Path): Option<Claim> {
    var rel := git.relative(f, Strip(e.src));
    if e.pattern != "" && e.pattern != "**" && !git.matches(rel, e.pattern) then None
    else Some((f, Strip(e.dst) + "/" + if e.flatten then git.name(rel) else rel))
  }

  function Matched(git: Git, e: Entry, files: seq<Path>): seq<Claim> {
    if files == [] then [] else
      var n := |files| - 1;
      var rest := Matched(git, e, files[..n]);
      match ClaimOf(git, e, files[n])
      case None => rest
      case Some(c) => rest + [c]
  }

  /** What one entry claims. */
  function EntryClaims(git: Git, e: Entry): seq<Claim> {
    if Usable(e) then Matched(git, e, git.ls(Strip(e.src))) else []
  }

  /** Everything the map asks for, in the order it is read. */
  function Claims(git: Git, entries: seq<Entry>): seq<Claim> {
    if entries == [] then [] else
      var n := |entries| - 1;
      Claims(git, entries[..n]) + EntryClaims(git, entries[n])
  }

  /** No box path is claimed for two repository files. */
  ghost predicate Agree(claims: seq<Claim>) {
    forall c, d :: c in claims && d in claims && c.1 == d.1 ==> c == d
  }

  /** Who gets each box path: the first to claim it. */
  function Owners(claims: seq<Claim>): map<Path, Path> {
    if claims == [] then map[] else
      var n := |claims| - 1;
      var rest := Owners(claims[..n]);
      if claims[n].1 in rest then rest else rest[claims[n].1 := claims[n].0]
  }

  /** Exactly the claimed places have an owner, and each owner claimed its place. */
  lemma {:induction false} OwnersClaimed(claims: seq<Claim>)
    ensures forall b :: b in Owners(claims) ==> (Owners(claims)[b], b) in claims
    ensures forall c :: c in claims ==> c.1 in Owners(claims)
  {
    if claims != [] {
      var n := |claims| - 1;
      OwnersClaimed(claims[..n]);
      assert claims == claims[..n] + [claims[n]];
    }
  }

  /** The first claim on a box path wins, whatever comes after it. */
  lemma {:induction false} FirstClaimWins(claims: seq<Claim>, i: nat)
    requires i < |claims| && forall j :: 0 <= j < i ==> claims[j].1 != claims[i].1
    ensures claims[i].1 in Owners(claims) && Owners(claims)[claims[i].1] == claims[i].0
    decreases |claims|
  {
    var n := |claims| - 1;
    if i < n {
      FirstClaimWins(claims[..n], i);
    } else {
      OwnersClaimed(claims[..n]);
    }
  }

  lemma AgreeOneMore(claims: seq<Claim>, c: Claim)
    ensures Agree(claims + [c]) <==> Agree(claims) && (c.1 in Owners(claims) ==> Owners(claims)[c.1] == c.0)
    ensures Owners(claims + [c]) == if c.1 in Owners(claims) then Owners(claims) else Owners(claims)[c.1 := c.0]
  {
    assert (claims + [c])[..|claims|] == claims;
    OwnersClaimed(claims);
    hide Owners;
    assert forall d :: d in claims + [c] <==> d in claims || d == c;
  }

  /** The map can be trusted: every entry is usable and places something, and no place is claimed twice. */
  ghost predicate Trusted(git: Git, entries: seq<Entry>) {
    && (forall e :: e in entries ==> Usable(e) && EntryClaims(git, e) != [])
    && Agree(Claims(git, entries))
  }

  /**
   * `resolve_map`: each box path has one source, and there are problems exactly when the map cannot be trusted.
   * The pairs of the source are the items of `seen`, box path to repository path.
   */
  method ResolveMap(git: Git, entries: seq<Entry>) returns (seen: map<Path, Path>, problems: seq<Problem>)
    ensures seen == Owners(Claims(git, entries))
    ensures problems == [] <==> Trusted(git, entries)
  {
    hide Owners, Agree, Claims, Matched, Usable;
    seen, problems := map[], [];
    NothingClaimed(git);
    for i := 0 to |entries|
      invariant seen == Owners(Claims(git, entries[..i]))
      invariant problems == [] <==> Trusted(git, entries[..i])
    {
      var e := entries[i];
      OneMoreEntry(git, entries, i);
      ghost var before := Claims(git, entries[..i]);
      if !Usable(e) {
        problems := problems + [MissingSrcOrDst(e)];
        continue;
      }
      var matched := MatchFiles(git, e);
      if matched == [] {
        problems := problems + [MatchedNothing(e)];
        continue;
      }
      ghost var trusted := problems == [];
      assert before + matched[..0] == before;
      for k := 0 to |matched|
        invariant seen == Owners(before + matched[..k])
        invariant problems == [] <==> trusted && Agree(before + matched[..k])
      {
        var (repo, box) := matched[k];
        assert before + matched[..k + 1] == before + matched[..k] + [matched[k]];
        AgreeOneMore(before + matched[..k], matched[k]);
        if box in seen && seen[box] != repo {
          problems := problems + [ClaimedTwice(box, seen[box], repo)];
          continue;
        }
        seen := seen[box := repo];
      }
      assert matched[..|matched|] == matched;
    }
    assert entries[..|entries|] == entries;
  }

  method MatchFiles(git: Git, e: Entry) returns (matched: seq<Claim>)
    ensures matched == Matched(git, e, git.ls(Strip(e.src)))
  {
    matched := [];
    var files := git.ls(Strip(e.src));
    for i := 0 to |files|
      invariant matched == Matched(git, e, files[..i])
    {
      assert files[..i + 1][..i] == files[..i];
      var claim := ClaimOf(git, e, files[i]);
      if claim.Some? {
        matched := matched + [claim.value];
      }
    }
    assert files[..|files|] == files;
  }

  lemma NothingClaimed(git: Git)
    ensures Claims(git, []) == [] && Owners([]) == map[] && Trusted(git, [])
  {
  }

  lemma OneMoreEntry(git: Git, entries: seq<Entry>, i: nat)
    requires i < |entries|
    ensures Claims(git, entries[..i + 1]) == Claims(git, entries[..i]) + EntryClaims(git, entries[i])
    ensures Trusted(git, entries[..i + 1]) <==>
              Trusted(git, entries[..i]) && Usable(entries[i]) && EntryClaims(git, entries[i]) != []
              && Agree(Claims(git, entries[..i]) + EntryClaims(git, entries[i]))
    ensures EntryClaims(git, entries[i]) == [] ==> Claims(git, entries[..i + 1]) == Claims(git, entries[..i])
  {
    hide EntryClaims, Usable;
    assert entries[..i + 1] == entries[..i] + [entries[i]];
    assert entries[..i + 1][..i] == entries[..i];
    assert forall c :: c in Claims(git, entries[..i]) ==> c in Claims(git, entries[..i]) + EntryClaims(git, entries[i]);
  }

  /** A trusted map leaves nothing out: every tracked file an entry takes is at the place that entry names. */
  lemma TrustedMapPlacesEverything(git: Git, entries: seq<Entry>, e: Entry, f: Path)
    requires Trusted(git, entries)
    requires e in entries && f in git.ls(Strip(e.src)) && ClaimOf(git, e, f).Some?
    ensures var (repo, box) := ClaimOf(git, e, f).value;
            var placed := Owners(Claims(git, entries));
            box in placed && placed[box] == repo
  {
    hide Owners, ClaimOf, Claims;
    var c := ClaimOf(git, e, f).value;
    MatchedTakes(git, e, git.ls(Strip(e.src)), f);
    EntryIsIncluded(git, entries, e, c);
    OwnersClaimed(Claims(git, entries));
  }

  lemma {:induction false} MatchedTakes(git: Git, e: Entry, files: seq<Path>, f: Path)
    requires f in files && ClaimOf(git, e, f).Some?
    ensures ClaimOf(git, e, f).value in Matched(git, e, files)
  {
    var n := |files| - 1;
    if files[n] != f {
      assert files == files[..n] + [files[n]];
      MatchedTakes(git, e, files[..n], f);
    }
  }

  lemma {:induction false} EntryIsIncluded(git: Git, entries: seq<Entry>, e: Entry, c: Claim)
    requires e in entries && c in EntryClaims(git, e)
    ensures c in Claims(git, entries)
  {
    var n := |entries| - 1;
    if entries[n] != e {
      assert entries == entries[..n] + [entries[n]];
      EntryIsIncluded(git, entries[..n], e, c);
    }
  }

  // ---------------------------------------------------------------------------
  // The map, told entry by entry
  // ---------------------------------------------------------------------------

  predicate AllSlashes(s: string) {
    forall i :: 0 <= i < |s| ==> s[i] == '/'
  }

  /** Only slashes are stripped, and all of them at either end. */
  lemma {:induction false} StripExact(s: string) returns (before: string, after: string)
    ensures s == before + Strip(s) + after && AllSlashes(before) && AllSlashes(after)
    ensures var t := Strip(s); t != "" ==> t[0] != '/' && t[|t| - 1] != '/'
    decreases |s|
  {
    if s == "" {
      before, after := "", "";
    } else if s[0] == '/' {
      before, after := StripExact(s[1..]);
      assert s == [s[0]] + s[1..];
      before := [s[0]] + before;
    } else if s[|s| - 1] == '/' {
      before, after := StripExact(s[..|s| - 1]);
      assert s == s[..|s| - 1] + [s[|s| - 1]];
      after := after + [s[|s| - 1]];
    } else {
      before, after := "", "";
    }
  }

  /** Entry `e` sends the tracked file `repo` to `box`. */
  predicate Sends(git: Git, e: Entry, repo: Path, box: Path) {
    var src, dst := Strip(e.src), Strip(e.dst);
    && src != "" && dst != "" && repo in git.ls(src)
    && (e.pattern == "" || e.pattern == "**" || git.matches(git.relative(repo, src), e.pattern))
    && box == dst + "/" + if e.flatten then git.name(git.relative(repo, src)) else git.relative(repo, src)
  }

  lemma {:induction false} MatchedExact(git: Git, e: Entry, files: seq<Path>, c: Claim)
    ensures c in Matched(git, e, files) <==> c.0 in files && ClaimOf(git, e, c.0) == Some(c)
  {
    if files != [] {
      var n := |files| - 1;
      assert files == files[..n] + [files[n]];
      MatchedExact(git, e, files[..n], c);
      assert ClaimOf(git, e, files[n]).Some? ==> ClaimOf(git, e, files[n]).value.0 == files[n];
      hide ClaimOf;
    }
  }

  lemma EntryExact(git: Git, e: Entry, c: Claim)
    ensures c in EntryClaims(git, e) <==> Sends(git, e, c.0, c.1)
  {
    if Usable(e) {
      MatchedExact(git, e, git.ls(Strip(e.src)), c);
    }
    hide Matched, Strip;
  }

  lemma {:induction false} ClaimsExact(git: Git, entries: seq<Entry>, c: Claim)
    ensures c in Claims(git, entries) <==> exists e :: e in entries && Sends(git, e, c.0, c.1)
  {
    hide Sends, EntryClaims;
    if entries != [] {
      var n := |entries| - 1;
      assert entries == entries[..n] + [entries[n]];
      ClaimsExact(git, entries[..n], c);
      EntryExact(git, entries[n], c);
    }
  }

  /** The map is trusted exactly when every entry sends something, and no two files are sent to one place. */
  lemma TrustedExact(git: Git, entries: seq<Entry>)
    ensures Trusted(git, entries) <==>
              && (forall e :: e in entries ==> exists repo: Path, box: Path :: Sends(git, e, repo, box))
              && (forall d, e, x: Path, y: Path, box: Path ::
                    d in entries && e in entries && Sends(git, d, x, box) && Sends(git, e, y, box) ==> x == y)
  {
    hide Sends, Claims, EntryClaims, Usable;
    forall c: Claim {
      ClaimsExact(git, entries, c);
    }
    forall e | e in entries
      ensures Usable(e) && EntryClaims(git, e) != [] <==> exists repo: Path, box: Path :: Sends(git, e, repo, box)
    {
      SomethingSent(git, e);
    }
    if Agree(Claims(git, entries)) {
      forall d, e, x: Path, y: Path, box: Path
        | d in entries && e in entries && Sends(git, d, x, box) && Sends(git, e, y, box)
        ensures x == y
      {
        assert (x, box) in Claims(git, entries) && (y, box) in Claims(git, entries);
      }
    }
  }

  lemma SomethingSent(git: Git, e: Entry)
    ensures Usable(e) && EntryClaims(git, e) != [] <==> exists repo: Path, box: Path :: Sends(git, e, repo, box)
  {
    hide Matched, ClaimOf;
    if EntryClaims(git, e) != [] {
      var c := EntryClaims(git, e)[0];
      EntryExact(git, e, c);
      assert Sends(git, e, c.0, c.1);
    }
    if repo: Path, box: Path :| Sends(git, e, repo, box) {
      EntryExact(git, e, (repo, box));
    }
  }

  /** With a trusted map a place holds exactly the file that some entry sends there. */
  lemma PlacedExactly(git: Git, entries: seq<Entry>, repo: Path, box: Path)
    requires Trusted(git, entries)
    ensures var placed := Owners(Claims(git, entries));
            box in placed && placed[box] == repo <==> exists e :: e in entries && Sends(git, e, repo, box)
  {
    hide Owners, Claims, Sends, EntryClaims, Usable;
    OwnersClaimed(Claims(git, entries));
    ClaimsExact(git, entries, (repo, box));
  }
}
