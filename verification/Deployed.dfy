/** What a deployment does, told by the files it was asked for. */
module Deployed {
  import opened Prelude
  import opened DeployMap
  import opened SelfCheck
  import opened Sync

  /** After an undisturbed run, whether it had something to do or not, every destination equals its source. */
  lemma EveryDestinationMatches(disk: Disk, at: Places, plan: Plan, fmt: Format, allowDirty: bool, stamp: string,
                                j: Job)
    requires Guarded(disk, at, plan, allowDirty)
    requires Apart(Jobs(at, plan), stamp) && MarkerApart(Jobs(at, plan), stamp, Marker(at))
    requires NoCollision(disk, fmt.sha) && j in Jobs(at, plan) && j.src in disk
    ensures var after := After(disk, at, plan, fmt, true, allowDirty, stamp);
            j.dst in after && after[j.dst] == disk[j.src]
  {
    if Idle(disk, at, plan, fmt) {
      if StateOf(disk, j, fmt.sha).Pending() {
        PendingHasAll(disk, Jobs(at, plan), fmt.sha, j);
      }
    } else {
      DeploysWithFrame(disk, at, plan, fmt, allowDirty, stamp);
    }
  }

  /** Files a run does not touch are what they were. */
  lemma UntouchedStays(disk: Disk, at: Places, plan: Plan, fmt: Format, allowDirty: bool, stamp: string, p: Path)
    requires Guarded(disk, at, plan, allowDirty)
    requires Apart(Jobs(at, plan), stamp) && MarkerApart(Jobs(at, plan), stamp, Marker(at))
    requires NoCollision(disk, fmt.sha)
    requires p != Marker(at) && !Touched(disk, Jobs(at, plan), stamp, p)
    ensures SameAt(After(disk, at, plan, fmt, true, allowDirty, stamp), disk, p)
  {
    if !Idle(disk, at, plan, fmt) {
      DeploysWithFrame(disk, at, plan, fmt, allowDirty, stamp);
      assert !Touched(disk, Pending(disk, Jobs(at, plan), fmt.sha), stamp, p);
    }
  }

  /** `p` is a destination asked for, or the backup of one, or the marker. */
  predicate MayChange(at: Places, plan: Plan, stamp: string, p: Path) {
    || p == at.zc + "/" + "DEPLOYED_SHA"
    || IsDestination(at, plan, p)
    || (exists c :: c in plan.pairs && p == at.zc + "/" + c.1 + ".bak-" + stamp)
    || (exists c :: c in plan.units && p == at.systemd + "/" + c.1 + ".bak-" + stamp)
    || p == at.zc + "/" + "SHOP-INVARIANTS.json" + ".bak-" + stamp
  }

  predicate IsDestination(at: Places, plan: Plan, p: Path) {
    || (exists c :: c in plan.pairs && p == at.zc + "/" + c.1)
    || (exists c :: c in plan.units && p == at.systemd + "/" + c.1)
    || p == at.zc + "/" + "SHOP-INVARIANTS.json"
  }

  /** The checks that come before anything is compared, one by one. */
  predicate MayRun(disk: Disk, at: Places, plan: Plan, allowDirty: bool) {
    && plan.problems == 0 && |plan.pairs| >= 12 && at.zc + "/" + "config.toml" in disk
    && (allowDirty || !plan.dirty) && plan.manifestCommit == Some(plan.head)
  }

  /** The source's bytes are at the destination, and what was there under another hash is beside it. */
  predicate Carried(disk: Disk, after: Disk, sha: Bytes -> Digest, stamp: string, src: Path, dst: Path)
    requires src in disk
  {
    && dst in after && after[dst] == disk[src]
    && (dst in disk && sha(disk[dst]) != sha(disk[src]) ==>
          dst + ".bak-" + stamp in after && after[dst + ".bak-" + stamp] == disk[dst])
  }

  lemma UntouchedByJobs(disk: Disk, at: Places, plan: Plan, stamp: string, p: Path)
    ensures Touched(disk, Jobs(at, plan), stamp, p) ==> MayChange(at, plan, stamp, p)
  {
    hide Jobs;
    if j :| j in Jobs(at, plan) && (p == j.dst || (j.dst in disk && p == Backup(j.dst, stamp))) {
      JobsExact(at, plan, j);
    }
  }

  /**
   * Left alone, an apply that passes its checks puts every file asked for that exists at its destination, saves what
   * it overwrites beside it, names the version in the marker, and changes nothing else; failing a check or dry, a run
   * changes nothing at all.
   */
  lemma EveryClaimIsCarried(disk: Disk, at: Places, plan: Plan, fmt: Format, apply: bool, allowDirty: bool,
                            stamp: string)
    requires Apart(Jobs(at, plan), stamp) && MarkerApart(Jobs(at, plan), stamp, Marker(at))
    requires NoCollision(disk, fmt.sha)
    ensures var after, name := After(disk, at, plan, fmt, apply, allowDirty, stamp),
                               if plan.dirty then plan.head + "-dirty" else plan.head;
            if !apply || !MayRun(disk, at, plan, allowDirty) then after == disk
            else
              && (forall src: Path, dst: Path :: IsAsked(at, plan, src, dst) && src in disk ==>
                    Carried(disk, after, fmt.sha, stamp, src, dst))
              && (forall p :: !MayChange(at, plan, stamp, p) ==> SameAt(after, disk, p))
              && (name == "" || (at.zc + "/" + "DEPLOYED_SHA" in after
                                 && (after[at.zc + "/" + "DEPLOYED_SHA"] == fmt.write(name)
                                     || fmt.read(after[at.zc + "/" + "DEPLOYED_SHA"]) == name)))
  {
    assert Guarded(disk, at, plan, allowDirty) <==> MayRun(disk, at, plan, allowDirty);
    assert !apply || !Guarded(disk, at, plan, allowDirty) ==>
        After(disk, at, plan, fmt, apply, allowDirty, stamp) == disk;
    hide Guarded, MayRun, After, Apart, MarkerApart, Jobs, NoCollision, IsAsked, Carried, MayChange, SameAt;
    if apply && MayRun(disk, at, plan, allowDirty) {
      ClaimsArrive(disk, at, plan, fmt, allowDirty, stamp);
      RestStays(disk, at, plan, fmt, allowDirty, stamp);
      VersionIsNamed(disk, at, plan, fmt, allowDirty, stamp);
    }
  }

  lemma ClaimsArrive(disk: Disk, at: Places, plan: Plan, fmt: Format, allowDirty: bool, stamp: string)
    requires Guarded(disk, at, plan, allowDirty)
    requires Apart(Jobs(at, plan), stamp) && MarkerApart(Jobs(at, plan), stamp, Marker(at))
    requires NoCollision(disk, fmt.sha)
    ensures var after := After(disk, at, plan, fmt, true, allowDirty, stamp);
            forall src: Path, dst: Path :: IsAsked(at, plan, src, dst) && src in disk ==>
              Carried(disk, after, fmt.sha, stamp, src, dst)
  {
    hide Jobs, Apart, MarkerApart, Touched, IsAsked, Pending, Guarded, After, NoCollision;
    var after := After(disk, at, plan, fmt, true, allowDirty, stamp);
    forall src: Path, dst: Path | IsAsked(at, plan, src, dst) && src in disk
      ensures Carried(disk, after, fmt.sha, stamp, src, dst)
    {
      JobsExact(at, plan, Job(src, dst));
      EveryDestinationMatches(disk, at, plan, fmt, allowDirty, stamp, Job(src, dst));
      if dst in disk && fmt.sha(disk[dst]) != fmt.sha(disk[src]) {
        OverwrittenIsSaved(disk, at, plan, fmt, allowDirty, stamp, Job(src, dst));
      }
    }
  }

  lemma RestStays(disk: Disk, at: Places, plan: Plan, fmt: Format, allowDirty: bool, stamp: string)
    requires Guarded(disk, at, plan, allowDirty)
    requires Apart(Jobs(at, plan), stamp) && MarkerApart(Jobs(at, plan), stamp, Marker(at))
    requires NoCollision(disk, fmt.sha)
    ensures var after := After(disk, at, plan, fmt, true, allowDirty, stamp);
            forall p :: !MayChange(at, plan, stamp, p) ==> SameAt(after, disk, p)
  {
    hide Jobs, Apart, MarkerApart, Touched, Pending, Guarded, After, NoCollision, SameAt;
    forall p | !MayChange(at, plan, stamp, p)
      ensures SameAt(After(disk, at, plan, fmt, true, allowDirty, stamp), disk, p)
    {
      UntouchedByJobs(disk, at, plan, stamp, p);
      UntouchedStays(disk, at, plan, fmt, allowDirty, stamp, p);
    }
  }

  lemma OverwrittenIsSaved(disk: Disk, at: Places, plan: Plan, fmt: Format, allowDirty: bool, stamp: string, j: Job)
    requires Guarded(disk, at, plan, allowDirty)
    requires Apart(Jobs(at, plan), stamp) && MarkerApart(Jobs(at, plan), stamp, Marker(at))
    requires NoCollision(disk, fmt.sha) && j in Jobs(at, plan)
    requires j.src in disk && j.dst in disk && fmt.sha(disk[j.dst]) != fmt.sha(disk[j.src])
    ensures var after := After(disk, at, plan, fmt, true, allowDirty, stamp);
            j.dst + ".bak-" + stamp in after && after[j.dst + ".bak-" + stamp] == disk[j.dst]
  {
    hide Jobs, Apart, MarkerApart, After, Guarded, Touched, NoCollision;
    assert StateOf(disk, j, fmt.sha).Differs?;
    PendingHasAll(disk, Jobs(at, plan), fmt.sha, j);
    hide StateOf, Pending;
    DeploysWithFrame(disk, at, plan, fmt, allowDirty, stamp);
  }

  lemma VersionIsNamed(disk: Disk, at: Places, plan: Plan, fmt: Format, allowDirty: bool, stamp: string)
    requires Guarded(disk, at, plan, allowDirty)
    requires Apart(Jobs(at, plan), stamp) && MarkerApart(Jobs(at, plan), stamp, Marker(at))
    requires NoCollision(disk, fmt.sha)
    ensures var after, name := After(disk, at, plan, fmt, true, allowDirty, stamp),
                               if plan.dirty then plan.head + "-dirty" else plan.head;
            name == "" || (at.zc + "/" + "DEPLOYED_SHA" in after
                           && (after[at.zc + "/" + "DEPLOYED_SHA"] == fmt.write(name)
                               || fmt.read(after[at.zc + "/" + "DEPLOYED_SHA"]) == name))
  {
    hide Jobs, Apart, MarkerApart, Guarded, Touched, NoCollision, Pending;
    assert Marker(at) == at.zc + "/" + "DEPLOYED_SHA";
    if !Idle(disk, at, plan, fmt) {
      DeploysWithFrame(disk, at, plan, fmt, allowDirty, stamp);
    }
  }
}
