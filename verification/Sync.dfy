/** The synchroniser: copy every mapped file onto the box, keep what was overwritten, and mark the version last. */
module Sync {
  import opened Prelude
  import opened DeployMap
  import opened SelfCheck

  const MIN_PAIRS: nat := 12
  const INVARIANTS_NAME := "SHOP-INVARIANTS.json"
  const DEPLOYED_SHA_NAME := "DEPLOYED_SHA"

  /** Every file of the machine, by absolute path: the checkout, the deployment and the units directory. */
  type Disk = map<Path, Bytes>

  datatype Job = Job(src: Path, dst: Path)

  datatype State = Same | Differs | Absent | NoSource {
    predicate Pending() {
      Differs? || Absent?
    }
  }

  /** One step of a run: compare a job, save what a destination holds, copy a source, write the version marker. */
  datatype Act =
    | Compared(job: Job, state: State)
    | Saved(job: Job, backup: Path)
    | Copied(job: Job)
    | Marked(path: Path, content: Bytes)

  /** A step with the disk it found and the disk it left. */
  datatype Event = Event(act: Act, before: Disk, after: Disk)

  datatype Places = Places(root: string, zc: string, systemd: string)

  /** How the version marker is written and read back, and the hash files are compared by. */
  datatype Format = Format(sha: Bytes -> Digest, write: string -> Bytes, read: Bytes -> string)

  /** What a run starts from: the map's outcome, the tracked units, the checkout's commit, and the manifest's. */
  datatype Plan = Plan(
    problems: nat,
    pairs: seq<Claim>,
    units: seq<Claim>,
    head: string,
    dirty: bool,
    manifestCommit: Option<string>)

  function Under(dir: string, path: Path): Path {
    dir + "/" + path
  }

  function JobsFor(root: string, dir: string, claims: seq<Claim>): (r: seq<Job>)
    ensures |r| == |claims|
    ensures forall i :: 0 <= i < |r| ==> r[i] == Job(Under(root, claims[i].0), Under(dir, claims[i].1))
  {
    seq(|claims|, i requires 0 <= i < |claims| => Job(Under(root, claims[i].0), Under(dir, claims[i].1)))
  }

  /** The mapped files, the manifest, and the units, in the order they are compared and copied. */
  function Jobs(at: Places, plan: Plan): seq<Job> {
    JobsFor(at.root, at.zc, plan.pairs + [("deploy/" + INVARIANTS_NAME, INVARIANTS_NAME)])
    + JobsFor(at.root, at.systemd, plan.units)
  }

  function Backup(dst: Path, stamp: string): Path {
    dst + ".bak-" + stamp
  }

  function Marker(at: Places): Path {
    Under(at.zc, DEPLOYED_SHA_NAME)
  }

  function Recorded(plan: Plan): string {
    if plan.dirty then plan.head + "-dirty" else plan.head
  }

  // ---------------------------------------------------------------------------
  // What a run does to an undisturbed disk
  // ---------------------------------------------------------------------------

  function StateOf(disk: Disk, job: Job, sha: Bytes -> Digest): State {
    if job.src !in disk then NoSource
    else if job.dst !in disk then Absent
    else if sha(disk[job.src]) == sha(disk[job.dst]) then Same
    else Differs
  }

  /** The jobs that are not the same, in order. */
  function Pending(disk: Disk, jobs: seq<Job>, sha: Bytes -> Digest): (r: seq<Job>)
    ensures forall j :: j in r ==> j in jobs && StateOf(disk, j, sha).Pending()
  {
    if jobs == [] then [] else
      var n := |jobs| - 1;
      Pending(disk, jobs[..n], sha) + if StateOf(disk, jobs[n], sha).Pending() then [jobs[n]] else []
  }

  lemma {:induction false} PendingHasAll(disk: Disk, jobs: seq<Job>, sha: Bytes -> Digest, j: Job)
    requires j in jobs && StateOf(disk, j, sha).Pending()
    ensures j in Pending(disk, jobs, sha)
  {
    var n := |jobs| - 1;
    if jobs[n] != j {
      assert jobs == jobs[..n] + [jobs[n]];
      PendingHasAll(disk, jobs[..n], sha, j);
    }
  }

  /** One file: what was there goes to the backup, then the source is copied over it. */
  function Step(disk: Disk, job: Job, stamp: string): Disk {
    var saved := if job.dst in disk then disk[Backup(job.dst, stamp) := disk[job.dst]] else disk;
    if job.src in saved then saved[job.dst := saved[job.src]] else saved
  }

  function Written(disk: Disk, jobs: seq<Job>, stamp: string): Disk {
    if jobs == [] then disk else Step(Written(disk, jobs[..|jobs| - 1], stamp), jobs[|jobs| - 1], stamp)
  }

  /** Destinations are distinct, and nothing a run writes is something it reads or something else it writes. */
  predicate Apart(jobs: seq<Job>, stamp: string) {
    && DistinctTargets(jobs)
    && (forall a, b :: a in jobs && b in jobs ==>
          a.dst != b.src && Backup(a.dst, stamp) != b.src && Backup(a.dst, stamp) != b.dst)
  }

  predicate DistinctTargets(jobs: seq<Job>) {
    forall i, j :: 0 <= i < j < |jobs| ==> jobs[i].dst != jobs[j].dst
  }

  /** The version marker is none of the files a run reads or writes. */
  predicate MarkerApart(jobs: seq<Job>, stamp: string, marker: Path) {
    forall a :: a in jobs ==> marker != a.src && marker != a.dst && marker != Backup(a.dst, stamp)
  }

  /** The guards that have to be passed before anything is compared. */
  predicate Guarded(disk: Disk, at: Places, plan: Plan, allowDirty: bool) {
    && plan.problems == 0 && |plan.pairs| >= MIN_PAIRS
    && Under(at.zc, "config.toml") in disk
    && (plan.dirty ==> allowDirty)
    && plan.manifestCommit == Some(plan.head)
  }

  function MarkerOn(disk: Disk, at: Places, fmt: Format): string {
    if Marker(at) in disk then fmt.read(disk[Marker(at)]) else ""
  }

  predicate Idle(disk: Disk, at: Places, plan: Plan, fmt: Format) {
    Pending(disk, Jobs(at, plan), fmt.sha) == [] && MarkerOn(disk, at, fmt) == Recorded(plan)
  }

  /** The disk after an undisturbed run. */
  function After(disk: Disk, at: Places, plan: Plan, fmt: Format, apply: bool, allowDirty: bool, stamp: string): Disk {
    if !Guarded(disk, at, plan, allowDirty) || !apply || Idle(disk, at, plan, fmt) then disk else
      var jobs := Jobs(at, plan);
      var copied := Written(disk, Pending(disk, jobs, fmt.sha), stamp);
      if Pending(copied, jobs, fmt.sha) == [] then copied[Marker(at) := fmt.write(Recorded(plan))] else copied
  }

  /** An undisturbed apply ends with nothing left to copy. */
  predicate Converges(disk: Disk, at: Places, plan: Plan, fmt: Format, stamp: string) {
    var jobs := Jobs(at, plan);
    Pending(Written(disk, Pending(disk, jobs, fmt.sha), stamp), jobs, fmt.sha) == []
  }

  // ---------------------------------------------------------------------------
  // The run itself, step by step, with other writers in between
  // ---------------------------------------------------------------------------

  /** What a step does to the disk it finds; a comparison reads it and changes nothing. */
  ghost predicate Means(e: Event, sha: Bytes -> Digest) {
    match e.act
    case Compared(job, state) => e.after == e.before && state == StateOf(e.before, job, sha)
    case Saved(job, backup) => job.dst in e.before && e.after == e.before[backup := e.before[job.dst]]
    case Copied(job) => job.src in e.before && e.after == e.before[job.dst := e.before[job.src]]
    case Marked(path, content) => e.after == e.before[path := content]
  }

  ghost predicate Honest(log: seq<Event>, sha: Bytes -> Digest) {
    forall k :: 0 <= k < |log| ==> Means(log[k], sha)
  }

  /** Between one step and the next the disk is what the other writers make of it, and `now` is what they made last. */
  ghost predicate Chained(log: seq<Event>, others: nat -> Disk -> Disk, now: Disk) {
    && (forall k: nat :: k + 1 < |log| ==> others(k)(log[k].after) == log[k + 1].before)
    && (log != [] ==> others(|log| - 1)(log[|log| - 1].after) == now)
  }

  /** A step of a run that has not marked the version: it concerns a job, and backups go where they belong. */
  ghost predicate Works(act: Act, jobs: seq<Job>, stamp: string) {
    match act
    case Compared(job, _) => job in jobs
    case Saved(job, backup) => job in jobs && backup == Backup(job.dst, stamp)
    case Copied(job) => job in jobs
    case Marked(_, _) => false
  }

  /** No destination is overwritten except straight after it was saved. */
  ghost predicate BackedUp(events: seq<Event>, stamp: string) {
    forall k :: 0 <= k < |events| && events[k].act.Copied? && events[k].act.job.dst in events[k].before ==>
      k > 0 && events[k - 1].act == Saved(events[k].act.job, Backup(events[k].act.job.dst, stamp))
  }

  ghost predicate Working(events: seq<Event>, jobs: seq<Job>, stamp: string) {
    (forall k :: 0 <= k < |events| ==> Works(events[k].act, jobs, stamp)) && BackedUp(events, stamp)
  }

  /** One comparison of each job, in order. */
  ghost predicate Comparison(events: seq<Event>, jobs: seq<Job>) {
    |events| == |jobs| && forall i :: 0 <= i < |jobs| ==> events[i].act.Compared? && events[i].act.job == jobs[i]
  }

  ghost predicate NonePending(events: seq<Event>) {
    forall i :: 0 <= i < |events| && events[i].act.Compared? ==> !events[i].act.state.Pending()
  }

  /** The version is marked once, at the very end, straight after a full comparison that found nothing pending. */
  ghost predicate MarkedAfterVerdict(events: seq<Event>, jobs: seq<Job>, stamp: string, mark: Act) {
    var n := |events| - 1 - |jobs|;
    && n >= 0 && events[n + |jobs|].act == mark
    && Working(events[..n], jobs, stamp)
    && Comparison(events[n..n + |jobs|], jobs) && NonePending(events[n..n + |jobs|])
  }

  function Mark(at: Places, plan: Plan, fmt: Format): Act {
    Marked(Marker(at), fmt.write(Recorded(plan)))
  }

  /** How `apply_one` ends: its read-back agrees, differs, or finds a file gone and raises. */
  datatype Applied = Verified | Mismatch | Raised

  class Machine {
    const fmt: Format
    const others: nat -> Disk -> Disk
    var files: Disk
    var tick: nat
    ghost var log: seq<Event>

    /** `others(k)` is what other processes do to the disk after step `k` of ours. */
    constructor (files: Disk, fmt: Format, others: nat -> Disk -> Disk)
      ensures Valid() && this.files == files && this.fmt == fmt && this.others == others && log == []
    {
      this.files, this.fmt, this.others, tick, log := files, fmt, others, 0, [];
    }

    /** The log tells the whole story: what each step found and did, and what the others did after it. */
    ghost predicate Valid()
      reads this
    {
      tick == |log| && Honest(log, fmt.sha) && Chained(log, others, files)
    }

    ghost predicate Quiet() {
      forall k: nat, d: Disk :: others(k)(d) == d
    }

    /** One step of ours, after which whoever else writes, writes. */
    method Do(act: Act, after: Disk)
      requires Valid() && Means(Event(act, files, after), fmt.sha)
      modifies this
      ensures Valid() && log == old(log) + [Event(act, old(files), after)]
      ensures Quiet() ==> files == after
    {
      StoryGrows(log, others, files, fmt.sha, Event(act, files, after));
      hide Honest, Chained, Means;
      log := log + [Event(act, files, after)];
      files := others(tick)(after);
      tick := tick + 1;
    }

    /** `classify`: the jobs left to do, one comparison at a time. */
    method Classify(jobs: seq<Job>) returns (todo: seq<Job>, ghost seen: seq<Event>)
      requires Valid()
      modifies this
      ensures Valid() && log == old(log) + seen && Comparison(seen, jobs)
      ensures todo == [] <==> NonePending(seen)
      ensures forall j :: j in todo ==> j in jobs
      ensures Quiet() ==> files == old(files) && todo == Pending(files, jobs, fmt.sha)
    {
      hide Quiet, StateOf, Honest, Chained;
      todo, seen := [], [];
      for k := 0 to |jobs|
        invariant Valid() && log == old(log) + seen && Comparison(seen, jobs[..k])
        invariant todo == [] <==> NonePending(seen)
        invariant forall j :: j in todo ==> j in jobs
        invariant Quiet() ==> files == old(files) && todo == Pending(old(files), jobs[..k], fmt.sha)
      {
        assert jobs[..k + 1][..k] == jobs[..k];
        var state := StateOf(files, jobs[k], fmt.sha);
        if state.Pending() {
          todo := todo + [jobs[k]];
        }
        OneMoreVerdict(seen, Event(Compared(jobs[k], state), files, files));
        seen := seen + [Event(Compared(jobs[k], state), files, files)];
        Do(Compared(jobs[k], state), files);
      }
      assert jobs[..|jobs|] == jobs;
    }

    /** `apply_one`: back up, copy, and read the result back. */
    method ApplyOne(job: Job, stamp: string, ghost jobs: seq<Job>) returns (r: Applied, ghost done: seq<Event>)
      requires Valid() && job in jobs
      modifies this
      ensures Valid() && log == old(log) + done && Working(done, jobs, stamp)
      ensures Quiet() && job.src in old(files) ==> r.Verified? && files == Step(old(files), job, stamp)
    {
      hide Honest, Chained;
      done := [];
      if job.dst in files {
        var saved := files[Backup(job.dst, stamp) := files[job.dst]];
        done := done + [Event(Saved(job, Backup(job.dst, stamp)), files, saved)];
        Do(Saved(job, Backup(job.dst, stamp)), saved);
      }
      if job.src !in files {
        return Raised, done;
      }
      var copied := files[job.dst := files[job.src]];
      done := done + [Event(Copied(job), files, copied)];
      Do(Copied(job), copied);
      if job.dst !in files || job.src !in files {
        return Raised, done;
      }
      r := if fmt.sha(files[job.dst]) == fmt.sha(files[job.src]) then Verified else Mismatch;
    }

    /** The apply loop; `bad` counts read-backs that disagreed, and a vanished file ends the program. */
    method ApplyAll(todo: seq<Job>, stamp: string, ghost jobs: seq<Job>)
      returns (bad: nat, raised: bool, ghost done: seq<Event>)
      requires Valid() && forall j :: j in todo ==> j in jobs
      modifies this
      ensures Valid() && log == old(log) + done && Working(done, jobs, stamp)
      ensures Quiet() && (forall j :: j in todo ==> j.src in old(files)) ==>
                bad == 0 && !raised && files == Written(old(files), todo, stamp)
    {
      hide Step, Quiet, Honest, Chained, Working;
      NothingDone(jobs, stamp);
      bad, raised, done := 0, false, [];
      for k := 0 to |todo|
        invariant Valid() && log == old(log) + done && Working(done, jobs, stamp)
        invariant Quiet() && (forall j :: j in todo ==> j.src in old(files)) ==>
                    bad == 0 && files == Written(old(files), todo[..k], stamp)
      {
        assert todo[..k + 1][..k] == todo[..k];
        WrittenKeeps(old(files), todo[..k], stamp);
        var r, one := ApplyOne(todo[k], stamp, jobs);
        WorkingOn(done, one, jobs, stamp);
        done := done + one;
        if r.Raised? {
          raised := true;
          return;
        }
        if r.Mismatch? {
          bad := bad + 1;
        }
      }
      assert todo[..|todo|] == todo;
    }

    /** The apply phase of `main`: copy, compare everything again, and only then mark the version. */
    method Apply(at: Places, plan: Plan, todo: seq<Job>, stamp: string) returns (marked: bool, ghost done: seq<Event>)
      requires Valid() && forall j :: j in todo ==> j in Jobs(at, plan)
      modifies this
      ensures Valid() && log == old(log) + done
      ensures if marked then MarkedAfterVerdict(done, Jobs(at, plan), stamp, Mark(at, plan, fmt))
              else Working(done, Jobs(at, plan), stamp)
      ensures Quiet() && (forall j :: j in todo ==> j.src in old(files)) ==>
                var copied := Written(old(files), todo, stamp);
                && (marked <==> Pending(copied, Jobs(at, plan), fmt.sha) == [])
                && files == if marked then copied[Marker(at) := fmt.write(Recorded(plan))] else copied
    {
      hide Quiet, Jobs, Pending, Written, Marker, Recorded, MarkedAfterVerdict, Working, NonePending, Comparison,
        Honest, Chained;
      var jobs := Jobs(at, plan);
      var bad, raised, copying := ApplyAll(todo, stamp, jobs);
      if raised {
        return false, copying;
      }
      var after, seen := Classify(jobs);
      ComparingIsWorking(seen, jobs, stamp);
      WorkingOn(copying, seen, jobs, stamp);
      done := copying + seen;
      if after != [] || bad > 0 {
        return false, done;
      }
      var marker := files[Marker(at) := fmt.write(Recorded(plan))];
      MarkedNow(copying, seen, Event(Mark(at, plan, fmt), files, marker), jobs, stamp);
      done := done + [Event(Mark(at, plan, fmt), files, marker)];
      Do(Mark(at, plan, fmt), marker);
      return true, done;
    }

    /**
     * `main`. Whatever other writers do, the version is marked only straight after a comparison that found, on the
     * disk as it was then, no job pending, and nothing is overwritten unsaved; a dry run writes no file.
     * Undisturbed, the disk ends as `After` says.
     */
    method Deploy(at: Places, plan: Plan, apply: bool, allowDirty: bool, stamp: string)
      returns (exit: nat, marked: bool, ghost done: seq<Event>)
      requires Valid()
      modifies this
      ensures Valid() && log == old(log) + done
      ensures if marked then MarkedAfterVerdict(done, Jobs(at, plan), stamp, Mark(at, plan, fmt))
              else Working(done, Jobs(at, plan), stamp)
      ensures marked ==> SawEveryClaim(log, at, plan, fmt.sha)
      ensures !Guarded(old(files), at, plan, allowDirty) ==> exit != 0 && done == [] && files == old(files)
      ensures !apply ==> !marked && forall k :: 0 <= k < |done| ==> done[k].after == done[k].before
      ensures Quiet() ==> files == After(old(files), at, plan, fmt, apply, allowDirty, stamp)
      ensures Quiet() && Guarded(old(files), at, plan, allowDirty) ==>
                (exit == 0 <==> !apply || Idle(old(files), at, plan, fmt) || marked)
      ensures Quiet() ==> (marked <==> Guarded(old(files), at, plan, allowDirty) && apply
                                       && !Idle(old(files), at, plan, fmt)
                                       && Converges(old(files), at, plan, fmt, stamp))
    {
      hide Quiet, Jobs, Pending, Written, Marker, Recorded, MarkedAfterVerdict, Working, NonePending, Comparison,
        Honest, Chained, MarkerOn, Mark, SawEveryMatch, SawEveryClaim;
      done := [];
      NothingDone(Jobs(at, plan), stamp);
      if plan.problems > 0 {
        return 1, false, [];
      }
      if |plan.pairs| < MIN_PAIRS {
        return 2, false, [];
      }
      if Under(at.zc, "config.toml") !in files {
        return 2, false, [];
      }
      if plan.dirty && !allowDirty {
        return 1, false, [];
      }
      if plan.manifestCommit != Some(plan.head) {
        return 1, false, [];
      }
      var jobs := Jobs(at, plan);
      ghost var start := log;
      var todo, seen := Classify(jobs);
      ComparingIsWorking(seen, jobs, stamp);
      ComparingWritesNothing(start, seen, jobs, fmt.sha);
      var current := MarkerOn(files, at, fmt) == Recorded(plan);
      if todo == [] && current {
        return 0, false, seen;
      }
      if !apply {
        return 0, false, seen;
      }
      PendingHaveSources(old(files), jobs, fmt.sha);
      ghost var applied: seq<Event>;
      marked, applied := Apply(at, plan, todo, stamp);
      WorkingOn(seen, applied, jobs, stamp);
      MarkedLater(seen, applied, jobs, stamp, Mark(at, plan, fmt));
      done := seen + applied;
      exit := if marked then 0 else 1;
      assert log[|start|..] == done;
      SeenWhenMarked(log, |start|, fmt.sha, jobs, stamp, Mark(at, plan, fmt));
      ClaimsSeen(log, at, plan, fmt.sha);
    }
  }

  lemma StoryGrows(log: seq<Event>, others: nat -> Disk -> Disk, now: Disk, sha: Bytes -> Digest, e: Event)
    requires Honest(log, sha) && Chained(log, others, now) && Means(e, sha) && e.before == now
    ensures Honest(log + [e], sha) && Chained(log + [e], others, others(|log|)(e.after))
  {
    hide Means;
    var longer := log + [e];
    forall k: nat | k + 1 < |longer|
      ensures others(k)(longer[k].after) == longer[k + 1].before
    {
      assert longer[k] == log[k];
      assert k + 1 < |log| ==> longer[k + 1] == log[k + 1];
    }
  }

  lemma OneMoreVerdict(seen: seq<Event>, e: Event)
    requires e.act.Compared?
    ensures NonePending(seen + [e]) <==> NonePending(seen) && !e.act.state.Pending()
  {
    assert forall i :: 0 <= i < |seen| ==> (seen + [e])[i] == seen[i];
    assert (seen + [e])[|seen|] == e;
  }

  lemma NothingDone(jobs: seq<Job>, stamp: string)
    ensures Working([], jobs, stamp)
  {
  }

  lemma WorkingOn(a: seq<Event>, b: seq<Event>, jobs: seq<Job>, stamp: string)
    ensures Working(a, jobs, stamp) && Working(b, jobs, stamp) ==> Working(a + b, jobs, stamp)
  {
    hide Works;
    if Working(a, jobs, stamp) && Working(b, jobs, stamp) {
      forall k | 0 <= k < |a + b|
        ensures Works((a + b)[k].act, jobs, stamp)
      {
        assert (a + b)[k] == if k < |a| then a[k] else b[k - |a|];
      }
      forall k | 0 <= k < |a + b| && (a + b)[k].act.Copied? && (a + b)[k].act.job.dst in (a + b)[k].before
        ensures k > 0 && (a + b)[k - 1].act == Saved((a + b)[k].act.job, Backup((a + b)[k].act.job.dst, stamp))
      {
        assert (a + b)[k] == if k < |a| then a[k] else b[k - |a|];
      }
    }
  }

  lemma ComparingIsWorking(seen: seq<Event>, jobs: seq<Job>, stamp: string)
    requires Comparison(seen, jobs)
    ensures Working(seen, jobs, stamp)
  {
  }

  lemma ComparingWritesNothing(start: seq<Event>, seen: seq<Event>, jobs: seq<Job>, sha: Bytes -> Digest)
    requires Comparison(seen, jobs) && Honest(start + seen, sha)
    ensures forall k :: 0 <= k < |seen| ==> seen[k].after == seen[k].before
  {
    forall k | 0 <= k < |seen|
      ensures seen[k].after == seen[k].before
    {
      assert (start + seen)[|start| + k] == seen[k];
      assert Means((start + seen)[|start| + k], sha);
    }
  }

  lemma MarkedNow(copying: seq<Event>, seen: seq<Event>, e: Event, jobs: seq<Job>, stamp: string)
    requires Working(copying, jobs, stamp) && Comparison(seen, jobs) && NonePending(seen)
    ensures MarkedAfterVerdict(copying + seen + [e], jobs, stamp, e.act)
  {
    hide Working, Comparison, NonePending;
    assert |seen| == |jobs| by { ComparisonLength(seen, jobs); }
    var events := copying + seen + [e];
    assert events[..|copying|] == copying && events[|copying|..|copying| + |jobs|] == seen;
  }

  lemma ComparisonLength(seen: seq<Event>, jobs: seq<Job>)
    requires Comparison(seen, jobs)
    ensures |seen| == |jobs|
  {
  }

  lemma MarkedLater(first: seq<Event>, events: seq<Event>, jobs: seq<Job>, stamp: string, mark: Act)
    requires Working(first, jobs, stamp)
    ensures MarkedAfterVerdict(events, jobs, stamp, mark) ==> MarkedAfterVerdict(first + events, jobs, stamp, mark)
  {
    hide Working, Comparison, NonePending;
    if MarkedAfterVerdict(events, jobs, stamp, mark) {
      var n, all := |events| - 1 - |jobs|, first + events;
      WorkingOn(first, events[..n], jobs, stamp);
      assert all[..|first| + n] == first + events[..n];
      assert all[|first| + n..|first| + n + |jobs|] == events[n..n + |jobs|];
    }
  }

  // ---------------------------------------------------------------------------
  // What a marked version says about the disk
  // ---------------------------------------------------------------------------

  /** A job with a source has the same hash at its destination. */
  predicate Matches(disk: Disk, job: Job, sha: Bytes -> Digest) {
    job.src in disk ==> job.dst in disk && sha(disk[job.src]) == sha(disk[job.dst])
  }

  /** The event of job `i`'s own last comparison in a log that ends with the mark. */
  function LastLook(log: seq<Event>, jobs: seq<Job>, i: nat): Event
    requires i < |jobs| < |log|
  {
    log[|log| - 1 - |jobs| + i]
  }

  /** A marked run saw every destination match its source, on the disk as it was at that job's own comparison. */
  lemma MarkedRunSawEveryMatch(log: seq<Event>, start: nat, sha: Bytes -> Digest, jobs: seq<Job>, stamp: string,
                               mark: Act, i: nat)
    requires Honest(log, sha) && start <= |log| && MarkedAfterVerdict(log[start..], jobs, stamp, mark) && i < |jobs|
    ensures |jobs| < |log| && LastLook(log, jobs, i).act.Compared? && LastLook(log, jobs, i).act.job == jobs[i]
    ensures Matches(LastLook(log, jobs, i).before, jobs[i], sha)
  {
    hide Working;
    var events := log[start..];
    var n := |events| - 1 - |jobs|;
    assert events[n..n + |jobs|][i] == events[n + i] == LastLook(log, jobs, i);
    assert Means(log[|log| - 1 - |jobs| + i], sha);
  }

  ghost predicate SawEveryMatch(log: seq<Event>, jobs: seq<Job>, sha: Bytes -> Digest) {
    && |jobs| < |log|
    && forall i :: 0 <= i < |jobs| ==>
         && LastLook(log, jobs, i).act.Compared? && LastLook(log, jobs, i).act.job == jobs[i]
         && Matches(LastLook(log, jobs, i).before, jobs[i], sha)
  }

  // ---------------------------------------------------------------------------
  // Which files a run is about
  // ---------------------------------------------------------------------------

  /** `src` is to be at `dst`: a mapped file or the manifest below the deployment, or a unit file in its directory. */
  predicate IsAsked(at: Places, plan: Plan, src: Path, dst: Path) {
    || (exists c :: c in plan.pairs && src == at.root + "/" + c.0 && dst == at.zc + "/" + c.1)
    || (exists c :: c in plan.units && src == at.root + "/" + c.0 && dst == at.systemd + "/" + c.1)
    || (src == at.root + "/" + "deploy/SHOP-INVARIANTS.json" && dst == at.zc + "/" + "SHOP-INVARIANTS.json")
  }

  lemma JobsForHas(root: string, dir: string, claims: seq<Claim>, j: Job)
    ensures j in JobsFor(root, dir, claims) <==>
              exists c :: c in claims && j == Job(root + "/" + c.0, dir + "/" + c.1)
  {
    var jobs := JobsFor(root, dir, claims);
    if j in jobs {
      var i :| 0 <= i < |jobs| && jobs[i] == j;
      assert claims[i] in claims;
    }
    if c :| c in claims && j == Job(root + "/" + c.0, dir + "/" + c.1) {
      var i :| 0 <= i < |claims| && claims[i] == c;
      assert jobs[i] in jobs;
    }
  }

  lemma ManifestPath()
    ensures "deploy/" + INVARIANTS_NAME == "deploy/SHOP-INVARIANTS.json"
  {
  }

  /** The jobs of a run are exactly the files asked for. */
  lemma JobsExact(at: Places, plan: Plan, j: Job)
    ensures j in Jobs(at, plan) <==> IsAsked(at, plan, j.src, j.dst)
    ensures |Jobs(at, plan)| == |plan.pairs| + |plan.units| + 1
  {
    var manifest := ("deploy/" + INVARIANTS_NAME, INVARIANTS_NAME);
    ManifestPath();
    assert forall c :: c in plan.pairs + [manifest] <==> c in plan.pairs || c == manifest;
    JobsForHas(at.root, at.zc, plan.pairs + [manifest], j);
    JobsForHas(at.root, at.systemd, plan.units, j);
    hide JobsFor, INVARIANTS_NAME;
  }

  /**
   * Among the run's last events, one comparison for each file asked for and then the mark, there is one that compared
   * this file, and if the file was there its copy had the same hash.
   */
  ghost predicate SawMatch(log: seq<Event>, at: Places, plan: Plan, sha: Bytes -> Digest, src: Path, dst: Path) {
    exists k: nat ::
      && |log| - 1 - (|plan.pairs| + |plan.units| + 1) <= k < |log| - 1
      && log[k].act.Compared? && log[k].act.job == Job(src, dst)
      && (src in log[k].before ==>
            dst in log[k].before && sha(log[k].before[src]) == sha(log[k].before[dst]))
  }

  ghost predicate SawEveryClaim(log: seq<Event>, at: Places, plan: Plan, sha: Bytes -> Digest) {
    forall src: Path, dst: Path :: IsAsked(at, plan, src, dst) ==> SawMatch(log, at, plan, sha, src, dst)
  }

  lemma ClaimsSeen(log: seq<Event>, at: Places, plan: Plan, sha: Bytes -> Digest)
    ensures SawEveryMatch(log, Jobs(at, plan), sha) ==> SawEveryClaim(log, at, plan, sha)
  {
    hide IsAsked, Jobs;
    if SawEveryMatch(log, Jobs(at, plan), sha) {
      forall src: Path, dst: Path | IsAsked(at, plan, src, dst)
        ensures SawMatch(log, at, plan, sha, src, dst)
      {
        var jobs := Jobs(at, plan);
        JobsExact(at, plan, Job(src, dst));
        var i :| 0 <= i < |jobs| && jobs[i] == Job(src, dst);
        var k := |log| - 1 - |jobs| + i;
        assert log[k] == LastLook(log, jobs, i);
      }
    }
  }

  lemma SeenWhenMarked(log: seq<Event>, start: nat, sha: Bytes -> Digest, jobs: seq<Job>, stamp: string, mark: Act)
    requires Honest(log, sha) && start <= |log|
    ensures MarkedAfterVerdict(log[start..], jobs, stamp, mark) ==> SawEveryMatch(log, jobs, sha)
  {
    hide Working, Honest, Matches;
    if MarkedAfterVerdict(log[start..], jobs, stamp, mark) {
      forall i | 0 <= i < |jobs| {
        MarkedRunSawEveryMatch(log, start, sha, jobs, stamp, mark, i);
      }
    }
  }

  /** The other writers leave a path alone after step `k`. */
  ghost predicate LeftAlone(others: nat -> Disk -> Disk, k: nat, p: Path) {
    forall d: Disk :: SameAt(others(k)(d), d, p)
  }

  /** No other writer touches a source or a destination from the first of the last comparisons until the mark. */
  ghost predicate Undisturbed(log: seq<Event>, others: nat -> Disk -> Disk, jobs: seq<Job>) {
    forall k: nat, j :: |log| - 1 - |jobs| <= k < |log| - 1 && j in jobs ==>
      LeftAlone(others, k, j.src) && LeftAlone(others, k, j.dst)
  }

  /** From a job's own comparison to the mark, a path nobody touches keeps what it held. */
  lemma {:induction false} PathKeeps(log: seq<Event>, others: nat -> Disk -> Disk, now: Disk, sha: Bytes -> Digest,
                                     lo: nat, hi: nat, p: Path)
    requires Honest(log, sha) && Chained(log, others, now) && lo <= hi < |log|
    requires forall k :: lo <= k < hi ==> log[k].act.Compared? && LeftAlone(others, k, p)
    ensures SameAt(log[hi].before, log[lo].before, p)
    decreases hi
  {
    if lo < hi {
      PathKeeps(log, others, now, sha, lo, hi - 1, p);
      assert Means(log[hi - 1], sha);
      assert others(hi - 1)(log[hi - 1].after) == log[hi].before;
      assert SameAt(others(hi - 1)(log[hi - 1].after), log[hi - 1].after, p);
    }
  }

  /** If nobody else touched the jobs' files meanwhile, every one of them matched at the moment of the mark. */
  lemma MarkIsTrueUnlessDisturbed(log: seq<Event>, others: nat -> Disk -> Disk, now: Disk, sha: Bytes -> Digest,
                                  start: nat, jobs: seq<Job>, stamp: string, mark: Act)
    requires Honest(log, sha) && Chained(log, others, now)
    requires start <= |log| && MarkedAfterVerdict(log[start..], jobs, stamp, mark)
    requires Undisturbed(log, others, jobs)
    ensures log != [] && forall j :: j in jobs ==> Matches(log[|log| - 1].before, j, sha)
  {
    hide Working, Honest, Chained, LeftAlone;
    var events := log[start..];
    var n := |log| - 1 - |jobs|;
    forall i | 0 <= i < |jobs|
      ensures Matches(log[|log| - 1].before, jobs[i], sha)
    {
      MarkedRunSawEveryMatch(log, start, sha, jobs, stamp, mark, i);
      forall k | n <= k < |log| - 1
        ensures log[k].act.Compared?
      {
        MarkedRunSawEveryMatch(log, start, sha, jobs, stamp, mark, k - n);
      }
      PathKeeps(log, others, now, sha, n + i, |log| - 1, jobs[i].src);
      PathKeeps(log, others, now, sha, n + i, |log| - 1, jobs[i].dst);
    }
  }

  lemma PendingHaveSources(disk: Disk, jobs: seq<Job>, sha: Bytes -> Digest)
    ensures forall j :: j in Pending(disk, jobs, sha) ==> j.src in disk
  {
  }

  /** A run never removes a file. */
  lemma {:induction false} WrittenKeeps(disk: Disk, jobs: seq<Job>, stamp: string)
    ensures disk.Keys <= Written(disk, jobs, stamp).Keys
  {
    if jobs != [] {
      WrittenKeeps(disk, jobs[..|jobs| - 1], stamp);
    }
  }

  // ---------------------------------------------------------------------------
  // Convergence, with a frame
  // ---------------------------------------------------------------------------

  predicate SameAt(a: Disk, b: Disk, p: Path) {
    (p in a <==> p in b) && (p in a ==> a[p] == b[p])
  }

  /** `p` is a destination, or the backup of one that existed. */
  predicate Touched(disk: Disk, jobs: seq<Job>, stamp: string, p: Path) {
    exists j :: j in jobs && (p == j.dst || (j.dst in disk && p == Backup(j.dst, stamp)))
  }

  /** One job is done: its source's bytes are at the destination, and what was there is in the backup. */
  predicate Done(disk: Disk, after: Disk, j: Job, stamp: string) {
    var backup := Backup(j.dst, stamp);
    && j.src in disk && j.dst in after && after[j.dst] == disk[j.src]
    && (j.dst in disk ==> backup in after && after[backup] == disk[j.dst])
  }

  lemma BackupsDiffer(a: Path, b: Path, stamp: string)
    requires a != b
    ensures Backup(a, stamp) != Backup(b, stamp)
  {
    assert Backup(a, stamp)[..|a|] == a && Backup(b, stamp)[..|b|] == b;
    assert |Backup(a, stamp)| == |a| + 5 + |stamp| && |Backup(b, stamp)| == |b| + 5 + |stamp|;
  }

  lemma StepExact(disk: Disk, j: Job, stamp: string)
    requires j.src in disk && j.src != j.dst && Backup(j.dst, stamp) != j.src && Backup(j.dst, stamp) != j.dst
    ensures Done(disk, Step(disk, j, stamp), j, stamp)
    ensures forall p :: p != j.dst && !(j.dst in disk && p == Backup(j.dst, stamp)) ==>
              SameAt(Step(disk, j, stamp), disk, p)
  {
  }

  lemma {:induction false} WrittenExact(disk: Disk, jobs: seq<Job>, stamp: string)
    requires Apart(jobs, stamp) && forall j :: j in jobs ==> j.src in disk
    ensures forall j :: j in jobs ==> Done(disk, Written(disk, jobs, stamp), j, stamp)
    ensures forall p :: !Touched(disk, jobs, stamp, p) ==> SameAt(Written(disk, jobs, stamp), disk, p)
  {
    if jobs != [] {
      var n := |jobs| - 1;
      var last := jobs[n];
      assert jobs == jobs[..n] + [last];
      WrittenExact(disk, jobs[..n], stamp);
      var before, after := Written(disk, jobs[..n], stamp), Written(disk, jobs, stamp);
      assert SameAt(before, disk, last.src) && SameAt(before, disk, last.dst) by {
        LastIsUntouched(disk, jobs, stamp);
      }
      StepExact(before, last, stamp);
      forall j | j in jobs
        ensures Done(disk, after, j, stamp)
      {
        if j in jobs[..n] {
          EarlierIsKept(jobs, stamp, j);
          assert SameAt(after, before, j.dst) && SameAt(after, before, Backup(j.dst, stamp));
        }
      }
      forall p | !Touched(disk, jobs, stamp, p)
        ensures SameAt(after, disk, p)
      {
        assert last in jobs;
        assert !Touched(disk, jobs[..n], stamp, p) by {
          assert forall j :: j in jobs[..n] ==> j in jobs;
        }
      }
    }
  }

  lemma LastIsUntouched(disk: Disk, jobs: seq<Job>, stamp: string)
    requires jobs != [] && Apart(jobs, stamp)
    ensures var n := |jobs| - 1;
            !Touched(disk, jobs[..n], stamp, jobs[n].src) && !Touched(disk, jobs[..n], stamp, jobs[n].dst)
  {
    var n := |jobs| - 1;
    assert forall j :: j in jobs[..n] ==> j in jobs;
    assert jobs[n] in jobs;
  }

  lemma EarlierIsKept(jobs: seq<Job>, stamp: string, j: Job)
    requires jobs != [] && Apart(jobs, stamp) && j in jobs[..|jobs| - 1]
    ensures var last := jobs[|jobs| - 1];
            && j.dst != last.dst && j.dst != Backup(last.dst, stamp)
            && Backup(j.dst, stamp) != last.dst && Backup(j.dst, stamp) != Backup(last.dst, stamp)
  {
    assert j in jobs && jobs[|jobs| - 1] in jobs;
    BackupsDiffer(j.dst, jobs[|jobs| - 1].dst, stamp);
  }

  lemma {:induction false} PendingIsDistinct(disk: Disk, jobs: seq<Job>, sha: Bytes -> Digest)
    requires DistinctTargets(jobs)
    ensures DistinctTargets(Pending(disk, jobs, sha))
  {
    hide StateOf;
    if jobs != [] {
      var n := |jobs| - 1;
      PendingIsDistinct(disk, jobs[..n], sha);
      var rest := Pending(disk, jobs[..n], sha);
      forall i | 0 <= i < |rest|
        ensures rest[i].dst != jobs[n].dst
      {
        assert rest[i] in jobs[..n];
      }
    }
  }

  /** The pending jobs are laid out as well as all of them are. */
  lemma PendingIsApart(disk: Disk, jobs: seq<Job>, sha: Bytes -> Digest, stamp: string)
    requires Apart(jobs, stamp)
    ensures Apart(Pending(disk, jobs, sha), stamp)
  {
    PendingIsDistinct(disk, jobs, sha);
    hide DistinctTargets, Backup;
  }

  lemma TargetsDiffer(jobs: seq<Job>, a: Job, b: Job)
    requires DistinctTargets(jobs) && a in jobs && b in jobs && a != b
    ensures a.dst != b.dst
  {
    var x :| 0 <= x < |jobs| && jobs[x] == a;
    var y :| 0 <= y < |jobs| && jobs[y] == b;
  }

  /** Copying some of the jobs touches no job's source, and no other job's destination. */
  lemma OthersUntouched(disk: Disk, jobs: seq<Job>, todo: seq<Job>, stamp: string, j: Job)
    requires Apart(jobs, stamp) && j in jobs && forall a :: a in todo ==> a in jobs
    ensures !Touched(disk, todo, stamp, j.src)
    ensures j !in todo ==> !Touched(disk, todo, stamp, j.dst)
  {
    hide DistinctTargets, Backup;
    forall a | a in todo && a != j
      ensures a.dst != j.dst
    {
      TargetsDiffer(jobs, a, j);
    }
  }

  /** A job that was left alone because it was the same is still the same. */
  lemma SameStaysSame(disk: Disk, jobs: seq<Job>, sha: Bytes -> Digest, stamp: string, j: Job)
    requires Apart(jobs, stamp) && j in jobs
    ensures var copied := Written(disk, Pending(disk, jobs, sha), stamp);
            && SameAt(copied, disk, j.src)
            && (!StateOf(disk, j, sha).Pending() ==> SameAt(copied, disk, j.dst))
  {
    hide Apart, Written, Touched, Done, SameAt;
    var todo := Pending(disk, jobs, sha);
    PendingIsApart(disk, jobs, sha, stamp);
    PendingHaveSources(disk, jobs, sha);
    hide StateOf;
    WrittenExact(disk, todo, stamp);
    OthersUntouched(disk, jobs, todo, stamp, j);
  }

  lemma {:induction false} NonePendingIsEmpty(disk: Disk, jobs: seq<Job>, sha: Bytes -> Digest)
    requires forall j :: j in jobs ==> !StateOf(disk, j, sha).Pending()
    ensures Pending(disk, jobs, sha) == []
  {
    if jobs != [] {
      NonePendingIsEmpty(disk, jobs[..|jobs| - 1], sha);
    }
  }

  /** An undisturbed apply over a sound layout always converges. */
  lemma ApplyConverges(disk: Disk, at: Places, plan: Plan, fmt: Format, stamp: string)
    requires Apart(Jobs(at, plan), stamp)
    ensures Converges(disk, at, plan, fmt, stamp)
  {
    hide Jobs, Apart, Written;
    var jobs := Jobs(at, plan);
    var todo := Pending(disk, jobs, fmt.sha);
    var copied := Written(disk, todo, stamp);
    PendingIsApart(disk, jobs, fmt.sha, stamp);
    WrittenExact(disk, todo, stamp);
    forall j | j in jobs
      ensures !StateOf(copied, j, fmt.sha).Pending()
    {
      SameStaysSame(disk, jobs, fmt.sha, stamp, j);
      if StateOf(disk, j, fmt.sha).Pending() {
        PendingHasAll(disk, jobs, fmt.sha, j);
        assert Done(disk, copied, j, stamp);
      }
    }
    NonePendingIsEmpty(copied, jobs, fmt.sha);
  }

  /** No two of the files at hand have the same hash without having the same bytes. */
  ghost predicate NoCollision(disk: Disk, sha: Bytes -> Digest) {
    forall p, q :: p in disk && q in disk && sha(disk[p]) == sha(disk[q]) ==> disk[p] == disk[q]
  }

  /**
   * Deployment converges with a frame: every destination equals its source, every overwritten file's old bytes are
   * in its backup, the marker names the version, and nothing else on the machine is different.
   */
  lemma DeploysWithFrame(disk: Disk, at: Places, plan: Plan, fmt: Format, allowDirty: bool, stamp: string)
    requires Guarded(disk, at, plan, allowDirty) && !Idle(disk, at, plan, fmt)
    requires Apart(Jobs(at, plan), stamp) && MarkerApart(Jobs(at, plan), stamp, Marker(at))
    requires NoCollision(disk, fmt.sha)
    ensures var jobs, after := Jobs(at, plan), After(disk, at, plan, fmt, true, allowDirty, stamp);
            && (forall j :: j in jobs && j.src in disk ==>
                  j.dst in after && j.src in after && after[j.src] == disk[j.src] && after[j.dst] == disk[j.src])
            && (forall j :: j in jobs && StateOf(disk, j, fmt.sha).Differs? ==>
                  Backup(j.dst, stamp) in after && after[Backup(j.dst, stamp)] == disk[j.dst])
            && Marker(at) in after && after[Marker(at)] == fmt.write(Recorded(plan))
            && (forall p :: p != Marker(at) && !Touched(disk, Pending(disk, jobs, fmt.sha), stamp, p) ==>
                  SameAt(after, disk, p))
  {
    hide Jobs, Apart, Written, Guarded, Idle, Touched, Marker, Recorded;
    var jobs := Jobs(at, plan);
    var todo := Pending(disk, jobs, fmt.sha);
    var copied := Written(disk, todo, stamp);
    ApplyConverges(disk, at, plan, fmt, stamp);
    PendingIsApart(disk, jobs, fmt.sha, stamp);
    WrittenExact(disk, todo, stamp);
    forall j | j in jobs
      ensures SameAt(copied, disk, j.src)
      ensures StateOf(disk, j, fmt.sha).Pending() ==> Done(disk, copied, j, stamp)
      ensures !StateOf(disk, j, fmt.sha).Pending() ==> SameAt(copied, disk, j.dst)
    {
      SameStaysSame(disk, jobs, fmt.sha, stamp, j);
      if StateOf(disk, j, fmt.sha).Pending() {
        PendingHasAll(disk, jobs, fmt.sha, j);
      }
    }
    var after := After(disk, at, plan, fmt, true, allowDirty, stamp);
    assert after == copied[Marker(at) := fmt.write(Recorded(plan))];
    forall j | j in jobs
      ensures SameAt(after, copied, j.src) && SameAt(after, copied, j.dst)
      ensures SameAt(after, copied, Backup(j.dst, stamp))
    {
    }
    forall j | j in jobs && j.src in disk
      ensures j.dst in after && after[j.dst] == disk[j.src]
    {
    }
  }

  lemma {:induction false} PendingDependsOn(a: Disk, b: Disk, jobs: seq<Job>, sha: Bytes -> Digest)
    requires forall j :: j in jobs ==> SameAt(a, b, j.src) && SameAt(a, b, j.dst)
    ensures Pending(a, jobs, sha) == Pending(b, jobs, sha)
  {
    if jobs != [] {
      var n := |jobs| - 1;
      assert forall j :: j in jobs[..n] ==> j in jobs;
      assert jobs[n] in jobs;
      PendingDependsOn(a, b, jobs[..n], sha);
    }
  }

  /** An immediate second run has nothing to do, so it leaves the machine exactly as it is. */
  lemma SecondRunDoesNothing(disk: Disk, at: Places, plan: Plan, fmt: Format, allowDirty: bool, stamp: string,
                             later: string)
    requires Guarded(disk, at, plan, allowDirty)
    requires Apart(Jobs(at, plan), stamp) && MarkerApart(Jobs(at, plan), stamp, Marker(at))
    requires fmt.read(fmt.write(Recorded(plan))) == Recorded(plan)
    ensures var after := After(disk, at, plan, fmt, true, allowDirty, stamp);
            && Idle(after, at, plan, fmt)
            && After(after, at, plan, fmt, true, allowDirty, later) == after
  {
    hide Jobs, Apart, Written, Marker, Recorded, Guarded;
    if !Idle(disk, at, plan, fmt) {
      var jobs := Jobs(at, plan);
      var copied := Written(disk, Pending(disk, jobs, fmt.sha), stamp);
      ApplyConverges(disk, at, plan, fmt, stamp);
      PendingDependsOn(copied[Marker(at) := fmt.write(Recorded(plan))], copied, jobs, fmt.sha);
    }
  }
}
