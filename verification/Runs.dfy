/** Whole runs of the announcer: payments, scans, sends, commits and seeds in any order over a growing chain. */
module Runs {
  import opened Prelude
  import opened Settlement
  import opened Scan
  import opened Announcer

  /** Whose payments are watched, and what the chain holds for each signature. */
  datatype Shop = Shop(truth: Truth, merchant: string, mint: string)

  /** The account's history, oldest first; the files; what was ever sent or adopted unsent. */
  datatype World = World(chain: seq<string>, files: Files, announced: set<string>, seeded: set<string>)

  datatype Step =
    /** A transaction touching the account lands. */
    | Pay(signature: string)
    /** A dry run whose lines are sent; `delivered` are the payments whose message went out. */
    | Announce(limit: int, noCache: bool, net: Endpoint, delivered: set<string>)
    /** The commit that follows, restricted to what was announced. */
    | Commit(limit: int, only: seq<string>, net: Endpoint)
    /** A run that prints and appends in one go. */
    | Live(limit: int, noCache: bool, net: Endpoint)
    /** History adopted without announcing it. */
    | Seed(limit: int, noCache: bool, net: Endpoint)
    /** The cache file is deleted or damaged. */
    | LoseCache(file: CacheFile)

  /** The newest `limit` signatures, newest first. */
  function Window(chain: seq<string>, limit: nat): seq<string> {
    seq(if limit <= |chain| then limit else |chain|, i requires 0 <= i < |chain| => chain[|chain| - 1 - i])
  }

  function ArgsOf(step: Step): Args
    requires step.Announce? || step.Commit? || step.Live? || step.Seed?
  {
    match step
    case Announce(limit, noCache, _, _) => Args(limit, true, false, noCache, None)
    case Commit(limit, only, _) => Args(limit, false, false, false, Some(only))
    case Live(limit, noCache, _) => Args(limit, false, false, noCache, None)
    case Seed(limit, noCache, _) => Args(limit, false, true, noCache, None)
  }

  /** An endpoint that answers truthfully, from the chain or from an earlier state of it, or not at all. */
  ghost predicate Truthful(shop: Shop, w: World, limit: int, net: Endpoint) {
    && Honest(net.answers, shop.truth)
    && (net.window.Some? && limit >= 1 ==>
          exists seen: nat :: seen <= |w.chain| && net.window.value == Window(w.chain[..seen], limit))
  }

  function Effect(shop: Shop, w: World, step: Step): Effects
    requires step.Announce? || step.Commit? || step.Live? || step.Seed?
  {
    RunMain(w.files, ArgsOf(step), step.net, shop.merchant, shop.mint)
  }

  /** The payments a commit is given were announced before it. */
  ghost predicate Allowed(shop: Shop, w: World, step: Step) {
    match step
    case Pay(s) => s !in w.chain && IsSignature(s)
    case Announce(limit, _, net, delivered) =>
      Truthful(shop, w, limit, net) && delivered <= Signatures(Effect(shop, w, step).printed)
    case Commit(limit, only, net) => Truthful(shop, w, limit, net) && forall s :: s in only ==> s in w.announced
    case Live(limit, _, net) => Truthful(shop, w, limit, net)
    case Seed(limit, _, net) => Truthful(shop, w, limit, net)
    case LoseCache(file) => Cached(file) == {}
  }

  /** The payments a run appended, newest last. */
  function Appended(shop: Shop, w: World, step: Step): set<string>
    requires step.Seed?
  {
    var e := Effect(shop, w, step);
    if e.exit == 0 then
      var p := PassOf(w.files, ArgsOf(step), step.net, shop.merchant, shop.mint);
      Signatures(Collect(p, step.net.window.value).found)
    else {}
  }

  function Apply(shop: Shop, w: World, step: Step): World {
    match step
    case Pay(s) => w.(chain := w.chain + [s])
    case Announce(_, _, _, delivered) => w.(files := Effect(shop, w, step).files, announced := w.announced + delivered)
    case Commit(_, _, _) => w.(files := Effect(shop, w, step).files)
    case Live(_, _, _) =>
      var e := Effect(shop, w, step);
      w.(files := e.files, announced := w.announced + Signatures(e.printed))
    case Seed(_, _, _) =>
      w.(files := Effect(shop, w, step).files, seeded := w.seeded + Appended(shop, w, step))
    case LoseCache(file) => w.(files := w.files.(cache := file))
  }

  ghost predicate AllAllowed(shop: Shop, w: World, steps: seq<Step>)
    decreases |steps|
  {
    steps == [] || (Allowed(shop, w, steps[0]) && AllAllowed(shop, Apply(shop, w, steps[0]), steps[1..]))
  }

  function After(shop: Shop, w: World, steps: seq<Step>): World
    decreases |steps|
  {
    if steps == [] then w else After(shop, Apply(shop, w, steps[0]), steps[1..])
  }

  // ---------------------------------------------------------------------------
  // What every step keeps
  // ---------------------------------------------------------------------------

  /** A line appended at position `k` of the ledger is earned: a true settlement, sent or seeded, and new. */
  predicate Earned(shop: Shop, w: World, k: nat)
    requires k < |w.files.ledger|
  {
    var l := w.files.ledger[k];
    && Usable(l)
    && Settles(shop.truth, shop.merchant, shop.mint, l.signature.value)
    && l.signature.value in w.announced + w.seeded
    && l.signature.value !in Known(w.files.ledger[..k])
  }

  ghost predicate Safe(shop: Shop, base: seq<Line>, w: World) {
    && Distinct(w.chain) && (forall s :: s in w.chain ==> IsSignature(s))
    && base <= w.files.ledger
    && (forall k :: |base| <= k < |w.files.ledger| ==> Earned(shop, w, k))
    && SoundCache(Cached(w.files.cache), shop.truth, shop.merchant, shop.mint)
  }

  lemma WindowIsDistinct(chain: seq<string>, limit: nat)
    requires Distinct(chain)
    ensures Distinct(Window(chain, limit)) && forall s :: s in Window(chain, limit) ==> s in chain
  {
  }

  predicate DistinctRecords(records: seq<Record>) {
    forall i, j :: 0 <= i < j < |records| ==> records[i].signature != records[j].signature
  }

  lemma {:induction false} RecordsAreDistinct(p: Pass, truth: Truth, window: seq<string>)
    requires Honest(p.answers, truth) && Distinct(window)
    ensures DistinctRecords(Records(p, window))
    decreases |window|
  {
    if window != [] {
      RecordsAreDistinct(p, truth, window[1..]);
      forall r | r in Records(p, window[1..])
        ensures r.signature in window[1..]
      {
        RecordsAreSettlements(p, truth, window[1..], r);
      }
      if Judge(p, window[0]).Found? {
        FromTransactionExact(p.answers(window[0]).value, window[0], p.merchant, p.mint);
      }
    }
  }

  lemma ReverseKeepsDistinct(records: seq<Record>)
    requires DistinctRecords(records)
    ensures DistinctRecords(Reverse(records))
  {
    if records != [] {
      ReverseKeepsDistinct(records[1..]);
      ReverseKeepsElements(records[1..]);
      assert forall r :: r in records[1..] ==> r.signature != records[0].signature;
      var rest := Reverse(records[1..]);
      assert forall i :: 0 <= i < |rest| ==> rest[i] in rest;
    }
  }

  /** Records that may be appended to the ledger of `w`. */
  predicate Appendable(shop: Shop, w: World, records: seq<Record>) {
    && DistinctRecords(records)
    && forall r :: r in records ==>
         && IsSignature(r.signature)
         && Settles(shop.truth, shop.merchant, shop.mint, r.signature)
         && r.signature !in Known(w.files.ledger)
  }

  lemma PassIsAppendable(shop: Shop, base: seq<Line>, w: World, args: Args, net: Endpoint)
    requires Safe(shop, base, w) && Truthful(shop, w, args.limit, net) && net.window.Some? && args.limit >= 1
    ensures var o := Collect(PassOf(w.files, args, net, shop.merchant, shop.mint), net.window.value);
            && Appendable(shop, w, o.found)
            && SoundCache(o.negatives, shop.truth, shop.merchant, shop.mint)
            && (args.only.Some? ==> forall r :: r in o.found ==> r.signature in args.only.value)
  {
    var p, window := PassOf(w.files, args, net, shop.merchant, shop.mint), net.window.value;
    var seen: nat :| seen <= |w.chain| && window == Window(w.chain[..seen], args.limit);
    WindowIsDistinct(w.chain[..seen], args.limit);
    RecordsAreDistinct(p, shop.truth, window);
    ReverseKeepsDistinct(Records(p, window));
    ReverseKeepsElements(Records(p, window));
    NegativesAreSound(p, shop.truth, window);
    forall r | r in Records(p, window)
      ensures IsSignature(r.signature) && Settles(shop.truth, shop.merchant, shop.mint, r.signature)
      ensures r.signature !in Known(w.files.ledger)
      ensures args.only.Some? ==> r.signature in args.only.value
    {
      RecordsAreSettlements(p, shop.truth, window, r);
    }
  }

  lemma AppendingKeepsSafe(shop: Shop, base: seq<Line>, w: World, records: seq<Record>, cache: CacheFile,
                           announced: set<string>, seeded: set<string>)
    requires Safe(shop, base, w) && Appendable(shop, w, records)
    requires w.announced <= announced && w.seeded <= seeded
    requires forall r :: r in records ==> r.signature in announced + seeded
    requires SoundCache(Cached(cache), shop.truth, shop.merchant, shop.mint)
    ensures Safe(shop, base, World(w.chain, Files(w.files.ledger + LinesFor(records), cache), announced, seeded))
  {
    var ledger := w.files.ledger + LinesFor(records);
    var w' := World(w.chain, Files(ledger, cache), announced, seeded);
    forall k | |base| <= k < |ledger|
      ensures Earned(shop, w', k)
    {
      if k < |w.files.ledger| {
        assert Earned(shop, w, k);
        assert ledger[..k] == w.files.ledger[..k];
      } else {
        var j := k - |w.files.ledger|;
        assert records[j] in records;
        assert ledger[..k] == w.files.ledger + LinesFor(records)[..j];
        KnownOfAppended(w.files.ledger, records, j);
      }
    }
  }

  lemma KnownOfAppended(ledger: seq<Line>, records: seq<Record>, j: nat)
    requires j < |records| && DistinctRecords(records) && records[j].signature !in Known(ledger)
    ensures records[j].signature !in Known(ledger + LinesFor(records)[..j])
  {
  }

  lemma SavedCacheIsRead(negatives: set<string>, window: seq<string>)
    requires forall s :: s in negatives ==> s in window
    ensures Cached(CacheOf(negatives)) <= negatives
    ensures (forall s :: s in window ==> IsSignature(s)) ==> Cached(CacheOf(negatives)) == negatives
  {
    forall s | s in negatives && IsSignature(s)
      ensures s in Cached(CacheOf(negatives))
    {
      assert Some(s) in CacheOf(negatives).entries;
    }
  }

  /** A run leaves the files as they were or appends the appendable records of its pass. */
  lemma RunKeepsSafe(shop: Shop, base: seq<Line>, w: World, args: Args, net: Endpoint, announced: set<string>,
                     seeded: set<string>)
    requires Safe(shop, base, w) && Truthful(shop, w, args.limit, net)
    requires w.announced <= announced && w.seeded <= seeded
    requires var e := RunMain(w.files, args, net, shop.merchant, shop.mint);
             e.exit == 0 && !args.dryRun ==>
               var p := PassOf(w.files, args, net, shop.merchant, shop.mint);
               forall r :: r in Collect(p, net.window.value).found ==> r.signature in announced + seeded
    ensures Safe(shop, base,
                 World(w.chain, RunMain(w.files, args, net, shop.merchant, shop.mint).files, announced, seeded))
  {
    if BadUsage(args) || net.window.None? {
      AppendingKeepsSafe(shop, base, w, [], w.files.cache, announced, seeded);
      assert w.files.ledger + LinesFor([]) == w.files.ledger;
    } else {
      PassIsAppendable(shop, base, w, args, net);
      var o := Collect(PassOf(w.files, args, net, shop.merchant, shop.mint), net.window.value);
      SavedCacheIsRead(o.negatives, net.window.value);
      var cache := if UsesCache(args) && net.cacheWritable then CacheOf(o.negatives) else w.files.cache;
      var records := if args.dryRun then [] else o.found;
      AppendingKeepsSafe(shop, base, w, records, cache, announced, seeded);
      assert w.files.ledger + LinesFor([]) == w.files.ledger;
    }
  }

  lemma StepKeepsSafe(shop: Shop, base: seq<Line>, w: World, step: Step)
    requires Safe(shop, base, w) && Allowed(shop, w, step)
    ensures Safe(shop, base, Apply(shop, w, step))
  {
    var w' := Apply(shop, w, step);
    if step.Pay? {
      forall k | |base| <= k < |w.files.ledger|
        ensures Earned(shop, w', k)
      {
        assert Earned(shop, w, k);
      }
    } else if step.LoseCache? {
      forall k | |base| <= k < |w.files.ledger|
        ensures Earned(shop, w', k)
      {
        assert Earned(shop, w, k);
      }
    } else {
      var args := ArgsOf(step);
      if step.Commit? && !BadUsage(args) && step.net.window.Some? {
        PassIsAppendable(shop, base, w, args, step.net);
      }
      RunKeepsSafe(shop, base, w, args, step.net, w'.announced, w'.seeded);
    }
  }

  // ---------------------------------------------------------------------------
  // The whole-run results
  // ---------------------------------------------------------------------------

  /** Over every run, however payments, failures and commits interleave, each appended line stays earned. */
  lemma {:induction false} RunsAreSafe(shop: Shop, base: seq<Line>, w: World, steps: seq<Step>)
    requires Safe(shop, base, w) && AllAllowed(shop, w, steps)
    ensures Safe(shop, base, After(shop, w, steps))
    decreases |steps|
  {
    if steps != [] {
      StepKeepsSafe(shop, base, w, steps[0]);
      RunsAreSafe(shop, base, Apply(shop, w, steps[0]), steps[1..]);
    }
  }

  /** A fresh ledger, cache and history are safe to start from, whatever lines the ledger already holds. */
  lemma StartsSafe(shop: Shop, base: seq<Line>, chain: seq<string>)
    requires Distinct(chain) && forall s :: s in chain ==> IsSignature(s)
    ensures Safe(shop, base, World(chain, Files(base, Missing), {}, {}))
  {
  }

  /** What a run adds to the ledger. */
  function Added(shop: Shop, w: World, step: Step): seq<Line> {
    var before, after := w.files.ledger, Apply(shop, w, step).files.ledger;
    if |before| <= |after| then after[|before|..] else []
  }

  /** The ledger is append-only, and a commit appends only payments announced before it. */
  lemma CommitsOnlyWhatWasAnnounced(shop: Shop, base: seq<Line>, w: World, step: Step)
    requires Safe(shop, base, w) && Allowed(shop, w, step)
    ensures Apply(shop, w, step).files.ledger == w.files.ledger + Added(shop, w, step)
    ensures step.Commit? ==> forall l :: l in Added(shop, w, step) ==> Usable(l) && l.signature.value in w.announced
    ensures step.Announce? || step.Pay? || step.LoseCache? ==> Added(shop, w, step) == []
  {
    if step.Commit? && !BadUsage(ArgsOf(step)) && step.net.window.Some? {
      PassIsAppendable(shop, base, w, ArgsOf(step), step.net);
      var o := Collect(PassOf(w.files, ArgsOf(step), step.net, shop.merchant, shop.mint), step.net.window.value);
      assert Added(shop, w, step) == LinesFor(o.found);
      forall l | l in Added(shop, w, step)
        ensures Usable(l) && l.signature.value in w.announced
      {
        var k :| 0 <= k < |o.found| && l == LineFor(o.found[k]);
        assert o.found[k] in o.found;
      }
    }
  }

  /** What entitles a step to append a payment: it was announced before, or this very run prints or adopts it. */
  predicate Entitled(shop: Shop, w: World, step: Step, s: string) {
    match step
    case Commit(_, _, _) => s in w.announced
    case Live(_, _, _) => s in Signatures(Effect(shop, w, step).printed)
    case Seed(_, _, _) => s in Appended(shop, w, step)
    case _ => false
  }

  lemma StepAddsEntitled(shop: Shop, base: seq<Line>, w: World, step: Step)
    requires Safe(shop, base, w) && Allowed(shop, w, step)
    ensures Apply(shop, w, step).files.ledger == w.files.ledger + Added(shop, w, step)
    ensures forall l :: l in Added(shop, w, step) ==> Usable(l) && Entitled(shop, w, step, l.signature.value)
  {
    CommitsOnlyWhatWasAnnounced(shop, base, w, step);
    if (step.Live? || step.Seed?) && !BadUsage(ArgsOf(step)) && step.net.window.Some? {
      hide Safe, Truthful;
      PassIsAppendable(shop, base, w, ArgsOf(step), step.net);
      var o := Collect(PassOf(w.files, ArgsOf(step), step.net, shop.merchant, shop.mint), step.net.window.value);
      assert Added(shop, w, step) == LinesFor(o.found);
      forall l | l in Added(shop, w, step)
        ensures Usable(l) && Entitled(shop, w, step, l.signature.value)
      {
        var k :| 0 <= k < |o.found| && l == LineFor(o.found[k]);
        assert o.found[k] in o.found;
      }
    }
  }

  /** The world in which step `n` is taken. */
  function Before(shop: Shop, w: World, steps: seq<Step>, n: nat): World
    requires n <= |steps|
  {
    After(shop, w, steps[..n])
  }

  lemma BeforeOneLater(shop: Shop, w: World, steps: seq<Step>, n: nat)
    requires n < |steps|
    ensures Before(shop, w, steps, n + 1) == Before(shop, Apply(shop, w, steps[0]), steps[1..], n)
    ensures Before(shop, w, steps, 0) == w && Before(shop, w, steps, 1) == Apply(shop, w, steps[0])
  {
    hide Apply;
    assert steps[..n + 1][1..] == steps[1..][..n];
    assert steps[..1][1..] == [];
    assert After(shop, Apply(shop, w, steps[0]), []) == Apply(shop, w, steps[0]);
  }

  /** A step that sends the payment's message. */
  predicate Sends(shop: Shop, w: World, step: Step, s: string) {
    || (step.Announce? && s in step.delivered)
    || (step.Live? && s in Signatures(Effect(shop, w, step).printed))
  }

  predicate SentAt(shop: Shop, w: World, steps: seq<Step>, m: nat, s: string)
    requires m < |steps|
  {
    Sends(shop, Before(shop, w, steps, m), steps[m], s)
  }

  /** What counts as announced was sent by a step of the run, or before it. */
  lemma {:induction false} AnnouncedWasSent(shop: Shop, w: World, steps: seq<Step>, s: string)
    requires s in After(shop, w, steps).announced
    ensures s in w.announced || exists m: nat :: m < |steps| && SentAt(shop, w, steps, m, s)
    decreases |steps|
  {
    if steps != [] {
      var w' := Apply(shop, w, steps[0]);
      AnnouncedWasSent(shop, w', steps[1..], s);
      BeforeOneLater(shop, w, steps, 0);
      if s !in w.announced {
        if s in w'.announced {
          assert SentAt(shop, w, steps, 0, s);
        } else {
          hide After, Apply, Sends;
          var m: nat :| m < |steps| - 1 && SentAt(shop, w', steps[1..], m, s);
          BeforeOneLater(shop, w, steps, m);
          assert SentAt(shop, w, steps, m + 1, s);
        }
      }
    }
  }

  lemma {:induction false} LedgerGrows(shop: Shop, base: seq<Line>, w: World, steps: seq<Step>)
    requires Safe(shop, base, w) && AllAllowed(shop, w, steps)
    ensures w.files.ledger <= After(shop, w, steps).files.ledger
    decreases |steps|
  {
    hide Apply, Safe, Allowed;
    if steps != [] {
      CommitsOnlyWhatWasAnnounced(shop, base, w, steps[0]);
      StepKeepsSafe(shop, base, w, steps[0]);
      LedgerGrows(shop, base, Apply(shop, w, steps[0]), steps[1..]);
    }
  }

  /** Step `n` put the line at position `k`, and was entitled to in the world it found. */
  predicate PutBy(shop: Shop, w: World, steps: seq<Step>, n: nat, k: nat)
    requires n < |steps| && k < |After(shop, w, steps).files.ledger|
  {
    var found, left := Before(shop, w, steps, n).files.ledger, Before(shop, w, steps, n + 1).files.ledger;
    var l := After(shop, w, steps).files.ledger[k];
    && |found| <= k < |left| && left[k] == l
    && Usable(l) && Entitled(shop, Before(shop, w, steps, n), steps[n], l.signature.value)
  }

  lemma {:induction false} LineWasPut(shop: Shop, base: seq<Line>, w: World, steps: seq<Step>, k: nat)
    requires Safe(shop, base, w) && AllAllowed(shop, w, steps)
    requires |w.files.ledger| <= k < |After(shop, w, steps).files.ledger|
    ensures exists n: nat :: n < |steps| && PutBy(shop, w, steps, n, k)
    decreases |steps|
  {
    hide Apply, Safe, Allowed, Entitled, Usable;
    var w' := Apply(shop, w, steps[0]);
    StepAddsEntitled(shop, base, w, steps[0]);
    StepKeepsSafe(shop, base, w, steps[0]);
    BeforeOneLater(shop, w, steps, 0);
    if k < |w'.files.ledger| {
      LedgerGrows(shop, base, w', steps[1..]);
      assert w'.files.ledger[k] in Added(shop, w, steps[0]);
      assert PutBy(shop, w, steps, 0, k);
    } else {
      LineWasPut(shop, base, w', steps[1..], k);
      hide After, Before, Added;
      var n: nat :| n < |steps| - 1 && PutBy(shop, w', steps[1..], n, k);
      BeforeOneLater(shop, w, steps, n);
      BeforeOneLater(shop, w, steps, n + 1);
      assert PutBy(shop, w, steps, n + 1, k);
    }
  }

  /**
   * The line at position `k` was put there by step `n`, which printed or adopted the payment itself, or committed one
   * that an earlier step had sent.
   */
  predicate SentFirst(shop: Shop, w: World, steps: seq<Step>, n: nat, k: nat)
    requires n < |steps| && k < |After(shop, w, steps).files.ledger|
  {
    && PutBy(shop, w, steps, n, k)
    && var s := After(shop, w, steps).files.ledger[k].signature.value;
       || (steps[n].Live? && SentAt(shop, w, steps, n, s))
       || (steps[n].Seed? && s in Appended(shop, Before(shop, w, steps, n), steps[n]))
       || (steps[n].Commit? && (s in w.announced || exists m: nat :: m < n && SentAt(shop, w, steps, m, s)))
  }

  /**
   * Send first, record after: whatever the interleaving, each line of the final ledger beyond those at the start was
   * put there by one step, after an earlier step sent its payment unless that step prints or adopts it itself.
   */
  lemma EveryLineWasSentFirst(shop: Shop, base: seq<Line>, w: World, steps: seq<Step>, k: nat)
    requires Safe(shop, base, w) && AllAllowed(shop, w, steps)
    requires |w.files.ledger| <= k < |After(shop, w, steps).files.ledger|
    ensures exists n: nat :: n < |steps| && SentFirst(shop, w, steps, n, k)
  {
    hide Safe, Allowed, AllAllowed, After;
    LineWasPut(shop, base, w, steps, k);
    var n: nat :| n < |steps| && PutBy(shop, w, steps, n, k);
    var s := After(shop, w, steps).files.ledger[k].signature.value;
    if steps[n].Commit? {
      AnnouncedWasSent(shop, w, steps[..n], s);
      if s !in w.announced {
        var m: nat :| m < n && SentAt(shop, w, steps[..n], m, s);
        assert steps[..n][..m] == steps[..m];
        assert SentAt(shop, w, steps, m, s);
      }
    }
    assert SentFirst(shop, w, steps, n, k);
  }

  /** No signature is appended twice, nor one the ledger held at the start. */
  lemma NothingAppendedTwice(shop: Shop, base: seq<Line>, w: World, i: nat, j: nat)
    requires Safe(shop, base, w) && i < j < |w.files.ledger| && j >= |base|
    requires Usable(w.files.ledger[i])
    ensures Usable(w.files.ledger[j]) && w.files.ledger[i].signature != w.files.ledger[j].signature
  {
    assert Earned(shop, w, j);
    assert w.files.ledger[i] in w.files.ledger[..j];
    assert w.files.ledger[i].signature.value in Known(w.files.ledger[..j]);
  }

  /** Payments are found, announced and recorded in the order in which they reached the chain. */
  lemma FoundInChainOrder(shop: Shop, w: World, args: Args, net: Endpoint, i: nat, j: nat) returns (a: nat, b: nat)
    requires Truthful(shop, w, args.limit, net) && net.window.Some? && args.limit >= 1
    requires i < j < |Collect(PassOf(w.files, args, net, shop.merchant, shop.mint), net.window.value).found|
    ensures var found := Collect(PassOf(w.files, args, net, shop.merchant, shop.mint), net.window.value).found;
            && a < b < |w.chain| && found[i].signature == w.chain[a] && found[j].signature == w.chain[b]
  {
    hide Collect, PassOf;
    var seen: nat :| seen <= |w.chain| && net.window.value == Window(w.chain[..seen], args.limit);
    var x, y := OldestFirst(PassOf(w.files, args, net, shop.merchant, shop.mint), net.window.value, i, j);
    a, b := seen - 1 - x, seen - 1 - y;
  }

  /** A run that does not use the cache leaves its file alone; only live runs, commits and seeds write the ledger. */
  lemma StepTouches(shop: Shop, w: World, step: Step)
    ensures var before, after := w.files, Apply(shop, w, step).files;
            && (step.Commit? || ((step.Announce? || step.Live? || step.Seed?) && step.noCache) ==>
                  after.cache == before.cache)
            && (step.Announce? || step.Pay? || step.LoseCache? ==> after.ledger == before.ledger)
            && (step.Live? && Effect(shop, w, step).exit == 0 ==>
                  after.ledger == before.ledger + LinesFor(Effect(shop, w, step).printed))
  {
    hide Collect;
    if !step.Pay? && !step.LoseCache? {
      RunExact(w.files, ArgsOf(step), step.net, shop.merchant, shop.mint);
    }
  }

  lemma RecordedIsEarned(shop: Shop, base: seq<Line>, w: World, s: string)
    requires Safe(shop, base, w) && s in Known(w.files.ledger)
    ensures s in Known(base) || s in w.announced + w.seeded
  {
    var k :| 0 <= k < |w.files.ledger| && Usable(w.files.ledger[k]) && w.files.ledger[k].signature.value == s;
    if k < |base| {
      assert base[k] in base && base[k] == w.files.ledger[k];
    } else {
      assert Earned(shop, w, k);
    }
  }

  /**
   * A settlement that was never announced or seeded, and was not in the ledger at the start, is never taken for
   * recorded: the next scan of a window that holds it finds it, and prints it unless it seeds, or counts something
   * as unverifiable.
   */
  lemma NeverSwallowed(shop: Shop, base: seq<Line>, w: World, args: Args, net: Endpoint, s: string)
    requires Safe(shop, base, w) && Honest(net.answers, shop.truth) && net.window.Some? && args.only.None?
    requires s in net.window.value && Settles(shop.truth, shop.merchant, shop.mint, s)
    requires s !in Known(base) && s !in w.announced + w.seeded
    ensures var p := PassOf(w.files, args, net, shop.merchant, shop.mint);
            var o, e := Collect(p, net.window.value), RunMain(w.files, args, net, shop.merchant, shop.mint);
            && (o.stats.unverifiable > 0 || exists r :: r in o.found && r.signature == s)
            && (!BadUsage(args) && !args.seed && o.stats.unverifiable == 0 ==>
                  exists r :: r in e.printed && r.signature == s)
  {
    var p := PassOf(w.files, args, net, shop.merchant, shop.mint);
    if s in Known(w.files.ledger) {
      RecordedIsEarned(shop, base, w, s);
    }
    hide Collect;
    NothingIsHidden(p, shop.truth, net.window.value, s);
  }

  // ---------------------------------------------------------------------------
  // Replaying a commit
  // ---------------------------------------------------------------------------

  function WindowOf(net: Endpoint): seq<string> {
    if net.window.Some? then net.window.value else []
  }

  /** A settlement a commit may append: allowed by `--only`, and not in the ledger. */
  predicate Committable(shop: Shop, files: Files, args: Args, s: string) {
    && args.only.Some? && s in args.only.value
    && s !in Known(files.ledger)
    && Settles(shop.truth, shop.merchant, shop.mint, s)
  }

  /** The pass saw the signature and got an answer for it. */
  predicate Verifies(net: Endpoint, s: string) {
    s in WindowOf(net) && net.answers(s).Some?
  }

  /** The allowed settlements a commit can verify. */
  function CommittedBy(shop: Shop, files: Files, args: Args, net: Endpoint): set<string> {
    set s | s in WindowOf(net) && Committable(shop, files, args, s) && Verifies(net, s)
  }

  /** The allowed settlements a second attempt can verify and the first could not. */
  function LeftOver(shop: Shop, files: Files, args: Args, first: Endpoint, second: Endpoint): set<string> {
    set s | s in WindowOf(second) && Committable(shop, files, args, s) && Verifies(second, s) && !Verifies(first, s)
  }

  function FoundBy(shop: Shop, files: Files, args: Args, net: Endpoint): seq<Record> {
    Collect(PassOf(files, args, net, shop.merchant, shop.mint), WindowOf(net)).found
  }

  lemma CommitFinds(shop: Shop, files: Files, args: Args, net: Endpoint)
    requires Honest(net.answers, shop.truth) && args.only.Some?
    ensures Signatures(FoundBy(shop, files, args, net)) == CommittedBy(shop, files, args, net)
    ensures !BadUsage(args) ==> forall r :: r in FoundBy(shop, files, args, net) ==> IsSignature(r.signature)
  {
    var p, window := PassOf(files, args, net, shop.merchant, shop.mint), WindowOf(net);
    var found := FoundBy(shop, files, args, net);
    ReverseKeepsElements(Records(p, window));
    forall r | r in found
      ensures r.signature in CommittedBy(shop, files, args, net) && r.signature in args.only.value
    {
      RecordsAreSettlements(p, shop.truth, window, r);
    }
    forall s | s in CommittedBy(shop, files, args, net)
      ensures s in Signatures(found)
    {
      FromTransactionExact(net.answers(s).value, s, shop.merchant, shop.mint);
      RecordsContain(p, window, s);
      assert Judge(p, s).record in found;
    }
    if !BadUsage(args) {
      forall r | r in found
        ensures IsSignature(r.signature)
      {
        var k :| 0 <= k < |args.only.value| && args.only.value[k] == r.signature;
      }
    }
  }

  /** One commit appends exactly what it can verify of what it may append, and leaves the cache alone. */
  lemma CommitAppends(shop: Shop, files: Files, args: Args, net: Endpoint)
    requires Honest(net.answers, shop.truth) && args.only.Some? && !args.dryRun && !BadUsage(args)
    ensures var after := RunMain(files, args, net, shop.merchant, shop.mint).files;
            && after == Files(files.ledger + LinesFor(FoundBy(shop, files, args, net)), files.cache)
            && Known(after.ledger) == Known(files.ledger) + CommittedBy(shop, files, args, net)
  {
    var found := FoundBy(shop, files, args, net);
    CommitFinds(shop, files, args, net);
    LedgerGainsSignatures(files.ledger, found);
    if net.window.None? {
      assert files.ledger + LinesFor([]) == files.ledger;
    }
  }

  /**
   * A commit repeated against an endpoint that answers differently appends exactly the allowed settlements the
   * first attempt could not verify; it changes nothing if and only if there is none.
   */
  lemma ReplayAppendsTheRest(shop: Shop, files: Files, args: Args, first: Endpoint, second: Endpoint)
    requires Honest(first.answers, shop.truth) && Honest(second.answers, shop.truth)
    requires args.only.Some? && !args.dryRun && !BadUsage(args)
    ensures var once := RunMain(files, args, first, shop.merchant, shop.mint).files;
            var twice := RunMain(once, args, second, shop.merchant, shop.mint).files;
            var rest := FoundBy(shop, once, args, second);
            && twice == Files(once.ledger + LinesFor(rest), once.cache)
            && Signatures(rest) == LeftOver(shop, files, args, first, second)
            && (twice == once <==> LeftOver(shop, files, args, first, second) == {})
  {
    var once := RunMain(files, args, first, shop.merchant, shop.mint).files;
    var rest := FoundBy(shop, once, args, second);
    CommitAppends(shop, files, args, first);
    CommitAppends(shop, once, args, second);
    CommitFinds(shop, once, args, second);
    hide RunMain, FoundBy, Known, Settles, PassOf;
    assert CommittedBy(shop, once, args, second) == LeftOver(shop, files, args, first, second);
    hide CommittedBy, LeftOver, LinesFor, BadUsage;
    NoSignaturesNoRecords(rest);
    assert |once.ledger + LinesFor(rest)| == |once.ledger| + |rest|;
    if rest == [] {
      assert once.ledger + LinesFor(rest) == once.ledger;
    }
  }

  lemma NoSignaturesNoRecords(records: seq<Record>)
    ensures Signatures(records) == {} <==> records == []
  {
    assert records == [] || records[0].signature in Signatures(records);
  }

  /** A commit whose pass was fully answered, or that hears the same answers again, can be repeated to no effect. */
  lemma ReplayedCommitChangesNothing(shop: Shop, files: Files, args: Args, first: Endpoint, second: Endpoint)
    requires Honest(first.answers, shop.truth) && Honest(second.answers, shop.truth)
    requires args.only.Some? && !args.dryRun
    requires || second == first
             || (&& Answered(PassOf(files, args, first, shop.merchant, shop.mint), WindowOf(first))
                 && forall s :: s in WindowOf(second) && s in args.only.value ==> s in WindowOf(first))
    ensures var once := RunMain(files, args, first, shop.merchant, shop.mint).files;
            RunMain(once, args, second, shop.merchant, shop.mint).files == once
  {
    if !BadUsage(args) {
      ReplayAppendsTheRest(shop, files, args, first, second);
      forall s
        ensures s !in LeftOver(shop, files, args, first, second)
      {
        if second != first && s in WindowOf(first) {
          assert !Judge(PassOf(files, args, first, shop.merchant, shop.mint), s).Unverifiable?;
        }
      }
    }
  }

  function Payment(): Response {
    Transaction(false, [], [Balance(Some(0), Some("shop"), Some("usdc"), Some(1), Some(6))], [], None, None)
  }

  function PaidShop(): Shop {
    Shop(_ => Payment(), "shop", "usdc")
  }

  function OneSignature(): string {
    seq(86, _ => '1')
  }

  function OneCommit(): Args {
    Args(25, false, false, false, Some([OneSignature()]))
  }

  /** An endpoint that lists the signature and answers nothing about it, and one that answers. */
  function Silent(): Endpoint {
    Endpoint(Some([OneSignature()]), _ => None, true)
  }

  function Answering(): Endpoint {
    Endpoint(Some([OneSignature()]), _ => Some(Payment()), true)
  }

  lemma PaymentSettles()
    ensures IsSignature(OneSignature()) && !BadUsage(OneCommit())
    ensures Settles(PaidShop().truth, "shop", "usdc", OneSignature())
  {
    assert Credited(Payment(), Payment().post[0], "shop", "usdc");
    FromTransactionExact(Payment(), OneSignature(), "shop", "usdc");
  }

  lemma SilentPassFindsNothing(files: Files)
    ensures FoundBy(PaidShop(), files, OneCommit(), Silent()) == []
  {
    CommitFinds(PaidShop(), files, OneCommit(), Silent());
    NoSignaturesNoRecords(FoundBy(PaidShop(), files, OneCommit(), Silent()));
  }

  lemma AnsweringPassFindsIt(files: Files)
    requires files.ledger == []
    ensures LinesFor(FoundBy(PaidShop(), files, OneCommit(), Answering())) == [Json(Some(OneSignature()))]
  {
    PaymentSettles();
    var p, s := PassOf(files, OneCommit(), Answering(), "shop", "usdc"), OneSignature();
    FromTransactionExact(Payment(), s, "shop", "usdc");
    hide IsSignature, FromTransaction, OneSignature;
    assert Judge(p, s).Found? && Judge(p, s).record.signature == s;
    assert Records(p, [s]) == [Judge(p, s).record] + Records(p, []);
    hide Judge;
    assert Reverse([Judge(p, s).record]) == Reverse<Record>([]) + [Judge(p, s).record];
    assert FoundBy(PaidShop(), files, OneCommit(), Answering()) == [Judge(p, s).record];
  }

  /** An unanswered commit is not idempotent: its replay appends the line the first attempt could not verify. */
  lemma UnansweredCommitIsNotIdempotent()
    ensures Honest(Silent().answers, PaidShop().truth) && Honest(Answering().answers, PaidShop().truth)
    ensures var once := RunMain(Files([], Missing), OneCommit(), Silent(), "shop", "usdc").files;
            && once.ledger == []
            && RunMain(once, OneCommit(), Answering(), "shop", "usdc").files.ledger == [Json(Some(OneSignature()))]
  {
    var files := Files([], Missing);
    var once := RunMain(files, OneCommit(), Silent(), "shop", "usdc").files;
    PaymentSettles();
    hide RunMain, FoundBy, BadUsage, OneSignature;
    CommitAppends(PaidShop(), files, OneCommit(), Silent());
    SilentPassFindsNothing(files);
    assert once.ledger == [] + LinesFor([]) == [];
    CommitAppends(PaidShop(), once, OneCommit(), Answering());
    AnsweringPassFindsIt(once);
    assert once.ledger + [Json(Some(OneSignature()))] == [Json(Some(OneSignature()))];
  }

  /**
   * After a fully answered live run that could save its cache, running again on the same window fetches nothing,
   * announces nothing and leaves both files as they are.
   */
  lemma SecondRunIsIdle(shop: Shop, files: Files, args: Args, net: Endpoint, later: Answers)
    requires !BadUsage(args) && UsesCache(args) && !args.dryRun && !args.seed && net.window.Some? && net.cacheWritable
    requires Honest(net.answers, shop.truth)
    requires forall s :: s in net.window.value ==> IsSignature(s)
    requires Answered(PassOf(files, args, net, shop.merchant, shop.mint), net.window.value)
    ensures var once := RunMain(files, args, net, shop.merchant, shop.mint).files;
            var again := net.(answers := later);
            && RunMain(once, args, again, shop.merchant, shop.mint) == Effects(once, [], 0)
            && Collect(PassOf(once, args, again, shop.merchant, shop.mint), net.window.value).stats.fetched == 0
  {
    var window, p := net.window.value, PassOf(files, args, net, shop.merchant, shop.mint);
    var first := Collect(p, window);
    var once := RunMain(files, args, net, shop.merchant, shop.mint).files;
    var q := PassOf(once, args, net.(answers := later), shop.merchant, shop.mint);
    SteadyState(p, shop.truth, window, later);
    SavedCacheIsRead(first.negatives, window);
    assert q.cached == first.negatives;
    LedgerGainsSignatures(files.ledger, first.found);
    ReverseKeepsElements(Records(p, window));
    forall r | r in first.found
      ensures IsSignature(r.signature)
    {
      RecordsAreSettlements(p, shop.truth, window, r);
    }
    assert q.known == p.known + Signatures(first.found);
    assert once.ledger + LinesFor([]) == once.ledger;
  }

  lemma LedgerGainsSignatures(ledger: seq<Line>, records: seq<Record>)
    ensures (forall r :: r in records ==> IsSignature(r.signature)) ==>
      Known(ledger + LinesFor(records)) == Known(ledger) + Signatures(records)
  {
    if forall r :: r in records ==> IsSignature(r.signature) {
      forall r | r in records
        ensures r.signature in Known(ledger + LinesFor(records))
      {
        var k :| 0 <= k < |records| && records[k] == r;
        assert (ledger + LinesFor(records))[|ledger| + k] == LineFor(r);
      }
      forall l | l in ledger + LinesFor(records) && Usable(l)
        ensures l.signature.value in Known(ledger) + Signatures(records)
      {
        if l !in ledger {
          var k :| 0 <= k < |records| && l == LinesFor(records)[k];
          assert records[k] in records;
        }
      }
    }
  }
}
