/** The evidence bundle: raw transactions captured before an endpoint prunes them. */
module Evidence {
  import opened Prelude

  type Signature = string

  datatype Entry = Captured(raw: Bytes, slot: nat) | AlreadyPruned | Error

  /** How `getTransaction` fares: an exception, an error body, a body without the transaction, or the transaction. */
  datatype TxReply = Raised | ErrorBody | NoResult | Served(raw: Bytes, slot: nat)

  /** How `getSignatureStatuses` fares. */
  datatype StatusReply = StatusRaised | Status(known: bool)

  /** One run: the command line, and what the endpoint answers about each signature. */
  datatype Run = Run(signatures: seq<Signature>, refresh: bool, force: bool, cluster: string,
                     transaction: Signature -> TxReply, status: Signature -> StatusReply)

  /** `fetch`: never an exception, always an entry. */
  function Fetch(run: Run, s: Signature): (e: Entry)
    ensures e.Captured? <==> run.transaction(s).Served?
    ensures run.transaction(s).Served? ==> e.raw == run.transaction(s).raw && e.slot == run.transaction(s).slot
    ensures e.AlreadyPruned? <==> run.transaction(s).NoResult? && run.status(s) != Status(true)
  {
    match run.transaction(s)
    case Raised => Error
    case ErrorBody => Error
    case NoResult =>
      var known := match run.status(s)
        case StatusRaised => false
        case Status(k) => k;
      if known then Error else AlreadyPruned
    case Served(raw, slot) => Captured(raw, slot)
  }

  /**
   * A bundle file. `order` is the insertion order of `txs`; an absent or empty cluster label is the empty string.
   */
  datatype State = State(txs: map<Signature, Entry>, order: seq<Signature>, cluster: string) {
    ghost predicate Valid() {
      Distinct(order) && forall s :: s in txs <==> s in order
    }

    predicate Holds(s: Signature) {
      s in txs && txs[s].Captured?
    }

    function CapturedSet(): set<Signature> {
      set s | s in txs && txs[s].Captured?
    }
  }

  /** A run meant for another cluster than the bundle records is refused. */
  predicate Refused(b: State, run: Run) {
    b.cluster != "" && b.cluster != run.cluster
  }

  function NotCaptured(b: State, order: seq<Signature>): (r: seq<Signature>)
    requires forall s :: s in order ==> s in b.txs
    ensures forall s :: s in r <==> s in order && !b.Holds(s)
  {
    if order == [] then [] else
      var rest := NotCaptured(b, order[1..]);
      if b.txs[order[0]].Captured? then rest else [order[0]] + rest
  }

  function Targets(b: State, run: Run): seq<Signature>
    requires b.Valid()
  {
    run.signatures + if run.refresh then NotCaptured(b, b.order) else []
  }

  /** `dict.fromkeys`: the first occurrence of each, in order. */
  function Unique(s: seq<Signature>): (r: seq<Signature>)
    ensures Distinct(r) && forall x :: x in r <==> x in s
  {
    if s == [] then [] else
      var r := Unique(s[..|s| - 1]);
      assert s == s[..|s| - 1] + [s[|s| - 1]];
      if s[|s| - 1] in r then r else r + [s[|s| - 1]]
  }

  /** What one target ends as: held bytes give way only under force, and only to bytes fetched anew. */
  function Settled(held: Option<Entry>, force: bool, fetched: Entry): Entry {
    if held.Some? && held.value.Captured? && (!force || !fetched.Captured?) then held.value else fetched
  }

  function Held(txs: map<Signature, Entry>, s: Signature): Option<Entry> {
    if s in txs then Some(txs[s]) else None
  }

  /** Every signature in `done` is settled and nothing else is touched. */
  ghost predicate SettledFor(b: map<Signature, Entry>, run: Run, done: seq<Signature>, txs: map<Signature, Entry>) {
    && (forall s :: s in txs <==> s in b || s in done)
    && (forall s :: s in txs && s in done ==> txs[s] == Settled(Held(b, s), run.force, Fetch(run, s)))
    && (forall s :: s in txs && s !in done ==> txs[s] == b[s])
  }

  /** The bundle after a run, entry by entry. */
  ghost predicate After(b: State, run: Run, c: State)
    requires b.Valid()
  {
    if Refused(b, run) || Targets(b, run) == [] then c == b
    else c.cluster == run.cluster && b.order <= c.order && SettledFor(b.txs, run, Targets(b, run), c.txs)
  }

  predicate Missed(b: State, run: Run, done: seq<Signature>) {
    exists s :: s in done && !b.Holds(s) && !Fetch(run, s).Captured?
  }

  /** Some target is left without captured bytes. */
  predicate Misses(b: State, run: Run)
    requires b.Valid()
  {
    Missed(b, run, Targets(b, run))
  }

  lemma NothingSettled(b: State, run: Run)
    ensures SettledFor(b.txs, run, [], b.txs) && !Missed(b, run, [])
  {
  }

  /** One turn of the target loop: what the bundle has to hold afterwards, and whether the target counts as failed. */
  lemma TargetSettled(b: State, run: Run, todo: seq<Signature>, i: nat, txs: map<Signature, Entry>)
    requires i < |todo| && Distinct(todo) && SettledFor(b.txs, run, todo[..i], txs)
    ensures Held(txs, todo[i]) == Held(b.txs, todo[i])
    ensures var entry := Settled(Held(b.txs, todo[i]), run.force, Fetch(run, todo[i]));
            SettledFor(b.txs, run, todo[..i + 1], txs[todo[i] := entry])
    ensures Missed(b, run, todo[..i + 1]) <==>
              Missed(b, run, todo[..i]) || (!b.Holds(todo[i]) && !Fetch(run, todo[i]).Captured?)
  {
    assert todo[..i + 1] == todo[..i] + [todo[i]];
    assert todo[i] !in todo[..i];
  }

  /** Only which targets there are matters, not how often or in what order they were asked for. */
  lemma SameTargets(b: State, run: Run, s: seq<Signature>, t: seq<Signature>, txs: map<Signature, Entry>)
    requires SettledFor(b.txs, run, s, txs) && forall x :: x in s <==> x in t
    ensures SettledFor(b.txs, run, t, txs)
    ensures Missed(b, run, s) <==> Missed(b, run, t)
  {
  }

  class Bundle {
    var txs: map<Signature, Entry>
    var order: seq<Signature>
    var cluster: string

    ghost predicate Valid()
      reads this
    {
      Content().Valid()
    }

    function Content(): State
      reads this
    {
      State(txs, order, cluster)
    }

    constructor ()
      ensures Valid() && Content() == State(map[], [], "")
    {
      txs, order, cluster := map[], [], "";
    }

    /** `txs[sig] = entry`. */
    method Put(sig: Signature, entry: Entry)
      requires Valid()
      modifies this
      ensures Valid() && txs == old(txs)[sig := entry] && cluster == old(cluster)
      ensures order == if sig in old(txs) then old(order) else old(order) + [sig]
    {
      if sig !in txs {
        order := order + [sig];
      }
      txs := txs[sig := entry];
    }

    /** The target loop; `failed` counts the targets that are left without captured bytes. */
    method Settle(run: Run, todo: seq<Signature>) returns (failed: nat)
      requires Valid() && Distinct(todo)
      modifies this
      ensures Valid() && cluster == old(cluster) && old(order) <= order
      ensures SettledFor(old(txs), run, todo, txs)
      ensures failed > 0 <==> Missed(old(Content()), run, todo)
    {
      hide SettledFor, Missed;
      ghost var before := Content();
      NothingSettled(before, run);
      failed := 0;
      assert todo[..0] == [];
      for i := 0 to |todo|
        invariant Valid() && cluster == before.cluster && before.order <= order
        invariant SettledFor(before.txs, run, todo[..i], txs)
        invariant failed > 0 <==> Missed(before, run, todo[..i])
      {
        var sig := todo[i];
        TargetSettled(before, run, todo, i, txs);
        var captured := sig in txs && txs[sig].Captured?;
        if captured && !run.force {
          assert txs[sig := txs[sig]] == txs;
          continue;
        }
        var entry := Fetch(run, sig);
        if entry.Captured? {
          Put(sig, entry);
        } else if !captured {
          Put(sig, entry);
          failed := failed + 1;
        } else {
          assert txs[sig := txs[sig]] == txs;
        }
      }
      assert todo[..|todo|] == todo;
    }

    /** `main`: the exit code is 0 or 1. */
    method Capture(run: Run) returns (exit: nat)
      requires Valid()
      modifies this
      ensures Valid() && After(old(Content()), run, Content())
      ensures exit == if Refused(old(Content()), run) || Misses(old(Content()), run) then 1 else 0
    {
      hide SettledFor, Missed, Fetch;
      if cluster != "" && cluster != run.cluster {
        return 1;
      }
      ghost var before := Content();
      var targets := run.signatures;
      if run.refresh {
        targets := targets + NotCaptured(Content(), order);
      }
      assert targets == Targets(before, run);
      NothingSettled(before, run);
      if targets == [] {
        return 0;
      }
      var todo := Unique(targets);
      var failed := Settle(run, todo);
      SameTargets(before, run, todo, targets, txs);
      cluster := run.cluster;
      return if failed > 0 then 1 else 0;
    }
  }

  // ---------------------------------------------------------------------------
  // Any sequence of runs
  // ---------------------------------------------------------------------------

  /** The bundle's contents before the first run, between runs, and after the last. */
  ghost predicate History(runs: seq<Run>, states: seq<State>) {
    && |states| == |runs| + 1
    && (forall i :: 0 <= i < |states| ==> states[i].Valid())
    && (forall i :: 0 <= i < |runs| ==> After(states[i], runs[i], states[i + 1]))
  }

  /** One run keeps every captured entry captured, with the same bytes unless it is forced. */
  lemma RunKeepsEvidence(b: State, run: Run, c: State, s: Signature)
    requires b.Valid() && After(b, run, c) && b.Holds(s)
    ensures c.Holds(s)
    ensures c.txs[s] != b.txs[s] ==> run.force && s in Targets(b, run) && c.txs[s] == Fetch(run, s)
  {
  }

  /** Captured evidence is never lost, whatever the endpoint answers over however many runs. */
  lemma {:induction false} EvidenceIsNeverLost(runs: seq<Run>, states: seq<State>, s: Signature)
    requires History(runs, states) && states[0].Holds(s)
    ensures states[|runs|].Holds(s)
    ensures states[|runs|].txs[s] != states[0].txs[s] ==>
              exists i :: 0 <= i < |runs| && runs[i].force && Fetch(runs[i], s) == states[|runs|].txs[s]
  {
    var n := |runs|;
    if n > 0 {
      EvidenceIsNeverLost(runs[..n - 1], states[..n], s);
      assert states[..n][n - 1] == states[n - 1];
      RunKeepsEvidence(states[n - 1], runs[n - 1], states[n], s);
      if states[n].txs[s] != states[0].txs[s] && states[n].txs[s] == states[n - 1].txs[s] {
        var i :| 0 <= i < n - 1 && runs[..n - 1][i].force && Fetch(runs[..n - 1][i], s) == states[n - 1].txs[s];
        assert runs[i].force && Fetch(runs[i], s) == states[n].txs[s];
      } else if states[n].txs[s] != states[0].txs[s] {
        assert runs[n - 1].force;
      }
    }
  }

  /** In one of the runs the endpoint served exactly what this entry holds. */
  ghost predicate WasServed(runs: seq<Run>, s: Signature, e: Entry)
    requires e.Captured?
  {
    exists i :: 0 <= i < |runs| && runs[i].transaction(s) == Served(e.raw, e.slot)
  }

  /** Captured bytes are authentic: held from the start, or byte for byte what an endpoint served in one of the runs. */
  lemma {:induction false} EvidenceIsAuthentic(runs: seq<Run>, states: seq<State>, s: Signature)
    requires History(runs, states) && states[|runs|].Holds(s)
    ensures || (states[0].Holds(s) && states[0].txs[s] == states[|runs|].txs[s])
            || WasServed(runs, s, states[|runs|].txs[s])
  {
    var n := |runs|;
    if n > 0 {
      assert states[..n][n - 1] == states[n - 1];
      assert After(states[n - 1], runs[n - 1], states[n]);
      CapturedOrServed(states[n - 1], runs[n - 1], states[n], s);
      if states[n - 1].Holds(s) && states[n - 1].txs[s] == states[n].txs[s] {
        EvidenceIsAuthentic(runs[..n - 1], states[..n], s);
        if WasServed(runs[..n - 1], s, states[n].txs[s]) {
          var e := states[n].txs[s];
          var i :| 0 <= i < n - 1 && runs[..n - 1][i].transaction(s) == Served(e.raw, e.slot);
          assert runs[i].transaction(s) == Served(e.raw, e.slot);
        }
      }
    }
  }

  lemma CapturedOrServed(b: State, run: Run, c: State, s: Signature)
    requires b.Valid() && After(b, run, c) && c.Holds(s)
    ensures (b.Holds(s) && b.txs[s] == c.txs[s]) || run.transaction(s) == Served(c.txs[s].raw, c.txs[s].slot)
  {
  }

  /** Without force nothing captured ever changes, and the number of captured entries never falls. */
  lemma CapturesOnlyAccumulate(runs: seq<Run>, states: seq<State>)
    requires History(runs, states)
    ensures states[0].CapturedSet() <= states[|runs|].CapturedSet()
    ensures |states[0].CapturedSet()| <= |states[|runs|].CapturedSet()|
    ensures (forall i :: 0 <= i < |runs| ==> !runs[i].force) ==>
              forall s :: s in states[0].CapturedSet() ==> states[|runs|].txs[s] == states[0].txs[s]
  {
    forall s | s in states[0].CapturedSet()
      ensures s in states[|runs|].CapturedSet()
      ensures (forall i :: 0 <= i < |runs| ==> !runs[i].force) ==> states[|runs|].txs[s] == states[0].txs[s]
    {
      EvidenceIsNeverLost(runs, states, s);
    }
    SubsetIsSmaller(states[0].CapturedSet(), states[|runs|].CapturedSet());
  }

  lemma {:induction false} SubsetIsSmaller<T>(a: set<T>, b: set<T>)
    requires a <= b
    ensures |a| <= |b|
  {
    if a != {} {
      var x :| x in a;
      SubsetIsSmaller(a - {x}, b - {x});
    }
  }

  /** Once recorded, the cluster is the bundle's for good, so evidence from two clusters never mixes. */
  lemma {:induction false} ClusterNeverChanges(runs: seq<Run>, states: seq<State>)
    requires History(runs, states) && states[0].cluster != ""
    ensures states[|runs|].cluster == states[0].cluster
    ensures forall i :: 0 <= i < |runs| && runs[i].cluster != states[0].cluster ==> states[i + 1] == states[i]
  {
    var n := |runs|;
    if n > 0 {
      ClusterNeverChanges(runs[..n - 1], states[..n]);
      assert states[..n][n - 1] == states[n - 1];
      forall i | 0 <= i < n && runs[i].cluster != states[0].cluster
        ensures states[i + 1] == states[i]
      {
        if i < n - 1 {
          assert runs[..n - 1][i] == runs[i] && states[..n][i + 1] == states[i + 1] && states[..n][i] == states[i];
        }
      }
    }
  }

  /** Past the cluster check, exit code 0 says exactly that every requested target ends up captured. */
  lemma ExitIsHonest(b: State, run: Run, c: State)
    requires b.Valid() && After(b, run, c) && !Refused(b, run)
    ensures !Misses(b, run) <==> forall s :: s in Targets(b, run) ==> c.Holds(s)
  {
    forall s | s in Targets(b, run)
      ensures c.Holds(s) <==> b.Holds(s) || Fetch(run, s).Captured?
    {
      assert s in c.txs;
    }
  }

  /** Exit code 0 says that all that was asked for by name is captured, and everything there is when refreshing. */
  lemma ExitSaysAllCaptured(b: State, run: Run, c: State)
    requires b.Valid() && After(b, run, c) && !Refused(b, run)
    ensures !Misses(b, run) <==>
              && (forall s :: s in run.signatures ==> c.Holds(s))
              && (run.refresh ==> forall s :: s in c.txs ==> c.Holds(s))
  {
    ExitIsHonest(b, run, c);
    if !Misses(b, run) && run.refresh {
      RefreshClosesEveryGap(b, run, c);
    }
    forall s | s in Targets(b, run)
      ensures s in c.txs
    {
    }
  }

  /** A refreshing run that ends with exit code 0 leaves no gap in the bundle. */
  lemma RefreshClosesEveryGap(b: State, run: Run, c: State)
    requires b.Valid() && After(b, run, c) && !Refused(b, run) && run.refresh && !Misses(b, run)
    ensures forall s :: s in c.txs ==> c.Holds(s)
  {
    ExitIsHonest(b, run, c);
    forall s | s in c.txs
      ensures c.Holds(s)
    {
      if s !in Targets(b, run) {
        assert s in b.txs && s in b.order && s !in NotCaptured(b, b.order);
      }
    }
  }
}
