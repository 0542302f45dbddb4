/** The settlement scan: one pass over a window of signatures, with its ledger, cache and `--only` filters. */
module Scan {
  import opened Prelude
  import opened Settlement

  /** What the endpoint answers for each signature on one pass; None is no answer. */
  type Answers = string -> Option<Response>

  /** What the chain holds for each signature, whoever asks and whenever. */
  type Truth = string -> Response

  /** Everything one pass is told: whose payments, what to skip, and what the endpoint says. */
  datatype Pass = Pass(merchant: string, mint: string, known: set<string>, only: Option<set<string>>,
                       cached: set<string>, answers: Answers)

  datatype Verdict = AlreadyKnown | OutsideOnly | CacheHit | Unverifiable | NotASettlement | Found(record: Record)

  /** The branch a signature takes. */
  function Judge(p: Pass, s: string): Verdict {
    if s in p.known then AlreadyKnown
    else if p.only.Some? && s !in p.only.value then OutsideOnly
    else if s in p.cached then CacheHit
    else match p.answers(s)
      case None => Unverifiable
      case Some(tx) =>
        match FromTransaction(tx, s, p.merchant, p.mint)
        case None => NotASettlement
        case Some(record) => Found(record)
  }

  /** The settlements of a window, in its order. */
  function Records(p: Pass, window: seq<string>): seq<Record> {
    if window == [] then []
    else (if Judge(p, window[0]).Found? then [Judge(p, window[0]).record] else []) + Records(p, window[1..])
  }

  function Reverse<T>(s: seq<T>): seq<T> {
    if s == [] then [] else Reverse(s[1..]) + [s[0]]
  }

  predicate IsNegative(v: Verdict) {
    v.CacheHit? || v.NotASettlement?
  }

  function Negatives(p: Pass, window: seq<string>): set<string> {
    set s | s in window && IsNegative(Judge(p, s))
  }

  predicate Fetches(v: Verdict) {
    v.Unverifiable? || v.NotASettlement? || v.Found?
  }

  datatype Stats = Stats(scanned: nat, alreadyKnown: nat, unverifiable: nat, notASettlement: nat, cacheHits: nat,
                         fetched: nat, outsideOnly: nat)

  /** The counters after one more signature. */
  function Counted(st: Stats, v: Verdict): Stats {
    match v
    case AlreadyKnown => st.(alreadyKnown := st.alreadyKnown + 1)
    case OutsideOnly => st.(outsideOnly := st.outsideOnly + 1)
    case CacheHit => st.(cacheHits := st.cacheHits + 1)
    case Unverifiable => st.(fetched := st.fetched + 1, unverifiable := st.unverifiable + 1)
    case NotASettlement => st.(fetched := st.fetched + 1, notASettlement := st.notASettlement + 1)
    case Found(_) => st.(fetched := st.fetched + 1)
  }

  function Tally(p: Pass, window: seq<string>, st: Stats): Stats
    decreases |window|
  {
    if window == [] then st else Tally(p, window[1..], Counted(st, Judge(p, window[0])))
  }

  function Zero(scanned: nat): Stats {
    Stats(scanned, 0, 0, 0, 0, 0, 0)
  }

  datatype Outcome = Outcome(found: seq<Record>, stats: Stats, negatives: set<string>)

  /** What `collect_settlements` returns once the window has been read. */
  function Collect(p: Pass, window: seq<string>): Outcome {
    Outcome(Reverse(Records(p, window)), Tally(p, window, Zero(|window|)), Negatives(p, window))
  }

  method ReverseList<T>(s: seq<T>) returns (out: seq<T>)
    ensures out == Reverse(s)
  {
    out := [];
    for k := 0 to |s|
      invariant Reverse(s) == Reverse(s[k..]) + out
    {
      assert s[k..][1..] == s[k + 1..];
      out := [s[k]] + out;
    }
  }

  method CollectSettlements(p: Pass, window: seq<string>) returns (o: Outcome)
    ensures o == Collect(p, window)
  {
    hide FromTransaction, Records, Tally, Negatives;
    NothingScanned(p, window);
    var stats := Zero(|window|);
    var found: seq<Record>, negatives: set<string> := [], {};
    for k := 0 to |window|
      invariant found + Records(p, window[k..]) == Records(p, window)
      invariant Tally(p, window[k..], stats) == Tally(p, window, Zero(|window|))
      invariant negatives == Negatives(p, window[..k])
    {
      var signature := window[k];
      ScanOne(p, window, k, stats);
      if signature in p.known {
        stats := stats.(alreadyKnown := stats.alreadyKnown + 1);
        continue;
      }
      if p.only.Some? && signature !in p.only.value {
        stats := stats.(outsideOnly := stats.outsideOnly + 1);
        continue;
      }
      if signature in p.cached {
        stats := stats.(cacheHits := stats.cacheHits + 1);
        negatives := negatives + {signature};
        continue;
      }
      var tx := p.answers(signature);
      stats := stats.(fetched := stats.fetched + 1);
      if tx.None? {
        stats := stats.(unverifiable := stats.unverifiable + 1);
        continue;
      }
      var record := SettlementFromTx(tx.value, signature, p.merchant, p.mint);
      if record.None? {
        stats := stats.(notASettlement := stats.notASettlement + 1);
        negatives := negatives + {signature};
        continue;
      }
      found := found + [record.value];
    }
    ScanEnds(p, window, stats);
    assert found + [] == found;
    var oldestFirst := ReverseList(found);
    o := Outcome(oldestFirst, stats, negatives);
  }

  lemma NothingScanned(p: Pass, window: seq<string>)
    ensures [] + Records(p, window[0..]) == Records(p, window)
    ensures window[0..] == window && Negatives(p, window[..0]) == {}
  {
  }

  /** What one signature adds, by the branch it takes. */
  lemma {:induction false} ScanOne(p: Pass, window: seq<string>, k: nat, stats: Stats)
    requires k < |window|
    ensures var v := Judge(p, window[k]);
            && Records(p, window[k..]) == (if v.Found? then [v.record] else []) + Records(p, window[k + 1..])
            && Tally(p, window[k..], stats) == Tally(p, window[k + 1..], Counted(stats, v))
            && Negatives(p, window[..k + 1]) == Negatives(p, window[..k]) + if IsNegative(v) then {window[k]} else {}
  {
    assert window[k..][1..] == window[k + 1..];
    assert window[..k + 1] == window[..k] + [window[k]];
    hide Judge;
  }

  lemma {:induction false} ScanEnds(p: Pass, window: seq<string>, stats: Stats)
    ensures Records(p, window[|window|..]) == [] && Tally(p, window[|window|..], stats) == stats
    ensures window[..|window|] == window
  {
  }

  // ---------------------------------------------------------------------------
  // What the pass promises
  // ---------------------------------------------------------------------------

  /** The transaction behind a signature pays the merchant. */
  predicate Settles(truth: Truth, merchant: string, mint: string, s: string) {
    FromTransaction(truth(s), s, merchant, mint).Some?
  }

  /** Finalized transactions do not change: any answer is the chain's. */
  ghost predicate Honest(answers: Answers, truth: Truth) {
    forall s :: answers(s).Some? ==> answers(s).value == truth(s)
  }

  /** Every cached signature is a true negative. */
  predicate SoundCache(cached: set<string>, truth: Truth, merchant: string, mint: string) {
    forall s :: s in cached ==> !Settles(truth, merchant, mint, s)
  }

  /** The six things that can happen to a signature of the window, in the order they are considered. */
  datatype Fate = OnLedger | NotAskedFor | InCache | Unread | NoPayment | Payment

  predicate Meets(p: Pass, s: string, fate: Fate) {
    match fate
    case OnLedger => s in p.known
    case NotAskedFor => s !in p.known && p.only.Some? && s !in p.only.value
    case InCache => s !in p.known && (p.only.Some? ==> s in p.only.value) && s in p.cached
    case Unread => Fetched(p, s) && p.answers(s).None?
    case NoPayment =>
      Fetched(p, s) && p.answers(s).Some? && FromTransaction(p.answers(s).value, s, p.merchant, p.mint).None?
    case Payment =>
      Fetched(p, s) && p.answers(s).Some? && FromTransaction(p.answers(s).value, s, p.merchant, p.mint).Some?
  }

  predicate Fetched(p: Pass, s: string) {
    s !in p.known && (p.only.Some? ==> s in p.only.value) && s !in p.cached
  }

  /** At how many places of the window a signature meets this fate. */
  function Places(p: Pass, window: seq<string>, fate: Fate): nat {
    if window == [] then 0 else Places(p, window[1..], fate) + if Meets(p, window[0], fate) then 1 else 0
  }

  /** The counters after a window, over what they were before it, and how many records it gave. */
  predicate Counts(p: Pass, window: seq<string>, before: Stats, after: Stats, records: nat) {
    && after.scanned == before.scanned
    && after.alreadyKnown == before.alreadyKnown + Places(p, window, OnLedger)
    && after.outsideOnly == before.outsideOnly + Places(p, window, NotAskedFor)
    && after.cacheHits == before.cacheHits + Places(p, window, InCache)
    && after.unverifiable == before.unverifiable + Places(p, window, Unread)
    && after.notASettlement == before.notASettlement + Places(p, window, NoPayment)
    && records == Places(p, window, Payment)
    && after.fetched == before.fetched
                        + Places(p, window, Unread) + Places(p, window, NoPayment) + Places(p, window, Payment)
  }

  /** Exactly one fate, and it is the branch taken. */
  lemma FatesExact(p: Pass, s: string)
    ensures var v := Judge(p, s);
            && (Meets(p, s, OnLedger) <==> v.AlreadyKnown?) && (Meets(p, s, NotAskedFor) <==> v.OutsideOnly?)
            && (Meets(p, s, InCache) <==> v.CacheHit?) && (Meets(p, s, Unread) <==> v.Unverifiable?)
            && (Meets(p, s, NoPayment) <==> v.NotASettlement?) && (Meets(p, s, Payment) <==> v.Found?)
  {
    hide FromTransaction;
  }

  lemma {:induction false} TallyCounts(p: Pass, window: seq<string>, st: Stats)
    ensures Counts(p, window, st, Tally(p, window, st), |Records(p, window)|)
    decreases |window|
  {
    if window != [] {
      TallyCounts(p, window[1..], Counted(st, Judge(p, window[0])));
      FatesExact(p, window[0]);
      hide Meets, Judge;
    }
  }

  lemma {:induction false} EveryPlaceHasAFate(p: Pass, window: seq<string>)
    ensures |window| == Places(p, window, OnLedger) + Places(p, window, NotAskedFor) + Places(p, window, InCache)
                        + Places(p, window, Unread) + Places(p, window, NoPayment) + Places(p, window, Payment)
    decreases |window|
  {
    if window != [] {
      EveryPlaceHasAFate(p, window[1..]);
      FatesExact(p, window[0]);
      hide Meets, Judge;
    }
  }

  /** Each counter is the number of places of the window with that fate, and together they account for all of it. */
  lemma CountersExact(p: Pass, window: seq<string>)
    ensures var o := Collect(p, window); var st := o.stats;
            && Counts(p, window, Zero(|window|), st, |o.found|)
            && Zero(|window|) == Stats(|window|, 0, 0, 0, 0, 0, 0)
            && st.scanned == st.alreadyKnown + st.outsideOnly + st.cacheHits + st.unverifiable + st.notASettlement
                             + |o.found|
            && st.fetched == st.unverifiable + st.notASettlement + |o.found|
  {
    TallyCounts(p, window, Zero(|window|));
    ReverseAt(Records(p, window));
    EveryPlaceHasAFate(p, window);
    hide Places, Tally, Records, Reverse;
  }

  /** The last comes first. */
  lemma {:induction false} ReverseAt<T>(s: seq<T>)
    ensures |Reverse(s)| == |s| && forall k :: 0 <= k < |s| ==> Reverse(s)[k] == s[|s| - 1 - k]
  {
    if s != [] {
      ReverseAt(s[1..]);
    }
  }

  lemma {:induction false} RecordPlace(p: Pass, window: seq<string>, a: nat) returns (x: nat)
    requires a < |Records(p, window)|
    ensures x < |window| && Records(p, window)[a].signature == window[x]
    decreases |window|
  {
    var here := Judge(p, window[0]).Found?;
    if here {
      FromTransactionExact(p.answers(window[0]).value, window[0], p.merchant, p.mint);
    }
    if here && a == 0 {
      x := 0;
    } else {
      x := RecordPlace(p, window[1..], if here then a - 1 else a);
      x := x + 1;
    }
  }

  lemma {:induction false} RecordPlaces(p: Pass, window: seq<string>, a: nat, b: nat) returns (x: nat, y: nat)
    requires a < b < |Records(p, window)|
    ensures x < y < |window|
    ensures Records(p, window)[a].signature == window[x] && Records(p, window)[b].signature == window[y]
    decreases |window|
  {
    var here := Judge(p, window[0]).Found?;
    if here {
      FromTransactionExact(p.answers(window[0]).value, window[0], p.merchant, p.mint);
    }
    hide Judge;
    if here && a == 0 {
      y := RecordPlace(p, window[1..], b - 1);
      x, y := 0, y + 1;
    } else {
      x, y := RecordPlaces(p, window[1..], if here then a - 1 else a, if here then b - 1 else b);
      x, y := x + 1, y + 1;
    }
  }

  /** The window is newest first; what is found of it is oldest first. */
  lemma OldestFirst(p: Pass, window: seq<string>, i: nat, j: nat) returns (x: nat, y: nat)
    requires i < j < |Collect(p, window).found|
    ensures y < x < |window|
    ensures Collect(p, window).found[i].signature == window[x] && Collect(p, window).found[j].signature == window[y]
  {
    hide Records, Tally;
    ReverseAt(Records(p, window));
    var n := |Records(p, window)|;
    y, x := RecordPlaces(p, window, n - 1 - j, n - 1 - i);
  }

  /** A fate met somewhere is counted. */
  lemma {:induction false} MetIsCounted(p: Pass, window: seq<string>, s: string, fate: Fate)
    requires s in window && Meets(p, s, fate)
    ensures Places(p, window, fate) > 0
  {
    hide Meets;
    if window[0] != s {
      MetIsCounted(p, window[1..], s, fate);
    }
  }

  /**
   * A settlement not yet recorded is among the records found, or the counter of unverifiable transactions says that
   * something could not be read: the cache never hides one.
   */
  lemma NothingIsHidden(p: Pass, truth: Truth, window: seq<string>, s: string)
    requires Honest(p.answers, truth) && SoundCache(p.cached, truth, p.merchant, p.mint)
    requires s in window && s !in p.known && p.only.None? && Settles(truth, p.merchant, p.mint, s)
    ensures var o := Collect(p, window);
            o.stats.unverifiable > 0 || exists r :: r in o.found && r.signature == s
  {
    FromTransactionExact(truth(s), s, p.merchant, p.mint);
    CountersExact(p, window);
    FatesExact(p, s);
    hide Counts, Places;
    assert Collect(p, window).stats.unverifiable == Places(p, window, Unread) by { UnreadCounter(p, window); }
    if Judge(p, s).Found? {
      RecordsContain(p, window, s);
      ReverseKeepsElements(Records(p, window));
    } else {
      MetIsCounted(p, window, s, Unread);
    }
  }

  lemma UnreadCounter(p: Pass, window: seq<string>)
    ensures Collect(p, window).stats.unverifiable == Places(p, window, Unread)
  {
    CountersExact(p, window);
  }

  lemma RecordsContain(p: Pass, window: seq<string>, s: string)
    requires s in window && Judge(p, s).Found?
    ensures Judge(p, s).record in Records(p, window)
  {
    if s != window[0] {
      RecordsContain(p, window[1..], s);
    }
  }

  /** Every record found is a settlement, not yet known, inside `--only`, and in the window. */
  lemma {:induction false} RecordsAreSettlements(p: Pass, truth: Truth, window: seq<string>, r: Record)
    requires Honest(p.answers, truth) && r in Records(p, window)
    ensures r.signature in window && r.signature !in p.known && Judge(p, r.signature) == Found(r)
    ensures Settles(truth, p.merchant, p.mint, r.signature)
    ensures p.only.Some? ==> r.signature in p.only.value
    decreases |window|
  {
    var head := window[0];
    if Judge(p, head) == Found(r) {
      FromTransactionExact(p.answers(head).value, head, p.merchant, p.mint);
    } else {
      RecordsAreSettlements(p, truth, window[1..], r);
    }
  }

  /** New negatives are true negatives and lie in the window, so the cache stays sound and bounded. */
  lemma NegativesAreSound(p: Pass, truth: Truth, window: seq<string>)
    requires Honest(p.answers, truth) && SoundCache(p.cached, truth, p.merchant, p.mint)
    ensures SoundCache(Negatives(p, window), truth, p.merchant, p.mint)
    ensures forall s :: s in Negatives(p, window) ==> s in window
  {
  }

  // ---------------------------------------------------------------------------
  // The cache changes the work, not the result
  // ---------------------------------------------------------------------------

  /** Nothing the pass asked for went unanswered. */
  predicate Answered(p: Pass, window: seq<string>) {
    forall s :: s in window ==> !Judge(p, s).Unverifiable?
  }

  lemma {:induction false} CacheKeepsRecords(p: Pass, truth: Truth, window: seq<string>)
    requires Honest(p.answers, truth) && SoundCache(p.cached, truth, p.merchant, p.mint)
    ensures Records(p, window) == Records(p.(cached := {}), window)
    decreases |window|
  {
    if window != [] {
      CacheKeepsRecords(p, truth, window[1..]);
    }
  }

  lemma {:induction false} CacheSavesFetches(p: Pass, window: seq<string>, st: Stats, st': Stats)
    ensures var c, u := Tally(p, window, st), Tally(p.(cached := {}), window, st');
            && c.cacheHits >= st.cacheHits
            && u.fetched - st'.fetched == (c.fetched - st.fetched) + (c.cacheHits - st.cacheHits)
            && u.cacheHits == st'.cacheHits
    decreases |window|
  {
    if window != [] {
      var q := p.(cached := {});
      CacheSavesFetches(p, window[1..], Counted(st, Judge(p, window[0])), Counted(st', Judge(q, window[0])));
    }
  }

  /** With a sound cache the scan returns what the uncached scan returns, fetching fewer by exactly the hits. */
  lemma CachedScanRefinesUncached(p: Pass, truth: Truth, window: seq<string>)
    requires Honest(p.answers, truth) && SoundCache(p.cached, truth, p.merchant, p.mint)
    ensures var c, u := Collect(p, window), Collect(p.(cached := {}), window);
            && c.found == u.found
            && u.stats.fetched == c.stats.fetched + c.stats.cacheHits
            && SoundCache(c.negatives, truth, p.merchant, p.mint)
            && (forall s :: s in c.negatives ==> s in window)
  {
    CacheKeepsRecords(p, truth, window);
    CacheSavesFetches(p, window, Zero(|window|), Zero(|window|));
    NegativesAreSound(p, truth, window);
  }

  lemma {:induction false} NothingToFetch(p: Pass, window: seq<string>, st: Stats)
    requires forall s :: s in window ==> !Fetches(Judge(p, s))
    ensures Records(p, window) == [] && Tally(p, window, st).fetched == st.fetched
    decreases |window|
  {
    if window != [] {
      NothingToFetch(p, window[1..], Counted(st, Judge(p, window[0])));
    }
  }

  /** The signatures of a list of records. */
  function Signatures(records: seq<Record>): set<string> {
    set r | r in records :: r.signature
  }

  /**
   * After a fully answered pass whose settlements were recorded and negatives saved, the same window costs no
   * fetch, yields nothing new and saves the same cache, whatever the endpoint says then.
   */
  lemma SteadyState(p: Pass, truth: Truth, window: seq<string>, later: Answers)
    requires Honest(p.answers, truth) && Answered(p, window) && p.only.None?
    ensures var first := Collect(p, window);
            var again := p.(known := p.known + Signatures(first.found), cached := first.negatives, answers := later);
            && Collect(again, window).stats.fetched == 0
            && Collect(again, window).found == []
            && Collect(again, window).negatives == first.negatives
  {
    var first := Collect(p, window);
    var again := p.(known := p.known + Signatures(first.found), cached := first.negatives, answers := later);
    ReverseKeepsElements(Records(p, window));
    forall s | s in window
      ensures !Fetches(Judge(again, s)) && (IsNegative(Judge(again, s)) <==> IsNegative(Judge(p, s)))
    {
      if Judge(p, s).Found? {
        RecordsContain(p, window, s);
        FromTransactionExact(p.answers(s).value, s, p.merchant, p.mint);
        assert Judge(p, s).record in first.found;
      } else if s in Signatures(first.found) {
        var r :| r in first.found && r.signature == s;
        RecordsAreSettlements(p, truth, window, r);
      }
    }
    NothingToFetch(again, window, Zero(|window|));
    assert Negatives(again, window) == Negatives(p, window);
  }

  lemma ReverseKeepsElements<T>(s: seq<T>)
    ensures forall x :: x in Reverse(s) <==> x in s
  {
    if s != [] {
      ReverseKeepsElements(s[1..]);
      assert s == [s[0]] + s[1..];
    }
  }
}
