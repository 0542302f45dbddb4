/** Cursor walks over an account history that grows while it is being read, newest page first. */
module Paging {
  import opened Prelude

  const PAGE: nat := 1000
  const MAX_PAGES: nat := 20

  datatype Entry = Entry(signature: string, blockTime: Option<int>, failed: bool)

  /** Oldest first. */
  type History = seq<Entry>

  /** A request is served, answered with an error body that holds no result, or lost with an exception. */
  datatype Reply = Served | ErrorBody | Lost

  /** The endpoint over time: the history when request `k` arrives, and how that request fares. */
  datatype Net = Net(history: nat -> History, reply: nat -> Reply)

  predicate DistinctSignatures(h: History) {
    forall i, j :: 0 <= i < j < |h| ==> h[i].signature != h[j].signature
  }

  /** Entries are only ever added at the newest end, and none shares a signature with another. */
  ghost predicate Grows(net: Net) {
    && (forall k: nat :: DistinctSignatures(net.history(k)))
    && (forall k: nat :: net.history(0) <= net.history(k))
  }

  /** The `n` newest entries, newest first. */
  function Newest(h: History, n: nat): (r: seq<Entry>)
    requires n <= |h|
    ensures |r| == n
  {
    seq(n, i requires 0 <= i < n => h[|h| - 1 - i])
  }

  function Least(a: nat, b: nat): nat {
    if a <= b then a else b
  }

  /** How many entries precede the one with signature `s`. */
  function Position(h: History, s: string): (i: nat)
    ensures i <= |h|
  {
    if h == [] then 0 else if h[|h| - 1].signature == s then |h| - 1 else Position(h[..|h| - 1], s)
  }

  /** What `getSignaturesForAddress` serves: the newest page among the entries older than the cursor. */
  function Page(h: History, before: Option<string>): seq<Entry> {
    var older := if before.None? then |h| else Position(h, before.value);
    Newest(h[..older], Least(older, PAGE))
  }

  /** The cursor of a walk that has collected the newest `n` entries. */
  function Cursor(h: History, n: nat): Option<string>
    requires n <= |h|
  {
    if n == 0 then None else Some(h[|h| - n].signature)
  }

  lemma {:induction false} PositionOfEntry(h: History, j: nat)
    requires j < |h| && DistinctSignatures(h)
    ensures Position(h, h[j].signature) == j
    decreases |h|
  {
    if j < |h| - 1 {
      PositionOfEntry(h[..|h| - 1], j);
    }
  }

  /**
   * A cursor keeps its place while the history grows: whatever arrived since the first page, the next page is the
   * one that continues the block already collected.
   */
  lemma PageContinues(net: Net, k: nat, n: nat)
    requires Grows(net) && n <= |net.history(0)| && (n == 0 ==> k == 0)
    ensures var h := net.history(0);
            var page := Page(net.history(k), Cursor(h, n));
            && |page| == Least(|h| - n, PAGE)
            && Newest(h, n) + page == Newest(h, n + |page|)
            && Cursor(h, n + |page|) == if page == [] then Cursor(h, n) else Some(page[|page| - 1].signature)
  {
    hide Newest;
    var h, now := net.history(0), net.history(k);
    if n > 0 {
      assert h <= now && DistinctSignatures(now) && now[|h| - n] == h[|h| - n];
      PositionOfEntry(now, |h| - n);
    }
    assert now[..|h| - n] == h[..|h| - n];
    NewestContinues(h, n, Least(|h| - n, PAGE));
  }

  lemma NewestContinues(h: History, n: nat, m: nat)
    requires n + m <= |h|
    ensures Newest(h, n) + Newest(h[..|h| - n], m) == Newest(h, n + m)
    ensures m > 0 ==> Newest(h[..|h| - n], m)[m - 1] == h[|h| - n - m]
  {
  }

  /** No entry is collected twice. */
  lemma NewestIsDistinct(h: History, n: nat)
    requires n <= |h| && DistinctSignatures(h)
    ensures DistinctSignatures(Newest(h, n))
  {
  }

  // ---------------------------------------------------------------------------
  // The bounded walk behind the history line
  // ---------------------------------------------------------------------------

  /** The first request from `k` on that is not served, `n` if all before `n` are. */
  function FirstUnserved(net: Net, k: nat, n: nat): (u: nat)
    requires k <= n
    ensures k <= u <= n && (u < n ==> !net.reply(u).Served?) && forall j :: k <= j < u ==> net.reply(j).Served?
    decreases n - k
  {
    if k == n || !net.reply(k).Served? then k else FirstUnserved(net, k + 1, n)
  }

  datatype Collected = Collected(sigs: seq<Entry>, exhausted: bool)

  /** A lost request inside the walk ends the program. */
  predicate LosesARequest(net: Net, total: nat) {
    var u := FirstUnserved(net, 0, MAX_PAGES);
    u < MAX_PAGES && PAGE * u <= total && net.reply(u).Lost?
  }

  /** What the walk reports: nothing when a request is lost, or what was served before the first failure. */
  ghost predicate Reports(net: Net, r: Option<Collected>) {
    var h, u := net.history(0), FirstUnserved(net, 0, MAX_PAGES);
    && (r.None? <==> LosesARequest(net, |h|))
    && (r.Some? ==>
          && r.value.sigs == Newest(h, Least(|h|, PAGE * u))
          && (r.value.exhausted <==> |h| < PAGE * MAX_PAGES || u < MAX_PAGES))
  }

  /**
   * `main`'s page loop. What it collects is a contiguous, newest-first block of the history as of the first page,
   * whatever is appended meanwhile; a request answered with an error body is read as an empty page.
   */
  method Walk(net: Net) returns (r: Option<Collected>)
    requires Grows(net)
    ensures Reports(net, r)
  {
    hide Page, Newest, Cursor, DistinctSignatures, Position, Grows, FirstUnserved, LosesARequest;
    ghost var h := net.history(0);
    var sigs, before := [], None;
    WalkStart(h);
    for k := 0 to MAX_PAGES
      invariant PAGE * k <= |h| && sigs == Newest(h, PAGE * k)
      invariant before == Cursor(h, PAGE * k)
      invariant forall j :: 0 <= j < k ==> net.reply(j).Served?
    {
      WalkStops(net, k, |h|);
      if net.reply(k).Lost? {
        return None;
      }
      var batch := if net.reply(k).Served? then Page(net.history(k), before) else [];
      PageContinues(net, k, PAGE * k);
      if batch == [] {
        return Some(Collected(sigs, true));
      }
      sigs := sigs + batch;
      before := Some(batch[|batch| - 1].signature);
      if |batch| < PAGE {
        return Some(Collected(sigs, true));
      }
    }
    WalkStops(net, MAX_PAGES, |h|);
    return Some(Collected(sigs, false));
  }

  /** What the outcome is when the requests before `k` are served and request `k` is not, or the history ends. */
  lemma WalkStops(net: Net, k: nat, total: nat)
    requires k <= MAX_PAGES && PAGE * k <= total && forall j :: 0 <= j < k ==> net.reply(j).Served?
    ensures var u := FirstUnserved(net, 0, MAX_PAGES);
            && k <= u
            && (k < MAX_PAGES && !net.reply(k).Served? ==>
                 u == k && Least(total, PAGE * u) == PAGE * k && (LosesARequest(net, total) <==> net.reply(k).Lost?))
            && (k < MAX_PAGES && net.reply(k).Served? && total < PAGE * (k + 1) ==>
                 Least(total, PAGE * u) == total && !LosesARequest(net, total))
            && (k == MAX_PAGES ==> u == k && Least(total, PAGE * u) == PAGE * k && !LosesARequest(net, total))
  {
  }

  lemma WalkStart(h: History)
    ensures Newest(h, 0) == [] && Cursor(h, 0) == None
  {
  }

  /** With every request served, the walk reports min(total, 20000) entries, exhausted when there are fewer. */
  lemma ServedWalkIsComplete(net: Net, r: Option<Collected>)
    requires Reports(net, r) && forall k :: 0 <= k < MAX_PAGES ==> net.reply(k).Served?
    ensures var h := net.history(0);
            && r.Some? && r.value.sigs == Newest(h, Least(|h|, 20000))
            && (r.value.exhausted <==> |h| < 20000)
  {
  }

  // ---------------------------------------------------------------------------
  // The line printed for the walk
  // ---------------------------------------------------------------------------

  /** How a run of `main` ends: with an exception, with exit code 2, or with the line and exit code 0. */
  datatype Line = Raised | Unreachable | Printed(count: nat, failed: nat, capped: bool)

  function Failures(h: seq<Entry>): nat {
    if h == [] then 0 else Failures(h[..|h| - 1]) + if h[|h| - 1].failed then 1 else 0
  }

  /** How many entries have a block time the program takes for one: an absent time and 0 are both falsy. */
  function Timed(h: seq<Entry>): nat {
    if h == [] then 0
    else Timed(h[..|h| - 1]) + if h[|h| - 1].blockTime.None? || h[|h| - 1].blockTime == Some(0) then 0 else 1
  }

  predicate HasTime(e: Entry) {
    e.blockTime.Some? && e.blockTime.value != 0
  }

  lemma {:induction false} FailuresCount(h: seq<Entry>)
    ensures Failures(h) == |set i | 0 <= i < |h| && h[i].failed|
  {
    if h != [] {
      var n := |h| - 1;
      FailuresCount(h[..n]);
      hide Failures;
      var before := set i | 0 <= i < n && h[..n][i].failed;
      assert before == set i | 0 <= i < n && h[i].failed;
      assert (set i | 0 <= i < |h| && h[i].failed) == before + if h[n].failed then {n} else {};
      OneMoreEntry(h);
    }
  }

  lemma OneMoreEntry(h: seq<Entry>)
    requires h != []
    ensures Failures(h) == Failures(h[..|h| - 1]) + if h[|h| - 1].failed then 1 else 0
    ensures Timed(h) == Timed(h[..|h| - 1]) + if HasTime(h[|h| - 1]) then 1 else 0
  {
  }

  lemma {:induction false} TimedCount(h: seq<Entry>)
    ensures Timed(h) == |set i | 0 <= i < |h| && HasTime(h[i])|
  {
    if h != [] {
      var n := |h| - 1;
      TimedCount(h[..n]);
      hide Timed, HasTime;
      var before := set i | 0 <= i < n && HasTime(h[..n][i]);
      assert before == set i | 0 <= i < n && HasTime(h[i]);
      assert (set i | 0 <= i < |h| && HasTime(h[i])) == before + if HasTime(h[n]) then {n} else {};
      OneMoreEntry(h);
    }
  }

  /** Both figures count entries. */
  lemma FiguresCount(h: seq<Entry>)
    ensures Failures(h) == |set i | 0 <= i < |h| && h[i].failed|
    ensures Timed(h) == |set i | 0 <= i < |h| && h[i].blockTime.Some? && h[i].blockTime.value != 0|
  {
    hide Failures, Timed;
    FailuresCount(h);
    TimedCount(h);
    assert (set i | 0 <= i < |h| && HasTime(h[i])) ==
      set i | 0 <= i < |h| && h[i].blockTime.Some? && h[i].blockTime.value != 0;
  }

  /** The block collected before the first request that is not served. */
  function Shown(net: Net): seq<Entry> {
    var h := net.history(0);
    Newest(h, Least(|h|, PAGE * FirstUnserved(net, 0, MAX_PAGES)))
  }

  /** The gaps between block times need at least two of them: without, `times[0]` or `median` raises. */
  function LineOf(net: Net): Line {
    var h, u, sigs := net.history(0), FirstUnserved(net, 0, MAX_PAGES), Shown(net);
    if LosesARequest(net, |h|) then Raised
    else if sigs == [] then Unreachable
    else if Timed(sigs) < 2 then Raised
    else Printed(|sigs|, Failures(sigs), u == MAX_PAGES && PAGE * MAX_PAGES <= |h|)
  }

  /** `main`: an empty collection is reported as unreachable before any figure is worked out. */
  method HistoryLine(net: Net) returns (l: Line)
    requires Grows(net)
    ensures l == LineOf(net)
  {
    hide Newest, Grows, FirstUnserved, Failures, Timed, LosesARequest;
    var r := Walk(net);
    if r.None? {
      return Raised;
    }
    var Collected(sigs, exhausted) := r.value;
    if sigs == [] {
      return Unreachable;
    }
    if Timed(sigs) < 2 {
      return Raised;
    }
    return Printed(|sigs|, Failures(sigs), !exhausted);
  }

  lemma {:induction false} FailuresNewest(h: History, n: nat)
    requires n <= |h|
    ensures Failures(Newest(h, n)) + Failures(h[..|h| - n]) == Failures(h)
  {
    if n == 0 {
      assert h[..|h|] == h;
    } else {
      FailuresNewest(h, n - 1);
      assert Newest(h, n)[..n - 1] == Newest(h, n - 1);
      assert h[..|h| - (n - 1)][..|h| - n] == h[..|h| - n];
    }
  }

  lemma NoFailures(h: History)
    requires h == []
    ensures Failures(h) == 0
  {
  }

  /** A line without the suffix claims the whole history. */
  predicate ClaimIsTrue(l: Line, h: History) {
    l.Printed? && !l.capped ==> l.count == |h| && l.failed == Failures(h)
  }

  /**
   * A line printed without the suffix is true exactly when no error body stands between the first page and the
   * oldest entry, or nothing is printed all the same: the failed read was lost, was the first, or left fewer than
   * two block times. In every other case a failed read has been reported as the end of the history.
   */
  lemma LineIsTrueExactlyWhen(net: Net)
    ensures var h, u := net.history(0), FirstUnserved(net, 0, MAX_PAGES);
            ClaimIsTrue(LineOf(net), h) <==>
            || u == MAX_PAGES
            || |h| <= PAGE * u
            || net.reply(u).Lost?
            || u == 0
            || Timed(Newest(h, PAGE * u)) < 2
  {
    hide Newest, FirstUnserved, Failures, Timed;
    var h := net.history(0);
    FailuresNewest(h, |Shown(net)|);
    NoFailures(h[..0]);
  }

  /** 2000 entries and an error body for the second page: 1000 are printed as the whole history. */
  lemma ErrorBodyReadsAsTheEnd(net: Net)
    requires net.reply(0).Served? && net.reply(1).ErrorBody? && |net.history(0)| == 2000
    requires Timed(Newest(net.history(0), 1000)) >= 2
    ensures LineOf(net) == Printed(1000, Failures(Newest(net.history(0), 1000)), false)
  {
    hide Newest, Failures, Timed;
    assert FirstUnserved(net, 1, MAX_PAGES) == 1;
  }

  // ---------------------------------------------------------------------------
  // The unbounded walk behind the card's figures
  // ---------------------------------------------------------------------------

  datatype Figures = Figures(publishes: nat, failed: nat, days: int, stamp: string)

  /** The block time of the newest entry that has one. */
  function LatestTime(h: History): Option<int> {
    if h == [] then None
    else if h[|h| - 1].blockTime.Some? then h[|h| - 1].blockTime
    else LatestTime(h[..|h| - 1])
  }

  /** The newest entry that has a time gives it; without one there is none. */
  lemma {:induction false} LatestTimeExact(h: History, t: int)
    ensures LatestTime(h) == Some(t) <==>
              exists j :: 0 <= j < |h| && h[j].blockTime == Some(t)
                          && forall i :: j < i < |h| ==> h[i].blockTime.None?
  {
    if h != [] {
      var n := |h| - 1;
      LatestTimeExact(h[..n], t);
      assert forall i :: 0 <= i < n ==> h[..n][i] == h[i];
    }
  }

  /** `int(seconds / 86400)`: truncated toward zero. */
  function Days(seconds: int): int {
    if seconds >= 0 then seconds / 86400 else -((-seconds) / 86400)
  }

  /** The whole days that fit, counted away from zero. */
  lemma DaysExact(seconds: int, days: int)
    ensures days == Days(seconds) <==>
              if seconds >= 0 then days * 86400 <= seconds < (days + 1) * 86400
              else (days - 1) * 86400 < seconds <= days * 86400
  {
  }

  /** What a complete measurement of `h` writes. */
  function Measured(h: History, today: string): Figures
    requires h != [] && h[0].blockTime.Some? && LatestTime(h).Some?
  {
    Figures(|h|, Failures(h), Days(LatestTime(h).value - h[0].blockTime.value), "figures verified " + today)
  }

  /** What each figure is a figure of. */
  lemma MeasuredExact(h: History, today: string)
    requires h != [] && h[0].blockTime.Some? && LatestTime(h).Some?
    ensures var m := Measured(h, today);
            && m.publishes == |h| && m.failed == |set i | 0 <= i < |h| && h[i].failed|
            && m.days == Days(LatestTime(h).value - h[0].blockTime.value)
            && m.stamp == "figures verified " + today
  {
    FiguresCount(h);
    hide Failures;
  }

  /** An error body raises here, so every request the walk needs has to be served. */
  predicate Measurable(executable: bool, net: Net) {
    var h := net.history(0);
    && executable
    && (forall k :: 0 <= k <= |h| / PAGE ==> net.reply(k).Served?)
    && h != [] && h[0].blockTime.Some? && LatestTime(h).Some?
  }

  /** The running figures after the newest `total` entries. */
  ghost predicate Tallied(h: History, total: nat, failed: nat, newest: Option<int>, oldest: Option<int>) {
    && total <= |h|
    && failed + Failures(h[..|h| - total]) == Failures(h)
    && (if newest.Some? then newest == LatestTime(h) else LatestTime(h[..|h| - total]) == LatestTime(h))
    && oldest == if total == 0 then None else h[|h| - total].blockTime
  }

  lemma TallyOne(h: History, total: nat, failed: nat, newest: Option<int>, oldest: Option<int>)
    requires Tallied(h, total, failed, newest, oldest) && total < |h|
    ensures var s := h[|h| - total - 1];
            Tallied(h, total + 1, failed + (if s.failed then 1 else 0),
                    if newest.None? then s.blockTime else newest, s.blockTime)
  {
    var rest := h[..|h| - total];
    assert rest[..|rest| - 1] == h[..|h| - (total + 1)];
  }

  class Card {
    var figures: Figures

    constructor (initial: Figures)
      ensures figures == initial
    {
      figures := initial;
    }

    /**
     * `refresh`: either the whole history as of the first page is measured, or the figures stay as they were.
     * `executable` is whether the control read came back with an executable program.
     */
    method Refresh(executable: bool, net: Net, today: string) returns (measured: bool)
      requires Grows(net)
      modifies this
      ensures measured <==> Measurable(executable, net)
      ensures figures == if measured then Measured(net.history(0), today) else old(figures)
    {
      hide Page, Newest, Cursor, DistinctSignatures, Position, Grows, Tallied;
      if !executable {
        return false;
      }
      ghost var h := net.history(0);
      var total, failed, pages := 0, 0, 0;
      var before: Option<string>, oldest: Option<int>, newest: Option<int> := None, None, None;
      TallyStart(h);
      while true
        invariant total == PAGE * pages <= |h|
        invariant before == Cursor(h, total)
        invariant Tallied(h, total, failed, newest, oldest)
        invariant forall k :: 0 <= k < pages ==> net.reply(k).Served?
        invariant figures == old(figures)
        decreases |h| - total
      {
        if !net.reply(pages).Served? {
          return false;
        }
        var res := Page(net.history(pages), before);
        PageContinues(net, pages, total);
        pages := pages + 1;
        if res == [] {
          break;
        }
        ghost var seen: nat := total;
        assert forall i :: 0 <= i < |res| ==> res[i] == h[|h| - seen - i - 1] by { PageEntries(h, seen, res); }
        for i := 0 to |res|
          invariant total == seen + i && Tallied(h, total, failed, newest, oldest)
          invariant figures == old(figures)
        {
          TallyOne(h, total, failed, newest, oldest);
          var s := res[i];
          total := total + 1;
          if s.failed {
            failed := failed + 1;
          }
          if newest.None? {
            newest := s.blockTime;
          }
          oldest := s.blockTime;
        }
        before := Some(res[|res| - 1].signature);
        if |res| < PAGE {
          break;
        }
      }
      TallyEnd(h, failed, newest, oldest);
      if total == 0 || oldest.None? || newest.None? {
        return false;
      }
      figures := Figures(total, failed, Days(newest.value - oldest.value), "figures verified " + today);
      return true;
    }
  }

  lemma TallyStart(h: History)
    ensures Tallied(h, 0, 0, None, None) && Cursor(h, 0) == None
  {
    assert h[..|h|] == h;
  }

  lemma TallyEnd(h: History, failed: nat, newest: Option<int>, oldest: Option<int>)
    requires Tallied(h, |h|, failed, newest, oldest)
    ensures failed == Failures(h) && newest == LatestTime(h)
    ensures h != [] ==> oldest == h[0].blockTime
  {
    assert h[..|h| - |h|] == [];
  }

  lemma PageEntries(h: History, n: nat, page: seq<Entry>)
    requires n + |page| <= |h| && Newest(h, n) + page == Newest(h, n + |page|)
    ensures forall i :: 0 <= i < |page| ==> page[i] == h[|h| - n - i - 1]
  {
    forall i | 0 <= i < |page|
      ensures page[i] == h[|h| - n - i - 1]
    {
      assert page[i] == (Newest(h, n) + page)[n + i];
    }
  }
}
