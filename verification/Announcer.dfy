/** The ledger and cache files, and what one run of `confirm_settlements.py` does to them. */
module Announcer {
  import opened Prelude
  import opened Settlement
  import opened Scan
  import Base58

  // ---------------------------------------------------------------------------
  // The files
  // ---------------------------------------------------------------------------

  /** A ledger line; `signature` is None when the record has none or it is no string. */
  datatype Line = Blank | Unparseable | Json(signature: Option<string>)

  predicate Usable(line: Line) {
    line.Json? && line.signature.Some? && IsSignature(line.signature.value)
  }

  function Known(lines: seq<Line>): set<string> {
    set l | l in lines && Usable(l) :: l.signature.value
  }

  datatype LedgerStats = LedgerStats(lines: nat, usable: nat, unparseable: nat, noSignature: nat)

  function CountLines(lines: seq<Line>, st: LedgerStats): LedgerStats
    decreases |lines|
  {
    if lines == [] then st
    else
      var l := lines[0];
      CountLines(lines[1..],
        if l.Blank? then st
        else if l.Unparseable? then st.(lines := st.lines + 1, unparseable := st.unparseable + 1)
        else if Usable(l) then st.(lines := st.lines + 1, usable := st.usable + 1)
        else st.(lines := st.lines + 1, noSignature := st.noSignature + 1))
  }

  /** Every line that is not blank is counted once as usable, unparseable or without a signature. */
  lemma {:induction false} LinesAreAccountedFor(lines: seq<Line>, st: LedgerStats)
    requires st.lines == st.usable + st.unparseable + st.noSignature
    ensures var out := CountLines(lines, st); out.lines == out.usable + out.unparseable + out.noSignature
    decreases |lines|
  {
    if lines != [] {
      var l := lines[0];
      LinesAreAccountedFor(lines[1..],
        if l.Blank? then st
        else if l.Unparseable? then st.(lines := st.lines + 1, unparseable := st.unparseable + 1)
        else if Usable(l) then st.(lines := st.lines + 1, usable := st.usable + 1)
        else st.(lines := st.lines + 1, noSignature := st.noSignature + 1));
    }
  }

  /** The cache file, whose list is written sorted and read as a set; an entry is None when it is no string. */
  datatype CacheFile = Missing | Malformed | Entries(entries: set<Option<string>>)

  /** What `load_cache` returns: every failure is the empty set. */
  function Cached(file: CacheFile): set<string> {
    if file.Entries? then set e | e in file.entries && e.Some? && IsSignature(e.value) :: e.value else {}
  }

  /** What `save_cache` writes. */
  function CacheOf(signatures: set<string>): CacheFile {
    Entries(set s | s in signatures :: Some(s))
  }

  function LineFor(r: Record): Line {
    Json(Some(r.signature))
  }

  function LinesFor(records: seq<Record>): (lines: seq<Line>)
    ensures |lines| == |records| && forall k :: 0 <= k < |records| ==> lines[k] == LineFor(records[k])
  {
    seq(|records|, k requires 0 <= k < |records| => LineFor(records[k]))
  }

  // ---------------------------------------------------------------------------
  // One run
  // ---------------------------------------------------------------------------

  datatype Args = Args(limit: int, dryRun: bool, seed: bool, noCache: bool, only: Option<seq<string>>)

  /** What the endpoint says during one run, and whether the cache file can be written. */
  datatype Endpoint = Endpoint(window: Option<seq<string>>, answers: Answers, cacheWritable: bool)

  datatype Files = Files(ledger: seq<Line>, cache: CacheFile)

  datatype Effects = Effects(files: Files, printed: seq<Record>, exit: int)

  predicate BadUsage(args: Args) {
    || args.limit < 1
    || (args.dryRun && args.seed)
    || (args.only.Some? && exists k :: 0 <= k < |args.only.value| && !IsSignature(args.only.value[k]))
  }

  /** A commit pass and an uncached run leave the cache alone. */
  predicate UsesCache(args: Args) {
    !args.noCache && args.only.None?
  }

  function OnlySet(args: Args): Option<set<string>> {
    match args.only
    case None => None
    case Some(list) => Some(set s | s in list)
  }

  function PassOf(files: Files, args: Args, net: Endpoint, merchant: string, mint: string): Pass {
    Pass(merchant, mint, Known(files.ledger), OnlySet(args),
         if UsesCache(args) then Cached(files.cache) else {}, net.answers)
  }

  /** What `main` leaves behind. */
  function RunMain(files: Files, args: Args, net: Endpoint, merchant: string, mint: string): Effects {
    if BadUsage(args) then Effects(files, [], 1)
    else if net.window.None? then Effects(files, [], 2)
    else
      var o := Collect(PassOf(files, args, net, merchant, mint), net.window.value);
      var cache := if UsesCache(args) && net.cacheWritable then CacheOf(o.negatives) else files.cache;
      if args.seed then Effects(Files(files.ledger + LinesFor(o.found), cache), [], 0)
      else if args.dryRun then Effects(Files(files.ledger, cache), o.found, 0)
      else Effects(Files(files.ledger + LinesFor(o.found), cache), o.found, 0)
  }

  /** What a run leaves, prints and returns, case by case. */
  lemma RunExact(files: Files, args: Args, net: Endpoint, merchant: string, mint: string)
    ensures var e := RunMain(files, args, net, merchant, mint);
            var unusable := args.limit < 1 || (args.dryRun && args.seed)
              || (args.only.Some? && exists s :: s in args.only.value && !(86 <= |s| <= 88 && Base58.Valid(s)));
            && (unusable ==> e == Effects(files, [], 1))
            && (!unusable && net.window.None? ==> e == Effects(files, [], 2))
            && (!unusable && net.window.Some? ==>
                  var uncached := args.noCache || args.only.Some?;
                  var p := Pass(merchant, mint, Known(files.ledger),
                                if args.only.Some? then Some(set s | s in args.only.value) else None,
                                if uncached then {} else Cached(files.cache), net.answers);
                  var o := Collect(p, net.window.value);
                  && e.exit == 0
                  && e.printed == (if args.seed then [] else o.found)
                  && e.files.ledger == (if args.dryRun then files.ledger else files.ledger + LinesFor(o.found))
                  && (uncached || !net.cacheWritable ==> e.files.cache == files.cache)
                  && (!uncached && net.cacheWritable ==>
                        && e.files.cache.Entries?
                        && forall s :: Some(s) in e.files.cache.entries <==> s in o.negatives))
  {
    hide Collect, Cached, Base58.Valid;
    if args.only.Some? {
      forall k | 0 <= k < |args.only.value|
        ensures args.only.value[k] in args.only.value
      {
      }
    }
  }

  /** A signature is known exactly when some line holds it and it has the form of a signature. */
  lemma KnownExact(lines: seq<Line>, s: string)
    ensures s in Known(lines) <==> Json(Some(s)) in lines && 86 <= |s| <= 88 && Base58.Valid(s)
  {
    hide Base58.Valid;
  }

  /** The four sorts of line: skipped, broken, unsigned, usable. */
  datatype Sort = Empty | Broken | NoSignature | Signed

  predicate IsSort(line: Line, sort: Sort) {
    match sort
    case Empty => line == Blank
    case Broken => line == Unparseable
    case NoSignature => line.Json? && (line.signature.Some? ==> line.signature.value !in Known([line]))
    case Signed => line.Json? && line.signature.Some? && line.signature.value in Known([line])
  }

  function HowMany(lines: seq<Line>, sort: Sort): nat {
    if lines == [] then 0 else HowMany(lines[1..], sort) + if IsSort(lines[0], sort) then 1 else 0
  }

  /** Each figure about the ledger is the number of its lines of that sort. */
  lemma {:induction false} LineCountsExact(lines: seq<Line>, st: LedgerStats)
    ensures var out := CountLines(lines, st);
            && out.usable == st.usable + HowMany(lines, Signed)
            && out.unparseable == st.unparseable + HowMany(lines, Broken)
            && out.noSignature == st.noSignature + HowMany(lines, NoSignature)
            && out.lines == st.lines + |lines| - HowMany(lines, Empty)
    decreases |lines|
  {
    if lines != [] {
      var l := lines[0];
      if l.Json? && l.signature.Some? {
        KnownExact([l], l.signature.value);
      }
      hide Known, IsSignature;
      LineCountsExact(lines[1..],
        if l.Blank? then st
        else if l.Unparseable? then st.(lines := st.lines + 1, unparseable := st.unparseable + 1)
        else if Usable(l) then st.(lines := st.lines + 1, usable := st.usable + 1)
        else st.(lines := st.lines + 1, noSignature := st.noSignature + 1));
    }
  }

  /** The files on disk that a run reads and rewrites. */
  class Disk {
    var ledger: seq<Line>
    var cache: CacheFile

    constructor (files: Files)
      ensures Contents() == files
    {
      ledger, cache := files.ledger, files.cache;
    }

    function Contents(): Files
      reads this
    {
      Files(ledger, cache)
    }

    method LoadLedger() returns (known: set<string>, stats: LedgerStats)
      ensures known == Known(ledger)
      ensures stats == CountLines(ledger, LedgerStats(0, 0, 0, 0))
      ensures stats.lines == stats.usable + stats.unparseable + stats.noSignature
    {
      known, stats := {}, LedgerStats(0, 0, 0, 0);
      for k := 0 to |ledger|
        invariant known == Known(ledger[..k])
        invariant CountLines(ledger[k..], stats) == CountLines(ledger, LedgerStats(0, 0, 0, 0))
        invariant stats.lines == stats.usable + stats.unparseable + stats.noSignature
      {
        var line := ledger[k];
        assert ledger[k..][1..] == ledger[k + 1..];
        assert ledger[..k + 1] == ledger[..k] + [line];
        if line.Blank? {
          continue;
        }
        stats := stats.(lines := stats.lines + 1);
        if line.Unparseable? {
          stats := stats.(unparseable := stats.unparseable + 1);
          continue;
        }
        if Usable(line) {
          known := known + {line.signature.value};
          stats := stats.(usable := stats.usable + 1);
        } else {
          stats := stats.(noSignature := stats.noSignature + 1);
        }
      }
      assert ledger[..|ledger|] == ledger;
    }

    method AppendRecords(records: seq<Record>)
      modifies this`ledger
      ensures ledger == old(ledger) + LinesFor(records)
    {
      for k := 0 to |records|
        invariant ledger == old(ledger) + LinesFor(records)[..k]
      {
        ledger := ledger + [LineFor(records[k])];
      }
      assert LinesFor(records)[..|records|] == LinesFor(records);
    }

    /** A write that fails is swallowed: the file stays as it was. */
    method SaveCache(signatures: set<string>, writable: bool)
      modifies this`cache
      ensures cache == if writable then CacheOf(signatures) else old(cache)
    {
      if writable {
        cache := CacheOf(signatures);
      }
    }

    method ScanAndRecord(args: Args, net: Endpoint, merchant: string, mint: string)
      returns (printed: seq<Record>, exit: int)
      modifies this
      ensures Effects(Contents(), printed, exit) == RunMain(old(Contents()), args, net, merchant, mint)
    {
      if BadUsage(args) {
        return [], 1;
      }
      var known, _ := LoadLedger();
      var cached := if UsesCache(args) then Cached(cache) else {};
      if net.window.None? {
        return [], 2;
      }
      var pass := Pass(merchant, mint, known, OnlySet(args), cached, net.answers);
      var o := CollectSettlements(pass, net.window.value);
      if UsesCache(args) {
        SaveCache(o.negatives, net.cacheWritable);
      }
      if args.seed {
        AppendRecords(o.found);
        return [], 0;
      }
      if args.dryRun {
        return o.found, 0;
      }
      if o.found != [] {
        AppendRecords(o.found);
      }
      return o.found, 0;
    }
  }
}
