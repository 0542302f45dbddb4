/** The serializer: `_rebuild`'s key table, header and body, proved against the strict parser. */
module Rebuild {
  import opened Prelude
  import opened Message
  import ShortVec

  // ---------------------------------------------------------------------------
  // The key table
  // ---------------------------------------------------------------------------

  /** Writable signers, read-only signers, writable non-signers, read-only non-signers. */
  datatype Slot = WritableSigner | ReadonlySigner | WritableOther | ReadonlyOther

  function SlotFor(signer: bool, writable: bool): Slot {
    if signer then if writable then WritableSigner else ReadonlySigner
    else if writable then WritableOther else ReadonlyOther
  }

  datatype Buckets = Buckets(ws: seq<Key>, rs: seq<Key>, wo: seq<Key>, ro: seq<Key>) {
    function Keys(): seq<Key> {
      ws + rs + wo + ro
    }

    predicate Has(a: Key) {
      a in ws || a in rs || a in wo || a in ro
    }

    function SlotOf(a: Key): Slot {
      if a in ws then WritableSigner else if a in rs then ReadonlySigner
      else if a in wo then WritableOther else ReadonlyOther
    }

    function Append(a: Key, slot: Slot): Buckets {
      match slot
      case WritableSigner => this.(ws := ws + [a])
      case ReadonlySigner => this.(rs := rs + [a])
      case WritableOther => this.(wo := wo + [a])
      case ReadonlyOther => this.(ro := ro + [a])
    }

    function Place(a: Key, slot: Slot): Buckets {
      if Has(a) then this else Append(a, slot)
    }

    /** No key sits in the table twice. */
    predicate Partition() {
      Distinct(Keys())
    }
  }

  const EMPTY := Buckets([], [], [], [])

  /** One mention of a key, in the order the table is filled. */
  datatype Mention = Mention(key: Key, slot: Slot, asProgram: bool)

  function Min(a: nat, b: nat): nat {
    if a <= b then a else b
  }

  /** `zip` stops at the shortest of the three lists. */
  function Zipped(ix: Instruction): (n: nat)
    ensures n <= |ix.accounts| && n <= |ix.signer| && n <= |ix.writable|
  {
    Min(|ix.accounts|, Min(|ix.signer|, |ix.writable|))
  }

  function MentionsOf(ix: Instruction): seq<Mention> {
    seq(Zipped(ix), j requires 0 <= j < Zipped(ix) =>
      Mention(ix.accounts[j], SlotFor(ix.signer[j], ix.writable[j]), false)) +
    [Mention(ix.program, ReadonlyOther, true)]
  }

  function Mentions(ixs: seq<Instruction>): seq<Mention> {
    if ixs == [] then [] else MentionsOf(ixs[0]) + Mentions(ixs[1..])
  }

  function PlaceAll(table: Buckets, ms: seq<Mention>): Buckets
    decreases |ms|
  {
    if ms == [] then table else PlaceAll(table.Place(ms[0].key, ms[0].slot), ms[1..])
  }

  function Table(ixs: seq<Instruction>): Buckets {
    PlaceAll(EMPTY, Mentions(ixs))
  }

  // ---------------------------------------------------------------------------
  // The bytes
  // ---------------------------------------------------------------------------

  /** `bytes` and `bytearray.append` refuse values over 255, and `list.index` a key that was never placed. */
  datatype RebuildError = ValueError | Unparsable(cause: ParseError)

  predicate Placed(keys: seq<Key>, ix: Instruction) {
    ix.program in keys && forall j :: 0 <= j < |ix.accounts| ==> ix.accounts[j] in keys
  }

  function RawOf(keys: seq<Key>, ix: Instruction): (raw: RawInstruction)
    requires |keys| <= 256 && Placed(keys, ix)
    ensures |raw.accounts| == |ix.accounts|
  {
    var n := |ix.accounts|;
    RawInstruction(
      IndexOf(keys, ix.program),
      seq(n, j requires 0 <= j < n => IndexOf(keys, ix.accounts[j]) as byte),
      ix.data)
  }

  predicate AllPlaced(keys: seq<Key>, ixs: seq<Instruction>) {
    forall k :: 0 <= k < |ixs| ==> Placed(keys, ixs[k])
  }

  function RawsOf(keys: seq<Key>, ixs: seq<Instruction>): (raws: seq<RawInstruction>)
    requires |keys| <= 256 && AllPlaced(keys, ixs)
    ensures |raws| == |ixs| && forall k :: 0 <= k < |ixs| ==> raws[k] == RawOf(keys, ixs[k])
  {
    seq(|ixs|, k requires 0 <= k < |ixs| => RawOf(keys, ixs[k]))
  }

  /** Whether every count and index fits the byte it is written to. */
  predicate Representable(ixs: seq<Instruction>) {
    var t := Table(ixs);
    && |t.Keys()| <= 256
    && |t.ws| + |t.rs| <= 255 && |t.ro| <= 255
    && AllPlaced(t.Keys(), ixs)
  }

  function WireOf(ixs: seq<Instruction>, v0: bool): Wire
    requires Representable(ixs)
  {
    var t := Table(ixs);
    Wire(v0, |t.ws| + |t.rs|, |t.rs|, |t.ro|, t.Keys(), ZeroHash(), RawsOf(t.Keys(), ixs))
  }

  function RebuildMessage(ixs: seq<Instruction>, v0: bool): Result<Bytes, RebuildError> {
    if Representable(ixs) then Ok(Serialize(WireOf(ixs, v0))) else Err(ValueError)
  }

  /** One empty signature slot in front. */
  function Unsigned(msg: Bytes): Bytes {
    [1] + seq(64, _ => 0) + msg
  }

  lemma UnsignedCarriesMessage(msg: Bytes)
    ensures MessageOf(Unsigned(msg)) == Ok(msg)
  {
  }

  // ---------------------------------------------------------------------------
  // What the table says about a key
  // ---------------------------------------------------------------------------

  lemma KeysAreTheBuckets(t: Buckets, a: Key)
    ensures a in t.Keys() <==> t.Has(a)
  {
  }

  lemma InsertKeepsDistinct(front: seq<Key>, back: seq<Key>, a: Key)
    requires Distinct(front + back) && a !in front + back
    ensures Distinct(front + [a] + back)
  {
    var before, after := front + back, front + [a] + back;
    forall i, j | 0 <= i < j < |after|
      ensures after[i] != after[j]
    {
      var i', j' := if i < |front| then i else i - 1, if j < |front| then j else j - 1;
      if i == |front| {
        assert after[j] == before[j'] && before[j'] in before;
      } else if j == |front| {
        assert after[i] == before[i'] && before[i'] in before;
      } else {
        assert after[i] == before[i'] && after[j] == before[j'];
      }
    }
  }

  lemma {:induction false} AppendKeepsPartition(t: Buckets, a: Key, slot: Slot)
    requires t.Partition() && !t.Has(a)
    ensures t.Append(a, slot).Partition()
  {
    var front, back := if slot.WritableSigner? then t.ws else if slot.ReadonlySigner? then t.ws + t.rs
                       else if slot.WritableOther? then t.ws + t.rs + t.wo else t.Keys(),
                       if slot.WritableSigner? then t.rs + t.wo + t.ro else if slot.ReadonlySigner? then t.wo + t.ro
                       else if slot.WritableOther? then t.ro else [];
    assert t.Keys() == front + back;
    KeysAreTheBuckets(t, a);
    assert t.Append(a, slot).Keys() == front + [a] + back;
    InsertKeepsDistinct(front, back, a);
  }

  /** The slot of the first mention of a key, if any. */
  function FirstSlot(ms: seq<Mention>, a: Key): Option<Slot> {
    if ms == [] then None else if ms[0].key == a then Some(ms[0].slot) else FirstSlot(ms[1..], a)
  }

  /** Filling the table keeps it a partition; a key sits where it was first mentioned. */
  lemma {:induction false} PlaceAllByFirstMention(t: Buckets, ms: seq<Mention>, a: Key)
    requires t.Partition()
    ensures var out := PlaceAll(t, ms);
            && out.Partition()
            && (out.Has(a) <==> t.Has(a) || FirstSlot(ms, a).Some?)
            && (t.Has(a) ==> out.SlotOf(a) == t.SlotOf(a))
            && (!t.Has(a) && FirstSlot(ms, a).Some? ==> out.SlotOf(a) == FirstSlot(ms, a).value)
    decreases |ms|
  {
    if ms != [] {
      var m := ms[0];
      var next := t.Place(m.key, m.slot);
      if !t.Has(m.key) {
        AppendKeepsPartition(t, m.key, m.slot);
      }
      PlaceMovesOne(t, m, a);
      PlaceAllByFirstMention(next, ms[1..], a);
    }
  }

  lemma PlaceMovesOne(t: Buckets, m: Mention, a: Key)
    ensures var next := t.Place(m.key, m.slot);
            && (next.Has(a) <==> t.Has(a) || a == m.key)
            && (t.Has(a) ==> next.SlotOf(a) == t.SlotOf(a))
            && (!t.Has(a) && a == m.key ==> next.SlotOf(a) == m.slot)
  {
  }

  lemma FirstSlotExists(ms: seq<Mention>, q: nat)
    requires q < |ms|
    ensures FirstSlot(ms, ms[q].key).Some?
  {
    if ms[0].key != ms[q].key {
      FirstSlotExists(ms[1..], q - 1);
    }
  }

  /** A key's position in the table is in the range its slot stands for, which is what the header counts say. */
  lemma SlotByPosition(t: Buckets, a: Key)
    requires t.Partition() && t.Has(a)
    ensures a in t.Keys()
    ensures var i := IndexOf(t.Keys(), a);
            && (i < |t.ws| <==> t.SlotOf(a) == WritableSigner)
            && (|t.ws| <= i < |t.ws| + |t.rs| <==> t.SlotOf(a) == ReadonlySigner)
            && (|t.ws| + |t.rs| <= i < |t.ws| + |t.rs| + |t.wo| <==> t.SlotOf(a) == WritableOther)
            && (|t.ws| + |t.rs| + |t.wo| <= i <==> t.SlotOf(a) == ReadonlyOther)
  {
    KeysAreTheBuckets(t, a);
    var keys := t.Keys();
    var at := match t.SlotOf(a)
      case WritableSigner => IndexOf(t.ws, a)
      case ReadonlySigner => |t.ws| + IndexOf(t.rs, a)
      case WritableOther => |t.ws| + |t.rs| + IndexOf(t.wo, a)
      case ReadonlyOther => |t.ws| + |t.rs| + |t.wo| + IndexOf(t.ro, a);
    assert keys[at] == a;
    assert at == IndexOf(keys, a);
  }

  // ---------------------------------------------------------------------------
  // The round trip
  // ---------------------------------------------------------------------------

  /** Every account mention of a key carries the flags of the key's first mention. */
  predicate ConsistentMentions(first: seq<Mention>, ix: Instruction) {
    forall j :: 0 <= j < Zipped(ix) ==> FirstSlot(first, ix.accounts[j]) == Some(SlotFor(ix.signer[j], ix.writable[j]))
  }

  /** A caller's check: flags agree per key, a key first mentioned as a program counting as a read-only non-signer. */
  predicate Consistent(ixs: seq<Instruction>) {
    forall k :: 0 <= k < |ixs| ==> Shaped(ixs[k]) && ConsistentMentions(Mentions(ixs), ixs[k])
  }

  /** The limits of the format: what the parser will read back at all. */
  predicate WithinLimits(ixs: seq<Instruction>, v0: bool) {
    && 0 < |ixs| <= MAX_INSTRUCTIONS
    && Representable(ixs)
    && (v0 || |Table(ixs).ws| + |Table(ixs).rs| < 128)
    && forall k :: 0 <= k < |ixs| ==> |ixs[k].accounts| < ShortVec.LIMIT && |ixs[k].data| < ShortVec.LIMIT
  }

  predicate Mentioned(ixs: seq<Instruction>, a: Key) {
    FirstSlot(Mentions(ixs), a).Some?
  }

  lemma MentionsInclude(ixs: seq<Instruction>, k: nat)
    requires k < |ixs|
    ensures Mentioned(ixs, ixs[k].program)
    ensures forall j :: 0 <= j < Zipped(ixs[k]) ==> Mentioned(ixs, ixs[k].accounts[j])
  {
    var head: seq<Mention>, tail: seq<Mention> := MentionsOf(ixs[0]), Mentions(ixs[1..]);
    if k == 0 {
      assert (head + tail)[|head| - 1].key == ixs[0].program;
      FirstSlotExists(head + tail, |head| - 1);
      forall j | 0 <= j < Zipped(ixs[0])
        ensures FirstSlot(head + tail, ixs[0].accounts[j]).Some?
      {
        assert (head + tail)[j].key == ixs[0].accounts[j];
        FirstSlotExists(head + tail, j);
      }
    } else {
      MentionsInclude(ixs[1..], k - 1);
      FirstSlotInTail(head, tail, ixs[k].program);
      forall j | 0 <= j < Zipped(ixs[k])
        ensures FirstSlot(head + tail, ixs[k].accounts[j]).Some?
      {
        FirstSlotInTail(head, tail, ixs[k].accounts[j]);
      }
    }
  }

  lemma FirstSlotInTail(head: seq<Mention>, tail: seq<Mention>, a: Key)
    requires FirstSlot(tail, a).Some?
    ensures FirstSlot(head + tail, a).Some?
  {
    if head == [] {
      assert head + tail == tail;
    } else {
      assert (head + tail)[1..] == head[1..] + tail;
      FirstSlotInTail(head[1..], tail, a);
    }
  }

  lemma WireIsValid(ixs: seq<Instruction>, v0: bool)
    requires WithinLimits(ixs, v0)
    ensures Valid(WireOf(ixs, v0))
  {
    MentionsInclude(ixs, 0);
    var t := Table(ixs);
    assert EMPTY.Keys() == [];
    PlaceAllByFirstMention(EMPTY, Mentions(ixs), ixs[0].program);
    KeysAreTheBuckets(t, ixs[0].program);
    var w := WireOf(ixs, v0);
    forall k | 0 <= k < |ixs|
      ensures ValidInstruction(w.instructions[k], |w.keys|)
    {
    }
  }

  /** Reading back one instruction gives the same program, accounts and data, and the flags of each key's slot. */
  lemma ResolvedInstruction(ixs: seq<Instruction>, v0: bool, k: nat)
    requires WithinLimits(ixs, v0) && k < |ixs|
    ensures var w := WireOf(ixs, v0);
            && ValidInstruction(w.instructions[k], |w.keys|)
            && var r := ResolveInstruction(w, w.instructions[k]);
            && r.program == ixs[k].program && r.accounts == ixs[k].accounts && r.data == ixs[k].data
            && (r == ixs[k] <==> Shaped(ixs[k]) && ConsistentMentions(Mentions(ixs), ixs[k]))
  {
    WireIsValid(ixs, v0);
    var w, t, ix := WireOf(ixs, v0), Table(ixs), ixs[k];
    var r := ResolveInstruction(w, w.instructions[k]);
    assert r.accounts == ix.accounts;
    forall j | 0 <= j < |ix.accounts|
      ensures FirstSlot(Mentions(ixs), ix.accounts[j]) == Some(SlotFor(r.signer[j], r.writable[j]))
    {
      FlagsAreTheSlot(ixs, v0, ix.accounts[j]);
    }
    if Shaped(ix) && ConsistentMentions(Mentions(ixs), ix) {
      assert r.signer == ix.signer && r.writable == ix.writable;
    }
  }

  lemma FlagsAreTheSlot(ixs: seq<Instruction>, v0: bool, a: Key)
    requires WithinLimits(ixs, v0) && a in Table(ixs).Keys()
    ensures var w := WireOf(ixs, v0);
            var i := IndexOf(w.keys, a);
            FirstSlot(Mentions(ixs), a) == Some(SlotFor(w.Signer(i), w.Writable(i)))
  {
    var t := Table(ixs);
    assert EMPTY.Keys() == [];
    PlaceAllByFirstMention(EMPTY, Mentions(ixs), a);
    KeysAreTheBuckets(t, a);
    SlotByPosition(t, a);
  }

  /** The same programs, accounts and data in the same order. */
  predicate SameCalls(a: seq<Instruction>, b: seq<Instruction>) {
    && |a| == |b|
    && forall k :: 0 <= k < |a| ==>
      a[k].program == b[k].program && a[k].accounts == b[k].accounts && a[k].data == b[k].data
  }

  /**
   * The serialized instruction list parses back, legacy or v0, with the same programs, accounts and data in
   * order; the flags come back too exactly when the list is consistent.
   */
  lemma RoundTrip(ixs: seq<Instruction>, v0: bool)
    requires WithinLimits(ixs, v0)
    ensures RebuildMessage(ixs, v0).Ok? && Parse(RebuildMessage(ixs, v0).value).Ok?
    ensures var parsed := Parse(RebuildMessage(ixs, v0).value).value;
            && parsed.versioned == v0
            && SameCalls(parsed.instructions, ixs)
            && (parsed.instructions == ixs <==> Consistent(ixs))
  {
    WireIsValid(ixs, v0);
    var w := WireOf(ixs, v0);
    ParseExact(Serialize(w), w);
    var out := ResolveInstructions(w, w.instructions);
    forall k | 0 <= k < |ixs|
      ensures out[k].program == ixs[k].program && out[k].accounts == ixs[k].accounts && out[k].data == ixs[k].data
      ensures out[k] == ixs[k] <==> Shaped(ixs[k]) && ConsistentMentions(Mentions(ixs), ixs[k])
    {
      ResolvedInstruction(ixs, v0, k);
    }
    assert (forall k :: 0 <= k < |ixs| ==> out[k] == ixs[k]) <==> out == ixs;
  }

  /** One slot per key, with every key used as a program a read-only non-signer. */
  predicate FlagsFollow(ixs: seq<Instruction>, slots: Key -> Slot) {
    forall k :: 0 <= k < |ixs| ==>
      && Shaped(ixs[k])
      && slots(ixs[k].program) == ReadonlyOther
      && forall j :: 0 <= j < |ixs[k].accounts| ==>
           slots(ixs[k].accounts[j]) == SlotFor(ixs[k].signer[j], ixs[k].writable[j])
  }

  /** Flags that depend on the key alone, programs read-only, always come back. */
  lemma FlagsPerKeySuffice(ixs: seq<Instruction>, slots: Key -> Slot)
    requires FlagsFollow(ixs, slots)
    ensures Consistent(ixs)
  {
    forall k, j | 0 <= k < |ixs| && 0 <= j < Zipped(ixs[k])
      ensures FirstSlot(Mentions(ixs), ixs[k].accounts[j]) == Some(SlotFor(ixs[k].signer[j], ixs[k].writable[j]))
    {
      MentionsInclude(ixs, k);
      assert Mentioned(ixs, ixs[k].accounts[j]);
      FirstSlotFollows(ixs, slots, ixs[k].accounts[j]);
    }
  }

  lemma FirstSlotFollows(ixs: seq<Instruction>, slots: Key -> Slot, a: Key)
    requires FlagsFollow(ixs, slots) && Mentioned(ixs, a)
    ensures FirstSlot(Mentions(ixs), a) == Some(slots(a))
  {
    var head: seq<Mention>, tail: seq<Mention> := MentionsOf(ixs[0]), Mentions(ixs[1..]);
    if FirstSlot(head, a).Some? {
      FirstSlotOfHead(head, tail, a, slots);
    } else {
      FirstSlotSkips(head, tail, a);
      FirstSlotFollows(ixs[1..], slots, a);
    }
  }

  lemma FirstSlotOfHead(head: seq<Mention>, tail: seq<Mention>, a: Key, slots: Key -> Slot)
    requires FirstSlot(head, a).Some?
    requires forall q :: 0 <= q < |head| ==> head[q].slot == slots(head[q].key)
    ensures FirstSlot(head + tail, a) == Some(slots(a))
  {
    assert (head + tail)[0] == head[0];
    if head[0].key != a {
      assert (head + tail)[1..] == head[1..] + tail;
      FirstSlotOfHead(head[1..], tail, a, slots);
    }
  }

  /** A call of a program without accounts, then the same key as a writable account of itself. */
  function ProgramFirst(x: Key): seq<Instruction> {
    [Instruction(x, [], [], [], []), Instruction(x, [x], [false], [true], [])]
  }

  lemma ProgramFirstMentions(x: Key)
    ensures Mentions(ProgramFirst(x)) ==
              [Mention(x, ReadonlyOther, true), Mention(x, WritableOther, false), Mention(x, ReadonlyOther, true)]
  {
    var ixs := ProgramFirst(x);
    assert MentionsOf(ixs[0]) == [Mention(x, ReadonlyOther, true)];
    assert MentionsOf(ixs[1]) == [Mention(x, WritableOther, false), Mention(x, ReadonlyOther, true)];
    assert ixs[1..] == [ixs[1]] && ixs[1..][1..] == [];
    assert Mentions(ixs[1..]) == MentionsOf(ixs[1]) + Mentions(ixs[1..][1..]);
  }

  lemma ProgramFirstTable(x: Key)
    ensures Table(ProgramFirst(x)) == Buckets([], [], [], [x])
  {
    ProgramFirstMentions(x);
    var ms := Mentions(ProgramFirst(x));
    var t := Buckets([], [], [], [x]);
    assert EMPTY.Place(ms[0].key, ms[0].slot) == t && t.Has(x);
    assert ms[1..][0] == ms[1] && ms[1..][1..] == [ms[2]];
    assert PlaceAll(t, [ms[2]]) == PlaceAll(t, [ms[2]][1..]) == t;
    assert PlaceAll(t, ms[1..]) == t;
  }

  lemma ProgramFirstIsInconsistent(x: Key)
    ensures !Consistent(ProgramFirst(x))
  {
    var ixs := ProgramFirst(x);
    ProgramFirstMentions(x);
    assert Zipped(ixs[1]) == 1;
    assert FirstSlot(Mentions(ixs), ixs[1].accounts[0]) == Some(ReadonlyOther);
    hide Mentions;
    assert !ConsistentMentions(Mentions(ixs), ixs[1]);
  }

  lemma ProgramFirstIsWithinLimits(x: Key, v0: bool)
    ensures WithinLimits(ProgramFirst(x), v0)
  {
    ProgramFirstTable(x);
    assert Buckets([], [], [], [x]).Keys() == [x];
    hide Table;
  }

  /**
   * Consistency of the account flags alone is not enough: a key seen first as a program is placed as a read-only
   * non-signer. The list is well within the format's limits, and a later writable mention is read back read-only.
   */
  lemma ProgramFirstLosesItsFlag(x: Key, v0: bool)
    ensures WithinLimits(ProgramFirst(x), v0) && !Consistent(ProgramFirst(x))
    ensures RebuildMessage(ProgramFirst(x), v0).Ok? && Parse(RebuildMessage(ProgramFirst(x), v0).value).Ok?
    ensures Parse(RebuildMessage(ProgramFirst(x), v0).value).value.instructions != ProgramFirst(x)
  {
    hide Parse, RebuildMessage, Consistent, WithinLimits, ProgramFirst;
    ProgramFirstIsInconsistent(x);
    ProgramFirstIsWithinLimits(x, v0);
    RoundTrip(ProgramFirst(x), v0);
  }

  // ---------------------------------------------------------------------------
  // The serializer as it runs
  // ---------------------------------------------------------------------------

  lemma PlaceAllAppend(table: Buckets, ms: seq<Mention>, more: seq<Mention>)
    ensures PlaceAll(table, ms + more) == PlaceAll(PlaceAll(table, ms), more)
    decreases |ms|
  {
    if ms == [] {
      assert ms + more == more;
    } else {
      assert (ms + more)[1..] == ms[1..] + more;
      PlaceAllAppend(table.Place(ms[0].key, ms[0].slot), ms[1..], more);
    }
  }

  method PlaceInstruction(table: Buckets, ix: Instruction) returns (out: Buckets)
    ensures out == PlaceAll(table, MentionsOf(ix))
  {
    out := table;
    ghost var ms := MentionsOf(ix);
    for j := 0 to Zipped(ix)
      invariant PlaceAll(out, ms[j..]) == PlaceAll(table, ms)
    {
      assert ms[j..][1..] == ms[j + 1..];
      out := out.Place(ix.accounts[j], SlotFor(ix.signer[j], ix.writable[j]));
    }
    assert ms[Zipped(ix)..] == [Mention(ix.program, ReadonlyOther, true)];
    out := out.Place(ix.program, ReadonlyOther);
  }

  method FillTable(ixs: seq<Instruction>) returns (table: Buckets)
    ensures table == Table(ixs)
  {
    table := EMPTY;
    for k := 0 to |ixs|
      invariant PlaceAll(table, Mentions(ixs[k..])) == Table(ixs)
    {
      assert ixs[k..][1..] == ixs[k + 1..];
      PlaceAllAppend(table, MentionsOf(ixs[k]), Mentions(ixs[k + 1..]));
      table := PlaceInstruction(table, ixs[k]);
    }
  }

  /** `raw` spells `ix` by positions in the table. */
  predicate Spells(keys: seq<Key>, ix: Instruction, raw: RawInstruction) {
    && Placed(keys, ix)
    && raw.program == IndexOf(keys, ix.program)
    && |raw.accounts| == |ix.accounts|
    && (forall j :: 0 <= j < |ix.accounts| ==> raw.accounts[j] == IndexOf(keys, ix.accounts[j]))
    && raw.data == ix.data
  }

  method IndexAccounts(keys: seq<Key>, accounts: seq<Key>) returns (out: Option<Bytes>)
    ensures out.Some? ==> |out.value| == |accounts| && forall j :: 0 <= j < |accounts| ==>
      accounts[j] in keys && out.value[j] == IndexOf(keys, accounts[j])
    ensures out.None? ==> exists j :: 0 <= j < |accounts| && (accounts[j] in keys ==> IndexOf(keys, accounts[j]) > 255)
  {
    var indexes: Bytes := [];
    for j := 0 to |accounts|
      invariant |indexes| == j
      invariant forall i :: 0 <= i < j ==> accounts[i] in keys && indexes[i] == IndexOf(keys, accounts[i])
    {
      if accounts[j] !in keys || IndexOf(keys, accounts[j]) > 255 {
        return None;
      }
      indexes := indexes + [IndexOf(keys, accounts[j])];
    }
    out := Some(indexes);
  }

  method WriteInstruction(keys: seq<Key>, ix: Instruction) returns (out: Option<Bytes>, ghost raw: RawInstruction)
    ensures out.Some? ==> Spells(keys, ix, raw) && out.value == SerializeInstruction(raw)
    ensures out.None? ==> !Placed(keys, ix) || |keys| > 256
  {
    raw := RawInstruction(0, [], []);
    if ix.program !in keys || IndexOf(keys, ix.program) > 255 {
      return None, raw;
    }
    var program: byte := IndexOf(keys, ix.program);
    var indexes := IndexAccounts(keys, ix.accounts);
    if indexes.None? {
      return None, raw;
    }
    var nAccounts := ShortVec.Write(|ix.accounts|);
    var nData := ShortVec.Write(|ix.data|);
    raw := RawInstruction(program, indexes.value, ix.data);
    out := Some([program] + (nAccounts + (indexes.value + (nData + ix.data))));
  }

  method WriteBody(keys: seq<Key>, ixs: seq<Instruction>) returns (body: Option<Bytes>, ghost raws: seq<RawInstruction>)
    ensures body.Some? ==>
      && |raws| == |ixs| && (forall k :: 0 <= k < |ixs| ==> Spells(keys, ixs[k], raws[k]))
      && body.value == SerializeInstructions(raws)
    ensures body.None? ==> !AllPlaced(keys, ixs) || |keys| > 256
  {
    hide SerializeInstruction;
    var out: Bytes := [];
    raws := [];
    for k := 0 to |ixs|
      invariant |raws| == k && (forall m :: 0 <= m < k ==> Spells(keys, ixs[m], raws[m]))
      invariant out == SerializeInstructions(raws)
    {
      var one, raw := WriteInstruction(keys, ixs[k]);
      if one.None? {
        return None, raws;
      }
      SerializeInstructionsAppend(raws, raw);
      out, raws := out + one.value, raws + [raw];
    }
    body := Some(out);
  }

  predicate Uses(ix: Instruction, a: Key) {
    ix.program == a || exists j :: 0 <= j < |ix.accounts| && ix.accounts[j] == a
  }

  lemma MentionedIsUsed(ixs: seq<Instruction>, a: Key) returns (k: nat)
    requires Mentioned(ixs, a)
    ensures k < |ixs| && Uses(ixs[k], a)
  {
    var head: seq<Mention>, tail: seq<Mention> := MentionsOf(ixs[0]), Mentions(ixs[1..]);
    if FirstSlot(head, a).Some? {
      var q := FirstMention(head, a);
      assert q < |head| - 1 ==> head[q].key == ixs[0].accounts[q];
      k := 0;
    } else {
      FirstSlotSkips(head, tail, a);
      k := MentionedIsUsed(ixs[1..], a);
      k := k + 1;
    }
  }

  lemma FirstMention(ms: seq<Mention>, a: Key) returns (q: nat)
    requires FirstSlot(ms, a).Some?
    ensures q < |ms| && ms[q].key == a
  {
    if ms[0].key == a {
      q := 0;
    } else {
      q := FirstMention(ms[1..], a);
      q := q + 1;
    }
  }

  lemma FirstSlotSkips(head: seq<Mention>, tail: seq<Mention>, a: Key)
    requires FirstSlot(head, a).None?
    ensures FirstSlot(head + tail, a) == FirstSlot(tail, a)
  {
    if head == [] {
      assert head + tail == tail;
    } else {
      assert (head + tail)[1..] == head[1..] + tail;
      FirstSlotSkips(head[1..], tail, a);
    }
  }

  /** A table too long for one-byte indexes always has a key whose index some instruction must write. */
  lemma LongTableIsUnwritable(ixs: seq<Instruction>, raws: seq<RawInstruction>)
    requires |raws| == |ixs| && forall k :: 0 <= k < |ixs| ==> Spells(Table(ixs).Keys(), ixs[k], raws[k])
    ensures |Table(ixs).Keys()| <= 256
  {
    var keys := Table(ixs).Keys();
    if |keys| > 256 {
      var a := keys[256];
      assert EMPTY.Keys() == [];
      PlaceAllByFirstMention(EMPTY, Mentions(ixs), a);
      KeysAreTheBuckets(Table(ixs), a);
      assert IndexOf(keys, a) == 256;
      var k := MentionedIsUsed(ixs, a);
      assert false;
    }
  }

  lemma SpelledAreRaws(keys: seq<Key>, ixs: seq<Instruction>, raws: seq<RawInstruction>)
    requires |keys| <= 256
    requires |raws| == |ixs| && forall k :: 0 <= k < |ixs| ==> Spells(keys, ixs[k], raws[k])
    ensures AllPlaced(keys, ixs) && raws == RawsOf(keys, ixs)
  {
    forall k | 0 <= k < |ixs|
      ensures Placed(keys, ixs[k]) && raws[k] == RawOf(keys, ixs[k])
    {
      assert raws[k].accounts == RawOf(keys, ixs[k]).accounts;
    }
  }

  /** The pieces in order are the serialization of the list's message. */
  lemma PiecesAreTheBody(ixs: seq<Instruction>, v0: bool, header: Bytes)
    requires Representable(ixs)
    requires var t := Table(ixs); header == [|t.ws| + |t.rs|, |t.rs|, |t.ro|]
    ensures var w := WireOf(ixs, v0);
            header + (ShortVec.Encode(|w.keys|) + (SerializeKeys(w.keys) + (ZeroHash() + (ShortVec.Encode(|ixs|) +
              (SerializeInstructions(w.instructions) + Tail(v0)))))) == SerializeBody(w, Tail(v0))
  {
    hide Representable, Table, RawsOf;
  }

  lemma TailAsWritten(v0: bool)
    ensures Tail(v0) == if v0 then ShortVec.Encode(0) else []
  {
  }

  method WriteMessage(ixs: seq<Instruction>, v0: bool) returns (r: Result<Bytes, RebuildError>)
    ensures r == RebuildMessage(ixs, v0)
  {
    hide SerializeInstruction, SerializeInstructions, SerializeKeys, SerializeBody, ShortVec.Encode, Table, Spells,
      RawsOf, AllPlaced, ZeroHash;
    var t := FillTable(ixs);
    var keys := t.Keys();
    var body, raws := WriteBody(keys, ixs);
    if body.None? || |t.ws| + |t.rs| > 255 || |t.rs| > 255 || |t.ro| > 255 {
      return Err(ValueError);
    }
    LongTableIsUnwritable(ixs, raws);
    SpelledAreRaws(keys, ixs, raws);
    var nKeys := ShortVec.Write(|keys|);
    var nIxs := ShortVec.Write(|ixs|);
    var tail := [];
    if v0 {
      tail := ShortVec.Write(0);
    }
    TailAsWritten(v0);
    var table := WriteKeys(keys);
    var header: Bytes := [|t.ws| + |t.rs|, |t.rs|, |t.ro|];
    PiecesAreTheBody(ixs, v0, header);
    var out := header + (nKeys + (table + (ZeroHash() + (nIxs + (body.value + tail)))));
    r := Ok(if v0 then [0x80] + out else out);
  }

  /** `_rebuild`: parse, change the instruction list, serialize again behind one empty signature. */
  function RebuildTransaction(tx: Bytes, mutate: seq<Instruction> -> seq<Instruction>, asV0: bool)
    : Result<Bytes, RebuildError>
  {
    match MessageOf(tx)
    case Err(e) => Err(Unparsable(e))
    case Ok(msg) =>
      match Parse(msg)
      case Err(e) => Err(Unparsable(e))
      case Ok(p) =>
        var out :- RebuildMessage(mutate(p.instructions), asV0 || p.versioned);
        Ok(Unsigned(out))
  }

  /** Serializing any mutation of a parsed transaction parses back to that mutation exactly when it is consistent. */
  lemma RebuildTransactionParses(tx: Bytes, mutate: seq<Instruction> -> seq<Instruction>, asV0: bool)
    requires MessageOf(tx).Ok? && Parse(MessageOf(tx).value).Ok?
    requires var p := Parse(MessageOf(tx).value).value;
             WithinLimits(mutate(p.instructions), asV0 || p.versioned)
    ensures RebuildTransaction(tx, mutate, asV0).Ok?
    ensures var p := Parse(MessageOf(tx).value).value;
            var rebuilt := RebuildTransaction(tx, mutate, asV0).value;
            && |rebuilt| > 65 && rebuilt[0] == 1 && (forall i :: 1 <= i < 65 ==> rebuilt[i] == 0)
            && MessageOf(rebuilt).Ok? && Parse(MessageOf(rebuilt).value).Ok?
            && (Parse(MessageOf(rebuilt).value).value.instructions == mutate(p.instructions)
                <==> Consistent(mutate(p.instructions)))
  {
    var p := Parse(MessageOf(tx).value).value;
    var ixs, v0 := mutate(p.instructions), asV0 || p.versioned;
    hide Parse, RebuildMessage;
    RoundTrip(ixs, v0);
    UnsignedCarriesMessage(RebuildMessage(ixs, v0).value);
  }
}
