# Payments, settlements and deployments: a verified model

A Dafny model of the parts of the repository on which money, receipts or the integrity of a deployment depend, with
proofs of what each part promises. `dafny verify dfyconfig.toml` checks all of it.

**The payment certifier** (`scripts/certify_x402_payment_tx.py`) decides from bytes alone whether a Solana transaction
is the one configured payment.

- `Base58`, `ShortVec`, `Message`: the codecs and the strict message parser. `Message.ParseWire` accepts a byte string
  as `w` if and only if `w` is a valid message and the bytes are its one serialization.
- `MessageParser`, `CertifierRun`: the parser and the certifier as cursor-moving and state-updating loops, proved equal
  to those definitions.
- `Rebuild`: the serializer with its four-bucket key table. What it writes parses back with the same programs,
  accounts and data, and with the same flags if and only if the instruction list is consistent.
- `ModArith`, `Curve`, `Address`: Fermat's theorem, the quadratic character of 2, the on-curve test, and the search for
  a program-derived address.
- `Programs`, `Certifier`, `Conformance`: the decision, and `Conforms`, a statement about the instruction list as a
  whole that holds exactly of what is certified.
- `Configured`: the same said against the configuration strings and the bytes alone, with the slots, offsets and limits
  written out: `CertifiedExactlyWhen` uses none of the certifier's own functions.
- `Effect`: an abstract executor over token accounts of many mints and two token programs, and what a certified
  transaction does to every balance in it.

**The publish certifier and broadcaster** (`scripts/certify_publish_tx.py`, `scripts/broadcast_certified.py`):
`PublishParser`, `PublishParserRun`, `Publish`. A lenient parser that agrees with the strict one wherever the strict one
accepts, and a signer that signs exactly what was certified.

**The settlement announcer** (`demo/confirm_settlements.py`): `Settlement`, `Scan`, `Announcer` (the ledger and cache
as the fields of a `Disk`), and `Runs`, a state machine in which payments land, scans run, messages are sent, commits
and seeds happen and the cache is lost, in any order and against an endpoint that may fail to answer.

**The deployment triangle** (`deploy/make_invariants.py`, `deploy/sync_workspace.py`, `deploy/box_selfcheck.py`):
`DeployMap`, `Manifest`, `Sync`, `Deployed`, `SelfCheck`, `Triangle`. The generator dry-runs the checker, the synchroniser copies
with backups while other processes may write, and the three agree. `Patterns` writes out the patterns and path questions
the three ask, for ASCII, and `DroppedScan` is one checkout worked through with them.

**Two smaller loops**: `Paging` (`demo/chain_history.py`, `scripts/build-social-card.py`), cursor walks over a history
that grows while it is read, and `Evidence` (`scripts/capture-proof-bundle.py`), the bundle that must not lose captured
bytes.

## Where the code and its description differ

- `_read_shortvec` calls itself a compact-u16 reader (`scripts/certify_x402_payment_tx.py:220-239`); it accepts every
  minimal encoding of up to three bytes, so every value below 2^21. `ShortVec.ReadStrictExact` states that range.
- `_rebuild` (`scripts/certify_x402_payment_tx.py:740-791`) puts a key where it is first mentioned. A list whose account
  flags agree per key still loses a flag when the key is first seen as a program
  (`Rebuild.ProgramFirstLosesItsFlag`); `Rebuild.RoundTrip` has the exact condition.
- `demo/chain_history.py:84-98` reads a JSON-RPC error body as an empty page, that is, as the end of the history. When it
  answers the first request nothing was collected and the program honestly says that the feed is unreachable
  (`demo/chain_history.py:100-102`). When it comes later, the line that is printed passes the part read so far off as the
  whole, so the claim that the line can only go honestly red (`demo/chain_history.py:12-18`) does not hold
  (`Paging.ErrorBodyReadsAsTheEnd`). `Paging.LineIsTrueExactlyWhen` says when what is printed is true. The card's walk
  raises on such a body and does not have the gap.
- `make_invariants.py` guards an empty prose scan but not an empty mint scan (`deploy/make_invariants.py:654-662`): a
  manifest whose mint targets were all dropped is emitted (`DroppedScan.EmptyMintScanIsEmitted`), and its mint check is
  red on every box unless a denylist target is declared and clean (`Triangle.DroppedMintScan`). That is why
  `Triangle.GeneratorAgreesWithChecker` says that without declared targets the mint check passes exactly when the mint
  scan is not empty.
- A binary blessed at a mapped path replaces the mapped file's hash. A perfect deployment stays green exactly when no
  such replacement changes a hash (`Triangle.GreenExactlyWhenMapUnchanged`).
- A commit is not idempotent against an unreliable endpoint: its replay appends what the first attempt could not verify
  (`Runs.ReplayAppendsTheRest`, `Runs.UnansweredCommitIsNotIdempotent`).
- A mapped file that is gone from the checkout is skipped by every comparison (`deploy/sync_workspace.py:110-111`). With
  `--allow-dirty` a run over a deleted tracked file is therefore marked, and prints that all mapped files match
  (`deploy/sync_workspace.py:537-539`), whatever is at that file's destination: `Sync.Matches` asks nothing of a job
  whose source is gone.
- A declared scan target whose policy consists of blanks is refused, although one without a policy is taken for
  "allowlist": the default is chosen before the blanks are stripped (`Manifest.Policy`).
- The version check does not see the `-dirty` suffix that `--allow-dirty` records: beside a clean manifest it reads as
  agreeing (`Triangle.RecordedVersionAgrees`).

## Hypotheses

- 2^255 - 19 is prime (`ModArith.Prime(Curve.P)`), where the on-curve test is related to the curve. That its remainder
  modulo 8 is 5 and that 2 to the power (p-1)/2 is -1 modulo p are proved, not assumed.
- SHA-256 and ed25519 signing are parameters. Hashing is taken to be injective only on the files at hand, and only where
  a statement goes from equal hashes to equal bytes (`Sync.NoCollision`).
- A transaction signature on the chain is 86 to 88 base58 characters, the only ones the ledger and the cache recognise.
- A finalized transaction does not change, so any answer about it is the chain's (`Scan.Honest`).

## Model

| member | source | states |
|---|---|---|
| Base58.DecodeInvertsEncode | scripts/certify_x402_payment_tx.py:142-169 | decoding an encoded byte string gives it back, for every byte string, leading and all zeros included |
| Base58.EncodeInvertsDecode | scripts/certify_x402_payment_tx.py:142-169 | encoding what a string over the alphabet names gives the string back |
| Base58.DecodedInjective | scripts/certify_x402_payment_tx.py:142-160 | two different strings never name the same bytes, so pinning a string pins a key |
| Base58.ToBytesIsCanonical | scripts/certify_x402_payment_tx.py:148 | sizing the buffer by bit length gives the base-256 numeral with no leading zero and nothing cut off |
| Base58.DecodeStrict | scripts/certify_x402_payment_tx.py:142-150 | the digit loop refuses at the first character outside the alphabet and otherwise returns the bytes the string names |
| Base58.DecodeLenient | scripts/certify_publish_tx.py:42-48 | the other module's decoder agrees on every valid string and refuses the rest with its own error |
| Base58.EncodeByDivision | scripts/certify_x402_payment_tx.py:163-169 | the repeated-division loop computes the encoding whose inverse is the decoder |
| Base58.AlphabetInOrder | scripts/certify_x402_payment_tx.py:121 | the digits are the 58 characters of the alphabet in its order |
| Base58.DecodeKeyExact | scripts/certify_x402_payment_tx.py:153-160 | a configured key is accepted if and only if the string is over the alphabet and names 32 bytes |
| Base58.LittleEndianReversed | scripts/certify_x402_payment_tx.py:628 | a little-endian number is the big-endian numeral of the bytes in reverse |
| ShortVec.ReadStrictExact | scripts/certify_x402_payment_tx.py:220-239 | the strict reader returns a value and a rest if and only if the value is below 2^21 and the input is its minimal encoding followed by the rest |
| ShortVec.ReadStrictAt | scripts/certify_x402_payment_tx.py:220-239 | the three-turn loop with its running value and shift is that reader, errors included |
| ShortVec.Write | scripts/certify_x402_payment_tx.py:730-737 | the writing loop produces the encoding both readers invert |
| ShortVec.ReadLenientInverts | scripts/certify_publish_tx.py:61-72 | the unbounded reader inverts the writer for every natural number |
| ShortVec.LenientExtendsStrict | scripts/certify_publish_tx.py:61-72 | wherever the strict reader succeeds the lenient one reads the same |
| ShortVec.ReadLenientAt | scripts/certify_publish_tx.py:61-72 | the unbounded loop is the lenient reader, from any start index |
| Message.ParseExact | scripts/certify_x402_payment_tx.py:250-348 | a byte string is accepted as w if and only if w is a valid message and the bytes are its serialization: each byte consumed once, no second spelling |
| Message.ParseInjective | scripts/certify_x402_payment_tx.py:250-348 | accepted messages that agree in version, header, keys, blockhash and index-form instructions are the same bytes |
| Message.VersionIndependence | scripts/certify_x402_payment_tx.py:262-348 | 0x80, an accepted legacy message and 0x00 parse to the same keys, flags and instructions |
| Message.ParsedIsShaped | scripts/certify_x402_payment_tx.py:322-330 | every parsed instruction carries one signer and one writable flag per account |
| Message.MessageOfExact | scripts/certify_x402_payment_tx.py:351-362 | the message is m if and only if the transaction is a count below 128, that many 64-byte signatures, and m |
| MessageParser.ParseMessage | scripts/certify_x402_payment_tx.py:250-348 | the parser as it runs never reads out of range and returns exactly what the definition says, refusals included |
| MessageParser.InstructionsAt | scripts/certify_x402_payment_tx.py:305-330 | the instruction loop reads the given number of instructions and resolves their indexes to keys and flags |
| MessageParser.KeysAt | scripts/certify_x402_payment_tx.py:287-290 | the key loop reads consecutive 32-byte keys or stops truncated |
| MessageParser.TakeAt | scripts/certify_x402_payment_tx.py:242-247 | a take returns the next n bytes and the cursor after them, or is truncated |
| Rebuild.RoundTrip | scripts/certify_x402_payment_tx.py:740-791 | within the format's limits the serialized list parses back, legacy or v0, to the same programs, accounts and data in order, and to the same flags if and only if the list is consistent |
| Rebuild.FlagsPerKeySuffice | scripts/certify_x402_payment_tx.py:758-766 | flags that depend on the key alone, programs read-only and not signing, are always consistent |
| Rebuild.ProgramFirstLosesItsFlag | scripts/certify_x402_payment_tx.py:758-766 | a list within the limits in which a key is first a program and then a writable account is not consistent, and does not come back |
| Rebuild.PlaceAllByFirstMention | scripts/certify_x402_payment_tx.py:758-766 | filling the four buckets keeps every key in one place only, in the bucket of its first mention |
| Rebuild.SlotByPosition | scripts/certify_x402_payment_tx.py:767-770 | a key's index falls in the range its bucket's header counts describe |
| Rebuild.FillTable | scripts/certify_x402_payment_tx.py:758-766 | the nested loops over instructions and accounts fill that table |
| Rebuild.WriteMessage | scripts/certify_x402_payment_tx.py:758-791 | the serializer writes exactly those bytes, and fails exactly when a count or an index does not fit its byte or a key was never placed |
| Rebuild.RebuildTransactionParses | scripts/certify_x402_payment_tx.py:740-791 | re-serializing a mutation of a parsed transaction behind one empty signature parses back to that mutation exactly when it is consistent |
| ModArith.Fermat | scripts/certify_x402_payment_tx.py:187 | a power of p-1 is 1 modulo a prime, which makes the source's inverse by a power an inverse |
| ModArith.TwoIsNonResidue | scripts/certify_x402_payment_tx.py:190 | modulo a prime that leaves 5 modulo 8, 2 to the power (p-1)/2 is -1, so the correction factor squares to -1 |
| Curve.HasPointExact | scripts/certify_x402_payment_tx.py:181-191 | over any suitable prime and d other than -1 the test says yes if and only if some x satisfies the curve equation, zero numerator and denominator included |
| Curve.OnCurveExact | scripts/certify_x402_payment_tx.py:172-191 | 32 bytes are reported on the curve if and only if their low 255 bits, unreduced, are the y of a solution of -x^2 + y^2 = 1 - (121665/121666) x^2 y^2 modulo 2^255 - 19 |
| Curve.DIsNotMinusOne | scripts/certify_x402_payment_tx.py:124 | the d of the source is not -1, so a zero denominator never has a point |
| Address.FindExact | scripts/certify_x402_payment_tx.py:194-205 | the derived address is the hash of the seeds, the bump, the program and the marker under the highest bump whose hash is no point of the curve; refusal happens only when all 256 hashes are points |
| Address.FindProgramAddress | scripts/certify_x402_payment_tx.py:194-205 | the countdown loop, hashing the seeds piece by piece, is that search |
| Address.AtaExact | scripts/certify_x402_payment_tx.py:208-212 | the token account is the hash of wallet, token program, mint, bump, program and marker, concatenated in that order, under the highest bump the on-curve test rejects |
| Address.MarkerSpells | scripts/certify_x402_payment_tx.py:125 | the marker spells ProgramDerivedAddress |
| Programs.AllDistinct | scripts/certify_x402_payment_tx.py:61-70 | the seven program ids, the System program's among them, are seven different keys |
| Programs.SpelledIsKey | scripts/certify_x402_payment_tx.py:64-70 | each base58 spelling decodes to 32 bytes that are not the System program's |
| Programs.KindExact | scripts/certify_x402_payment_tx.py:487-518 | each role belongs to exactly one program id, so the order of the comparisons does not matter |
| Certifier.Instructions | scripts/certify_x402_payment_tx.py:477 | whatever instruction list the certifier reads has one flag of each kind per account, so its slots can be read by position |
| CertifierRun.CheckInstructions | scripts/certify_x402_payment_tx.py:481-518 | the loop with its fee state returns the state after the last instruction or the first refusal |
| CertifierRun.CheckSpend | scripts/certify_x402_payment_tx.py:550-670 | the checks on the spend and its company return the first refusal in the source's order |
| CertifierRun.CertifyTransaction | scripts/certify_x402_payment_tx.py:412-681 | the certifier as it runs ends with the verdict or the first refusal for every byte string and configuration; which those are is `Configured.CertifiedExactlyWhen` |
| Conformance.CertifyExact | scripts/certify_x402_payment_tx.py:412-681 | certified if and only if the configuration can be read, the bytes parse, and the list conforms to the policy read: one pinned transferFixed, the one authorised nonce advance and the one exact memo when configured, otherwise only conforming instructions, within the limits |
| Configured.SetupExact | scripts/certify_x402_payment_tx.py:440-475 | the configuration is read as a policy if and only if every string given spells a key, exactly one of receiver and token account is given, and each field of the policy is what its own string spells; ceilings and memo are taken over |
| Configured.CertifiedExactlyWhen | scripts/certify_x402_payment_tx.py:412-681 | against configuration and bytes alone: certified if and only if the configuration can be read, the bytes parse, and exactly one instruction of the allowance program is a transferFixed with the configured delegation, receiver account, mint, token program and delegator in their slots and payload, signed, writable and at most the configured amount, beside exactly the configured nonce advance and memo, limits and prices whose fee never passes the ceiling, and creations of the receiver account; and then that amount, account and fee are reported |
| Configured.FeeExact | scripts/certify_x402_payment_tx.py:403-409 | the fee after any prefix is the floor of a millionth of limit times price, each the last one set or its default |
| Conformance.CertifyReports | scripts/certify_x402_payment_tx.py:672-681 | the verdict reports the spend's amount and the fee of the last limit and price set |
| Conformance.CheckAllExact | scripts/certify_x402_payment_tx.py:389-409 | the running fee check passes if and only if every instruction passes, and ends with the last values set, whatever their order |
| Conformance.FeeNeverPassesCeiling | scripts/certify_x402_payment_tx.py:403-409 | after any prefix of a certified list the fee is at most a non-negative ceiling |
| Conformance.JudgeExact | scripts/certify_x402_payment_tx.py:478-670 | the decision on an instruction list accepts if and only if the list conforms |
| Conformance.CompletePaymentConforms | scripts/certify_x402_payment_tx.py:412-681 | an authorised advance, a pinned spend and the exact memo conform, under every policy with a nonce and a memo |
| Conformance.CompletePaymentIsAccepted | scripts/certify_x402_payment_tx.py:672-681 | such a list is accepted with the spend's amount and no fee |
| Conformance.VersionIndependentVerdict | scripts/certify_x402_payment_tx.py:412-681 | the legacy and the v0 spelling of a message get the same result under every configuration |
| Effect.CertifiedEffect | scripts/certify_x402_payment_tx.py:481-631 | running a certified transaction changes nothing or moves exactly the reported amount of the configured mint, under the configured token program, from the source slot of its one delegated spend to the configured receiver's account; every other balance, the lamports and each mint's supply stay; it pays if and only if the source can in the state that the instructions ahead of the spend make of the first one, and a configured delegator pays from its own account |
| Effect.PermittedIsInert | scripts/certify_x402_payment_tx.py:487-518 | every instruction permitted beside the spend leaves all balances alone |
| Effect.SpendIsMove | scripts/certify_x402_payment_tx.py:555-600 | a spend with its slots and payload pinned executes as a transfer of the configured mint under the configured program to the configured account |
| Effect.SystemTransferMoves | scripts/certify_x402_payment_tx.py:370-386 | a System transfer, which the certifier refuses, does move lamports |
| Effect.DirectTransferMoves | scripts/certify_x402_payment_tx.py:510-518 | a transfer by a token program itself, which the certifier refuses, does move tokens |
| PublishParser.TwoParsersOneMeaning | scripts/certify_publish_tx.py:75-112 | on every legacy message the strict parser accepts, the lenient one yields the same keys and the same program, accounts and data per instruction |
| PublishParser.LenientReads | scripts/certify_publish_tx.py:75-112 | any message with indexes in range is read back, however many instructions, whatever follows it |
| PublishParserRun.ParseLegacyMessage | scripts/certify_publish_tx.py:75-112 | the loop with Python's clamped slices and index errors is that parser on every input |
| PublishParserRun.ParseInvertsBuild | scripts/certify_publish_tx.py:198-209 | parsing inverts building for all 32-byte keys and in-range indexes |
| PublishParserRun.BuildMessage | scripts/certify_publish_tx.py:198-209 | the builder writes the serialization of its arguments under header 1, 0, 1 |
| Publish.CertifyExact | scripts/certify_publish_tx.py:115-182 | certified if and only if there are exactly two instructions, a nonce advance on our nonce and then our oracle with two accounts and our feed first |
| Publish.CertifyTransaction | scripts/certify_publish_tx.py:115-182 | the certifier as it runs returns that decision or the first refusal |
| Publish.SignsWhatWasCertified | scripts/broadcast_certified.py:83-112 | the message signed is the certified message byte for byte, the output differs from the input in signature slot 0 only, and certifying the output gives the same verdict |
| Publish.ReachesSigning | scripts/broadcast_certified.py:76-112 | signing is reached if and only if the nonce is set, the bytes are certified, there are two slots, slot 0 is blank and slot 1 is not |
| Settlement.RecordExact | demo/confirm_settlements.py:266-352 | a record is made if and only if the transaction succeeded and a balance of the merchant in the mint went up over the last entry before it with the same account index (none or unreadable counts as 0); it is of the first that did, by exactly what it went up, with the slot, time, decimals and account of the response and the first signer as payer |
| Settlement.SettlementFromTx | demo/confirm_settlements.py:266-352 | the loop over post balances, with its index of pre balances, returns what `Settlement.RecordExact` describes |
| Scan.CollectSettlements | demo/confirm_settlements.py:399-445 | the scan loop returns the records oldest first, the counters and the new negatives of its window |
| Scan.CountersExact | demo/confirm_settlements.py:382-433 | each counter is the number of places of the window with that fate, told by ledger, filter, cache and answer; the fates and the records account for the whole window, and the fetches for what was asked |
| Scan.OldestFirst | demo/confirm_settlements.py:443-445 | of two records found the earlier one stands later in the newest-first window |
| Scan.CachedScanRefinesUncached | demo/confirm_settlements.py:355-445 | with a sound cache the scan finds what the uncached one finds, in the same order, fetching fewer by exactly the hits, and leaves a sound cache inside the window |
| Scan.SteadyState | demo/confirm_settlements.py:31-58 | after a fully answered pass that was recorded and saved, the same window costs no fetch, finds nothing and saves the same cache |
| Scan.NothingIsHidden | demo/confirm_settlements.py:404-445 | a settlement not yet known is among the records found, or the counter of unverifiable transactions is not zero |
| Scan.NegativesAreSound | demo/confirm_settlements.py:413-442 | what is saved as negative is negative on the chain and lies in the window |
| Announcer.Disk.LoadLedger | demo/confirm_settlements.py:215-244 | reading collects exactly the recognised signatures and accounts for every line |
| Announcer.Disk.AppendRecords | demo/confirm_settlements.py:456-460 | appending adds one line per record, in order, and leaves the lines before them alone |
| Runs.SavedCacheIsRead | demo/confirm_settlements.py:132-172 | what was saved reads back as the negatives saved, when the window holds signatures only, and never as more |
| Announcer.Disk.ScanAndRecord | demo/confirm_settlements.py:463-600 | a run leaves the ledger, the cache, the printed records and the exit code its arguments and the endpoint determine |
| Announcer.RunExact | demo/confirm_settlements.py:463-600 | the exit code, the printed records and both files for every combination of arguments and endpoint: unusable arguments and an unreachable chain change nothing, a dry run prints and does not record, a seed records and does not print, and a commit or an uncached run leaves the cache alone |
| Announcer.KnownExact | demo/confirm_settlements.py:215-244 | a signature counts as known if and only if some line holds it and it is 86 to 88 base58 characters |
| Announcer.LineCountsExact | demo/confirm_settlements.py:222-244 | each figure about the ledger is the number of its lines of that sort |
| Announcer.LinesAreAccountedFor | demo/confirm_settlements.py:222-244 | usable, unparseable and signature-less lines add up to the lines read |
| Runs.RunsAreSafe | demo/confirm_settlements.py:463-600 | over every interleaving of payments, failures, announcements, commits and seeds, each appended line is a true settlement, one that was announced or seeded, and new among the lines before it |
| Runs.StepKeepsSafe | demo/confirm_settlements.py:463-600 | every single step keeps that invariant, and the cache sound |
| Runs.StartsSafe | demo/confirm_settlements.py:215-221 | any ledger content with an absent cache is a safe start |
| Runs.CommitsOnlyWhatWasAnnounced | deploy/announce_settlements.sh:314-328 | the ledger only grows, and a commit appends only payments announced before it |
| Runs.EveryLineWasSentFirst | deploy/announce_settlements.sh:276-328 | over every allowed run, each line of the final ledger beyond those at the start was put at its place by one step that either printed or adopted the payment itself, or committed one that an earlier step of the run, or what went before it, had sent |
| Runs.AnnouncedWasSent | deploy/announce_settlements.sh:276-328 | whatever counts as announced after a run was sent by one of its steps in the world that step found, or counted before |
| Runs.NothingAppendedTwice | demo/confirm_settlements.py:404-407 | no signature is appended twice, nor one the ledger held at the start |
| Runs.FoundInChainOrder | demo/confirm_settlements.py:443-445 | what is found is in the order in which it reached the chain |
| Runs.StepTouches | demo/confirm_settlements.py:513-600 | commits and uncached runs leave the cache file as it was, dry runs the ledger, and a live run appends exactly what it prints |
| Runs.NeverSwallowed | demo/confirm_settlements.py:373-445 | a settlement never announced or seeded is found by the next scan of a window that holds it, and printed unless the run seeds, or the counter of unverifiable transactions is not zero |
| Runs.ReplayAppendsTheRest | demo/confirm_settlements.py:513-600 | a commit repeated against an endpoint that answers differently appends exactly the allowed settlements the first attempt could not verify, and changes nothing if and only if there is none |
| Runs.ReplayedCommitChangesNothing | demo/confirm_settlements.py:513-600 | a commit whose pass was fully answered, repeated on a window that allows nothing new, or one that hears the same answers again, changes neither file |
| Runs.UnansweredCommitIsNotIdempotent | demo/confirm_settlements.py:429-436 | a concrete commit whose first attempt gets no answer and whose replay appends a line |
| Runs.SecondRunIsIdle | demo/confirm_settlements.py:513-600 | after a fully answered live run a run on the same window fetches nothing, prints nothing and leaves both files as they are |
| DeployMap.ResolveMap | deploy/make_invariants.py:292-336 | every box path gets the first repository file that claims it, and there are problems if and only if an entry is unusable, matches nothing, or two files claim one path |
| DeployMap.FirstClaimWins | deploy/make_invariants.py:322-334 | the first claim on a box path keeps it, whatever comes later |
| DeployMap.TrustedMapPlacesEverything | deploy/make_invariants.py:292-336 | without problems every tracked file an entry takes is at the place the entry names |
| DeployMap.TrustedExact | deploy/make_invariants.py:292-336 | the map is trusted if and only if every entry sends some tracked file somewhere and no two files are sent to one place, by prefix, include pattern and flattening |
| DeployMap.PlacedExactly | deploy/make_invariants.py:292-336 | with a trusted map a place holds a file if and only if some entry sends that file there |
| DeployMap.StripExact | deploy/make_invariants.py:303-304 | stripping removes slashes only, and all of them at both ends |
| SelfCheck.CleanTogether | deploy/box_selfcheck.py:357-400 | a set of targets is clean if and only if each target alone is |
| SelfCheck.CheckManifest | deploy/box_selfcheck.py:235-257 | passes if and only if something is pinned and every pinned path is there with its hash; the findings are exactly the missing and the differing paths |
| SelfCheck.DriftExact | deploy/box_selfcheck.py:243-251 | a finding names a pinned path that is missing, or one that is there with another hash, and that hash |
| SelfCheck.CheckMintProhibition | deploy/box_selfcheck.py:278-400 | passes if and only if a mint and a target are configured, deployed files name only known addresses, and agent state names no retired mint, of which there is one |
| SelfCheck.MintHoldsExact | deploy/box_selfcheck.py:278-400 | address by address: a deployed file names only the mint, the merchant and declared addresses; agent state names no retired mint other than the one in use |
| SelfCheck.CheckNetworkProse | deploy/box_selfcheck.py:403-441 | passes if and only if a network is configured and every line that names another one forbids it |
| SelfCheck.ProseHoldsExact | deploy/box_selfcheck.py:403-441 | word by word: a line without a prohibition contains none of devnet, testnet and localnet but the configured one |
| SelfCheck.CheckPins | deploy/box_selfcheck.py:444-466 | passes if and only if there is a pinned script and each is there and carries both pins |
| SelfCheck.ContainsExact | deploy/box_selfcheck.py:427 | one text contains another if and only if it is that one with something before and after |
| SelfCheck.PinsHoldExact | deploy/box_selfcheck.py:444-466 | a script is listed, both constants are configured, and every listed script is there and contains both |
| SelfCheck.FailsClosed | deploy/box_selfcheck.py:235-466 | with nothing to compare every check is red but the prose scan, which passes when a network is configured |
| SelfCheck.CheckVintage | deploy/box_selfcheck.py:163-232 | passes if and only if the commit is a full id from a clean tree and the marker, if any, agrees |
| SelfCheck.CommitShaExact | deploy/box_selfcheck.py:146-161 | a commit id is forty hexadecimal digits in either case |
| SelfCheck.VintageComparesTwelve | deploy/box_selfcheck.py:220 | agreement means the same first twelve characters, or a shorter marker that starts the commit |
| Manifest.BuildManifest | deploy/make_invariants.py:532-749 | a manifest is emitted if and only if nothing stands in the way, and then it says exactly what its fields are defined to be; the dropped targets are the ones red on the repository's bytes, and the stale plugins the blessed ones whose source moved |
| Manifest.EmittableExact | deploy/make_invariants.py:532-749 | nothing stands in the way if and only if the map is trusted and places ten files that are all there, merchant and mint are pinned and the mint known, a script carries both, a prose file is left, every policy and retired extra is good, state targets have retired mints, and no binary is stale unless allowed |
| Manifest.ManifestExact | deploy/make_invariants.py:562-749 | commit, dirtiness, pins, declared addresses and each of the four target lists, told by the configuration: a mapped text that is no test is scanned if and only if its own bytes name only the manifest addresses, a prose file if and only if its lines name only its network |
| Manifest.RetiredExact | deploy/make_invariants.py:373-407 | an address is retired if and only if it is not the mint in use and is a known mint or a declared extra |
| Manifest.UnnamedCommitIsRed | deploy/make_invariants.py:718-719 | a manifest from a dirty checkout or without a commit fails the version check beside every marker |
| Manifest.ValidateScans | deploy/make_invariants.py:183-270 | a target is kept if and only if it is declared or the box's own check, run on it alone over the repository's bytes, passes |
| Manifest.HashFiles | deploy/make_invariants.py:551-557 | every mapped file present is hashed under its box path, and absence is noticed |
| Manifest.DeriveScans | deploy/make_invariants.py:562-581 | the mint, prose and pinned-script lists are exactly the mapped files of each kind |
| Manifest.DeriveRetired | deploy/make_invariants.py:373-407 | every known mint but the configured one is retired, with the declared extras, and a bad extra is refused |
| Manifest.SplitExtras | deploy/make_invariants.py:593-619 | the enabled declared targets are split by their policy, absent meaning allowlist, and any other policy, one of blanks included, is noticed |
| Manifest.AddBinaries | deploy/make_invariants.py:664-698 | blessed hashes are laid over the mapped ones in plugin order, and the stale ones are exactly those whose source moved |
| Sync.Machine.Classify | deploy/sync_workspace.py:104-119 | every job is compared once, in order, each on the disk as it is then, and what is left is what differs or is absent there |
| Sync.Machine.ApplyOne | deploy/sync_workspace.py:122-134 | whatever other writers do, a destination is overwritten only straight after it was saved; undisturbed, the old bytes are in the backup, the source's bytes at the destination, and the read-back agrees |
| Sync.Machine.Apply | deploy/sync_workspace.py:507-535 | whatever other writers do, the version is marked only straight after a comparison of every job that found none pending on the disk it read |
| Sync.Machine.Deploy | deploy/sync_workspace.py:398-554 | a marked run compared every mapped file, every unit file and the manifest once more just before the mark, and every one whose source exists matched at its own comparison, whatever other writers do; a job whose source is gone is skipped and does not keep the mark away; a run that fails a guard does nothing and a dry run writes no file; undisturbed, the disk ends as `Deployed.EveryClaimIsCarried` says and the version is marked exactly when the copy converged |
| Sync.MarkedRunSawEveryMatch | deploy/sync_workspace.py:520-535 | in the log of a marked run each job's last comparison read a disk on which it matched |
| Sync.MarkIsTrueUnlessDisturbed | deploy/sync_workspace.py:520-535 | if nobody else touched the jobs' files between those comparisons and the mark, all of them matched at the moment of the mark |
| Sync.ApplyConverges | deploy/sync_workspace.py:507-532 | with distinct destinations apart from sources and backups, nothing is pending after an undisturbed apply |
| Sync.WrittenExact | deploy/sync_workspace.py:122-134 | copying a list leaves each source's bytes at its destination, the old bytes in its backup, and every other file as it was |
| Sync.DeploysWithFrame | deploy/sync_workspace.py:472-554 | a successful apply leaves every destination of its jobs equal to its source, every overwritten file in its backup, the marker naming the version, and nothing else changed |
| Sync.JobsExact | deploy/sync_workspace.py:471-473 | the jobs of a run are exactly the mapped files and the manifest below the deployment and the unit files in their directory |
| Deployed.EveryClaimIsCarried | deploy/sync_workspace.py:398-554 | undisturbed, an apply past its checks puts the bytes of every mapped file, unit file and manifest that exists at its place, saves what it overwrites beside it under the .bak- name, names the version, dirty suffix included, in the marker, and changes nothing else; short of a check, or dry, nothing changes |
| Sync.SecondRunDoesNothing | deploy/sync_workspace.py:472-498 | an immediate second run leaves the machine exactly as it is |
| Triangle.GeneratorAgreesWithChecker | deploy/make_invariants.py:532-749 | on a box with the repository's bytes at the mapped paths and the blessed binaries outside them, the manifest, prose and pin checks pass, and without box-only extras the mint check passes if and only if the mint scan is not empty |
| Triangle.MintAgrees | deploy/box_selfcheck.py:278-400 | the mint check on such a box fails only over declared targets or an empty scan |
| Triangle.FilesAgree | deploy/box_selfcheck.py:235-257 | every hash the generator recorded is the hash the box answers |
| Triangle.AnyDriftIsCaught | deploy/box_selfcheck.py:235-257 | the pinned paths are exactly the mapped ones and those of blessed binaries, pinned to the last blessing's recorded hash or else the mapped file's; any one of them missing or hashing to anything else makes the manifest check fail |
| Triangle.GreenExactlyWhenMapUnchanged | deploy/make_invariants.py:685-686 | with the repository's bytes at the mapped paths and the blessed binaries elsewhere, the manifest check passes if and only if no blessing changes the hash of a mapped path |
| Triangle.BlessedOverMappedIsRed | deploy/make_invariants.py:685-686 | binaries blessed at a mapped path, none with the mapped file's hash, make the manifest check fail on a perfect box |
| Triangle.DroppedMintScan | deploy/box_selfcheck.py:328-345 | a manifest whose file targets were all dropped passes the mint check if and only if a denylist target is declared and each one's state is free of retired mints |
| DroppedScan.EmptyMintScanIsEmitted | deploy/make_invariants.py:643-662 | a concrete checkout, read with the source's own patterns, whose manifest is emitted with an empty mint scan and is red on every box, whatever the hash function and the state of the repository |
| Triangle.RecordedVersionAgrees | deploy/sync_workspace.py:462 | the marker the synchroniser writes agrees with the manifest's commit, with or without the dirty suffix |
| Triangle.DeployedBoxIsGreen | deploy/sync_workspace.py:398-554 | generating from a clean checkout and synchronising undisturbed makes all four content checks and the version check pass |
| Paging.Walk | demo/chain_history.py:84-98 | whatever is appended between pages, the loop ends with the newest-first block of the history as of the first page, its length and the exhausted flag determined by the first request not served; a lost request ends the program |
| Paging.PageContinues | demo/chain_history.py:88-95 | a cursor keeps its place in a growing history: the next page continues the block already collected |
| Paging.NewestIsDistinct | demo/chain_history.py:94 | no entry is collected twice |
| Paging.ServedWalkIsComplete | demo/chain_history.py:84-98 | with every request served the walk collects min(total, 20000) entries, exhausted if and only if there are fewer than 20000 |
| Paging.HistoryLine | demo/chain_history.py:84-120 | the run raises, reports the feed unreachable or prints a line, as the first request not served and the entries before it determine: nothing collected is unreachable, fewer than two block times raise, and the count and failures printed are those of the block, capped if and only if twenty full pages were served |
| Paging.FiguresCount | demo/chain_history.py:104-105 | the failures are the number of failed entries, and the timed ones the number with a non-zero block time |
| Paging.LineIsTrueExactlyWhen | demo/chain_history.py:88-120 | a line printed without the capped suffix counts the whole history and all its failures if and only if every request was served, or the history ends before the first that was not, or that one was lost, was the first, or left fewer than two block times |
| Paging.ErrorBodyReadsAsTheEnd | demo/chain_history.py:88-120 | with 2000 entries and an error body for the second page, the line prints the newest 1000 as the whole history |
| Paging.Card.Refresh | scripts/build-social-card.py:165-243 | the unbounded walk ends, and either the whole history as of the first page is measured or the figures stay as they were; success means exactly that the control passed, every needed request was served and there are times to measure |
| Paging.MeasuredExact | scripts/build-social-card.py:232-236 | the figures are the number of entries, the number of failed ones, the days between the oldest and the newest time, and the stamp |
| Paging.LatestTimeExact | scripts/build-social-card.py:190-231 | the newest time is that of the newest entry that has one |
| Paging.DaysExact | scripts/build-social-card.py:232 | days are whole days, truncated toward zero |
| Evidence.Fetch | scripts/capture-proof-bundle.py:60-102 | an entry is captured exactly when the transaction was served, with exactly the bytes and slot served, and pruned exactly when it was not and the endpoint is not known to know it |
| Evidence.Bundle.Settle | scripts/capture-proof-bundle.py:163-192 | the target loop settles every target once, touches nothing else, and counts a failure if and only if a target is left without captured bytes |
| Evidence.Bundle.Capture | scripts/capture-proof-bundle.py:105-203 | a run for another cluster or without targets leaves the bundle alone; any other settles exactly the requested targets, and the exit code says whether anything was missed |
| Evidence.RunKeepsEvidence | scripts/capture-proof-bundle.py:161-188 | one run keeps a captured entry captured, and changes it only under force, to what was fetched |
| Evidence.EvidenceIsNeverLost | scripts/capture-proof-bundle.py:141-203 | over any runs and fetch outcomes a captured entry stays captured, and differs only if a forced run fetched what it now holds |
| Evidence.EvidenceIsAuthentic | scripts/capture-proof-bundle.py:60-203 | over any runs an entry captured at the end is the one held at the start or holds exactly the bytes and slot that an endpoint served for its signature in one of them |
| Evidence.CapturesOnlyAccumulate | scripts/capture-proof-bundle.py:141-203 | the captured entries only ever grow in number, and without force none of them changes |
| Evidence.ClusterNeverChanges | scripts/capture-proof-bundle.py:141-149 | a recorded cluster is never replaced, and runs for another cluster change nothing |
| Evidence.ExitIsHonest | scripts/capture-proof-bundle.py:161-203 | past the cluster check, exit 0 holds if and only if every requested target ends captured |
| Evidence.ExitSaysAllCaptured | scripts/capture-proof-bundle.py:156-203 | exit 0 holds if and only if everything asked for by name ends captured, and everything in the bundle when refreshing |
| Evidence.RefreshClosesEveryGap | scripts/capture-proof-bundle.py:155-158 | a refreshing run that exits 0 leaves every entry captured |

## Left out

- SHA-256, ed25519 signing and the network: parameters, as above. The primality of 2^255 - 19 is a hypothesis.
- Python's integers are unbounded and so are the model's; no width is lost anywhere.
- Error texts, printed reports and the `_rebuild` argument that injects address-table lookups: they carry no decision.
- The executor in `Effect` is an abstraction of the chain: rent, account ownership, fees, freezing and the on-chain programs' own checks beyond mint and token program are not part of it.
- JSON, `Decimal` and date formatting: ledger lines and cache entries reduce to their signatures, the card's figures to numbers; the division into days does not model floating-point rounding.
- Regular expressions over file texts (base58 tokens, prohibition markers, pin constants, address shape), path matching and `git`: functions of the text, the path or the prefix, for which every result holds. `Patterns` defines them for ASCII names and texts; beyond ASCII, and for glob patterns, nothing is said.
- `Runs`: the shell script around the announcer (`deploy/announce_settlements.sh`) is one step that delivers some of the printed messages; one process runs at a time, and a run does not stop half way through its files.
- `DeployMap.ResolveMap`: the order of the resulting list; the pairs are a map from box path to repository path.
- `SelfCheck`: findings, scan lists and targets are sets, so the order and the truncation of the detail lines are not modelled; required directives, services, unit definitions and redaction are left out.
- `SelfCheck.CheckMintProhibition`: an absent merchant is the empty string, which no base58 token equals.
- `Manifest.BuildManifest`: notes, provenance records and the list of unblessed plugins; a tracked Python file missing from the working tree refuses in the model, where the source raises an uncaught exception, and either way nothing is emitted.
- `Manifest.ValidateScans`: a box path that is a directory on the way to another box path.
- `Sync.Machine.Deploy`: the mapped files and the unit files are one list of jobs in the source's order; a comparison, a backup and a copy are one step each, with other writers in between.
- `Sync.Machine.Apply`: with other writers each comparison is of one job at its own moment, as in the source; that all matched at one instant needs `Sync.MarkIsTrueUnlessDisturbed`.
- `Paging.HistoryLine`: the gap figures and the date in the line; a block time outside the calendar's range, which raises.
- `Paging.Card.Refresh`: the remaining work of the card (fonts, rendering) and the pause between pages.
- `Evidence.Bundle.Capture`: the note, the capture time and the endpoint recorded beside the entries; of a captured entry the bytes and the slot are kept, the hash and length being functions of the bytes.
- The allowance and feed plugins in Rust, the reserve/confirm/release ledger of the gate, the shop page, and the self-tests: not part of this model.
