# A verified model of the BLAKE2b fork's miner and pool

A proof-of-work fork with a 164-byte header, a Stratum pool and a CPU miner, modelled in Dafny from the
Rust sources and from the reference script `scripts/pow_reference.py`. The parts make one argument: what
the miner finds is a block for the pool, it is found by a search that never repeats itself, and it is
serialised so that it parses back.

`dafny verify dfyconfig.toml` checks the whole project.

## How it is laid out

| concern | modules |
|---|---|
| hash functions and framing | `Sha256`, `Padding`, `TaggedHash`, `Blake2b`, `Constants`; the standards they meet: `Fips180`, `Rfc7693` |
| numbers, targets, trees | `Bytes`, `Hash256`, `Target`, `Merkle` |
| codecs | `Varint`, `Reader`, `Transaction`, `Header`, `Hex`, `Script`, `Coinbase`, `Witness`, `Block` |
| proof of work | `Pow`, and `PowReference` as the second implementation |
| wire, jobs, shares | `Stratum`, `JobBuilder`, `Validate`, `EndToEnd` |
| the miner | `Search`, `Worker`, `WorkHandOff`, `Stats`, `Reporter`, `Controls` |
| the pool | `PoolState`, `Session`, `Poller` |

Code that works in place is a method or a class, proved against a specification function; what the system
promises is then proved about that function. Concurrent code is a state machine over the atomic steps at
its real lock boundaries, and its results hold for every interleaving. Both hash functions are proved equal
to their standards, and the proof of work to the reference script over those. Digests are ordinary functions of
their input bytes: no lemma assumes one is injective, and where distinct inputs could only be told apart
by the digest, the lemma hands back the colliding pair.

## What turned out not to hold

* **`snapshot` can pair an old job with a new generation.** It clones the job, releases the lock and only
  then loads the generation, so a whole `set` in between leaves a thread mining a superseded job that
  `is_current` calls current (`WorkHandOff.SupersededWorkIsMined`). `HeldPairs` gives the exact condition,
  and shows that loading first, or both in one step, removes it.
* **A solved generation can come back.** `solved` keeps only the last mark, so a thread finishing an older
  generation un-retires a newer one (`WorkHandOff.StaleMarkUnretires`); it stays retired in every run exactly
  when no thread is between its look at the counter and the end of its batch for another generation
  (`WorkHandOff.RetiredForGood`).
* **`Stats::best` is not the lowest hash**, though its documentation (`crates/miner/src/stats.rs:69`) says
  so: a lower hash with equal zero bits is filtered out (`Stats.LowerHashTurnedAway`). It is the first with
  the most zero bits, and the lowest exactly when no later one with as many is lower (`Stats.BestOfCalls`).
* **A push is not always the shortest**, though `crates/mining/src/script.rs:8-17` says so: a single byte from
  1 to 16, or 0x81, has an opcode to itself (`Script.FiveIsPushedLong`); for everything else it is
  (`Script.PushIsShortest`).
* **The outage timer runs through a pause.** The comment at `crates/pool/src/lib.rs:428-431` says a pause
  must not let it fire, and it is reset only on the turn that begins one, so the first missed template
  after a pause of two minutes stops the pool (`Poller.OneMissAfterRecoveryIsFatal`, exactly when in
  `Poller.FirstFailureAfterPause`).
* **A transaction without inputs does not parse back**, since its count is the SegWit marker; the parser
  also ignores the flag byte and accepts an empty witness section (`Transaction.RoundTrip`,
  `Transaction.AcceptedReserializes`).
* **Hexadecimal text may hold a plus sign.** `crates/bip110-primitives/src/hex.rs:22` says anything but digits
  is rejected, but the parser it calls takes `+f` for 15 (`Hex.SignDecodes`; exactly what is accepted in
  `Hex.DecodesExactly`).
* **A masked job's miner cannot reproduce the pool's hash**: agreement holds exactly for a null mask
  (`EndToEnd.MinerAgreesWithPool`), which every job the pool builds has.
* **The final save can miss the last batches**, though `crates/miner/src/lib.rs:186-189` says stopping loses
  nothing. The reporter saves without waiting for the threads: it can lose exactly the amounts up to one
  batch for each thread with one open at its last reading (`Reporter.SaveMisses`), so nothing exactly when
  none has (`Reporter.SaveIsComplete`), and a full batch of every thread in a run from start-up
  (`Reporter.BoundIsReached`).

## Model

| member | source | states |
|---|---|---|
| EndToEnd.MinerAgreesWithPool | crates/pool/src/validate.rs:92-119 | For every v2 header, all four layouts, any extranonce split totalling 16 and any nonce and time offset, the hash a miner computes from the decoded job equals `pow_hash` of the header the pool rebuilds from the decoded share, if and only if the header's XOR mask is null |
| EndToEnd.CandidateIsNeverAShare | crates/miner/src/worker.rs:160-181 | For any job the pool built, what a pass finds is always submitted, and the pool reaches the same hash and finds its own target met |
| EndToEnd.Receive | crates/stratum/src/job.rs:181-193 | Decoding the job and the subscription gives the pool's own target and the midstate of that connection and ticket |
| EndToEnd.Answer | crates/pool/src/validate.rs:85-149 | A parsed share whose rebuilt hash meets the target is judged by the node's reply and nothing else |
| EndToEnd.MineAndCheck | crates/miner/src/worker.rs:139-181 | Mining a received job and checking what it submits never ends in the verdict for an ordinary share |
| Session.FoundMeansJudged | crates/pool/src/session.rs:109-238 | Over a connection: a miner that takes its extranonce from the answer to its subscription and its job from the line sent on authorising, finds a solution under them and submits it while the job is among the last eight installs, is answered with the judgement on a block with the hash it saw |
| Pow.MidstateReusable | crates/bip110-primitives/src/pow.rs:105-173 | One midstate reused for any nonces hashes as the header carrying them, including the v1 splice into bytes 76 to 80 |
| Pow.ProjectionAgrees | crates/bip110-primitives/src/pow.rs:147-160 | Hashing from the job's two digests gives the unmasked hash in every layout, and equals the full hash exactly when the mask is null |
| Pow.LegacyHash | crates/bip110-primitives/src/pow.rs:105-173 | Before the fork the hash is the standard SHA-256, twice, of the eighty bytes |
| Pow.NullKeyHashesAlike | crates/bip110-primitives/src/pow.rs:145-160 | Under a null key the hash from the projection is the full hash of the header, in every layout and whatever the clear count |
| Pow.MaskBelow | crates/bip110-primitives/src/pow.rs:190-205 | The mask read big-endian is below 2^(256-k) for any key and clear count k |
| Pow.MaskedValue | crates/bip110-primitives/src/pow.rs:330-343 | Masked and unmasked hashes differ by exactly the reversed mask in internal order, and by the mask's number as numbers |
| Pow.TopBitsSurviveMask | crates/bip110-primitives/src/pow.rs:196-205 | Masked and unmasked hashes share their top k displayed bits and fall below 2^(256-k) together |
| Pow.BlankedTwice | crates/bip110-primitives/src/pow.rs:248-257 | Blanking an already blanked previous-block digest changes nothing |
| Pow.JobStage4 | crates/bip110-primitives/src/pow.rs:285-328 | Stage 4 sees the same bytes from the projection as from the header |
| Pow.Stage4Injective | crates/bip110-primitives/src/pow.rs:285-328 | Within one midstate and in each layout, distinct nonce quadruples are distinct stage 4 inputs |
| Pow.Stage4Binds | crates/bip110-primitives/src/pow.rs:285-328 | Between midstates of one layout, equal stage 4 inputs have equal nonces and equal stage 3 digests |
| Pow.Stage3Injective | crates/bip110-primitives/src/pow.rs:271-279 | Distinct job digests or distinct extranonces are distinct stage 3 inputs |
| Pow.ComputeMask | crates/bip110-primitives/src/pow.rs:190-205 | The byte fill and the partial byte produce the specified mask |
| Pow.ComputeH1 | crates/bip110-primitives/src/pow.rs:212-228 | The chained writes hash the 119-byte body of stage 1 |
| Pow.ComputeH2 | crates/bip110-primitives/src/pow.rs:231-238 | The merge-mining hook is stage 2 of the header |
| Pow.ComputeMidstate | crates/bip110-primitives/src/pow.rs:181-241 | Stages 0 to 3 of a header |
| Pow.ComputeHash | crates/bip110-primitives/src/pow.rs:285-343 | The buffer built per layout and the masking loop are stages 4 and 5 |
| PowReference.SameMask | scripts/pow_reference.py:45-52 | The script's mask is stage 0 |
| PowReference.SameH2 | scripts/pow_reference.py:54-62 | The script's digest of the unpacked fields is stage 2 of the header they came from |
| PowReference.SameStage4Input | scripts/pow_reference.py:64-77 | The script's second BLAKE2b input is stage 4's |
| PowReference.RefinesReference | scripts/pow_reference.py:30-83 | On the serialised bytes of every v2 header the script's output is the displayed `pow_hash` |
| Header.Layout | crates/bip110-primitives/src/header.rs:116-141 | Bytes are a header's serialisation exactly when they have its size and every field stands at its offset |
| Header.DeserializeSerialize | crates/bip110-primitives/src/header.rs:116-192 | Parsing a serialised header returns it if and only if its version has no top bit and, on v1, its v2 fields are null; otherwise it returns that normal form |
| Header.SerializeDeserialize | crates/bip110-primitives/src/header.rs:144-192 | Whatever is accepted is well-formed and serialises back to the same bytes |
| Header.VersionBytes | crates/bip110-primitives/src/header.rs:92-120 | The first four bytes are the version's low 31 bits, with the top bit set exactly on a v2 header |
| Header.DeserializeFails | crates/bip110-primitives/src/header.rs:144-165 | Parsing fails exactly below four bytes, or when the length is not what the version's top bit calls for, and names both lengths |
| Header.ComputeSerialize | crates/bip110-primitives/src/header.rs:116-141 | The appended fields are the serialisation |
| Header.ComputeDeserialize | crates/bip110-primitives/src/header.rs:144-192 | The cursor-driven parser returns what stands at the fixed offsets, or the length or end error |
| Header.ReadV2Fields | crates/bip110-primitives/src/header.rs:168-189 | The v2 fields are read in wire order from byte 80 |
| Header.FieldCursor.Array | crates/bip110-primitives/src/header.rs:206-211 | Takes the next bytes and advances, or fails without moving |
| Search.StepIsIncrement | crates/mining/src/search.rs:107-127 | `advance(w)` is +1 modulo 2^(32w) on the low w words, and nothing else moves |
| Search.CarryMeaning | crates/mining/src/search.rs:107-127 | The ripple of carries leaves the next number in the participating words |
| Search.PointsDistinct | crates/mining/src/search.rs:79-127 | No point of the space is met twice before the whole space has been |
| Search.SweepReturns | crates/mining/src/search.rs:106-127 | A full sweep wraps back to where it began |
| Search.TruncationHolds | crates/mining/src/search.rs:94-104 | Points reached from a truncated start stay truncated |
| Search.Counter.Truncate | crates/mining/src/search.rs:94-104 | Zeroes exactly the words that do not take part |
| Search.Counter.Advance | crates/mining/src/search.rs:107-127 | In place, the carries give the next point of the space |
| Search.Search | crates/mining/src/search.rs:169-210 | Reports the first point in order that meets the target, the count, the next point, and the earliest numerically least hash, also on the early return |
| Search.FirstHitIsLowest | crates/mining/src/search.rs:189-204 | The first hash to meet the target is below everything tried before it |
| Search.ReportUnique | crates/mining/src/search.rs:132-148 | That report is fully determined by the inputs |
| Search.AttemptsSpent | crates/mining/src/search.rs:169-176 | A search without a solution has spent every attempt it was given, but for the 2^32 points of a pre-fork header |
| Search.SearchesJoin | crates/mining/src/search.rs:159-168 | A failed search of a, resumed for b from `next`, is one search of a + b |
| Search.InputsDistinct | crates/mining/src/search.rs:169-210 | One search never feeds the hash the same bytes twice |
| Search.LegacyInputsDistinct | crates/mining/src/search.rs:172-175 | Before the fork neither does it, whatever its budget, although only the nonce reaches the bytes |
| Worker.BatchesFollow | crates/miner/src/worker.rs:189-195 | The next batch starts exactly one batch further along the pass |
| Worker.BatchPoint | crates/miner/src/worker.rs:49-54 | Inside an aligned batch no carry leaves the nonce word |
| Worker.PassNeverRepeats | crates/miner/src/worker.rs:156-179 | No point repeats within 2^64 points of a pass |
| Worker.PassCovers | crates/miner/src/worker.rs:156-179 | Each (nonce, time offset) pair is met at exactly one of those points, with nonce2 and nonce3 zero |
| Worker.PassInputsDistinct | crates/miner/src/worker.rs:156-179 | No two of those points give one stage 4 input |
| Worker.NothingHashedTwice | crates/miner/src/worker.rs:133-179 | Over every connection, ticket and point of one job, no two of the first 2^64 points of each pass give one stage 4 input, unless two different stage 3 inputs share a BLAKE2b digest |
| Worker.BatchReport | crates/miner/src/worker.rs:161-176 | One search's report in the numbering of the whole pass |
| Worker.Pass | crates/miner/src/worker.rs:156-179 | A pass tries points in order until a check fails or a solution is found; what it finds is the first of the whole pass, the recorded counts sum to the points tried, and each record's best is the least of its batch |
| Worker.NeverRefused | crates/miner/src/worker.rs:204-226 | Every point of every pass is reported with its own nonce and offset: the refusal is unreachable |
| Stratum.NotifyRoundTrip | crates/stratum/src/job.rs:111-167 | A job survives encoding and decoding |
| Stratum.SubmitRoundTrip | crates/stratum/src/share.rs:58-86 | A share survives encoding and decoding |
| Stratum.NotifyAccepts | crates/stratum/src/job.rs:133-167 | Parameters are taken for a job exactly when each of the nine stands in its place, with no coinbase suffix, no branch and one-byte flags |
| Stratum.NotifyRefuses | crates/stratum/src/job.rs:133-167 | No array, too few parameters, a digest of the wrong length, a coinbase suffix, a branch and flags past a byte are each refused as what they are, in that order |
| Stratum.SubmitAccepts | crates/stratum/src/share.rs:68-86 | And five for a share: worker, job, extranonce half, time offset, nonce |
| Stratum.SubscriptionRoundTrip | crates/miner/src/lib.rs:311-336 | The miner reads back its connection's eight bytes and a width of eight |
| Stratum.SubscriptionAccepts | crates/miner/src/lib.rs:311-336 | A subscription is taken exactly when its bytes and width fill sixteen |
| Stratum.FillExtranonce | crates/stratum/src/job.rs:182-190 | The two copies leave the halves side by side |
| Stratum.ComputeJobMidstate | crates/stratum/src/job.rs:181-193 | Stage 3 of the job, or the length error exactly when the halves do not total 16 |
| Stratum.FillExtranonce2 | crates/miner/src/worker.rs:261-269 | The ticket big-endian in exactly the given width, keeping its low bytes |
| Stratum.Extranonce2Value | crates/miner/src/worker.rs:261-269 | As a big-endian number it is the ticket modulo 256^width |
| Stratum.SearchSpacesDisjoint | crates/pool/src/session.rs:33-41 | Distinct (connection, ticket) pairs give distinct extranonces and distinct stage 3 inputs |
| JobBuilder.BuiltJobIsConsistent | crates/pool/src/job_builder.rs:56-178 | A built job is the projection of the header kept with it, has a null key, and gives the miner the pool's own target |
| JobBuilder.BuiltHeaderFields | crates/pool/src/job_builder.rs:117-152 | A built header holds the template's fields, or the window's time and target, with every nonce, flag, key and hook null |
| JobBuilder.BuildsExactly | crates/pool/src/job_builder.rs:56-178 | A job is built exactly when every transaction field parses, the commitment agrees with the node's, the headline fits, and time, target, parent, count and version make a v2 header |
| JobBuilder.BuildFailsAs | crates/pool/src/job_builder.rs:56-178 | Building gives up in the source's order, and each error comes exactly when its own condition is the first to fail |
| JobBuilder.MinimumDifficulty | crates/pool/src/min_difficulty.rs:63 | A minimum-difficulty header's target is 0xFFFF * 2^208 |
| JobBuilder.ProjectionIsConsistent | crates/pool/src/job_builder.rs:160-177 | Every v2 header with a null key and a decodable target yields such a job |
| JobBuilder.BuiltBody | crates/pool/src/job_builder.rs:84-109 | A built job's body is what the coinbase builder made of the template, with the template's lists in equal numbers, under the commitment to its wtxids, which is the node's where it gives one |
| JobBuilder.BuiltCoinbasePays | crates/pool/src/job_builder.rs:65-106 | The coinbase of a built job, to the last field: the whole value to the payout script, nothing to the commitment over the displayed wtxids, the 32-byte witness item, and a script that reads as the height, the headline if given, and the bytes of the tag; the body's ids and bytes are those the template displays |
| JobBuilder.HashFromDisplay | crates/node-rpc/src/template.rs:118-122 | A hash is read from exactly the texts that display it, most significant byte first |
| JobBuilder.BitsFromText | crates/node-rpc/src/template.rs:128-133 | The compact target is read from exactly the text of its four bytes |
| JobBuilder.BuiltHeaderDescribesBody | crates/pool/src/job_builder.rs:125-152 | Its header states the transaction count, the height and the root over the coinbase and the template's ids, which is the body's own root exactly when those are its transactions' ids, short of a collision; the coinbase opens with the height and claims the template's value |
| JobBuilder.OnlyTooManyIsRefused | crates/pool/src/job_builder.rs:108-152 | A body is refused only for a v2 count above 65535: the list lengths never differ |
| JobBuilder.CoinbaseFits | crates/pool/src/job_builder.rs:84-92 | The coinbase is refused exactly when a headline overflows what height and tag leave of 100 bytes; without one it always fits |
| Validate.Check | crates/pool/src/validate.rs:85-149 | The verdict and the submitted block are those of the specified outcome |
| Validate.OnlyBlocksAreSubmitted | crates/pool/src/validate.rs:92-126 | A block is sent exactly when the halves total 16 and the rebuilt header's hash is at most the target; nothing above the target is called a block |
| Validate.VerdictIsTheNodes | crates/pool/src/validate.rs:92-149 | Every verdict reports the rebuilt header's own hash; a share its zero bits; and on a block that was sent it is accepted, stale, rejected or an error exactly as the node accepted it, named a lost race, refused it otherwise or did not answer |
| Validate.SubmittedBlockIsWhole | crates/pool/src/validate.rs:125-141 | The text sent decodes and splits into the rebuilt header, the count, the coinbase and whatever the template's raw bytes hold, which is their transactions when each holds one |
| WorkHandOff.WorkState.constructor | crates/miner/src/work.rs:51-53 | Starts with no work, generation zero and nothing solved |
| WorkHandOff.WorkState.Set | crates/miner/src/work.rs:56-59 | Run alone, replaces the work and then bumps the generation |
| WorkHandOff.WorkState.Snapshot | crates/miner/src/work.rs:65-68 | Run alone, the work and the generation, or nothing before the first set |
| WorkHandOff.WorkState.MarkSolved | crates/miner/src/work.rs:84-86 | Overwrites the solved cell |
| WorkHandOff.WorkState.Current | crates/miner/src/work.rs:93-96 | True exactly when the generation matches and is not the solved one |
| WorkHandOff.SetAlone | crates/miner/src/work.rs:56-59 | With nothing else running, the atomic steps of a set do what the method does |
| WorkHandOff.SnapshotAlone | crates/miner/src/work.rs:65-68 | And those of a snapshot give the current work under the current generation, or nothing before the first set |
| WorkHandOff.QuestionAlone | crates/miner/src/work.rs:93-96 | And the two loads of a thread's question send it on to hash exactly when `is_current` holds |
| WorkHandOff.StepKeepsInvariant | crates/miner/src/work.rs:56-96 | Every atomic step of every thread keeps the protocol's invariant |
| WorkHandOff.HeldPairs | crates/miner/src/work.rs:56-68 | In every interleaving the generation counts completed sets, and a pair (job j, generation g) has j <= g + 1; j >= g holds exactly when no set but one under way at the clone completed before the load, and always when the reads are swapped or atomic |
| WorkHandOff.CurrentIsNeverSuperseded | crates/miner/src/work.rs:88-96 | With swapped or atomic reads, a thread told its generation is current never holds superseded work |
| WorkHandOff.SupersededWorkIsMined | crates/miner/src/work.rs:61-68 | As written, a reachable run hashes job 1 under generation 2 and is told that is current |
| WorkHandOff.PassedForGood | crates/miner/src/work.rs:88-96 | A generation passed by newer work is never current again before the counter wraps |
| WorkHandOff.RetiredForGood | crates/miner/src/work.rs:80-96 | From a state where the current generation is the solved one, no run makes it current again if and only if no thread is between its look at the counter and the end of its batch for another generation |
| WorkHandOff.MarkIsFinal | crates/miner/src/work.rs:80-96 | So marking the current generation is final exactly when no other thread is in that position |
| WorkHandOff.LateMarkUnretires | crates/miner/src/work.rs:80-96 | Any such thread can finish, mark its own generation and make the solved one current again |
| WorkHandOff.StaleMarkUnretires | crates/miner/src/work.rs:80-96 | A late mark for generation 1 makes the already solved generation 2 current again |
| Stats.Stats.Record | crates/miner/src/stats.rs:46-62 | Run alone, counts the hashes and replaces the best exactly when the filter and the comparison both pass |
| Stats.AccountsAgree | crates/miner/src/stats.rs:46-62 | In every interleaving each hash is counted once, and while the lock is free the cached bits are those of the stored hash, which has the most zero bits of all completed calls |
| Stats.StepKeepsInvariant | crates/miner/src/stats.rs:46-62 | Every atomic step keeps that, and the best's zero bits never fall |
| Stats.AloneIsRecorded | crates/miner/src/stats.rs:46-62 | With nothing else running, the atomic steps of a call do what the method does |
| Stats.LowestIsKept | crates/miner/src/stats.rs:49-61 | One call keeps the best the lowest hash exactly when it does not bring a lower one with the same zero bits |
| Stats.BestOfCalls | crates/miner/src/stats.rs:46-73 | Over any calls one after another the best is the first hash with the most zero bits, the count is their sum, and the best is the lowest of all exactly when no later hash with as many zero bits is lower |
| Stats.LowestAtRest | crates/miner/src/stats.rs:46-73 | In every interleaving, while the lock is free, the stored hash is the lowest completed exactly when no completed one with its zero bits is below it |
| Stats.LowerHashTurnedAway | crates/miner/src/stats.rs:69-73 | After hashes 3 and 2 the stored best is 3: it is not the lowest hash seen |
| Reporter.Lifetime.Record | crates/miner/src/lifetime.rs:85-93 | Adds with saturation and replaces the best only for more zero bits |
| Reporter.NothingCountedTwice | crates/miner/src/lib.rs:213-218 | Over any reports the total is the loaded one plus the last reading up to saturation, and the best bits are the most ever read |
| Reporter.BestIsFirstReading | crates/miner/src/lifetime.rs:85-93 | The best hash kept is the loaded one until a reading beats it, and then that of the first reading with the most zero bits |
| Reporter.Report | crates/miner/src/lib.rs:190-229 | The reporting loop folds exactly the differences between its readings |
| Reporter.ReportCatchesUp | crates/miner/src/lib.rs:202-229 | A report is made exactly when an interval has passed or a stop is set, and leaves nothing counted so far out |
| Reporter.SaveMisses | crates/miner/src/lib.rs:186-229 | From the last reading, some run ends with exactly n hashes not saved if and only if n is at most one batch for each thread with a batch open at that reading |
| Reporter.SaveIsComplete | crates/miner/src/lib.rs:186-229 | So the stopping save loses nothing in any run exactly when no thread has a batch open when it is made |
| Reporter.LastSaveMissesLittle | crates/miner/src/lib.rs:174-182 | In every run a save made because of a stop misses at most one batch per thread |
| Reporter.FromTheStart | crates/miner/src/lib.rs:202-229 | From start-up that is at most slots * 2^20 hashes |
| Reporter.BoundIsReached | crates/miner/src/lib.rs:174-182 | For any number of threads some run from start-up misses exactly that many |
| Controls.Controls.Apply | crates/miner/src/controls.rs:34-57 | Each switch changes its own field and keeps at least one thread |
| Controls.StopIsFinal | crates/miner/src/controls.rs:34-70 | After any actions a stop is final, and otherwise a thread hashes exactly while the last pause setting is off and the last thread count reaches it, as it always does the first |
| Blake2b.RoundsUseEverything | crates/blake2b/src/reference.rs:74-89 | Every round reads all sixteen message words and both its halves touch all sixteen working words |
| Blake2b.MixInverse | crates/blake2b/src/reference.rs:32-44 | `mix` on distinct words has an explicit two-sided inverse (section 3.1 of RFC 7693) |
| Blake2b.MixesInverse | crates/blake2b/src/reference.rs:79-88 | So have the eight mixes of a round |
| Blake2b.RoundsReversible | crates/blake2b/src/reference.rs:74-93 | So have the twelve rounds, for any message words, before the feed-forward (section 3.2 of RFC 7693) |
| Blake2b.Mix | crates/blake2b/src/reference.rs:32-44 | In place, the mixing function |
| Blake2b.RunRound | crates/blake2b/src/reference.rs:77-88 | In place, one round under a row of the permutation table |
| Blake2b.LoadWorking | crates/blake2b/src/reference.rs:61-72 | State, IV, counter and final flag in the working words |
| Blake2b.Compress | crates/blake2b/src/reference.rs:51-97 | In place, the compression function with its feed-forward |
| Blake2b.CallShape | crates/blake2b/src/reference.rs:117-134 | Block i is called with counter min(128(i+1), n), its bytes are the message's, and only the last call is flagged |
| Blake2b.ParameterWord | crates/blake2b/src/reference.rs:109-115 | The word folded into the state for a 32-byte digest is the parameter block's: its length, no key, fanout and depth of one |
| Blake2b.FramingPrefixFree | crates/blake2b/src/reference.rs:117-134 | No call sequence even begins another message's, so equal sequences mean equal messages |
| Blake2b.WorkingWordsBind | crates/blake2b/src/reference.rs:61-72 | The rounds start alike exactly from one state, with counters that agree in 128 bits and equal final flags |
| Blake2b.MessageWordsInjective | crates/blake2b/src/reference.rs:52-59 | The message words determine the block |
| Blake2b.RoundsTakeHanded | crates/blake2b/src/reference.rs:51-97 | Each call moves the state by the twelve rounds over its message words and working words, fed forward |
| Blake2b.HandedPrefixFree | crates/blake2b/src/reference.rs:61-134 | The message and working words handed to the rounds determine the message: no message's even begin another's |
| Blake2b.ComputeHash | crates/blake2b/src/reference.rs:104-143 | The block loop absorbs max(1, ceil(n/128)) calls and truncates the digest |
| Rfc7693.SameMix | crates/blake2b/src/reference.rs:32-44 | The in-place mixing is `G` on four words, with rotations written as shifts (section 3.1 of RFC 7693) |
| Rfc7693.SameRound | crates/blake2b/src/reference.rs:77-88 | A round is the eight `G`s over the permutation row as the standard prints it (sections 2.7 and 3.2 of RFC 7693) |
| Rfc7693.SameStart | crates/blake2b/src/reference.rs:61-72 | What enters the rounds is the state, the IV, the counter's two halves over words 12 and 13, and word 14 with every bit turned over on the last call |
| Rfc7693.SameCompression | crates/blake2b/src/reference.rs:51-97 | One call is the standard's compression function (section 3.2 of RFC 7693) |
| Rfc7693.SameHash | crates/blake2b/src/reference.rs:104-143 | Every message, at every digest length, hashes as the standard defines (section 3.3 of RFC 7693) |
| Sha256.RoundInverse | crates/sha256/src/reference.rs:92-107 | A SHA-256 round has an explicit two-sided inverse |
| Constants.RowsArePrimes | crates/sha256/src/constants.rs:17-19 | The table's t-th entry is a prime with exactly t primes below it |
| Constants.InitialStatesAreSquareRoots | crates/sha256/src/constants.rs:7-15 | Both hash functions' i-th initial word is the fractional part of the square root of the i-th prime, to 32 and to 64 bits |
| Constants.RoundConstantsAreCubeRoots | crates/sha256/src/constants.rs:17-31 | The t-th round constant is the fractional part of the cube root of the t-th prime, to 32 bits |
| Sha256.ChChooses | crates/sha256/src/reference.rs:25-27 | Each bit of x selects the bit of y or of z |
| Sha256.MajAgrees | crates/sha256/src/reference.rs:31-33 | Wherever two inputs agree the output agrees with them |
| Sha256.SigmasByShifts | crates/sha256/src/reference.rs:36-56 | The four sigmas are the shifts and rotations of section 4.1.2 of FIPS 180-4 |
| Sha256.RoundsReversible | crates/sha256/src/reference.rs:92-111 | So have the sixty-four rounds for any schedule, before the feed-forward (section 6.2.2 of FIPS 180-4) |
| Sha256.PrepareSchedule | crates/sha256/src/reference.rs:69-86 | The two loops fill the message schedule |
| Sha256.RunRounds | crates/sha256/src/reference.rs:89-107 | The shifting variables perform the sixty-four rounds |
| Sha256.CompressBlock | crates/sha256/src/reference.rs:67-120 | In place, one block is absorbed |
| Sha256.ComputeHash | crates/sha256/src/reference.rs:123-138 | The block loop and big-endian output are the digest |
| Fips180.SameSchedule | crates/sha256/src/reference.rs:69-86 | The schedule is the recurrence of section 6.2.2 of FIPS 180-4 over the block's big-endian words |
| Fips180.SameRounds | crates/sha256/src/reference.rs:88-107 | After every number of rounds the eight variables are what two recurrences on numbers modulo 2^32 say, with the constant and the schedule word of each round in them |
| Fips180.SameBlock | crates/sha256/src/reference.rs:67-120 | One block adds what the variables ended as to the hash value, word by word |
| Fips180.FillIsLeast | crates/sha256/src/padding.rs:29-52 | The padding is the least that fills a block (section 5.1.1 of FIPS 180-4) |
| Fips180.SameHash | crates/sha256/src/reference.rs:123-138 | Every message hashes as the standard defines (section 6.2 of FIPS 180-4) |
| Padding.PaddedLenLeast | crates/sha256/src/padding.rs:54-56 | `padded_len` is the least multiple of 64 that is at least len + 9 |
| Padding.PaddingInjective | crates/sha256/src/padding.rs:29-52 | Padded streams are equal exactly when the messages are (section 5.1.1 of FIPS 180-4) |
| Padding.Pad | crates/sha256/src/padding.rs:29-52 | The loop appends marker, zeros and length |
| TaggedHash.TaggedHasher.constructor | crates/sha256/src/lib.rs:84-92 | Starts with the tag's prefix and nothing written |
| TaggedHash.TaggedHasher.Write | crates/sha256/src/lib.rs:95-98 | Appends to what was written |
| TaggedHash.TaggedHasher.BytesWritten | crates/sha256/src/lib.rs:115-117 | The prefix's 64 bytes plus everything written |
| TaggedHash.TaggedHasher.Finalize | crates/sha256/src/lib.rs:120-122 | Any sequence of writes hashes as `tagged_hash` of their concatenation |
| TaggedHash.TaggedIsStandard | crates/sha256/src/lib.rs:62-71 | A tagged hash is the standard hash of the tag's digest, again, and the data |
| Varint.DecodeEncode | crates/bip110-primitives/src/varint.rs:21-100 | Every value reads back whatever follows, in exactly `encoded_len` bytes |
| Varint.DecodeCanonical | crates/bip110-primitives/src/varint.rs:61-100 | Only the canonical encoding is accepted |
| Varint.PrefixFree | crates/bip110-primitives/src/varint.rs:21-100 | No encoding begins another's |
| Varint.DecodeFails | crates/bip110-primitives/src/varint.rs:61-100 | Decoding fails for want of bytes exactly when there are too few, and as non-canonical exactly when a shorter encoding holds the value |
| Varint.EncodeInto | crates/bip110-primitives/src/varint.rs:21-40 | Appends the encoding |
| Reader.VarBytesAt | crates/bip110-primitives/src/reader.rs:83-87 | Length-prefixed bytes are parsed exactly where their encoding stands, and the parse stops at its end |
| Reader.VarBytesFails | crates/bip110-primitives/src/reader.rs:83-87 | A bad length is reported as that, and data missing after it as the end of the input; otherwise the data is read |
| Reader.ManyAt | crates/bip110-primitives/src/transaction.rs:184-199 | Exactness of an item parser lifts to counted lists |
| Reader.Cursor.ReadBytes | crates/bip110-primitives/src/reader.rs:38-46 | Returns the next bytes and advances, or fails without moving, staying inside the buffer |
| Reader.Cursor.ReadVarint | crates/bip110-primitives/src/reader.rs:73-79 | Returns a CompactSize and advances past it, or fails without moving |
| Reader.Cursor.ReadVarBytes | crates/bip110-primitives/src/reader.rs:83-87 | Returns length-prefixed bytes and advances past them |
| Transaction.RoundTrip | crates/bip110-primitives/src/transaction.rs:112-211 | Parsing a serialised transaction followed by any tail returns it and stops at the tail, if and only if it has an input |
| Transaction.EncodingsNeverCoincide | crates/bip110-primitives/src/transaction.rs:120-123 | The fifth byte tells the encodings of transactions with inputs apart |
| Transaction.SerializePrefixFree | crates/bip110-primitives/src/transaction.rs:112-139 | Serialisation is injective and prefix-free on transactions with inputs |
| Transaction.WireExample | crates/bip110-primitives/src/transaction.rs:98-139 | A concrete transaction with a witness, byte for byte in both encodings |
| Transaction.AcceptedReserializes | crates/bip110-primitives/src/transaction.rs:172-211 | Accepted bytes are what would be written back, except for a wrong flag byte or an empty witness section |
| Transaction.TxidPreimage | crates/bip110-primitives/src/transaction.rs:142-144 | The bytes under a txid determine the transaction up to its witnesses and nothing of them |
| Transaction.IdsShareAPreimage | crates/bip110-primitives/src/transaction.rs:141-149 | The ids are the standard double hash of the two encodings, which are equal exactly without a witness |
| Transaction.ComputeSerializeLegacy | crates/bip110-primitives/src/transaction.rs:98-105 | The appending loops produce the legacy encoding |
| Transaction.ComputeSerialize | crates/bip110-primitives/src/transaction.rs:112-139 | The appending loops produce the wire encoding |
| Transaction.Deserialize | crates/bip110-primitives/src/transaction.rs:172-211 | The cursor loops accept, return and reject exactly what the parser does |
| Script.PushData | crates/mining/src/script.rs:24-42 | Appends the push of the data |
| Script.PushReadsBack | crates/mining/src/script.rs:24-42 | A push reads back as its data, whatever follows |
| Script.PushIsShortest | crates/mining/src/script.rs:8-17 | A push is no longer than any opcode and data that leave its bytes if and only if they are not a single byte from 1 to 16 or 0x81 |
| Script.FiveIsPushedLong | crates/mining/src/script.rs:24-42 | The byte 5 is pushed in two bytes where one opcode leaves it |
| Script.HeightIsShortest | crates/mining/src/script.rs:42-78 | The height prefix, which uses those opcodes, is never longer than another that reads as the same number |
| Script.ScriptNumberReadsBack | crates/mining/src/script.rs:80-108 | A script number reads back as its value, and nothing shorter does |
| Script.EncodeScriptNumber | crates/mining/src/script.rs:90-108 | The shifting loop and the sign padding produce the script number |
| Script.EncodeBlockHeight | crates/mining/src/script.rs:64-78 | The three cases of the BIP 34 prefix |
| Script.HeightReadsBack | crates/mining/src/script.rs:64-78 | The prefix reads back as the height, whatever follows |
| Script.HeightThenPushes | crates/mining/src/coinbase.rs:118-137 | A height and pushes read as exactly that height and those pushes |
| Coinbase.ComputeScriptSig | crates/mining/src/coinbase.rs:118-137 | The appended parts are the scriptSig |
| Coinbase.ScriptSigReadsBack | crates/mining/src/coinbase.rs:118-137 | A scriptSig reads as its height and exactly the parts that were set |
| Coinbase.HeadlineIsContiguous | crates/mining/src/coinbase.rs:30-35 | The headline stands in the scriptSig as one run of bytes |
| Coinbase.ComputeBuild | crates/mining/src/coinbase.rs:141-176 | Builds the specified transaction or reports the length |
| Coinbase.BuiltCoinbase | crates/mining/src/coinbase.rs:141-176 | A built coinbase has one null-outpoint input, a 2 to 100 byte scriptSig opening with the height, the whole value in its first output, a zero-value second output and one 32-byte witness item exactly with a commitment, and survives serialisation |
| Coinbase.BuildFailsWhenTooLong | crates/mining/src/coinbase.rs:144-146 | Building fails exactly when the counted pushes leave 2 to 100 bytes |
| Witness.CommitmentIgnoresCoinbase | crates/mining/src/witness.rs:30-32 | The commitment's root, folded from the block's own coinbase branch, is the same for every coinbase |
| Witness.CommitmentBinds | crates/mining/src/witness.rs:62-85 | Equal-length lists under one commitment are equal or exhibit a collision |
| Witness.ScriptIsReturnAndPush | crates/mining/src/witness.rs:67-85 | The script is OP_RETURN and one minimal push of the marker bytes and the standard double hash of the root and 32 zero bytes |
| Witness.ComputeCommitmentScript | crates/mining/src/witness.rs:73-85 | The filled buffers are the 38-byte script |
| Block.ComputeHeader | crates/mining/src/block.rs:100-121 | Root, count and height as the body demands, or the count error |
| Block.ComputeSerialize | crates/mining/src/block.rs:124-138 | The appended parts are the block |
| Block.BlockSplits | crates/mining/src/block.rs:124-138 | A serialised block splits back into header, count, coinbase and whatever its raw bytes hold, with nothing left, and those are their transactions when each raw string holds one |
| Transaction.TailIgnored | crates/bip110-primitives/src/transaction.rs:172-211 | What the parser accepts it accepts the same with anything after it |
| Block.HeaderDescribesBody | crates/mining/src/block.rs:100-121 | A v2 header states the decoded count and the root over the given ids, which is the root of the parsed transactions exactly when the ids are theirs, short of an explicit collision; it is refused exactly above 65535 |
| Block.PreForkHeaderIsNull | crates/mining/src/block.rs:108-118 | Before the fork count and height stay out of the header, and the header still parses back |
| Merkle.RootIsTopNode | crates/bip110-primitives/src/merkle.rs:41-61 | Level-by-level collapse equals the top node defined straight from the leaves with the standard double hash of left and right, at every size |
| Merkle.BranchFoldsToRoot | crates/bip110-primitives/src/merkle.rs:81-106 | The branch is blind to the coinbase and folds any coinbase up to the right root, at every size |
| Merkle.FirstLeafUnchanged | crates/bip110-primitives/src/merkle.rs:81-106 | Folding the first leaf itself gives the root |
| Merkle.DuplicatedTailKeepsRoot | crates/bip110-primitives/src/merkle.rs:41-61 | m * 2^k leaves, m odd and at least 3, keep their root when the last 2^k are appended again (CVE-2012-2459) |
| Merkle.EqualRootsCollide | crates/bip110-primitives/src/merkle.rs:64-68 | Two equal-length lists with one root are equal or contain an explicit `combine` collision |
| Merkle.ComputeRoot | crates/bip110-primitives/src/merkle.rs:41-61 | The rebuilding loop returns the root, and nothing for no leaves |
| Merkle.CoinbaseBranch | crates/bip110-primitives/src/merkle.rs:81-98 | The loop collects the left edge's siblings |
| Merkle.RootFromCoinbaseBranch | crates/bip110-primitives/src/merkle.rs:104-106 | The fold of a branch |
| Target.FromCompactExact | crates/bip110-primitives/src/target.rs:53-87 | A compact field decodes exactly when its sign bit is clear and floor(mantissa * 256^(exponent-3)) < 2^256, and then denotes that number; a set sign bit is the negative error and too wide a value the overflow |
| Target.DecodeCompact | crates/bip110-primitives/src/target.rs:53-87 | The byte-placing loop, with its dropped and overflowing bytes, is that decoding |
| Target.CheckMet | crates/bip110-primitives/src/target.rs:109-125 | The opposite-endian scan is numeric less-or-equal |
| Target.MeetingNeedsLeadingZeros | crates/bip110-primitives/src/target.rs:127-147 | A hash that meets a target has at least the target's leading zero bits |
| Target.CountTargetLeadingZeroBits | crates/bip110-primitives/src/target.rs:135-147 | The counting loop is 256 minus the bit length |
| Hash256.NumericCmp | crates/bip110-primitives/src/hash.rs:83-91 | The byte walk is numeric order |
| Hash256.LeadingZeroBitsMeaning | crates/bip110-primitives/src/hash.rs:98-113 | At least k leading zero bits is being below 2^(256-k) |
| Hash256.LeadingZeroBitsAntitone | crates/bip110-primitives/src/hash.rs:98-113 | A lower hash never has fewer leading zero bits |
| Hash256.CountLeadingZeroBits | crates/bip110-primitives/src/hash.rs:103-113 | The accumulating loop with its early stop is that count |
| Hex.DecodeEncode | crates/bip110-primitives/src/hex.rs:11-35 | Decoding an encoding gives the bytes back |
| Hex.DigitsInOrder | crates/bip110-primitives/src/hex.rs:11-19 | A byte becomes two digits, the higher first: ten from '0' and six from 'a' |
| Hex.DecodesExactly | crates/bip110-primitives/src/hex.rs:22-35 | Text decodes exactly when it is pairs of two digits of either case, or of a plus sign and one digit; else the error is the odd length or the first bad pair |
| Hex.SignDecodes | crates/bip110-primitives/src/hex.rs:22-35 | The text `+f` decodes to the byte 15 |
| Hex.ParseFormatU32 | crates/stratum/src/job.rs:123-124 | A fixed-width 32-bit field reads back |
| Hex.ComputeEncode | crates/bip110-primitives/src/hex.rs:11-19 | The appending loop is the encoding |
| PoolState.FormatHexInjective | crates/pool/src/state.rs:85-87 | Distinct counters format as distinct ids |
| PoolState.IdsUnique | crates/pool/src/state.rs:85-98 | No two installs share an id, whatever builds failed between them |
| PoolState.HistoryIsLastEight | crates/pool/src/state.rs:90-114 | After any rounds the current job is the newest install, and an installed id finds that very job exactly while it is among the last eight |
| PoolState.UnknownIdFindsNothing | crates/pool/src/state.rs:106-114 | An id never allocated finds nothing |
| PoolState.RunRounds | crates/pool/src/lib.rs:303-344 | Any sequence of allocations, failed builds and installs leaves the last eight installs, newest first |
| PoolState.PoolState.AllocateConnectionId | crates/pool/src/state.rs:80-82 | Returns the counter and advances it |
| PoolState.PoolState.AllocateJobId | crates/pool/src/state.rs:85-87 | Returns the counter in hexadecimal and advances it |
| PoolState.PoolState.SetCurrentJob | crates/pool/src/state.rs:90-98 | Puts the job in front and drops what exceeds the history |
| PoolState.PoolState.CurrentJob | crates/pool/src/state.rs:101-103 | The newest install |
| PoolState.PoolState.JobById | crates/pool/src/state.rs:106-114 | The scan returns the first job with the id |
| PoolState.PoolState.Unsubscribe | crates/pool/src/state.rs:122-128 | Drops every subscription of one connection and keeps the others |
| Session.Session.Dispatch | crates/pool/src/session.rs:109-172 | The answer, the authorisation flag, the wake-ups, the subscriptions and the lines sent after one request, with the newest job pushed after authorising |
| Session.PushedWorkIsCurrent | crates/pool/src/session.rs:240-254 | The pushed job decodes to the newest one, under the pool's own target and the announced difficulty |
| Session.Session.OnSubmit | crates/pool/src/session.rs:175-198 | Authorisation, parsing, lookup and check, in that order |
| Session.ValidationNeedsAuthorisation | crates/pool/src/session.rs:109-198 | Over a whole connection a share reaches validation exactly when authorisation was asked for before, it parses, and its job is retained; otherwise the answer names the first of the three that fails |
| Session.SubscribedAsItself | crates/pool/src/session.rs:140-161 | The answer to any subscription reads back as the eight bytes of the connection it came on, and eight to fill |
| Session.WakesWhenTipMoved | crates/pool/src/session.rs:195-215 | The poller is woken by exactly the judgements of acceptance and of a lost race |
| Poller.Poller.RecheckReadiness | crates/pool/src/lib.rs:508-556 | In place, one readiness check and what it starts, ends or makes fatal |
| Poller.Poller.FetchTemplate | crates/pool/src/lib.rs:284-399 | In place, one fetch and the install it may lead to |
| Poller.Poller.TakeTurn | crates/pool/src/lib.rs:262-442 | In place, one turn of the loop |
| Poller.Poller.Poll | crates/pool/src/lib.rs:261-443 | In place, turns until one exits |
| Poller.PollerIsSafe | crates/pool/src/lib.rs:231-443 | Over every timed run: no fetch while paused, pauses and resumptions alternate, one readiness signal right after an install, a non-clean job has the last install's parent and target, the unfit exit needs 30 minutes of failing checks with no passing one, and the outage exit 120 s since the last install or pause start |
| Poller.ExitsWhenItMust | crates/pool/src/lib.rs:231-443 | Over every timed run, read off the log: the next turn gives up for want of jobs exactly when the last install or pause start is 120 s old, gives up on the node exactly when a check is due and fails 30 minutes into the announced pause, and makes exactly the calls, installs and announcements the log calls for |
| Poller.TurnShown | crates/pool/src/lib.rs:262-442 | One turn shows and decides exactly what the log so far and its own readings call for |
| Poller.FreshAfterTurn | crates/pool/src/lib.rs:284-399 | After a fit turn with a template that builds, the last install has its parent and no other target and is under 30 s old; readiness was asked within the last 60 s |
| Poller.PauseLeavesTimer | crates/pool/src/lib.rs:269-282 | Paused turns never touch the outage timer |
| Poller.FirstFailureAfterPause | crates/pool/src/lib.rs:401-434 | After any pause, the first turn that installs nothing is fatal exactly when the timer was last set 120 s before |
| Poller.OneMissAfterRecoveryIsFatal | crates/pool/src/lib.rs:428-434 | A run of 481 turns at the loop's own pace pauses for three minutes, recovers, and stops the pool on the first template missed after it |

## Left out

* Sockets, channels, files, JSON-RPC, cookies and process control: I/O. Node answers and clock readings are inputs.
* JSON text: parameters are typed arrays of strings, numbers, lists and booleans.
* Strings outside ASCII, where the hash and hex parsers would cut a character in two.
* The text of error messages, log lines and events for the dashboard; error kinds and their order are kept.
* Floating point: displayed difficulty, odds, hash rates and times to completion.
* The vectorised and processor-specific hash implementations: only the portable ones are modelled.
* Known-answer vectors for the two hash functions: nothing evaluates a digest.
* Weak memory: atomic operations are sequentially consistent, with locks and loads as separate steps.
* The panics of SHA-256 at 2^61 bytes, of a script push above 520 bytes and of a digest size outside 1 to 64 are preconditions of the methods that would reach them; the specification functions of SHA-256 are total.
* `readiness::check` and `min_difficulty::plan`: the poller is given a passing or failing check, and a job an optional window. Holding a solved block back until its timestamp is legal only delays the submission.
* `is_fork_block`: whether a job carries the headline is an input of building it.
* Waiting: the polling sleeps, the two-second wait for new work and the wake-up channel change no value the model keeps.
* The outer loop of a mining thread: a pause, or new work, starts a fresh pass from the first point, so freedom from repetition is per pass.
- WorkHandOff.PassedForGood: holds while fewer than 2^64 sets have completed, since after that many the counter returns to an old value.
- WorkHandOff.RetiredForGood: speaks of runs in which the generation has not reached the value that means nothing is solved.
- Reporter.SaveMisses: counts hashes without the wrap of the 64-bit session counter, which would take more than 2^64 hashes.
- PoolState.RunRounds: covers fewer than 2^64 - 1 rounds, before job ids start again.
- Session.Session.Dispatch: leaves out the text of the replies, and sends a difficulty as the compact target it is computed from.
- PoolState.PoolState.Unsubscribe: subscribers are their connection ids; delivery of a broadcast and the dropping of dead channels are not modelled.
