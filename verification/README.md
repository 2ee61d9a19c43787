# A Dafny model of the Aldivine runtime's state machines and codecs

This project models the parts of Project Aldivine whose guarantees hold over whole runs or over all inputs,
and proves those guarantees. Run `dafny verify dfyconfig.toml` to check all of it.

Code that only computes is a set of functions. Code that changes state is a class (or a method with a loop)
that is proved to perform a transition written as a function on values; the theorems are about runs of those
transitions, so they hold of the objects. Each main result compares the code with something simpler than the
code: a day counter, the full log of accepted packets, a scan over all entities, the set of live ids.

| file | what it models |
|---|---|
| `LaneScheduler.dfy` | weighted round robin over the five streaming lanes |
| `Download.dfy` | chunk plan, byte coverage, resume ranges, reassembly |
| `Calendar.dfy`, `Timestamp.dfy` | days since the epoch to a date, and the log timestamp |
| `MessagePack.dfy` | writer and reader of the wire subset between JSON values and Lua resources |
| `WireForms.dfy`, `Utf8.dfy` | the grammar of everything the reader accepts, and of its text |
| `ReplayWindow.dfy` | duplicate and replay detection on wrapping sequence numbers |
| `SpatialGrid.dfy` | the uniform grid, radius queries, interest tiers |
| `Base32.dfy` | base32 text of authenticator secrets |
| `PrefixMatch.dfy` | the two independent CIDR matchers |
| `SimulationCluster.dfy`, `Xorshift.dfy` | the headless client cluster and its generator |
| `EntityStore.dfy`, `Dimensions.dfy` | generational ids and isolation planes |
| `LagHistory.dfy` | position history for lag compensation |
| `ContentCache.dfy` | verified commits, recency order, eviction to a quota |
| `RateLimiter.dfy` | the token bucket |
| `LoginLockout.dfy` | the login pipeline's brute-force guard |
| `Migrations.dfy` | checksums, migrator construction, planning |
| `Wrappers.dfy`, `Arithmetic.dfy`, `BitStrings.dfy`, `Sequences.dfy` | shared helpers |

Machine integers are unbounded numbers with truncation, wrap-around and saturation written out where the code
depends on them. Floating-point quantities are reals. The clock, the digest, the credential checks and the
number-to-text conversion are parameters.

Where the code does less than its documentation says, the model follows the code and proves exactly when the
documented property holds:

- Replay protection: "duplicates and replays are rejected" fails for packets 64 to 1023 behind the highest, where no
  memory is kept, and for packets more than half the 32-bit space behind, which read as new (`ReplayGetsInIff`,
  `OldDuplicateIsAccepted`, `FarReplayIsAccepted`).
- MessagePack: integers from 128 to 255 leave the cursor one byte short, integers above 65535 or below -128 and
  lengths above 65535 are truncated (`LimitIsSharp`, `RoundTripsIffRepresentable`, `LuckyRoundTrip`).
- The edge proxy's prefix match with prefix 0 shifts by the whole word width: it traps in a checking build and
  compares whole addresses otherwise (`MatchersAgreeIff`, `PrefixZeroDisagrees`).
- Listing the default dimension does not list unassigned entities (`MembersCompleteIff`, `UnassignedIsUnlisted`).
- A right password on an account with a second factor, sent without a code, leaves no audit entry (`AuditedIff`,
  `AllAuditedIff`, `UnauditedAttempt`).
- Migrations are applied below already recorded versions exactly when the first one not on record is below some
  version that is, available or not (`AppliesInOrderIff`, `GapIsFilledLate`, `OlderBinaryAppliesBelow`).
- The checksum does not see an edit that moves text across a separator, which a migration admits exactly when it
  holds a zero byte (`StreamIsItsOwnIff`, `SeparatorEditIsUnseen`).
- The lockout window's end is a 64-bit sum. It overflows in some run exactly when the clock can be both a window length
  past 0 and less than one before 2^64; a release build then never locks (`NoOverflowIff`, `BoundKeptIff`,
  `WrappedWindowNeverLocks`).
- Generations wrap, so ids are unique up to 2^32 uses of one slot (`IdsDistinctIff`, `CyclesReuseIff`); a build that
  checks for overflow stops instead (`CheckedIdsAreDistinct`). A reused id inherits an assignment that was neither
  removed nor pruned (`PlaneIsLastAssignment`, `ReusedIdInherits`).
- The token bucket keeps its bound exactly at refill rates that are not negative (`PromiseKeptIff`,
  `NegativeRateFails`).
- The date is right up to the wrap of its 32-bit year, and timestamps sort as text up to the year 9999
  (`DaysToYmdIsTheCalendar`, `TimestampsOrderIff`).
- The replication set leaves out every entity whose position equals the observer's, not only the observer's own
  body (`ReplicationCompleteIff`, `SharedPositionIsLeftOut`).

## Model

| member | source | states |
|---|---|---|
| `LaneScheduling.WeightedFairness` | crates/ald-download/src/lib.rs:264-298 | over any stretch of events in which two lanes always have work, their served counts differ from the ratio of their weights by at most one quantum, whatever is enqueued or served elsewhere |
| `LaneScheduling.NoStarvation` | crates/ald-download/src/lib.rs:228-231 | a lane with work is served within 16 minus its weight pops of other lanes, under any interleaved enqueues |
| `LaneScheduling.WaitBound` | crates/ald-download/src/lib.rs:264-298 | the number of pops a waiting lane can see go elsewhere is bounded by the turns still ahead of it in the rotation |
| `LaneScheduling.PopNextIsWorkConserving` | crates/ald-download/src/lib.rs:263-298 | in every reachable state a pop returns a job if and only if some lane has one, so the fall-through after the loop is dead |
| `LaneScheduling.LaneIsFifo` | crates/ald-download/src/lib.rs:247-298 | over any run each lane's queued plus pushed jobs are its served jobs followed by its pending ones, in order, and the served counter counts them |
| `LaneScheduling.ServedPerRotation` | crates/ald-download/src/lib.rs:228-231 | a lane that stays busy is served one quantum per completed rotation, up to its place in the current one |
| `LaneScheduling.ExactShares` | crates/ald-download/src/lib.rs:391-408 | when no lane runs dry, 16 k pops serve every lane exactly k times its weight |
| `LaneScheduling.ShareTable` | crates/ald-download/src/lib.rs:48-57 | the same in figures: 8 k, 4 k, 2 k, k and k jobs |
| `LaneScheduling.EmptyPopStartsOver` | crates/ald-download/src/lib.rs:264-298 | after a pop that finds every lane empty, as from a new scheduler, the next pop serves the most urgent lane that got work in between, in the order join, spawn, nearby, background, optional, with its first job |
| `LaneScheduling.RotationOrder` | crates/ald-download/src/lib.rs:270-298 | when two pops in a row serve two lanes, every lane that stands between them in that cyclic order is empty |
| `LaneScheduling.ServeShape` | crates/ald-download/src/lib.rs:279-293 | serving takes from the current queue only, the turn counter is at least 1 before it is decremented, and the turn either continues or passes to the next lane with a fresh quantum |
| `LaneScheduling.LaneScheduler.constructor` | crates/ald-download/src/lib.rs:243-245 | the empty scheduler, which satisfies the invariant |
| `LaneScheduling.LaneScheduler.PendingIn` | crates/ald-download/src/lib.rs:251-253 | the number of jobs queued in a lane, 0 for a lane never used |
| `LaneScheduling.LaneScheduler.EnqueueJob` | crates/ald-download/src/lib.rs:247-249 | the object performs the push transition |
| `LaneScheduling.LaneScheduler.Next` | crates/ald-download/src/lib.rs:264-298 | the object performs the pop transition, the reset of the rotation on an empty scheduler included, and returns its output |
| `LaneScheduling.LaneScheduler.ScanLanes` | crates/ald-download/src/lib.rs:270-294 | the loop over one rotation is the scan |
| `LaneScheduling.LaneScheduler.ServeLane` | crates/ald-download/src/lib.rs:279-293 | the serving branch is the serve transition |
| `Reassembly.NewPlan` | crates/ald-download/src/lib.rs:81-87 | fails exactly on a zero length, with both lengths in the error, and otherwise the chunk count is the least number of chunks that covers the file |
| `Reassembly.ChunksPartition` | crates/ald-download/src/lib.rs:89-97 | each byte of the file lies in exactly one chunk, the one its offset divides to |
| `Reassembly.ChunksTile` | crates/ald-download/src/lib.rs:89-97 | no chunk is empty or longer than the chunk length, consecutive chunks abut, the last ends the file |
| `Reassembly.LastWriteWins` | crates/ald-download/src/lib.rs:125-157 | after any sequence of writes, in any order and with any overlap, a byte is covered if and only if an accepted write touched it, and holds what the last such write put there |
| `Reassembly.ProgressIffFresh` | crates/ald-download/src/lib.rs:125-157 | the received count grows, and the progress tick moves, exactly when an accepted write reaches a byte not covered before |
| `Reassembly.AcceptsIff` | crates/ald-download/src/lib.rs:128-141 | a write is accepted if and only if some byte is not covered and the write lies within the file; when all are covered, a write changes nothing |
| `Reassembly.AssembledIsFinal` | crates/ald-download/src/lib.rs:128-131 | once assembly returns the file, no sequence of writes changes anything or is accepted |
| `Reassembly.CoveredBytesAreRight` | crates/ald-download/src/lib.rs:128-157 | if all writes are slices of one file, every covered byte is the file's |
| `Reassembly.AssembledIsTheFile` | crates/ald-download/src/lib.rs:197-200 | in that case assembly returns exactly the file once every byte is covered, and nothing before |
| `Reassembly.GapsAreUnique` | crates/ald-download/src/lib.rs:173-195 | a coverage map has only one ascending list of maximal uncovered runs |
| `Reassembly.ResumeCompletes` | crates/ald-download/src/lib.rs:173-200 | fetching exactly the missing ranges of any interrupted download yields the file |
| `Reassembly.CompleteMeansAllChunks` | crates/ald-download/src/lib.rs:159-171 | the byte count says complete if and only if every chunk is complete |
| `Reassembly.Download.constructor` | crates/ald-download/src/lib.rs:111-119 | nothing covered, the received count is the number of covered bytes |
| `Reassembly.Download.ReceiveBytes` | crates/ald-download/src/lib.rs:128-157 | succeeds if and only if some byte is not covered and the write lies within the file, with the numbers in the error otherwise; performs the receive transition on its arrays, changes nothing once all is covered, and keeps the received count equal to the number of covered bytes |
| `Reassembly.Download.Store` | crates/ald-download/src/lib.rs:143-151 | the byte loop overlays data and coverage and counts the newly covered bytes |
| `Reassembly.Download.MissingRanges` | crates/ald-download/src/lib.rs:175-195 | returns exactly the ascending maximal uncovered runs, with lengths summing to file length minus received |
| `Reassembly.Download.CompleteChunks` | crates/ald-download/src/lib.rs:164-171 | counts the chunks all of whose bytes are covered, and equals the chunk count if and only if the download is complete |
| `Reassembly.Download.ChunkIsDone` | crates/ald-download/src/lib.rs:166-169 | says whether every byte of one chunk is covered |
| `Reassembly.Download.AssembledBytes` | crates/ald-download/src/lib.rs:198-200 | the bytes if complete, otherwise nothing |
| `Calendar.YearOfEraBrackets` | crates/ald-core/src/logging.rs:18-21 | the nested divisions find the March-based year that contains the day, for every day of an era, and no subtraction goes negative |
| `Calendar.CivilSuccessor` | crates/ald-core/src/logging.rs:15-27 | the date of day n + 1 is the Gregorian successor of the date of day n, for every n |
| `Calendar.CivilIsTheCalendar` | crates/ald-core/src/logging.rs:13-27 | the closed form agrees with counting days one by one from 1970-01-01 |
| `Calendar.CivilOrder` | crates/ald-core/src/logging.rs:15-27 | every result is a date of the calendar, and later days have later dates |
| `Calendar.DaysToYmdIsTheCalendar` | crates/ald-core/src/logging.rs:15-27 | the returned date is the calendar's if and only if the day is before the year 2^32, where the 32-bit year wraps |
| `Timestamp.TimestampsOrder` | crates/ald-core/src/logging.rs:30-42 | before the year 10000 timestamps order as text exactly as the times do to the millisecond |
| `Timestamp.Year10000SortsEarly` | crates/ald-core/src/logging.rs:41 | the first instant of the year 10000 does not sort after the last one of 9999 |
| `Timestamp.TimestampsOrderIff` | crates/ald-core/src/logging.rs:30-42 | all times below a limit order as their texts if and only if the limit is at most the start of the year 10000 |
| `Timestamp.TimestampReadsBack` | crates/ald-core/src/logging.rs:29-42 | every timestamp reads back: digits of the year, four before the year 10000, separators in their places and UTC at the end, and digits that spell the calendar date of the day (up to the wrap of the 32-bit year) and hour, minute, second and millisecond that add up to the time of day |
| `Timestamp.EpochText` | crates/ald-core/src/logging.rs:29-42 | time 0 is 1970-01-01 00:00:00.000 UTC |
| `Timestamp.BeforeTheEpoch` | crates/ald-core/src/logging.rs:30-32 | a time before the epoch shows as the epoch |
| `MessagePack.ReadBack` | crates/ald-cfxlua-compat/src/lib.rs:642-747 | a representable value's bytes, standing anywhere in any buffer, read back as the value with the cursor just behind them |
| `MessagePack.RoundTrip` | crates/ald-cfxlua-compat/src/lib.rs:578-747 | reading what was written, followed by any suffix, returns the value and stops exactly at the suffix |
| `MessagePack.LimitIsSharp` | crates/ald-cfxlua-compat/src/lib.rs:588-627 | an integer outside -128..127 and 256..65535, or a string, array or object over 65535, never reads back as itself with the right cursor, and reads back as itself at all if and only if it is an integer in 128..255 |
| `MessagePack.RoundTripsIffRepresentable` | crates/ald-cfxlua-compat/src/lib.rs:578-747 | a JSON value and every part of it round-trip if and only if every part is within its limit |
| `MessagePack.LuckyRoundTrip` | crates/ald-cfxlua-compat/src/lib.rs:654-663 | the array of 208 and 5 is not representable and 208 alone does not round-trip, but the array does, with any suffix |
| `MessagePack.ValueBack` | crates/ald-cfxlua-compat/src/lib.rs:642-747 | written bytes, wherever they stand, read as the value when all parts are representable except that the last leaf may be an integer in 128..255 |
| `MessagePack.PublicRoundTrip` | crates/ald-cfxlua-compat/src/lib.rs:572-640 | every such value survives writing and reading through the two public functions, which drop the cursor |
| `MessagePack.InsertIsUpdate` | crates/ald-cfxlua-compat/src/lib.rs:725-738 | inserting a member keeps the keys sorted and changes the entry of that key only |
| `MessagePack.ReadIsJson` | crates/ald-cfxlua-compat/src/lib.rs:642-823 | on any bytes whatever the reader fails or returns a well-formed JSON value: integers in 64-bit range, finite floats, valid text, sorted distinct keys |
| `WireForms.FormReads` | crates/ald-cfxlua-compat/src/lib.rs:642-823 | every well-formed value in the subset, nested, with any choice among the 4-, 8-, 16- and 32-bit length forms and the integer and float widths, standing anywhere in a buffer, reads as what it means, with the cursor just behind it |
| `WireForms.CutIsTruncated` | crates/ald-cfxlua-compat/src/lib.rs:642-823 | such a value cut short at any byte, at any depth, is reported as truncated |
| `WireForms.UnsignedReads` | crates/ald-cfxlua-compat/src/lib.rs:660-662 | the 2-, 4- and 8-byte unsigned forms read as the number their big-endian bytes spell |
| `WireForms.SignedReads` | crates/ald-cfxlua-compat/src/lib.rs:663-666 | the 1-, 2-, 4- and 8-byte signed forms read as the number in two's complement |
| `WireForms.ByteReadsShort` | crates/ald-cfxlua-compat/src/lib.rs:654-659 | the 1-byte unsigned form reads as its number with the cursor one byte short |
| `WireForms.FloatReads` | crates/ald-cfxlua-compat/src/lib.rs:807-823 | the four bytes of a single reach the widening and the eight of a double stand as they are, null unless finite |
| `WireForms.WordsRead` | crates/ald-cfxlua-compat/src/lib.rs:667-688 | valid text under each of the four string headers reads as itself |
| `WireForms.BadTextIsRefused` | crates/ald-cfxlua-compat/src/lib.rs:740-747 | text that is not UTF-8 under any of them is refused |
| `WireForms.ListHeadReads` | crates/ald-cfxlua-compat/src/lib.rs:689-704 | each array header, the 32-bit one included, hands its length to the array reader |
| `WireForms.TableHeadReads` | crates/ald-cfxlua-compat/src/lib.rs:693-712 | so does each map header |
| `WireForms.KeyForms` | crates/ald-cfxlua-compat/src/lib.rs:725-738 | a text key stands for itself, a number key for its text, any other key is refused |
| `WireForms.UnsupportedTags` | crates/ald-cfxlua-compat/src/lib.rs:713 | binary, extension and reserved tags are refused by name |
| `WireForms.ByteAt` | crates/ald-cfxlua-compat/src/lib.rs:749-773 | the bytes of a word are its base 256 digits, most significant first |
| `WireForms.NearestDoubleIsNearest` | crates/ald-cfxlua-compat/src/lib.rs:595-599 | an integer above the signed range is written as a double no other whole-number double is nearer than, ties going to the even fraction |
| `WireForms.LargeIntegerReads` | crates/ald-cfxlua-compat/src/lib.rs:595-599 | and reads back as that double |
| `Utf8.ValidIff` | crates/ald-cfxlua-compat/src/lib.rs:740-747 | text is accepted if and only if it is the shortest-form encoding of a sequence of Unicode scalar values |
| `MessagePack.WriteValue` | crates/ald-cfxlua-compat/src/lib.rs:578-635 | appends exactly the encoding to the buffer |
| `MessagePack.WriteStr` | crates/ald-cfxlua-compat/src/lib.rs:601-611 | appends a length header and the bytes |
| `MessagePack.WriteItems` | crates/ald-cfxlua-compat/src/lib.rs:618-620 | the array loop appends the encodings of the elements in order |
| `MessagePack.WriteEntries` | crates/ald-cfxlua-compat/src/lib.rs:628-631 | the object loop appends key and value of each entry in order |
| `MessagePack.ReadValue` | crates/ald-cfxlua-compat/src/lib.rs:642-715 | the reader with its cursor is the reading function, whose value on every form is fixed by `FormReads`, errors included |
| `MessagePack.ReadItems` | crates/ald-cfxlua-compat/src/lib.rs:717-723 | the loop of the array reader |
| `MessagePack.ReadMembers` | crates/ald-cfxlua-compat/src/lib.rs:725-738 | the loop of the map reader |
| `ReplayWindow.StepRepresents` | crates/ald-network/src/reliability.rs:37-81 | every step keeps the state an exact image of the log of accepted packets: highest is its maximum modulo 2^32 and mask bit i says whether highest - i was accepted, for i below 64 |
| `ReplayWindow.VerdictIsExact` | crates/ald-network/src/reliability.rs:45-80 | of the number a word reads as: one accepted before is accepted again if and only if it trails by 64 to 1023; one never accepted is refused if and only if it trails by 1024 or more |
| `ReplayWindow.UnwrapIsRightIff` | crates/ald-network/src/reliability.rs:35-36 | a word reads as the number it was made of if and only if that number is within half the 32-bit space of the highest |
| `ReplayWindow.ReplayGetsInIff` | crates/ald-network/src/reliability.rs:1-3 | the replay of an accepted packet is accepted if and only if, modulo 2^32, it trails by more than half the space, by 64 to 1023, or by less than 64 where nothing was accepted; so within half the space, if and only if it trails by 64 to 1023 |
| `ReplayWindow.RunRepresents` | crates/ald-network/src/reliability.rs:34-36 | the image is kept over every run, across wraps of the 32-bit space |
| `ReplayWindow.ReplayProtection` | crates/ald-network/src/reliability.rs:37-81 | from a new session, after any run, the next verdict is exact with respect to everything accepted so far |
| `ReplayWindow.ReplaysOverRuns` | crates/ald-network/src/reliability.rs:1-3 | this for every packet accepted in any run from a new session |
| `ReplayWindow.LogIsAsSent` | crates/ald-network/src/reliability.rs:34-36 | while each packet arrives within half the space of the highest, the accepted numbers are those that were sent, across wraps |
| `ReplayWindow.ReplaysOfSentPackets` | crates/ald-network/src/reliability.rs:1-3 | for packets in step, the replay of a sent and accepted number within half the space is accepted if and only if it trails by 64 to 1023 |
| `ReplayWindow.OldDuplicateIsAccepted` | crates/ald-network/src/reliability.rs:73-80 | a concrete duplicate 64 behind that is accepted |
| `ReplayWindow.FarReplayIsAccepted` | crates/ald-network/src/reliability.rs:49-66 | a concrete run after which the first packet, nearly 2^32 behind, is accepted again |
| `ReplayWindow.ReliabilityState.constructor` | crates/ald-network/src/reliability.rs:27-29 | the new state is the image of the empty log |
| `ReplayWindow.ReliabilityState.ValidateSequence` | crates/ald-network/src/reliability.rs:37-81 | the object performs the validation step and stays the image of the log |
| `SpatialIndex.CircleIsScanned` | crates/ald-ecs/src/spatial.rs:131-136 | every point within the radius lies in a scanned cell, negative coordinates and saturated cells included |
| `SpatialIndex.TierOf` | crates/ald-ecs/src/spatial.rs:175-186 | High exactly within the near radius, High or Medium exactly within the medium one, none exactly outside the far one |
| `SpatialIndex.TiersFollowDistance` | crates/ald-ecs/src/spatial.rs:173-186 | nothing farther away gets a higher tier |
| `SpatialIndex.TierTable` | crates/ald-ecs/src/spatial.rs:175-186 | the tiers in figures: high up to 128, medium up to 384, low up to 1024, whatever the height |
| `SpatialIndex.CellHolds` | crates/ald-ecs/src/spatial.rs:77-81 | a position lies in its cell of 64 by 64, on either side of zero, as far as 32-bit cell numbers reach |
| `SpatialIndex.TakeOutConsistent` | crates/ald-ecs/src/spatial.rs:106-112 | taking an entity out of its cell keeps every other entity exactly once in the cell of its position and leaves no empty cell |
| `SpatialIndex.PutInConsistent` | crates/ald-ecs/src/spatial.rs:114-115 | putting an absent entity into the cell of its position keeps the index consistent |
| `SpatialIndex.ReplicationCompleteIff` | crates/ald-ecs/src/spatial.rs:188-203 | seen from an entity of its own, the set has every other entity within the far radius if and only if none is at the same position |
| `SpatialIndex.SharedPositionIsLeftOut` | crates/ald-ecs/src/spatial.rs:196-199 | two entities at one position are left out of each other's sets |
| `SpatialIndex.SpatialGrid.constructor` | crates/ald-ecs/src/spatial.rs:93-95 | an empty, consistent index |
| `SpatialIndex.SpatialGrid.Upsert` | crates/ald-ecs/src/spatial.rs:98-116 | sets one position, keeps all others and the consistency of the index |
| `SpatialIndex.SpatialGrid.Remove` | crates/ald-ecs/src/spatial.rs:119-129 | forgets one position and keeps the consistency of the index |
| `SpatialIndex.SpatialGrid.DropFromCell` | crates/ald-ecs/src/spatial.rs:107-112 | removes an entity from a cell and the cell when it becomes empty |
| `SpatialIndex.SpatialGrid.ScanCell` | crates/ald-ecs/src/spatial.rs:140-146 | adds exactly the entities of the cell that are within the radius |
| `SpatialIndex.SpatialGrid.ScanColumn` | crates/ald-ecs/src/spatial.rs:138-148 | adds exactly the entities of one column of cells that are within the radius |
| `SpatialIndex.SpatialGrid.QueryRadius` | crates/ald-ecs/src/spatial.rs:131-151 | returns each entity within the radius exactly once and no other: the brute-force scan |
| `SpatialIndex.SpatialGrid.ReplicationSet` | crates/ald-ecs/src/spatial.rs:188-203 | each entity within the far radius and not at the observer's position, once, with its tier, which is never none |
| `Base32.RoundTrip` | aegis/backend/src/totp.rs:74-108 | decoding the encoding of any byte sequence returns it |
| `Base32.CanonicalIff` | aegis/backend/src/totp.rs:74-108 | a text over the alphabet is the encoding of its decoding if and only if the bits the decoder drops are zeros and fewer than five |
| `Base32.DecodesIff` | aegis/backend/src/totp.rs:93-108 | a text decodes if and only if it holds nothing but letters, the digits 2 to 7, white space and padding |
| `Base32.FillerIsHarmless` | aegis/backend/src/totp.rs:93-108 | white space and padding anywhere leave the result of decoding unchanged, failures included |
| `Base32.CaseIsHarmless` | aegis/backend/src/totp.rs:93-108 | so does the case of a letter |
| `Base32.KnownText` | aegis/backend/src/totp.rs:74-91 | the byte of "f" is "MY", as in section 10 of RFC 4648 |
| `Base32.EncodeBytes` | aegis/backend/src/totp.rs:74-91 | the loops over a 32-bit buffer that discards high bits compute the encoding of section 6 of RFC 4648 without padding |
| `Base32.DecodeText` | aegis/backend/src/totp.rs:93-108 | the loop computes the decoding, ignoring whitespace and padding and either case of letters, and fails exactly on a foreign character |
| `PrefixMatch.ShiftMatchIsSamePrefix` | crates/ald-edge/src/lib.rs:236-252 | the shift test says whether the first prefix bits agree, for every prefix above 0, also beyond the word width |
| `PrefixMatch.InRangeV4IsSamePrefix` | crates/ald-network/src/lib.rs:84-92 | so does the mask test, for every prefix |
| `PrefixMatch.InRangeV6IsSamePrefix` | crates/ald-network/src/lib.rs:94-110 | so does the octet test, for every prefix |
| `PrefixMatch.ContainsIsSamePrefix` | crates/ald-network/src/lib.rs:71-81 | containment is equality of the first prefix bits within one address family and false across families |
| `PrefixMatch.MatchersAgreeIff` | crates/ald-edge/src/lib.rs:235-252 | the two matchers agree if and only if the prefix is above 0, the families differ, or the build wraps and the addresses are equal |
| `PrefixMatch.PrefixZeroDisagrees` | crates/ald-edge/src/lib.rs:241-242 | two different addresses and prefix 0: one matcher says yes, the other does not, in either build |
| `PrefixMatch.MatchOctets` | crates/ald-network/src/lib.rs:94-110 | the loop that decrements the remaining bits decides equality of the first prefix bits |
| `Xorshift.Seeded` | client/simulation-client/src/lib.rs:22-25 | the initial state is not 0 |
| `Xorshift.NextIsNeverZero` | client/simulation-client/src/lib.rs:27-34 | the generator never reaches the state 0 |
| `Xorshift.Draw` | client/simulation-client/src/lib.rs:36-42 | a bounded draw is below its bound |
| `Xorshift.KnownStates` | client/simulation-client/src/lib.rs:27-34 | the successors of single-bit states fix the three shift amounts and directions; the first draw of seed 0 |
| `Xorshift.KnownDraws` | client/simulation-client/src/lib.rs:36-42 | draws as remainders, in figures |
| `Simulation.QueueMirrorsClients` | client/simulation-client/src/lib.rs:173-187 | the waitlist has no duplicates and a client is at position p if and only if it is entry p - 1 |
| `Simulation.PromoteAt` | client/simulation-client/src/lib.rs:173-187 | a promotion starts the first client loading, moves every other queued client up by one and leaves all others alone |
| `Simulation.StepKeepsValid` | client/simulation-client/src/lib.rs:169-263 | every step keeps the queue invariant, each client's balance of events and its dimension in range, and the generator off 0 |
| `Simulation.EveryRun` | client/simulation-client/src/lib.rs:150-263 | these hold after any number of steps of any scenario: sent is received plus dropped, loss rate 0 drops nothing, loss rate 1000 or more drops everything, no disconnect rate means no reconnect, disconnect rate 1000 or more means nothing is sent, and the waitlist never exceeds the queue depth |
| `Simulation.StepProgress` | client/simulation-client/src/lib.rs:189-262 | with no disconnects every step lowers the rank of each client outside the world and keeps the others in it |
| `Simulation.RunProgress` | client/simulation-client/src/lib.rs:169-263 | over n steps a client is in the world or its rank has dropped by n |
| `Simulation.ReachesWorld` | client/simulation-client/src/lib.rs:169-263 | from any reachable state a client is in the world after as many steps as its rank, and stays |
| `Simulation.EveryoneReachesWorld` | client/simulation-client/src/lib.rs:150-263 | from the start every client is in the world after 3 + 2 * queue depth + manifest steps (at least one for the manifest) |
| `Simulation.NoShortcuts` | client/simulation-client/src/lib.rs:169-263 | over all scenarios: who is newly in the world had loaded all but the last resource or was let in from the queue with at most one to load; who newly loads was the head of the queue on an even tick or had tried twice with the queue full or absent; who is newly queued was handshaking; a reconnecting client handshakes exactly from its retry tick on |
| `Simulation.NotBefore` | client/simulation-client/src/lib.rs:169-263 | in no scenario is a client in the world before step 3 + manifest (at least one for the manifest) |
| `Simulation.InWorldIff` | client/simulation-client/src/lib.rs:169-263 | with queue depth 0 and no disconnects a client is in the world after n steps if and only if n is at least that |
| `Simulation.NothingBefore` | client/simulation-client/src/lib.rs:169-263 | until then it has sent, received, dropped and reconnected nothing, and has counted every tick |
| `Simulation.WorldTick` | client/simulation-client/src/lib.rs:226-254 | which of the generator's draws decides disconnection, change of dimension and loss of the event, and how many a tick takes |
| `Simulation.QueueLength` | client/simulation-client/src/lib.rs:278-283 | as many clients are in the queue state as the waitlist has entries |
| `Simulation.SimulationCluster.constructor` | client/simulation-client/src/lib.rs:150-158 | the start state, which satisfies the invariant |
| `Simulation.SimulationCluster.Advance` | client/simulation-client/src/lib.rs:169-263 | the object performs the step, which `NoShortcuts` and `WorldTick` fix client by client, and keeps the invariant |
| `Simulation.SimulationCluster.PromoteQueue` | client/simulation-client/src/lib.rs:173-187 | the promotion with its renumbering loop is the promotion transition |
| `Simulation.SimulationCluster.StepClients` | client/simulation-client/src/lib.rs:189-262 | the loop over clients, each seeing the queue and generator the last one left |
| `Simulation.SimulationCluster.ComputeMetrics` | client/simulation-client/src/lib.rs:266-295 | the counters are the sums and counts over the clients, sent is received plus dropped, and what is counted as queued is the waitlist's length |
| `Entities.GetIffLive` | crates/ald-ecs/src/lib.rs:61-67 | an id resolves if and only if it is live, and to its own entity |
| `Entities.SpawnLive` | crates/ald-ecs/src/lib.rs:46-59 | a spawn adds one id that was not live, resolves it to an active entity of the given authority, and leaves what every other id resolves to |
| `Entities.DestroyLive` | crates/ald-ecs/src/lib.rs:77-89 | a destroy succeeds if and only if its id is live, removes exactly that id, and leaves what every other id resolves to |
| `Entities.LastVacatedFirst` | crates/ald-ecs/src/lib.rs:47-89 | the slot destroyed last is the first to be used again, under the next generation |
| `Entities.NewSlotIff` | crates/ald-ecs/src/lib.rs:47-59 | a new slot is made if and only if none is vacant |
| `Entities.SpawnContinues` | crates/ald-ecs/src/lib.rs:47-59 | the k-th id issued for a slot carries generation k modulo 2^32 |
| `Entities.DestroyContinues` | crates/ald-ecs/src/lib.rs:78-89 | a destroy keeps that numbering |
| `Entities.IdsDistinctIff` | crates/ald-ecs/src/lib.rs:47-89 | no id is issued twice if and only if no slot is handed out more than 2^32 times |
| `Entities.EntityStore.constructor` | crates/ald-ecs/src/lib.rs:42-44 | no live ids |
| `Entities.EntityStore.SpawnEntity` | crates/ald-ecs/src/lib.rs:47-59 | the object performs the spawn; the free list still holds each vacant slot exactly once |
| `Entities.EntityStore.GetEntity` | crates/ald-ecs/src/lib.rs:61-67 | returns an entity if and only if the id is live |
| `Entities.EntityStore.DestroyEntity` | crates/ald-ecs/src/lib.rs:78-89 | the object performs the destroy; the free list still holds each vacant slot exactly once |
| `Entities.EntityStore.Count` | crates/ald-ecs/src/lib.rs:97-99 | the number of live ids |
| `Dimensions.MembersCompleteIff` | crates/ald-ecs/src/dimensions.rs:79-94 | the listing is sound, and complete if and only if the plane is not the default one or no live entity is unassigned |
| `Dimensions.UnassignedIsUnlisted` | crates/ald-ecs/src/dimensions.rs:79-94 | one spawned, unassigned entity is in the default plane and not listed there |
| `Dimensions.VisibilityIsAnEquivalence` | crates/ald-ecs/src/dimensions.rs:96-102 | visibility is an equivalence on live ids and false for dead ones |
| `Dimensions.VisibleIff` | crates/ald-ecs/src/dimensions.rs:96-102 | after any run in which no reissued id still has an assignment, two ids see each other if and only if both are live and were last put into the same plane |
| `Dimensions.GenerationalIdentity` | crates/ald-ecs/src/lib.rs:47-89 | over any interleaving of operations an id resolves if and only if it was spawned and not destroyed since, and ids repeat only past 2^32 uses of one slot |
| `Dimensions.CyclesReuseIff` | crates/ald-ecs/src/lib.rs:47-89 | the run that hands one slot out and back n times issues n ids, which are distinct if and only if n is at most 2^32 |
| `Dimensions.CheckedIdsAreDistinct` | crates/ald-ecs/src/lib.rs:77-84 | in a build that stops on overflow of a generation, no run ever issues an id twice |
| `Dimensions.PlaneIsLastAssignment` | crates/ald-ecs/src/dimensions.rs:1-6 | at every moment of any run each live id reads as the plane last assigned to that very id, else the default, and any other id as nothing, if and only if no spawn reissues an id that still has an assignment; which holds whenever ids are not reused |
| `Dimensions.ReusedIdInherits` | crates/ald-ecs/src/dimensions.rs:47-62 | a run of 2^32 uses of one slot after which a new entity reads as the plane of an old one, unless a prune came before |
| `Dimensions.PruneIsUnobservable` | crates/ald-ecs/src/dimensions.rs:69-77 | at every moment of any run each id reads as if nothing were ever pruned, if and only if no spawn reissues an id whose assignment a prune dropped; which holds whenever ids are not reused |
| `Dimensions.DimensionMap.constructor` | crates/ald-ecs/src/dimensions.rs:39-41 | no assignments |
| `Dimensions.DimensionMap.SetDimension` | crates/ald-ecs/src/dimensions.rs:49-55 | assigns exactly when the id is live, and refuses otherwise |
| `Dimensions.DimensionMap.RemoveAssignment` | crates/ald-ecs/src/dimensions.rs:65-67 | forgets one assignment and says whether there was one |
| `Dimensions.DimensionMap.Prune` | crates/ald-ecs/src/dimensions.rs:70-77 | keeps exactly the live ids' assignments and counts the others |
| `LagCompensation.RecordKeepsNewest` | crates/ald-lagcomp/src/lib.rs:56-65 | after a record the track is the newest capacity distinct ticks ever written, each with its last value |
| `LagCompensation.NewestIsUnique` | crates/ald-lagcomp/src/lib.rs:56-65 | only one track is the newest part of a given record |
| `LagCompensation.TracksAreNewest` | crates/ald-lagcomp/src/lib.rs:56-87 | after any out-of-order, repeating sequence of records and forgets, exactly the recorded entities are tracked and each track is the newest part of that entity's record |
| `LagCompensation.AtNoneIff` | crates/ald-lagcomp/src/lib.rs:67-82 | there is no position if and only if the tick is outside the retained span |
| `LagCompensation.AtIsBracketed` | crates/ald-lagcomp/src/lib.rs:73-81 | between samples the position is between the two bracketing ones in every coordinate |
| `LagCompensation.AtIsProportional` | crates/ald-lagcomp/src/lib.rs:80-81 | and divides their distance as the tick divides the time between them |
| `LagCompensation.HistoryBuffer.constructor` | crates/ald-lagcomp/src/lib.rs:52-54 | an empty buffer of capacity at least 2 |
| `LagCompensation.HistoryBuffer.RecordSample` | crates/ald-lagcomp/src/lib.rs:59-65 | the object is the buffer of the extended sequence of events |
| `LagCompensation.HistoryBuffer.PopToFit` | crates/ald-lagcomp/src/lib.rs:62-64 | the loop keeps the newest capacity entries |
| `LagCompensation.HistoryBuffer.ForgetEntity` | crates/ald-lagcomp/src/lib.rs:84-87 | drops an entity and says whether it was tracked |
| `LagCompensation.HistoryBuffer.PositionAt` | crates/ald-lagcomp/src/lib.rs:68-82 | none if and only if the entity is untracked or the tick outside the span; at a retained tick, the value last written in the full record |
| `ContentStore.CommitIsAtomic` | crates/ald-cache/src/lib.rs:163-196 | a commit succeeds if and only if the name is well formed and is the staged bytes' digest; then exactly that object is stored and most recent, otherwise nothing changes and the error says which check failed, with both digests on a mismatch |
| `ContentStore.GetIsCoherent` | crates/ald-cache/src/lib.rs:198-211 | an object is served if and only if it is stored, and is then the most recent; the recency list stays a duplicate-free listing of the stored objects |
| `ContentStore.ValidHashIs` | crates/ald-cache/src/lib.rs:66-68 | a name is 64 lower-case hexadecimal digits |
| `ContentStore.EvictionIsMinimal` | crates/ald-cache/src/lib.rs:267-286 | eviction removes exactly the shortest prefix of the unprotected recency order that brings the total within quota, or all of it if none does, and nothing else |
| `ContentStore.TouchByRecency` | crates/ald-cache/src/lib.rs:288-291 | a commit or get keeps the list ordered by last access |
| `ContentStore.EvictByRecency` | crates/ald-cache/src/lib.rs:271-286 | so does eviction |
| `ContentStore.ContentCache.constructor` | crates/ald-cache/src/lib.rs:100-115 | opening an empty directory gives an empty, coherent cache |
| `ContentStore.ContentCache.CommitStaged` | crates/ald-cache/src/lib.rs:166-196 | the object performs the commit and logs an access exactly on success |
| `ContentStore.ContentCache.GetObject` | crates/ald-cache/src/lib.rs:200-211 | the object performs the get and logs an access exactly on a hit |
| `ContentStore.ContentCache.TouchObject` | crates/ald-cache/src/lib.rs:288-291 | moves the name to the end of the recency list |
| `ContentStore.ContentCache.SizeBytes` | crates/ald-cache/src/lib.rs:258-261 | the total of the recorded sizes, in whatever order they are added |
| `ContentStore.ContentCache.FindVictim` | crates/ald-cache/src/lib.rs:274 | the least recent unprotected object, if any |
| `ContentStore.ContentCache.EvictToFit` | crates/ald-cache/src/lib.rs:271-286 | the loop terminates and is the eviction, returning the victims oldest first |
| `TokenBucket.RunKeepsValid` | crates/ald-network/src/ratelimit.rs:20-32 | over every run and at every rate tokens stay within the capacity and are not negative after a grant; at a rate that is not negative they never are |
| `TokenBucket.LevelIsLeastAllowance` | crates/ald-network/src/ratelimit.rs:21-32 | from a full bucket, at every rate, the level is the least of capacity plus accrual minus grants over all windows that end now and begin with a call or with the making of the bucket |
| `TokenBucket.WindowBound` | crates/ald-network/src/ratelimit.rs:1-32 | every window of calls of every run grants at most capacity + refill * its length, if the rate is not negative or the window ends with a grant |
| `TokenBucket.RefusedIffOverLimit` | crates/ald-network/src/ratelimit.rs:20-32 | at every rate a call is refused if and only if granting it would put some window ending with it over that bound; at a rate that is not negative, some window beginning with a call |
| `TokenBucket.PromiseKeptIff` | crates/ald-network/src/ratelimit.rs:16-32 | for every capacity, tokens are never negative over all runs if and only if the refill rate is not negative, and all windows of all runs are within the bound if and only if it is not |
| `TokenBucket.NegativeRateFails` | crates/ald-network/src/ratelimit.rs:16-18 | a bucket of capacity 1 and rate -1 with calls at 0 and 10 breaks both |
| `TokenBucket.RateLimiter.constructor` | crates/ald-network/src/ratelimit.rs:16-18 | a full bucket |
| `TokenBucket.RateLimiter.Consume` | crates/ald-network/src/ratelimit.rs:21-32 | the object performs the step |
| `LoginLockout.LoginKeepsValid` | aegis/backend/src/auth.rs:93-183 | no login takes a failure counter above the limit or the audit log above its capacity |
| `LoginLockout.CompletesOnlyWithCredentials` | aegis/backend/src/auth.rs:9-14 | a login completes if and only if the account is not locked, the password is right and, where enrolled, the code is right; it reports the second factor exactly where one is enrolled |
| `LoginLockout.RefusalIs` | aegis/backend/src/auth.rs:93-152 | when each other outcome is given: locked out, with the window length as the time to wait, code required, and invalid credentials |
| `LoginLockout.AuditedIff` | aegis/backend/src/auth.rs:14-14 | an attempt appends its entry, with its actor, time and success, if and only if the account is locked, the password is wrong, no second factor is enrolled or a code is given; otherwise the log stays as it is |
| `LoginLockout.UnauditedAttempt` | aegis/backend/src/auth.rs:121-126 | a concrete attempt that leaves no entry |
| `LoginLockout.LogIsTrail` | aegis/backend/src/audit.rs:74-81 | over any run the log is the newest entries, up to its capacity, of what it held followed by one entry for each attempt that satisfies that guard, in order |
| `LoginLockout.AllAuditedIff` | aegis/backend/src/auth.rs:14-14 | while the log has room, it grows by one entry for every attempt of a run if and only if each attempt satisfies the guard when it is made |
| `LoginLockout.AccountsAreIndependent` | aegis/backend/src/auth.rs:10-11 | over any run an account's outcomes are what they would be if its attempts were the only ones |
| `LoginLockout.LockedUntilWindowEnds` | aegis/backend/src/auth.rs:94-107 | once the counter is at the limit every attempt before the window ends is locked out, whatever its credentials |
| `LoginLockout.LockIsEarned` | aegis/backend/src/auth.rs:147-170 | no attempt is locked out while earlier failures and wrong guesses together stay below the limit |
| `LoginLockout.SuccessRestoresBudget` | aegis/backend/src/auth.rs:172-173 | after a completed login it takes the full number of wrong guesses to be locked out |
| `LoginLockout.GuessingBound` | aegis/backend/src/auth.rs:93-183 | any half-open interval of one window length in any run with no completed login holds at most twice the limit of wrong guesses on an account, and at most one less when it lies past the clock's first window length |
| `LoginLockout.GuessingBoundIsTight` | aegis/backend/src/auth.rs:154-160 | for every limit, every window of at least 2 and every time past the first window length, a run that reaches twice the limit less one |
| `LoginLockout.EarlyGuessingBoundIsTight` | aegis/backend/src/auth.rs:154-160 | for every limit and every window of at least 2, a run from time 1 on that reaches twice the limit, because a missing entry counts as a window from time 0 |
| `LoginLockout.RunInIsRun` | aegis/backend/src/auth.rs:147-160 | a build performs the modelled run while every window end fits in 64 bits, and a debug build whenever it does not stop |
| `LoginLockout.NoOverflowIff` | aegis/backend/src/auth.rs:149-159 | no run up to a horizon overflows a window end if and only if the horizon is below the window length or the two sum to less than 2^64; always so while the clock is below 2^63 |
| `LoginLockout.BoundKeptIff` | aegis/backend/src/auth.rs:93-183 | a debug build keeps the guessing bound over all runs; a release build keeps it over all runs up to a horizon if and only if none of them overflows |
| `LoginLockout.WrappedWindowNeverLocks` | aegis/backend/src/auth.rs:149-159 | past that horizon a release build answers any number of wrong guesses without locking |
| `LoginLockout.LoginInKeepsValid` | aegis/backend/src/auth.rs:154-160 | even a wrapped window end keeps the failure counter within the limit |
| `LoginLockout.AuthService.constructor` | aegis/backend/src/auth.rs:75-89 | no failures, an empty log, a limit and a log capacity of at least one |
| `LoginLockout.AuthService.Locked` | aegis/backend/src/auth.rs:147-152 | the gate, with the sum made only for an account at its limit |
| `LoginLockout.AuthService.CountFailure` | aegis/backend/src/auth.rs:154-170 | the object records a failure, opening a new window when the old one is over, or stops at the sum in a debug build |
| `LoginLockout.AuthService.ClearFailures` | aegis/backend/src/auth.rs:172-183 | the object forgets the account's failures |
| `LoginLockout.AuthService.TryLogin` | aegis/backend/src/auth.rs:93-145 | the object performs the login of its build and keeps the counter within the limit; while the window end fits, that is the modelled login |
| `Migrations.EditChangesChecksum` | crates/ald-database/src/migrations.rs:28-47 | two migrations of one version that differ in exactly one byte of description or SQL have different checksums |
| `Migrations.HashOfStream` | crates/ald-database/src/migrations.rs:34-45 | the hash is that of version, zero byte, description, zero byte and SQL in one stream |
| `Migrations.ChecksumSpells` | crates/ald-database/src/migrations.rs:46 | the checksum is 16 lower-case hexadecimal digits that spell the hash |
| `Migrations.KnownHash` | crates/ald-database/src/migrations.rs:34-40 | the FNV-1a hashes of nothing and of "a" are the published ones |
| `Migrations.KnownMigration` | crates/ald-database/src/migrations.rs:31-47 | the hash of an empty migration of version 1 |
| `Migrations.DecimalReads` | crates/ald-database/src/migrations.rs:41 | the version is hashed as its decimal digits |
| `Migrations.StreamDetermines` | crates/ald-database/src/migrations.rs:41-45 | the stream determines the migration among those whose descriptions hold no zero byte |
| `Migrations.StreamIsItsOwnIff` | crates/ald-database/src/migrations.rs:28-45 | a migration shares its stream with no other if and only if neither its description nor its SQL holds a zero byte |
| `Migrations.SeparatorEditIsUnseen` | crates/ald-database/src/migrations.rs:28-45 | two different migrations of one version with equal checksums |
| `Migrations.SortSorts` | crates/ald-database/src/migrations.rs:83 | sorting distinct versions gives a strictly ascending permutation |
| `Migrations.PlanPartitions` | crates/ald-database/src/migrations.rs:91-112 | each migration is in exactly one of applied, skipped and drift, by its last record, and each list ascends |
| `Migrations.PlanListsOnlyVersions` | crates/ald-database/src/migrations.rs:101-112 | the lists together hold exactly the available versions |
| `Migrations.EditShowsAsDrift` | crates/ald-database/src/migrations.rs:12-13 | an applied migration edited in one byte is reported as drift, an unedited one is skipped |
| `Migrations.AppliesInOrderIff` | crates/ald-database/src/migrations.rs:7-8 | nothing is applied below a recorded version if and only if the first available version not on record is above the whole history; the available versions on record are then a prefix |
| `Migrations.GapIsFilledLate` | crates/ald-database/src/migrations.rs:114-124 | a gap in the history is not refused |
| `Migrations.OlderBinaryAppliesBelow` | crates/ald-database/src/migrations.rs:96-112 | version 3 is applied with only version 5, which is not available, on record |
| `Migrations.PlanAfterApplying` | crates/ald-database/src/migrations.rs:127-151 | once a plan's entries are recorded, planning again applies nothing, skips what was applied and reports the same drift |
| `Migrations.FeedBytes` | crates/ald-database/src/migrations.rs:35-40 | the byte loop is the fold of the hash step |
| `Migrations.ComputeChecksum` | crates/ald-database/src/migrations.rs:31-47 | the checksum of the migration's version, description and SQL |
| `Migrations.NewMigrator` | crates/ald-database/src/migrations.rs:75-85 | fails if and only if two versions are equal, naming the first one that repeats an earlier one, and otherwise returns the strictly ascending permutation |
| `Migrations.ComputePlan` | crates/ald-database/src/migrations.rs:96-125 | the planning loop is the plan |

## Left out

- Floating-point rounding: positions, token levels and interpolation are reals; NaN and infinite coordinates are not modelled, and the square root in a distance comparison is replaced by the comparison of squares.
- Overflow of 64-bit sums: `chunk_range`'s start plus chunk length, served counters, and days beyond a signed 64-bit count are taken as unbounded numbers. The `checked_add` refusal in `receive` coincides with the bounds refusal.
- EntityStore: components and `get_mut` are not modelled, nor a slot index beyond 32 bits.
- DestroyEntity: the object's generation wraps, as in a build without overflow checks; for a build with them, `CheckedIdsAreDistinct` speaks of the runs that have not been stopped.
- Advance: coordinates and heading in the world (trigonometry) are not modelled, but every draw they take from the generator is; 32-bit counters are unbounded, and clients are numbered below 2^32.
- StepClients: the same.
- MessagePack.RoundTripsIffRepresentable: speaks of a value together with all its parts, because leftover bytes of one part can be read as another part, as `LuckyRoundTrip` shows; which values round-trip by such luck is not characterised.
- MessagePack.ReadIsJson: takes from the host only that number text is valid UTF-8 and that a widened 32-bit float is a JSON value; recursion depth and allocation limits are not modelled.
- MessagePack objects are kept in ascending key order, which is the JSON library's default map.
- ContentStore.ContentCache.constructor: opens an empty directory; the scan of an existing one is left out.
- ContentCache: files change only through the cache. Staging files, I/O errors, `verify`, `verify_all` and `repair` are left out.
- TryLogin: session tokens and the detail text and address of audit entries are left out; password and code checks are inputs.
- CountFailure: the detail text and address of the entry are left out.
- ClearFailures: the same.
- HistoryBuffer: the buffer is built by its constructor; the derived default one, of capacity 0, is covered by the lemmas on tracks only. `rewind_allowed` and `hit_landed` are single comparisons.
- PlanAfterApplying: the statements bind the version as a signed 64-bit number, so from 2^63 on the history table holds a negative one; reading the table back is not part of the repository, and the model takes it to return the version that was written. The SQL text of the statements is left out.
- Calendar: times are nanoseconds since the epoch, and earlier ones count as the epoch, as in the code.
- The watchdog, the file logger, sockets and asynchronous tasks, process and registry handling, Lua and native libraries, Ed25519, SHA-256, HMAC and password hashing: I/O, foreign code or cryptography.
- The front end, command lines, configuration and serialisation structures, and the manifest lexer: no property of the kind proved here.
- Firewall, identity, entitlement, permission, game-build, negotiation, bucket and registry checks, and the small linear machines (mount, join driver, deferrals, ownership transfer, circuit breaker): they would only add easy members.
- The session manager's address map: creating a session twice for one address breaks its two-way mapping, so there is no invariant to state.
