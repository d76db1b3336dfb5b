# Verification of the live-map demo and the event pipeline

This project models the parts of the repository that carry state or arithmetic worth a proof, and
proves what they promise over every input, every run or every interleaving.

The demo polls public GTFS Realtime feeds and shows vehicles on a map. A **scheduler** picks at most
one region a tick from the regions that browser **sessions** are watching; the **poll loop** ties it to
the store and to a **health** counter. Positions go into one IsleDB database per agency, and are seen
through **three views**: an in-memory index, a key-range scan, and a framed **replay** of the change
feed. Streams are told of new polls through **capacity-one channels**. A Cloudflare **worker** ports
the same service with a hand-written Protocol Buffers reader and a conditional upsert as a lock.
Beside it, a simulation **generates** events with duplicate retries, writes them and **verifies** the
scans.

| file | what it models |
|---|---|
| `ByteStrings.dfy`, `Keys.dfy` | Go strings in byte order, sorting, prefix ranges; keys, decimal text, splitting |
| `Catalog.dfy`, `Sessions.dfy`, `Scheduler.dfy`, `PollLoop.dfy`, `Starvation.dfy` | regions, sessions, the coordinator, runs of the poll loop, endless unfair runs |
| `Positions.dfy`, `Pipeline.dfy`, `ChangeFeed.dfy`, `Replay.dfy`, `ReplayWindow.dfy`, `Views.dfy` | the write log, the pipeline object, paging, replay, and the agreement of the views |
| `Notify.dfy` | notification steps in any interleaving |
| `Wire.dfy`, `GtfsDecoder.dfy`, `Claim.dfy` | the worker's parser, its decoder against encoded messages, its claim |
| `Generator.dfy`, `Tenants.dfy`, `Verification.dfy`, `Deduplication.dfy`, `Simulation.dfy` | events, tenant stores, `Verify`, and the simulation that runs them together |

Code that changes state is modelled by classes and loops (`SessionStore`, `PollCoordinator`,
`WriteHealth`, `Poller`, `Pipeline`, `PollSubscriptions`, `RegionPollState`, `EventPipeline`), each
method proved against a function of the old state; the laws are then lemmas about those functions and
about runs of them. What each function means is also stated once in plain terms, with the numbers of the
source written out (lemmas named `...Is` or `...Are`), apart from the definitions it is built from. Map iteration is an arbitrary choice of the next key, an unstable sort is any
arrangement its comparison allows, and a page of the change feed is any non-empty stretch.

**Conventions.** Go times are integers of nanoseconds since Go's zero time, so `IsZero` is `== 0`;
`UnixNano` wraps like an int64. Each call happens at one instant, passed in. A Go string is a sequence of
bytes. IsleDB is a log of puts of which a flush commits a prefix: the key-value contents are the last
committed put of each key, the change feed is the committed log, and puts and flushes may fail.

**Findings.** These promises hold only under a condition, and the condition is exact or shown to be sharp.

* A scan sees the index's vehicles if and only if no two vehicle ids of an agency agree up to their first
  colon (`Views.ScanVehiclesIff`), because `VehicleIDFromKey` cuts the id there. It sees their times as well
  if and only if, besides, no vehicle's newest time is overwritten by a write whose nanosecond count wraps
  to the same int64 (`Views.ScanTimesIff`), and only then does a restart go unnoticed
  (`Views.RestartTransparentIff`). Whole seconds of the years 0 to 9999 never wrap
  (`Views.WholeSecondsDoNotWrap`); times with fractions can, 1500 against 2084 for one
  (`Views.YearsCanWrap`).
* Which regions can starve: from any state whose polls are at least 60 seconds old, a region that is watched
  and due can be passed over for ever if and only if it is not `klang-valley` and it is `penang` or was never
  polled (`Starvation.CanStarveIff`). The comment at `internal/demo/poll.go:130-132` says that a non-priority
  region cannot starve; that fails for one never polled. Of `penang`, which is a priority region, it promises
  nothing.
* Session choices of 10 and 20 seconds never change how often a region is fetched
  (`Scheduler.LiveIntervalIsFloor`).
* The worker decodes what the Go poller's id rule yields if and only if no in-bounds entity has a descriptor
  that names nothing while the entity has an id, and no kept vehicle has a timestamp that a JavaScript date
  cannot hold (`GtfsDecoder.WorkerMatchesPollerIff`). For repeated fields it takes the first occurrence, which
  is what Protocol Buffers keeps if and only if first and last agree (`GtfsDecoder.FindIsLastIff`).
* The worker's `last_poll_ms` never decreases if and only if no completion is stamped before its row
  (`Claim.LastPollNeverDecreasesIff`), and under that condition alone the lock keeps its distances. A slow
  clock breaks it, and so does a completion whose statement lands late.
* Two different agencies can share a key if and only if one of them followed by a colon is a prefix of the
  other (`Keys.AgenciesCollideIff`).
* `Verify` does not look at retries of tenants that have no first emission
  (`Deduplication.VerifyAcceptsIff`).

## Model

| member | source | states |
|---|---|---|
| `ByteStrings.SortUnique` | internal/pipeline/verify.go:87 | Sorting strings has one possible outcome: any sorted arrangement of the same elements is it. |
| `ByteStrings.PrefixUpperBound` | internal/gtfs/types.go:56-65 | The backward loop over the byte buffer yields a bound whose half-open range holds exactly the keys with the prefix, or exactly the prefix itself when every byte is 0xff. |
| `ByteStrings.RangeMeaning` | internal/model/event.go:80-90 | For every prefix and key: which keys a range scan meets, the all-0xff prefix included. |
| `ByteStrings.RangeExactIff` | internal/gtfs/types.go:47-65 | The range is the set of keys with the prefix if and only if some byte of the prefix is not 0xff. |
| `Keys.ParseIntInvertsFormat` | internal/gtfs/types.go:82 | Decimal text of any integer is read back exactly within int64, negative ones included, and clamped outside it. |
| `Keys.DecimalText` | internal/gtfs/types.go:26 | Sample texts: a sign for negative numbers, the most significant digit first. |
| `Keys.OtherText` | internal/gtfs/types.go:82 | A plus sign is skipped; nothing, a sign alone or a foreign byte give 0. |
| `Keys.KeyLayout` | internal/gtfs/types.go:25-27 | A position key is agency, colon, vehicle id, colon, decimal nanoseconds. |
| `Keys.ForeignKeys` | internal/gtfs/types.go:68-84 | Keys with one or two parts, or foreign text for a timestamp: the id is empty without a second part, the timestamp 0 without a third. |
| `Keys.PositionKeyInjective` | internal/gtfs/types.go:25-27 | With colon-free agencies a key determines agency, vehicle id and nanoseconds, even when vehicle ids hold colons. |
| `Keys.ColonAgencyCollides` | internal/gtfs/types.go:25-27 | The colon-free condition is needed: two different positions with one key. |
| `Keys.AgenciesCollideIff` | internal/gtfs/types.go:25-27 | Two different agencies share a key, for some vehicle ids and times, if and only if one of them followed by a colon is a prefix of the other. |
| `Keys.VehicleIDRecoveredIff` | internal/gtfs/types.go:68-74 | The vehicle id is read back from its key if and only if it has no colon. |
| `Keys.VehicleIDOfKey` | internal/gtfs/types.go:68-74 | In general the id read back is the part before the first colon. |
| `Keys.HeadIs` | internal/gtfs/types.go:68-74 | That part is a colon-free prefix, followed by a colon unless it is all. |
| `Keys.TimestampRecoveredIff` | internal/gtfs/types.go:77-84 | Every int64 timestamp is read back if and only if the vehicle id has no colon. |
| `Keys.AgencyScanExact` | internal/gtfs/types.go:47-54 | A scan of one agency meets exactly the keys that start with "agency:". |
| `Keys.ScanRangesDisjoint` | internal/model/event.go:61-68 | Scans of different colon-free agencies or tenants have no key in common. |
| `Keys.TenantRecoveredIff` | internal/model/event.go:92-97 | The tenant is read back from an event key if and only if it is non-empty and colon-free. |
| `Keys.EventKeyLayout` | internal/model/event.go:39-41 | An event key is tenant, colon, type, colon, idempotency key; a key without a tenant is its own tenant. |
| `Keys.EventKeyInjective` | internal/model/event.go:39-41 | An event key determines tenant, type and idempotency key when tenant and type are colon-free. |
| `Keys.TypeRangeNests` | internal/model/event.go:71-78 | A type's range holds exactly that type's keys and lies inside its tenant's range. |
| `Catalog.RegionHasFeeds` | internal/gtfs/regions.go:122-138 | Every region of the catalog, and no other id, has feeds, and at least one. |
| `Catalog.FeedsAreTheBuckets` | internal/gtfs/feeds.go:22-41 | A region's feeds are exactly those whose own bucket is that region: the region table and the feed table agree. |
| `Sessions.RunValid` | internal/demo/session.go:271-309 | Whatever clients do in whatever order, sessions name catalog regions and intervals of 10, 20 or 30 seconds, and live counts are positive. |
| `Sessions.LiveIffInterval` | internal/demo/session.go:311-335 | A region is listed as live if and only if its interval is non-zero; the interval is then the choice of one of its viewers and at most every viewer's. |
| `Sessions.LiveRegionsAre` | internal/demo/session.go:235-258 | A region is live if and only if a connected session on it reported less than five minutes ago. |
| `Sessions.FreshSession` | internal/demo/session.go:169-206 | A session first heard of starts on klang-valley at 10 seconds, but for what it sets itself. |
| `Sessions.NothingChanges` | internal/demo/session.go:189-231 | Calls for the empty id, refused settings and releases without a stream change nothing. |
| `Sessions.SessionIsolated` | internal/demo/session.go:187-206 | Over any interleaving, a session that reports at gaps under five minutes keeps the region and interval it last chose itself. |
| `Sessions.IdleSessionDropped` | internal/demo/session.go:122-138 | A read keeps a session, as it is, if and only if it has reported and has been silent for less than five minutes. |
| `Sessions.LiveCountsStreams` | internal/demo/session.go:208-231 | With matched acquire and release the count is the number of open streams, and none is stored at zero. |
| `Sessions.SessionStore.PruneExpired` | internal/demo/session.go:129-138 | Removes exactly the expired sessions and says whether there were any. |
| `Sessions.SessionStore.TouchSession` | internal/demo/session.go:189-206 | Records the report, starting new sessions on the default region, and prunes. |
| `Sessions.SessionStore.AcquireLive` | internal/demo/session.go:209-216 | One more stream for the session; the empty id changes nothing. |
| `Sessions.SessionStore.ReleaseLive` | internal/demo/session.go:219-231 | One stream fewer, and no entry once none is left. |
| `Sessions.SessionStore.ChooseRegion` | internal/demo/session.go:271-283 | Switches the session's region and reports whether it could be persisted, or errs and changes nothing for an unknown region. |
| `Sessions.SessionStore.ChoosePollSeconds` | internal/demo/session.go:296-309 | Stores 10, 20 or 30 seconds and reports whether it could be persisted, or errs and changes nothing. |
| `Sessions.SessionStore.LiveRegionIDs` | internal/demo/session.go:235-258 | Lists, without duplicates and in any order, exactly the regions with a connected unexpired viewer. |
| `Sessions.SessionStore.MinPollIntervalForRegion` | internal/demo/session.go:313-335 | The least of the live viewers' choices, 0 when there is none. |
| `Scheduler.LiveIntervalIsFloor` | internal/demo/poll.go:119-128 | A live region's fetch interval is exactly 30 seconds whatever its viewers choose; any other's is the fallback, or 30 seconds if that is longer. |
| `Scheduler.PreferTotal` | internal/demo/poll.go:177-194 | The four-level comparison is irreflexive and asymmetric, and decides between any two different ids. |
| `Scheduler.PreferTransitive` | internal/demo/poll.go:177-194 | The comparison is transitive, hence a strict total order on regions. |
| `Scheduler.ChoiceIsTheFirst` | internal/demo/poll.go:147-175 | A region is the tick's choice if and only if it precedes every other due live region, so no iteration order matters. |
| `Scheduler.NextDueIs` | internal/demo/poll.go:133-194 | What a tick chooses, in plain terms: nothing when no watched region is due; otherwise the watched due region of least rank, then never polled, then polled longest ago, then least by id. |
| `Scheduler.ScheduledPlanIs` | internal/demo/poll.go:70-80 | A tick plans the feeds of the chosen region, or nothing. |
| `Scheduler.SwitchPlanIs` | internal/demo/poll.go:84-96 | A switch plans the feeds of every known region that is not fresh, errs on an unknown one, and leaves a fresh one. |
| `Scheduler.MarkedIs` | internal/demo/poll.go:56-65 | Marking stamps the listed regions and leaves the others. |
| `Scheduler.PrunedIrrelevant` | internal/demo/session.go:129-138 | Pruning expired sessions in the middle of a decision changes neither staleness nor priority. |
| `Scheduler.PollCoordinator.NextDueRegion` | internal/demo/poll.go:147-175 | The running-best loop finds that region in whatever order candidates come, and "" exactly when none is due. |
| `Scheduler.PollCoordinator.MarkPolled` | internal/demo/poll.go:56-65 | Stamps exactly the given regions. |
| `Scheduler.PollCoordinator.Interval` | internal/demo/poll.go:119-128 | The viewers' interval or the fallback, never under 30 seconds. |
| `Scheduler.PollCoordinator.IsStale` | internal/demo/poll.go:196-205 | Never polled, or at least an interval ago. |
| `Scheduler.PollCoordinator.Priority` | internal/demo/poll.go:133-143 | The fixed rank, or the top one after twice the interval. |
| `Scheduler.PollCoordinator.FeedsForScheduledPoll` | internal/demo/poll.go:70-80 | Plans the chosen region's feeds, or nothing. |
| `Scheduler.PollCoordinator.FeedsForRegionSwitch` | internal/demo/poll.go:84-96 | Plans the region if it is stale, errs on an unknown one, and falls back to the schedule for "". |
| `PollLoop.UpstreamRateBound` | cmd/demo/main.go:136-188 | In every run, mixing scheduled and region-switch polls with any viewers and choices, a region is not planned again within 30 seconds of its last completed poll. |
| `PollLoop.PollLeaves` | cmd/demo/main.go:136-188 | What each outcome leaves: which ones stamp the region, which clear or count failures, and which stop the loop. |
| `PollLoop.TerminalEndsPolling` | cmd/demo/main.go:127-134 | After a terminal failure no later event polls. |
| `PollLoop.OvertakenOnce` | internal/demo/poll.go:133-194 | While a watched eligible region waits, each other region completes a scheduled poll at most once. |
| `PollLoop.BoundedOvertaking` | internal/demo/poll.go:133-194 | An eligible region that stays watched is polled within eight completed scheduled polls, whatever switch polls and failures come between. |
| `PollLoop.ServedWithinEightTicks` | cmd/demo/main.go:190-222 | The bound in ticks: eight ticks with a completing outcome serve a watched eligible region, since none of them is idle. |
| `PollLoop.FailuresAccumulate` | cmd/demo/main.go:159-174 | On a store that keeps failing, a watched due region makes every tick poll, fail and count. |
| `PollLoop.FaultDetected` | internal/demo/health.go:38-58 | Health fails within a threshold's worth of ticks. |
| `PollLoop.HealthIsExact` | internal/demo/health.go:21-58 | Over every run, unhealthy if and only if the failures since the last stored poll reach the threshold. |
| `PollLoop.WriteHealth.RecordFailure` | internal/demo/health.go:46-51 | One more consecutive failure, whose error is kept. |
| `PollLoop.WriteHealth.RecordSuccess` | internal/demo/health.go:38-43 | The count returns to zero and the last error is cleared. |
| `PollLoop.WriteHealth.Healthy` | internal/demo/health.go:54-58 | Below the threshold. |
| `PollLoop.Poller.RunPoll` | cmd/demo/main.go:136-188 | Only a poll that stored positions or found none marks the region and moves the last poll's time, and only a stored one notifies; failures count and a terminal one stops the loop. |
| `PollLoop.Poller.Scheduled` | cmd/demo/main.go:190-197 | A tick is the step relation's tick on the sessions it sees. |
| `PollLoop.Poller.ForRegion` | cmd/demo/main.go:199-210 | A region switch is the step relation's switch. |
| `Starvation.StarvesForever` | internal/demo/poll.go:133-142 | From any state whose polls are at least 60 seconds old, on an exact 10-second tick with polls of any positive duration under a tick, seven regions rotate for ever and the eighth, watched, is never polled. |
| `Starvation.EligibleIsServed` | internal/demo/poll.go:133-194 | A region eligible at the start and watched from the eighth event on is polled before fifteen scheduled polls complete without it. |
| `Starvation.CanStarveIff` | internal/demo/poll.go:130-194 | From any state whose polls are at least 60 seconds old, a watched region can be passed over for ever if and only if it is not klang-valley and it is penang or was never polled. |
| `Starvation.NeverPolledStarves` | internal/demo/poll.go:138-142 | So every never-polled region but klang-valley can wait for ever. |
| `Starvation.PenangStarves` | internal/demo/poll.go:135-137 | So can penang, polled before or not. |
| `Positions.SeenIsLatest` | internal/demo/pipeline.go:176-181 | The incremental index has exactly the vehicles written, each with one of its own positions of the latest time. |
| `Positions.SeenIsFirstOfLatest` | internal/demo/pipeline.go:176-181 | Of equal timestamps the index keeps the first: of every vehicle it holds the first write of the latest time. |
| `Positions.UnixNanoRange` | internal/gtfs/types.go:26 | UnixNano counts nanoseconds from 1970 modulo 2^64, within int64. |
| `Positions.ContentsMeaning` | internal/demo/pipeline.go:171 | A key holds the last position put under it. |
| `Positions.VehicleKeyInjective` | internal/demo/pipeline.go:178 | The index key determines the vehicle for colon-free agencies. |
| `Pipeline.Pipeline.Write` | internal/demo/pipeline.go:160-186 | Everything up to the first unknown agency or rejected put is written: each database gains its positions in order, the index absorbs them, the counters move. |
| `Pipeline.Pipeline.constructor` | internal/demo/pipeline.go:104-120 | A restart rebuilds the index from the stored contents, one latest position per agency and id head. |
| `Pipeline.Pipeline.FlushAll` | internal/demo/pipeline.go:417-427 | Commits whole databases, all of them unless one fails. |
| `Pipeline.Pipeline.ScanAgency` | internal/demo/pipeline.go:380-414 | The range scan of one database yields a latest visible position for every id head, in whatever order keys come. |
| `Pipeline.MergeInto` | internal/demo/pipeline.go:366-371 | Merging keeps the later of two positions with one key and loses none. |
| `Pipeline.Pipeline.ScanLatest` | internal/demo/pipeline.go:359-378 | Over all databases, in any order: one latest position for every agency and id head. |
| `Pipeline.IngestIsNewestFirst` | internal/demo/pipeline.go:264-267 | The debug buffer holds the last ten writes, newest first. |
| `ChangeFeed.DrainChangeFeed` | internal/pipeline/changefeed.go:44-79 | Every change is applied once and in order, wherever the pages break; when a read or an application fails, exactly the changes before it. |
| `ChangeFeed.CountChangeFeed` | internal/pipeline/changefeed.go:11-41 | The count is the length of the feed, or of the part before the failing read, wherever the pages break. |
| `ChangeFeed.SummarizeChangeFeed` | internal/pipeline/changefeed.go:90-139 | The number of puts, the tight bounds of their positive timestamps and emptiness, wherever the pages break; no bounds without a timestamp function; up to a failing read. |
| `ChangeFeed.PutKeysAre` | internal/pipeline/changefeed.go:113-117 | The summary counts the changes that are puts, and no others. |
| `Replay.CollectMutations` | internal/demo/replay.go:129-158 | Gathers the region's puts up to To, agency by agency, wherever the pages break; only a failing read fails it. |
| `Replay.MutationsAre` | internal/demo/replay.go:129-153 | The mutations are the committed puts of the region's agencies with a timestamp of at most To, or all without one. |
| `Replay.AtIs` | internal/demo/replay.go:150 | A mutation's second is the whole second at or before its timestamp. |
| `Replay.ReplayOrderIs` | internal/demo/replay.go:160-168 | Whatever the unstable sort leaves, seconds never decrease, nor agencies within a second, nor vehicle ids within an agency. |
| `Replay.BucketBySecond` | internal/demo/replay.go:174-188 | The bucketing loop is the one-mutation-at-a-time framing. |
| `Replay.BucketMeaning` | internal/demo/replay.go:174-188 | Frames partition the mutations in order, each non-empty and of one second, neighbours of different seconds. |
| `Replay.FramesIncrease` | internal/demo/replay.go:160-188 | Frame times strictly increase. |
| `Replay.FoldPrefix` | internal/demo/replay.go:72-79 | The silent fold ends at the first frame not before From, with everything known by then. |
| `Replay.RunReplay` | internal/demo/replay.go:66-115 | Sends one snapshot a frame holding the last known position of every vehicle of the region, all of them unless the context ends, the callback refuses one or a pause is interrupted, and then exactly those up to there. |
| `Replay.SnapshotIs` | internal/demo/replay.go:87-108 | Each snapshot is numbered, totalled and timed as its frame, and shows a vehicle if and only if its last mutation up to that frame is of an agency of the region, at that mutation. |
| `Replay.SnapshotShowsIff` | internal/demo/replay.go:87-108 | With colon-free agencies it shows a vehicle if and only if some mutation up to that frame is of that vehicle and of an agency of the region. |
| `Replay.ResumeIsSuffix` | internal/demo/replay.go:68-115 | Resuming sends exactly the full run's snapshots from the first frame at or after From, renumbered. |
| `ReplayWindow.WindowedReplay` | internal/demo/replay.go:146-188 | With whole-second timestamps and no vehicle twice in a second, From and To select exactly the frames between them, whatever the unstable sorts do. |
| `ReplayWindow.StrictOrderUnique` | internal/demo/replay.go:160-168 | Then the sort has one possible outcome. |
| `Views.ScanVehiclesIff` | internal/demo/pipeline.go:359-414 | The scan knows the index's vehicles if and only if no two ids of an agency agree up to their first colon. |
| `Views.ScanAgreesWithIndex` | internal/demo/pipeline.go:359-414 | With distinct heads and surviving newest times the scan holds a latest position of every vehicle, so it agrees with the index on vehicles and timestamps. |
| `Views.ScanTimesIff` | internal/demo/pipeline.go:359-414 | Scan and index agree on vehicles and timestamps if and only if heads are distinct and no vehicle's newest time is overwritten by a write that wraps to the same key. |
| `Views.VisibleIsLast` | internal/demo/pipeline.go:171 | A position is visible to readers if and only if it is the last write of its vehicle and nanosecond count. |
| `Views.ScanOfPipeline` | internal/demo/pipeline.go:380-414 | What the pipeline object's scan can see of flushed databases is what those lemmas speak of. |
| `Views.WrappedTimesDiverge` | internal/gtfs/types.go:25-27 | Two times of one vehicle that wrap to one key make the scan fall behind the index. |
| `Views.YearsCanWrap` | internal/gtfs/types.go:25-27 | Such times pass through JSON: a write of 2084 followed by one of 1500 leaves the scan at 1500. |
| `Views.WholeSecondsDoNotWrap` | internal/gtfs/poller.go:222-225 | Whole seconds of the years 0 to 9999, such as feed timestamps, never wrap. |
| `Views.RestartTransparent` | internal/demo/pipeline.go:104-157 | Flushing, restarting and writing on gives the vehicles and timestamps of never restarting. |
| `Views.RestartTransparentIff` | internal/demo/pipeline.go:104-157 | A restart goes unnoticed whatever is written after it if and only if the scan agreed with the index before it. |
| `Views.FlushedWritesAre` | internal/demo/pipeline.go:160-186 | Writing a log to empty databases and flushing gives the databases the laws of the views speak of. |
| `Views.Restarted` | internal/demo/pipeline.go:59-78 | On the objects: the first process's scan agrees with its index on vehicles, and on times, exactly under those conditions, and then a second process that hydrates and writes on ends like one that wrote everything. |
| `Views.LastSnapshot` | internal/demo/replay.go:87-115 | The last snapshot of a full replay is that of all mutations. |
| `Views.ReplayAgreesWithIndex` | internal/demo/replay.go:123-189 | The last frame shows the index's vehicles of the region, each at the index's time truncated to the second, whatever the sort did. |
| `Views.LastSnapshotIs` | internal/demo/replay.go:87-115 | In plain terms: nothing is sent if and only if the region was never written; otherwise the last snapshot shows exactly the vehicles written in the region, each at one of its own writes of its latest second. |
| `Views.LastSnapshotIsIndex` | internal/demo/replay.go:87-115 | With one write a second it shows exactly what the index shows of the region. |
| `Views.ThreeViewsAgree` | internal/demo/replay.go:123-189 | If no vehicle has two writes in one second, the replay's last frame is the index's part of the region, and the scan is the index if and only if heads are distinct and newest times survive. |
| `Views.ColonFreeIDsAreDistinct` | internal/gtfs/types.go:68-74 | Colon-free ids meet the condition of the views. |
| `Views.RepresentableTimesDoNotWrap` | internal/gtfs/types.go:25-27 | So do times an int64 of nanoseconds can hold. |
| `Views.NoWrapSurvives` | internal/gtfs/types.go:25-27 | Newest times survive wherever no two times of a vehicle wrap to one count. |
| `Notify.RunValid` | internal/demo/pipeline.go:201-211 | The invariant over every interleaving: each stream is informed of each call's goal, or still on its list. |
| `Notify.NoLostWakeUp` | internal/web/demo/server.go:243-273 | In every interleaving, after NotifyPoll returns each stream past its first push has a token or push pending, or took its last snapshot after all writes before that call. |
| `Notify.DeliveredInThreeSteps` | internal/web/demo/server.go:256-273 | After that, three of the stream's own steps bring a snapshot that reflects those writes, whatever happens in between. |
| `Notify.PushesBounded` | internal/demo/pipeline.go:206-210 | A stream pushes at most once on joining and once for each call that reached it. |
| `Notify.UninterruptedNotify` | internal/demo/pipeline.go:201-211 | A call on its own leaves a token with every subscriber and changes nothing else. |
| `Notify.PollSubscriptions.SubscribePolls` | internal/demo/pipeline.go:214-218 | Appends a fresh empty channel. |
| `Notify.PollSubscriptions.NotifyPoll` | internal/demo/pipeline.go:201-211 | The loop over the copied list is the machine's uninterrupted call. |
| `Wire.ReadVarint` | internal/codexsites/templates.go:183 | The shift loop reads the base-128 number at an offset, or what is there of it, and stops after it; the worker's arithmetic is this exact one for canonical numbers below 2^53. |
| `Wire.VarintRoundTrip` | internal/codexsites/templates.go:183 | Reading inverts writing, whatever follows; of the worker this holds for numbers below 2^53. |
| `Wire.BelowTwoTo53` | internal/codexsites/templates.go:183 | Numbers below 2^53 are written in at most eight bytes, where no power or sum the reader forms leaves the exact range. |
| `Wire.VarintCanonicalIff` | internal/codexsites/templates.go:183 | Writing inverts reading exactly on the numbers without padding; of the worker, below 2^53. |
| `Wire.WireFormat` | internal/codexsites/templates.go:184 | The wire types are those of the Protocol Buffers encoding, and its example varint reads as 150. |
| `Wire.ProtoFields` | internal/codexsites/templates.go:184 | On every byte string the loop ends with the message's fields, at most one for each byte, cutting payloads at the end. |
| `Wire.FieldsRoundTrip` | internal/codexsites/templates.go:184 | Reading inverts the field encoder for wire types 0, 1, 2 and 5. |
| `Wire.StopsAtUnknownWireType` | internal/codexsites/templates.go:184 | Wire types 3, 4, 6 and 7 end the message: the fields before stand and nothing after is read. |
| `Wire.PayloadIsCut` | internal/codexsites/templates.go:184 | A payload that runs past the end is cut there. |
| `GtfsDecoder.DecodeGTFS` | internal/codexsites/templates.go:188 | The loop over entities skips, keeps or fails as the fields decide; one failure loses the feed. |
| `GtfsDecoder.FindIsLast` | internal/codexsites/templates.go:185-187 | For a singular field the first occurrence the worker takes is the last one, which Protocol Buffers keeps. |
| `GtfsDecoder.FindIsLastIff` | internal/codexsites/templates.go:185-187 | For repeated fields the two agree if and only if the first and the last occurrence carry the same payload. |
| `GtfsDecoder.EntityIsRead` | internal/codexsites/templates.go:188 | An encoded entity decodes to its reference meaning. |
| `GtfsDecoder.FeedRoundTrip` | internal/codexsites/templates.go:183-188 | Decoding an encoded feed, fields in any order and unknown ones among them, gives exactly its in-bounds identified vehicles in order, or throws if one of them has a timestamp no date can hold. |
| `GtfsDecoder.FeedDecodesIff` | internal/codexsites/templates.go:188 | A feed decodes if and only if every in-bounds identified vehicle has no timestamp or one of at most 8640000000000 seconds. |
| `GtfsDecoder.FloatFieldIs` | internal/codexsites/templates.go:187 | An absent float is zero, and one cut short throws. |
| `GtfsDecoder.WorkerDropsAnonymous` | internal/codexsites/templates.go:188 | The worker's vehicles are, in order, what the poller's rule yields of the feed without its anonymous entities, one fewer for each of those. |
| `GtfsDecoder.WorkerMatchesPollerIff` | internal/gtfs/poller.go:207-216 | For every feed, the worker decodes what the poller's id rule yields if and only if no in-bounds entity is anonymous and every vehicle the poller keeps has a timestamp a date can hold. |
| `Claim.LastPollNeverDecreasesIff` | internal/codexsites/templates.go:150-196 | Over any interleaving of claims and completions on any clocks, last_poll_ms never decreases and no row disappears if and only if no completion is stamped before its row. |
| `Claim.LastPollNeverDecreases` | internal/codexsites/templates.go:150-155 | In particular when every statement reads one clock that never runs backwards. |
| `Claim.GrantsKeepTheirDistance` | internal/codexsites/templates.go:150-155 | Under that condition alone, a granted claim comes at least its own gap, 30 seconds or 2 when forced, after every earlier grant and completion of its region. |
| `Claim.RefusedIffBlocked` | internal/codexsites/templates.go:150-155 | A claim is refused if and only if an earlier grant or completion of its region is within its gap. |
| `Claim.ClaimWindows` | internal/codexsites/templates.go:152-153 | A forced claim is refused if and only if an earlier grant or completion of its region is less than 2 seconds old, an unforced one if and only if one is less than 30 seconds or less than the session's interval old. |
| `Claim.SkewedClockBreaksTheWindow` | internal/codexsites/templates.go:196 | The condition can fail: a completion stamped before its row lets two claims through within 30 seconds. |
| `Claim.RegionPollState.ClaimRegionPoll` | internal/codexsites/templates.go:151-155 | The conditional upsert is the claim step, and a result that reports no change count is taken as claimed. |
| `Claim.RegionPollState.CompletePoll` | internal/codexsites/templates.go:196 | The unconditional upsert is the completion step. |
| `Generator.Run` | internal/eventgen/generator.go:64-137 | The loop emits what the clock, cancellation, UUIDs and draws determine. |
| `Generator.RunShape` | internal/eventgen/generator.go:118-133 | Of every run: each retry directly follows its twin with the same key, and the length lies between the unique events and twice that, never above the total. |
| `Generator.RunEmits` | internal/eventgen/generator.go:111-133 | Every emission of every run, exactly: the event drawn, the clock reading it is stamped with, and whether a retry follows. |
| `Generator.RunEndsAt` | internal/eventgen/generator.go:75-96 | How every run ends: complete, or at the first check that finds the clock past its first reading plus the duration, the context cancelled, or no UUID. |
| `Generator.CompleteInTime` | internal/eventgen/generator.go:75-89 | On any clock, a run that is not disturbed and whose readings all lie within the duration has all its unique events. |
| `Generator.CollectExpectedKeys` | internal/eventgen/generator.go:218-226 | The keys of the first emissions, in order. |
| `Generator.FastRunCompleteIff` | internal/eventgen/generator.go:229-238 | For given draws, a fast run is complete if and only if it has 2T - 1 milliseconds plus one for each retry before the last event. |
| `Generator.FastRunAlwaysCompleteIff` | internal/eventgen/generator.go:229-238 | For every random outcome, if and only if it has 3T - 2 milliseconds. |
| `Tenants.ScanKeysExact` | internal/pipeline/tenant.go:49-53 | A scan lists, strictly ascending, exactly the committed keys with the tenant's prefix. |
| `Tenants.OpenTenants` | internal/pipeline/tenant.go:65-79 | Succeeds if and only if every tenant opens. |
| `Tenants.EventPipeline.WriteEmissions` | internal/pipeline/tenant.go:81-94 | Puts in order up to the first unknown tenant or failing put, which it reports. |
| `Tenants.EventPipeline.FlushAll` | internal/pipeline/tenant.go:96-103 | Commits whole stores, all of them unless one fails. |
| `Tenants.EventPipeline.CompactAll` | internal/pipeline/tenant.go:105-112 | Succeeds if and only if no tenant's maintenance fails; keys are untouched. |
| `Tenants.EventPipeline.CountKeys` | internal/pipeline/tenant.go:132-146 | Unless a scan fails, and with colon-free tenants, the sum of the scans is the number of different keys, none counted twice. |
| `Verification.GroupKeysByTenant` | internal/pipeline/verify.go:80-90 | Each tenant's keys, sorted, and no other tenants. |
| `Verification.VerifyKeyOrder` | internal/pipeline/verify.go:92-99 | Comparing neighbours decides whether all the keys are in order. |
| `Verification.VerifyKeySet` | internal/pipeline/verify.go:101-115 | Accepts if and only if the two lists are equal as multisets. |
| `Verification.Verify` | internal/pipeline/verify.go:21-78 | Accepts if and only if every expected tenant is open, its scan is in order and is its expected keys, its feed is long enough, and the put counts fit; the result maps hold what was read. |
| `Deduplication.VerifyAcceptsIff` | internal/pipeline/verify.go:21-78 | Emissions written to fresh stores, flushed and scanned are accepted if and only if first emissions have distinct keys and every retry, in a tenant with a first emission, repeats one. |
| `Deduplication.AcceptedScansAreExpected` | internal/pipeline/verify.go:34-63 | Acceptance means, for each expected key, that its tenant's sorted scan holds it as often as expected and that the tenant's feed has at least as many changes as expected keys. |
| `Deduplication.AcceptsIs` | internal/pipeline/verify.go:21-78 | Of any answers: accepted if and only if each expected key's tenant has a sorted scan with exactly its expected keys and a long enough feed, and a list with a retry has more emissions than expected keys. |
| `Deduplication.DrawnTenantsAreOpen` | internal/pipeline/tenants.go:3-10 | The tenants the generator draws are the ones the pipeline opens. |
| `Deduplication.GeneratedKeyCount` | internal/eventgen/generator.go:64-137 | Once written and flushed, the stores hold one key for each unique event of a generated run. |
| `Deduplication.GeneratedRunVerifies` | internal/eventgen/generator.go:64-137 | Whatever the clock, cancellation and random outcomes, a generated run is accepted: its duplicates collapse by key. |
| `Simulation.Run` | internal/simulation/run.go:56-152 | Whatever the clock and the random outcomes, the simulation passes if and only if it is not cancelled, no UUID is missing and no open, put, flush, scan, compaction or feed read it needs fails; it then reports every put, one key for each unique event before and after compaction, and each tenant's puts. |

## Left out

- IsleDB itself, object storage, fencing and retention trimming; background flushes every few seconds; failures while iterating over the position databases.
- JSON encoding: values are assumed to round-trip, so the branches that skip values that do not parse are not modelled.
- HTTP handlers other than the vehicle stream, SSE framing, cookies, templates, the dashboard and the debug commands.
- Session persistence to a file, except that a setter reports its failure; `ActiveRegionIDs`, `RegionViewerCounts` and `Region`/`PollSeconds` getters, which repeat the modelled reads.
- `Sub` saturating at about 292 years: time differences are exact.
- Feed fetching with retries and back-off: a poll is one outcome, and the sessions a tick sees are those at its planning instant.
- The labels that ingest records carry, and their grouping by region.
- Notify: a subscriber leaving. Closing its channel can fall between the copy of the list and the send, so nothing is claimed about panics; heartbeats and write errors of a stream are left out with it.
- `Replay.RunReplay`: playback speed and the unknown-region error are not modelled.
- `Wire.ReadVarint`: numbers are exact integers here. The worker rounds from 2^53 on, and zero padding past 147 bytes makes it compute 0 times infinity.
- `GtfsDecoder.DecodeGTFS`: text is bytes here. The worker's text decoder also drops a leading byte order mark, so that an id of just those three bytes is empty for it, and replaces malformed UTF-8.
- GtfsDecoder: latitude and longitude are raw floats under a bounds predicate; the worker's comparison lets a NaN pass where the Go one does not. The Go unmarshaller's own rejections (missing required fields) are not modelled, only its id rule.
- Claim: the SQL engine's atomicity and the ingest that follows a claim.
- Generator: pacing between events and the random shares; any draw from the tables may occur, so `Generator.FastRunAlwaysCompleteIff` speaks of every pattern of retries, which a duplicate rate of zero would not produce.
- `Tenants.EventPipeline.CompactAll`: compaction is taken not to change keys or trim the change feed, since the library is not visible; closing stores is left out.
- Simulation: timing fields of the report, the backend configuration and the partial figures of a failed report.
- The retired code under `ARCHIVE/`.
