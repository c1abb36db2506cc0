# EVMS analytics, ingest and control-plane model

A Dafny model of the algorithms and state machines underneath the EVMS video management services, with proofs
of what they guarantee: the analytics geometry and tracking of the event processor, the stream splitting and
frame assembly of the ingest service, leader election, the two rate limiters, service discovery, the audit hash
chain, the model registry and the password generator.

`dafny verify dfyconfig.toml` checks the whole project.

| file | component |
|---|---|
| `Tripwire.dfy`, `Polygon.dfy`, `Boxes.dfy` | segment crossing, ray casting, intersection over union (`Geometry.dfy`, `Reals.dfy` are shared) |
| `Tracker.dfy`, `Loitering.dfy` | the multi-object tracker and the dwell machine |
| `Scanner.dfy`, `Mjpeg.dfy`, `AnnexB.dfy` | the scanner that drives the splitters, and the two splitters (`Bytes.dfy` is shared) |
| `SliceHeader.dfy`, `Frames.dfy` | NAL header parsing and access-unit batching |
| `LeaderElection.dfy` | leader election over a key with a time to live |
| `TokenBucket.dfy`, `FixedWindow.dfy` | the gateway's and the login service's limiters |
| `Mdns.dfy`, `IpRange.dfy` | DNS wire format and address enumeration (`Powers.dfy` is shared) |
| `AuditChain.dfy`, `ModelRegistry.dfy`, `PasswordPolicy.dfy` | audit chain, model lifecycle, password generation |

## Modelling decisions

- Float64 coordinates, tokens and times are reals; NaN and rounding are not part of the model. The decoding of
  first_mb_in_slice is modelled modulo 2^64, and address bytes and masks bit by bit.
- `time.Now` is a parameter; runs require that it does not run backwards. `uuid.New` is a counter of fresh IDs.
  Random draws are functions from a draw's number to its value.
- `bufio.Scanner` is modelled as a window of unconsumed bytes with the configured size limit, fed by a reader
  that delivers end of file separately from data, as a pipe does. The reader's piece sizes are an arbitrary
  function, so every statement about a scan is about every way of cutting the stream.
- Run-time panics of the source are outcomes of the model (`SliceHeader.Panic`, `PasswordPolicy.Panic`), not
  preconditions.
- `Evaluate` of the loitering detector releases its lock between recording and emitting, so its two halves are
  separate steps of a run and may interleave with other calls, with cleanup and with the logging loop's deletions.
- In leader election a store call and the local update after it are separate steps; a store call may fail without
  effect or take effect and report an error. `release` holds the node's mutex, so a releasing node is not observed
  as leader.
- The digest of the audit chain is an arbitrary function of fixed output length; nothing is assumed about
  collisions.
- A row's position in the model table is its ID, since rows are never deleted; each handler is one atomic step.

Where the code does not do what one would expect, the model follows the code:

- A three-byte start code before a four-byte one breaks H.264 splitting however the stream is read
  (`AnnexB.EveryReadingFails`), and a unit larger than the window ends the scan. `AnnexB.SplitExact` gives the exact
  condition under which the NAL units come out, under all ways of reading or under none; streams with start codes of
  one length that fit the window are a special case.
- `readUE` reads its suffix one bit late. `SliceHeader.ValueExact` says exactly when its value is ue(v) all the same,
  `SliceHeader.ValueWrong` gives an input on which it is not, and `SliceHeader.ZeroTestExact` shows that its zero test
  is right and that it panics exactly when no bit follows the code.
- A loitering event for a zone can fire after the track has left that zone for another one
  (`Loitering.AlarmForZoneLeft`). `Loitering.TrueAlarmsExact` gives the zones for which this cannot happen, with and
  without overlapping calls, and `Loitering.AlarmMeaning` what an event guarantees in all cases. A track may be seen
  twice in one call, since the tracker can answer two detections with a track it has just created
  (`Tracker.MatchMeaning`).
- The mDNS parser stops a PTR target at a compression pointer, so it shortens or loses compressed names
  (`Mdns.TargetTruncated`). `Mdns.ParseExact` gives the exact condition under which the hosts are right.
- The gateway's cleanup forgets buckets that are not full again if they refill too slowly, and then more requests
  pass than the rate bound allows (`TokenBucket.CleanupExact`, `TokenBucket.RateBoundExact`).
- Rolling back a canary deactivates the active version of the same name, unless another canary of the name has a
  higher version than the active one (`ModelRegistry.LosesExact`; a sequence of requests with that outcome is in
  `ModelRegistry.CanaryRollbackLoses`).
- The audit hash joins its fields without separators, so a moved field boundary goes unnoticed
  (`AuditChain.FieldShiftUndetected`, `AuditChain.ReplacementExact`).
- `collectIPs` does not end for an IPv4 /0 network (`IpRange.ZeroPrefixContainsAll`), and for IPv6 it stops at the
  IPv4-mapped addresses (`IpRange.StopsEarly`, with the exact condition in `IpRange.WholeBlock`).
- `GenerateRandomPassword` panics when a random read fails during the shuffle.

## Model

| member | source | states |
|---|---|---|
| Tripwire.LineIntersectExact | services/event-proc/tripwire.go:27-60 | the sign test is true exactly when the two closed segments share a point, for all endpoints, degenerate and collinear ones included |
| Tripwire.Sound | services/event-proc/tripwire.go:31-55 | every positive answer comes with a common point, constructed case by case |
| Tripwire.Complete | services/event-proc/tripwire.go:31-60 | no common point is missed |
| Tripwire.CrossingSurvivesResampling | services/event-proc/tripwire.go:62-64 | a straight move crosses the wire exactly when one of its halves does, for every intermediate sample on it |
| Polygon.PointInPolygon | services/event-proc/intrusion.go:145-158 | the loop computes the parity of the edges crossed by the ray, for polygons of any size |
| Polygon.PolygonToPairs | services/event-proc/intrusion.go:137-143 | the converted polygon reads back as the original |
| Polygon.PointInPairs | services/event-proc/main.go:972-984 | the pair-based twin computes the same parity on every input |
| Polygon.RotationInvariant | services/event-proc/intrusion.go:145-158 | the starting vertex does not matter |
| Polygon.ReversalInvariant | services/event-proc/intrusion.go:145-158 | the orientation of the vertex list does not matter |
| Polygon.ChordCut | services/event-proc/intrusion.go:145-158 | cutting along any chord between two vertices gives whole = A xor B |
| Polygon.FanDecomposition | services/event-proc/intrusion.go:145-158 | membership in any polygon is the parity of the fan triangles that accept the point |
| Polygon.TriangleExact | services/event-proc/intrusion.go:145-158 | a proper triangle of either orientation accepts its whole interior and rejects its whole exterior |
| Polygon.RejectsOutsideBounds | services/event-proc/intrusion.go:145-158 | nothing left of, above, right of or below the half-open bounding box is accepted |
| Polygon.RectangleExact | services/event-proc/intrusion.go:145-158 | an axis-aligned rectangle accepts exactly its half-open box |
| Boxes.IoUExact | services/event-proc/main.go:259-283 | symmetric, in [0, 1], positive exactly when interiors overlap, 1 exactly for equal proper boxes, for arbitrary and inverted boxes |
| Boxes.UnionArea | services/event-proc/main.go:269-280 | once the overlap guard has passed, the union area is positive and at least the intersection, so the second guard is never taken |
| Boxes.IoUIsAreaRatio | services/event-proc/main.go:264-282 | for overlapping boxes the value is the area of exactly the common points over the area of the union |
| Tracker.BestIsBest | services/event-proc/main.go:299-316 | the chosen track is the lowest-index unused same-label track of maximal overlap above the threshold, and none is chosen only if there is none |
| Tracker.Tracker.FindBest | services/event-proc/main.go:299-316 | the inner loop computes that choice |
| Tracker.MatchMeaning | services/event-proc/main.go:285-356 | one answer per detection in order; a track from before the call answers at most one detection; a created one its own and at most one later; each track holds the box of the last detection it got; unused tracks are unchanged; new IDs are consecutive |
| Tracker.MatchIsGreedy | services/event-proc/main.go:295-352 | every detection of a call is given the best eligible track of the scene left by the detections before it, or a new track exactly when there is none |
| Tracker.Tracker.MatchDetections | services/event-proc/main.go:285-356 | the nested loops perform that matching on the camera's list and touch no other camera |
| Tracker.Compact | services/event-proc/main.go:366-371 | the in-place compaction leaves exactly the recent tracks in front, in order |
| Tracker.ActiveIsFilter | services/event-proc/main.go:366-371 | what is kept is an order-preserving filter: a track seen at t stays exactly for cleanups before t + timeout |
| Tracker.CleanupFilters | services/event-proc/main.go:359-374 | a cleanup at any time keeps exactly the tracks last seen less than the timeout ago, in the list of every camera, in order |
| Tracker.Tracker.CleanupStaleTracks | services/event-proc/main.go:359-374 | every camera's list is filtered, nothing else changes |
| Tracker.RunsKeepIdentity | services/event-proc/main.go:285-374 | over every run IDs stay distinct across cameras, firstSeen <= lastSeen <= now, and an ID never changes camera, label or entry time |
| Loitering.LoiteringDetector.Observe | services/event-proc/loitering.go:182-213 | one sighting opens or refreshes the entries of the zones it lies in, box and label included, or deletes all entries of the track |
| Loitering.LoiteringDetector.Emit | services/event-proc/loitering.go:216-245 | exactly the due entries of enabled zones are emitted, each once, and deleted |
| Loitering.LoiteringDetector.Evaluate | services/event-proc/loitering.go:178-248 | all sightings, then the emission |
| Loitering.LoiteringDetector.Cleanup | services/event-proc/loitering.go:164-170 | exactly the entries not seen for more than ten seconds are deleted |
| Loitering.CentroidHalfway | services/event-proc/intrusion.go:127-135 | the point that is tested lies halfway between the corners of the box, whichever come first |
| Loitering.LastSeenIs | services/event-proc/loitering.go:182-213 | in every run an entry holds the time and the box of the latest sighting inside its zone |
| Loitering.CleanupBySightings | services/event-proc/loitering.go:164-170 | a cleanup keeps an entry if and only if its track was seen inside the zone in the last ten seconds |
| Loitering.AlarmsSpaced | services/event-proc/loitering.go:178-248 | in every interleaving two events for the same track and zone are at least the later one's dwell threshold apart |
| Loitering.AlarmMeaning | services/event-proc/loitering.go:178-248 | every event goes back to a sighting inside its zone at least the threshold earlier, since when no call saw the track outside all its zones |
| Loitering.StayingIsReported | services/event-proc/loitering.go:161-248 | over the calls alone: a track that enters a zone, is not seen outside all zones, and is seen inside the zone at most ten seconds before each cleanup, is reported by the first due emission, with its zone and the time since it entered |
| Loitering.TrueAlarmsExact | services/event-proc/loitering.go:178-248 | for every assignment of zones to tracks, whatever the order of the lists: in every run each event's track was inside the zone at every sighting since its entry, if and only if every zone that has a point and can raise alarms contains all zones of the track; the same holds of the runs in which calls do not overlap |
| Loitering.AlarmForZoneLeft | services/event-proc/loitering.go:207-213 | three calls, one after the other, with an event for a zone the track had left for another zone |
| Scanner.Scan | services/ingest/main.go:394-410 | the scan loop produces the tokens of the run given by the reads |
| Scanner.CutIndependent | services/ingest/main.go:394-410 | a splitter whose tokens are stable under a growing window yields the same tokens for every way of cutting the stream, up to the window limit |
| Mjpeg.SplitStable | services/ingest/main.go:397-410 | the MJPEG splitter is stable on every stream |
| Mjpeg.Publish | services/ingest/main.go:387-445 | the frames depend on the stream only; they are its images in order, skipped bytes hold no start marker, and only the last frame may be a remainder |
| Mjpeg.ImageBytes | services/ingest/main.go:397-410 | an image in bytes: from FF D8 to the first FF D9 |
| AnnexB.SplitStable | services/ingest/main.go:540-566 | the H.264 splitter is stable, for windows of every size, on streams that start with a code and have no four-byte code behind a three-byte one within a window |
| AnnexB.TokensAreUnits | services/ingest/main.go:540-566 | on such streams of any length the tokens are the NAL units in order; bytes are left over exactly when a unit does not fit the window, from that unit on |
| AnnexB.UnitsUnique | services/ingest/main.go:463-471 | a stream can be cut into NAL units in one way only |
| AnnexB.Units | services/ingest/main.go:540-566 | the scan returns those NAL units whatever the reads, and all of the stream exactly when every unit fits the window |
| AnnexB.EveryReadingFails | services/ingest/main.go:463-566 | a three-byte code anywhere before a four-byte one spoils the units under every window, limit and way of reading |
| AnnexB.SplitExact | services/ingest/main.go:463-566 | for every stream and window limit: all ways of reading yield exactly the NAL units if the stream starts with a code, every unit fits the window and no window that begins with a three-byte code shows a four-byte one; otherwise none does |
| SliceHeader.ReadUE | services/ingest/main.go:485-507 | the two loops return the shifted code as a 64-bit word, or panic, in exactly the stated cases |
| SliceHeader.BitsOfByte | services/ingest/main.go:488 | the bits that are read are the binary digits of the bytes, most significant first |
| SliceHeader.WordIsZero | services/ingest/main.go:485-507 | when the decoded word is zero, wrap-around beyond 63 leading zeros included |
| SliceHeader.ZeroTestExact | services/ingest/main.go:485-507 | for a complete code of fewer than 64 leading zeros: panic exactly when no bit follows it, otherwise the zero test agrees with ue(v) of clause 9.1 of ITU-T H.264 |
| SliceHeader.IncompleteExact | services/ingest/main.go:485-507 | for a code cut off by the end of the unit: when it panics, and the value otherwise |
| SliceHeader.ValueExact | services/ingest/main.go:485-507 | for every complete code: the returned value is ue(v) if and only if the code is a single one bit, or a bit follows and the suffix and that bit are all equal (all zero at 63 leading zeros, never beyond) |
| SliceHeader.OneReadAsTwo | services/ingest/main.go:498-505 | wherever ue(v) = 1 is followed by a one bit, it is read as 2 |
| SliceHeader.ValueWrong | services/ingest/main.go:498-505 | a byte on which this happens |
| SliceHeader.IsFirstSliceOfFrame | services/ingest/main.go:511-527 | the answer or panic for every byte string |
| SliceHeader.OtherUnits | services/ingest/main.go:511-522 | units without a start code and units that are not slices are not first slices |
| SliceHeader.FirstSliceExact | services/ingest/main.go:511-527 | on a slice whose code is complete and followed by a bit, true exactly when first_mb_in_slice is 0 |
| Frames.PublishFrames | services/ingest/main.go:568-621 | the published frames, exactly when the loop panics and what was published by then; in bytes: with h the header byte modulo 32, no unit with h in {6, 7} and no first slice follows one with h in {1, 5} inside a frame, every frame but the first begins with one of these, and every frame but the last holds a unit with h in {1, 5} |
| Frames.ReadableOnBytes | services/ingest/main.go:473-527 | in bytes, the units on which the loop panics |
| Frames.BatchingOnBytes | services/ingest/main.go:593-611 | the frames of every unit sequence satisfy the conditions in bytes |
| Frames.GroupIsBatching | services/ingest/main.go:593-611 | frames concatenate to the units; all but the last hold a slice; all but the first begin with SPS, SEI or a first slice; none of these follows a slice inside a frame |
| Frames.BatchingUnique | services/ingest/main.go:593-611 | these conditions determine the frames |
| Frames.FirstSliceOnce | services/ingest/main.go:594-611 | a slice with first_mb_in_slice = 0 is the first slice of its frame and the only such slice |
| Frames.Conserved | services/ingest/main.go:607-621 | the published bytes are the bytes of the units |
| Frames.PublishH264 | services/ingest/main.go:530-628 | from bytes to frames, for streams of any length and any reads: the frames published, exactly when the loop panics, what was published by then, and otherwise every byte of the stream up to a unit that exceeds the window |
| LeaderElection.LeaderElection.Elect | pkg/common/leaderelection.go:131-153 | for all faults: who leads, whose ID is known and what the key holds afterwards; it is its store steps followed by its local update |
| LeaderElection.LeaderElection.Renew | pkg/common/leaderelection.go:155-163 | an unconditional put; the node leads afterwards exactly if it led and the put succeeded |
| LeaderElection.LeaderElection.Tick | pkg/common/leaderelection.go:121-126 | a leader renews, any other node elects |
| LeaderElection.LeaderElection.Release | pkg/common/leaderelection.go:165-176 | a leader deletes the key and steps down, even if the deletion fails; others do nothing |
| LeaderElection.StepSafe | pkg/common/leaderelection.go:131-176 | every timely step of every node keeps the invariant that whoever leads or has won holds the live key |
| LeaderElection.AtMostOneLeader | pkg/common/leaderelection.go:104-176 | in every run in which holders act within the TTL there is at most one leader, the live key holds its ID and it knows itself as leader |
| LeaderElection.AttemptsSuffice | pkg/common/leaderelection.go:104-176 | the same if only every node that wrote the key finishes a renewal attempt, successful or not, or begins to release within the TTL of its last successful write; a node whose attempt failed need do nothing more |
| LeaderElection.LoserFollows | pkg/common/leaderelection.go:131-145 | a node that finds the key live learns who holds it and does not lead |
| LeaderElection.ReleaseHandsOver | pkg/common/leaderelection.go:131-176 | after a release the next node to ask is elected |
| LeaderElection.ExpiryBreaksSafety | pkg/common/leaderelection.go:131-163 | from any state in which a leader lets its key expire next to a waiting node there is a run with two leaders, and the first one's renewal takes the key back unnoticed |
| LeaderElection.TwoLeadersReachable | pkg/common/leaderelection.go:131-163 | such a run exists from the start |
| TokenBucket.RateLimiter.Allow | services/api-gateway/main.go:106-129 | refill, cap, take one token |
| TokenBucket.RateLimiter.Cleanup | services/api-gateway/main.go:90-96 | exactly the keys idle for more than two periods are deleted, the others stay as they are |
| TokenBucket.RateBound | services/api-gateway/main.go:86-129 | after any run, an interval of length T grants a key at most burst + rate * T requests, without cleanup always, with cleanup if buckets refill within two periods |
| TokenBucket.GrantedExact | services/api-gateway/main.go:106-129 | without cleanup a request is granted if and only if that keeps every interval ending at it within burst + rate * T, so refused requests cost nothing |
| TokenBucket.RateBoundExact | services/api-gateway/main.go:80-129 | with the cleanup loop that bound holds for all runs if and only if the loop is not started, rate * 2 * cleanup >= burst, or the burst is below one |
| TokenBucket.BoundExceeded | services/api-gateway/main.go:86-129 | a run that exceeds it, for every other configuration |
| TokenBucket.PacedNeverRefused | services/api-gateway/main.go:86-129 | a key whose requests are at least one token's refill time apart is granted every one, whatever other keys do and with cleanup |
| TokenBucket.SameAnswers | services/api-gateway/main.go:86-129 | limiters with equal levels give equal answers for ever, with and without cleanup |
| TokenBucket.Observed | services/api-gateway/main.go:86-129 | a run whose answers betray the cleanup, for every configuration that starts the loop and refills too slowly |
| TokenBucket.CleanupExact | services/api-gateway/main.go:80-129 | cleanup is unobservable if and only if the loop is not started, rate * 2 * cleanup >= burst, or the burst is below one |
| TokenBucket.GatewayCleanupUnobservable | services/api-gateway/main.go:518 | the configured limiter is on the safe side |
| FixedWindow.IPRateLimiter.Allow | services/auth/main.go:49-66 | open a window, refuse, or count |
| FixedWindow.IPRateLimiter.Cleanup | services/auth/main.go:71-79 | exactly the expired windows are deleted |
| FixedWindow.CleanupUnobservable | services/auth/main.go:49-80 | cleanup never changes an answer |
| FixedWindow.WindowBound | services/auth/main.go:49-80 | after any run, a closed interval no longer than the window grants one IP at most 2 * max(limit, 1) - 1 requests, or max(limit, 1) if the window has no length |
| FixedWindow.EntryMeaning | services/auth/main.go:49-80 | in every run a window was opened by a granted request and counts the requests granted since |
| FixedWindow.RefusedMeans | services/auth/main.go:49-66 | a request is refused only if one at most a window before was granted and the limit has been granted since, whatever was refused in between |
| FixedWindow.BoundReached | services/auth/main.go:49-66 | that bound is attained for every limit and every window of length zero or more |
| Mdns.SkipDNSName | services/discovery/mdns.go:44-55 | the position after a name, on every byte string |
| Mdns.ParseMDNSResponse | services/discovery/mdns.go:57-102 | total on every byte string, with all indices in range |
| Mdns.ParseEncoded | services/discovery/mdns.go:57-102 | every legal message, with any questions, any other records, compressed owners and trailing data, yields the dot-joined labels of each PTR target up to a compression pointer, in order (sections 3.1 and 4.1 of RFC 1035) |
| Mdns.ResolveName | services/discovery/mdns.go:84-98 | the name of section 4.1.4 of RFC 1035 is the labels in front followed by what the ending stands for |
| Mdns.ParseExact | services/discovery/mdns.go:57-102 | of a message whose PTR targets are names under section 4.1.4 of RFC 1035 the hosts are exactly those names, if and only if every target ends in the root or in a pointer to the root name |
| Mdns.TargetTruncated | services/discovery/mdns.go:84-98 | a message that announces cam._o and yields cam |
| Mdns.ReplyOnTheWire | services/discovery/mdns.go:57-102 | that message as literal bytes, and the host that the parser reads from them |
| Mdns.PartsOfCut | services/discovery/mdns.go:80-95 | of a target cut off inside a label the labels before it are kept |
| Mdns.BuildMDNSQuery | services/discovery/mdns.go:26-42 | the bytes of the query |
| Mdns.QueryRoundTrip | services/discovery/mdns.go:26-55 | the query is a legal one-question message whose name the parser reads back as the service |
| Mdns.QueryOnTheWire | services/discovery/mdns.go:26-42 | a query as literal bytes |
| Mdns.JoinSplit | services/discovery/mdns.go:34-37 | splitting at dots and joining is the identity, and no label holds a dot |
| IpRange.IncIP | services/discovery/iprange.go:120-127 | in place, the big-endian successor |
| IpRange.IncIsPlusOne | services/discovery/iprange.go:120-127 | the successor is +1 modulo 256^n |
| IpRange.ContainsIsBlock | services/discovery/iprange.go:111 | masked byte comparison is membership in a run of 2^(8n - p) consecutive addresses |
| IpRange.Is4Bytes | services/discovery/iprange.go:111-114 | an address of sixteen bytes counts as IPv4 exactly if it begins with ten zeros and twice 255 |
| IpRange.ContainedUntilEnd | services/discovery/iprange.go:111 | from the first address of the block on, the loop condition with its conversion of mapped addresses holds exactly up to the stated end |
| IpRange.CollectIPs | services/discovery/iprange.go:106-118 | for every IPv4 prefix /1 to /32 and every IPv6 prefix the loop ends and lists the block in increasing order, up to the IPv4-mapped addresses, without its ends for IPv4 when there are more than two (section 3.1 of RFC 4632) |
| IpRange.WholeBlock | services/discovery/iprange.go:106-118 | the loop runs to the end of the block exactly for IPv4, for prefixes of at least 96 bits, and for blocks without the first IPv4-mapped address |
| IpRange.StopsEarly | services/discovery/iprange.go:111 | for ::/80 it stops inside the block |
| IpRange.ZeroPrefixContainsAll | services/discovery/iprange.go:111 | for an IPv4 /0 the loop condition holds for every address |
| AuditChain.AuditService.LogEntry | services/audit/main.go:122-143 | a known ID is ignored, any other entry is appended and linked |
| AuditChain.AuditService.Verify | services/audit/main.go:249-290 | valid exactly when every link and every hash is right |
| AuditChain.ReachableVerifies | services/audit/main.go:116-143 | after any log calls the chain verifies, IDs are distinct and earlier entries are untouched |
| AuditChain.Extract | services/audit/main.go:116-120 | two verifying chains with the same last hash have equal texts, or show a digest collision, or for different lengths a preimage of the genesis hash |
| AuditChain.TamperingIsCollision | services/audit/main.go:272-286 | equal length, same last hash and a different record text give an explicit collision |
| AuditChain.OnlyTextMatters | services/audit/main.go:272-286 | verification sees only hashes and concatenated texts |
| AuditChain.ReplacementExact | services/audit/main.go:116-143 | for every log, a record put in place of a logged one passes verification under every digest if and only if its concatenated text is that of the logged one |
| AuditChain.EveryFieldMatters | services/audit/main.go:116-143 | a logged record with one of the six hashed fields replaced passes verification under every digest if and only if the field is unchanged, for each of the six |
| AuditChain.FieldShiftUndetected | services/audit/main.go:116-120 | a moved field boundary verifies under every digest |
| ModelRegistry.Registry.CreateModel | services/model-registry/main.go:163-187 | the next version of the name, inactive |
| ModelRegistry.Registry.ActivateVersion | services/model-registry/main.go:246-293 | the answer and the whole new table |
| ModelRegistry.Registry.DeployCanary | services/model-registry/main.go:295-339 | the answer and the whole new table |
| ModelRegistry.Registry.PromoteCanary | services/model-registry/main.go:341-385 | the answer and the whole new table |
| ModelRegistry.Registry.Rollback | services/model-registry/main.go:403-467 | the answer and the whole new table |
| ModelRegistry.RequestExact | services/model-registry/main.go:171-467 | from the table alone, for every request: when it succeeds, its exact effect, its error otherwise with the table unchanged, and rows of other names never change |
| ModelRegistry.RunsKeepInv | services/model-registry/main.go:171-467 | every sequence of requests keeps one active version per name at most, canary_percent in 1..100 exactly for canaries and 0 otherwise, and versions as ranks |
| ModelRegistry.VersionsExact | services/model-registry/main.go:171-187 | the versions of each name are exactly 1 to n |
| ModelRegistry.VersionsIncrease | services/model-registry/main.go:171-187 | each occurs once, in order of creation |
| ModelRegistry.RollbackOfCanary | services/model-registry/main.go:433-467 | rolling back a canary keeps an active version exactly when another canary of the name has a higher version |
| ModelRegistry.ActiveMoves | services/model-registry/main.go:171-467 | on every table of a run the handlers refine a machine with one active version per name, which refused requests and requests about other names leave alone |
| ModelRegistry.LosesExact | services/model-registry/main.go:171-467 | a request leaves a served name without an active version if and only if it rolls back a canary and no other canary of the name has a higher version than the active one |
| ModelRegistry.ServedExact | services/model-registry/main.go:171-467 | a name stays served in every state of a run if and only if the run has no such request |
| ModelRegistry.CanaryRollbackLoses | services/model-registry/main.go:171-467 | five requests from the empty table after which a name that was served has no active version |
| PasswordPolicy.Shuffle | services/auth/password_policy.go:142-147 | the in-place loop performs the shuffle given by the draws, and panics exactly when one of them fails |
| PasswordPolicy.ShuffledKeeps | services/auth/password_policy.go:142-147 | every shuffle keeps the multiset of characters |
| PasswordPolicy.EveryOrderDrawn | services/auth/password_policy.go:142-147 | every order of the characters is reached by some draws |
| PasswordPolicy.GeneratedExact | services/auth/password_policy.go:75-150 | the passwords that can be generated are exactly the strings of the right length over the alphabet of the policy in which every required class occurs |
| PasswordPolicy.ValidateExact | services/auth/password_policy.go:44-73 | what is accepted, in terms of the characters, and the length of generated passwords |
| PasswordPolicy.CharsetExact | services/auth/password_policy.go:76-95 | the alphabet of a policy |
| PasswordPolicy.AppendRequired | services/auth/password_policy.go:128-140 | the drawn character of every required class in order, the first of the class if a read fails; nothing outside the alphabet |
| PasswordPolicy.GenerateRandomPassword | services/auth/password_policy.go:75-150 | for every policy and all draws the password is the one that the draws make and passes Validate under the same policy; it fails exactly when a filler draw fails, and panics exactly when none does and a draw of the shuffle fails |

## Left out

- HTTP handlers, SQL, NATS, gRPC, TLS, JSON, metrics and logging: plumbing around the modelled steps.
- `CheckDirection` of the tripwire, rule matching, sharding, path sanitising and health aggregation: easy members.
- `AllowUser` and `AllowTenant` of the gateway limiter: they answer true always.
- Audit entries read back from Postgres: their order and timestamp text come from SQL.
- ffmpeg supervision, ONVIF messages, export, evidence, forensics and federation: external processes.
- bufio.Scanner: buffer growth and shifting, readers that return data together with end of file, and repeated empty reads are not modelled.
- Publish failures and a missing NATS connection, which skip publishing a frame, are not modelled.
- Tracker.Tracker.MatchDetections: tracks are values in a list, so the aliasing of the source's box slices with the caller's is not captured.
- Loitering.AlarmsSpaced: the concurrent deletions under a shared read lock are taken as atomic steps.
- LeaderElection.AtMostOneLeader: a node restarting under its own ID is not modelled.
- IpRange.CollectIPs: addresses stay bytes and are not formatted as text.
- ModelRegistry.RunsKeepInv: transactions are atomic, so interleavings inside one handler are not covered, and metrics and paths of a model are omitted.
- The ticker that paces the two limiters' cleanup: a sweep may come at any time.
- Storage and transaction errors of the model registry, which leave the table as it was, are not modelled.
