/**
 The greedy multi-object tracker of services/event-proc/main.go. Tracks are values in a per-camera list; a
 counter stands for the supply of fresh track IDs.
 */
module Tracker {
  import opened Boxes

  datatype Detection = Detection(kind: string, confidence: real, bbox: Box)

  datatype Track = Track(id: nat, kind: string, confidence: real, bbox: Box,
                         firstSeen: int, lastSeen: int, cameraId: string)

  // ----- Choosing a track for one detection -----

  predicate Eligible(tracks: seq<Track>, used: set<nat>, d: Detection, threshold: real, i: nat)
    requires i < |tracks|
  {
    i !in used && tracks[i].kind == d.kind && ComputeIoU(tracks[i].bbox, d.bbox) > threshold
  }

  /** The lowest-index track of maximal overlap among the eligible ones with index below n, else -1. */
  ghost predicate IsBest(tracks: seq<Track>, used: set<nat>, d: Detection, threshold: real, n: nat, r: int)
    requires n <= |tracks|
  {
    if exists i :: 0 <= i < n && Eligible(tracks, used, d, threshold, i) then
      && 0 <= r < n && Eligible(tracks, used, d, threshold, r)
      && forall i :: 0 <= i < n && Eligible(tracks, used, d, threshold, i) ==>
           var here, best := ComputeIoU(tracks[i].bbox, d.bbox), ComputeIoU(tracks[r].bbox, d.bbox);
           here < best || (here == best && r <= i)
    else r == -1
  }

  /** The scan of the first n tracks: best index so far. */
  function Best(tracks: seq<Track>, used: set<nat>, d: Detection, threshold: real, n: nat): (r: int)
    requires n <= |tracks|
    ensures -1 <= r < n
  {
    if n == 0 then -1
    else
      var r := Best(tracks, used, d, threshold, n - 1);
      var bar := if r < 0 then threshold else ComputeIoU(tracks[r].bbox, d.bbox);
      var tr := tracks[n - 1];
      if n - 1 !in used && tr.kind == d.kind && ComputeIoU(tr.bbox, d.bbox) > bar then n - 1 else r
  }

  lemma {:induction false} BestIsBest(tracks: seq<Track>, used: set<nat>, d: Detection, threshold: real, n: nat)
    requires n <= |tracks|
    ensures IsBest(tracks, used, d, threshold, n, Best(tracks, used, d, threshold, n))
  {
    hide ComputeIoU;
    if n > 0 {
      BestIsBest(tracks, used, d, threshold, n - 1);
      var r, r' := Best(tracks, used, d, threshold, n - 1), Best(tracks, used, d, threshold, n);
      assert Eligible(tracks, used, d, threshold, n - 1) ==>
        exists i :: 0 <= i < n && Eligible(tracks, used, d, threshold, i);
    }
  }

  // ----- One call -----

  /**
   The state inside matchDetections: the camera's list, the used indices, the number of IDs issued, the answers,
   and for each answer the index of the track it was taken from.
   */
  datatype Scene = Scene(tracks: seq<Track>, used: set<nat>, issued: nat, out: seq<Track>, own: seq<nat>)

  function Refresh(tr: Track, d: Detection, now: int): Track {
    tr.(bbox := d.bbox, confidence := d.confidence, lastSeen := now)
  }

  function Assign(s: Scene, d: Detection, camera: string, threshold: real, now: int): Scene {
    var b := Best(s.tracks, s.used, d, threshold, |s.tracks|);
    if b >= 0 then
      var tr := Refresh(s.tracks[b], d, now);
      Scene(s.tracks[b := tr], s.used + {b}, s.issued, s.out + [tr.(cameraId := camera)], s.own + [b])
    else
      var tr := Track(s.issued, d.kind, d.confidence, d.bbox, now, now, camera);
      Scene(s.tracks + [tr], s.used, s.issued + 1, s.out + [tr], s.own + [|s.tracks|])
  }

  function AssignAll(s: Scene, ds: seq<Detection>, camera: string, threshold: real, now: int): Scene {
    if ds == [] then s
    else Assign(AssignAll(s, ds[..|ds| - 1], camera, threshold, now), ds[|ds| - 1], camera, threshold, now)
  }

  function Match(tracks: seq<Track>, issued: nat, ds: seq<Detection>, camera: string, threshold: real, now: int)
    : Scene
  {
    AssignAll(Scene(tracks, {}, issued, [], []), ds, camera, threshold, now)
  }

  /** What a call leaves of the tracks it found: same identity, and the same track if it was not used. */
  ghost predicate Continues(before: Track, after: Track, used: bool, now: int) {
    after.id == before.id && after.kind == before.kind && after.firstSeen == before.firstSeen
    && after.cameraId == before.cameraId
    && (if used then after.lastSeen == now else after == before)
  }

  /** The answer to a detection copies the detection and the identity of its track. */
  ghost predicate Answers(d: Detection, tr: Track, out: Track, camera: string, now: int) {
    out.kind == d.kind && out.bbox == d.bbox && out.confidence == d.confidence && out.lastSeen == now
    && out.cameraId == camera && out.id == tr.id && out.firstSeen == tr.firstSeen && tr.kind == d.kind
  }

  /**
   One track per detection, in order. A track that existed before the call is given to at most one detection,
   and is used exactly when it is given; a track created in the call is given to its own detection and to at
   most one later one. Created tracks get the next IDs in order.
   */
  ghost predicate Matched(tracks: seq<Track>, issued: nat, ds: seq<Detection>, camera: string, now: int, s: Scene) {
    && |s.out| == |s.own| == |ds| && |tracks| <= |s.tracks| && s.issued == issued + (|s.tracks| - |tracks|)
    && (forall x :: x in s.used ==> x < |s.tracks|)
    && AllAnswered(ds, camera, now, s)
    && AllContinue(tracks, now, s)
    && AllCreated(tracks, issued, camera, now, s)
    && AllCounted(|tracks|, s)
    && AllStored(ds, s)
  }

  /** A track holds the box and confidence of the last detection it was given. */
  ghost predicate AllStored(ds: seq<Detection>, s: Scene) {
    |s.own| == |ds| && forall k :: 0 <= k < |ds| && LastGiven(s.own, k) ==>
      s.own[k] < |s.tracks| && Holds(s.tracks[s.own[k]], ds[k])
  }

  /** No later detection is given the track of detection k. */
  ghost predicate LastGiven(own: seq<nat>, k: nat) {
    k < |own| && forall l :: k < l < |own| ==> own[l] != own[k]
  }

  predicate Holds(tr: Track, d: Detection) {
    tr.bbox == d.bbox && tr.confidence == d.confidence
  }

  ghost predicate AllAnswered(ds: seq<Detection>, camera: string, now: int, s: Scene) {
    |s.out| == |s.own| == |ds| && forall k :: 0 <= k < |ds| ==>
      s.own[k] < |s.tracks| && Answers(ds[k], s.tracks[s.own[k]], s.out[k], camera, now)
  }

  ghost predicate AllContinue(tracks: seq<Track>, now: int, s: Scene) {
    |tracks| <= |s.tracks| && forall x :: 0 <= x < |tracks| ==> Continues(tracks[x], s.tracks[x], x in s.used, now)
  }

  ghost predicate AllCreated(tracks: seq<Track>, issued: nat, camera: string, now: int, s: Scene) {
    forall x :: |tracks| <= x < |s.tracks| ==> Created(s.tracks[x], issued + (x - |tracks|), camera, now)
  }

  ghost predicate AllCounted(before: nat, s: Scene) {
    forall x: nat :: multiset(s.own)[x] == Given(x, before, |s.tracks|, s.used)
  }

  ghost predicate Created(tr: Track, id: nat, camera: string, now: int) {
    tr.id == id && tr.firstSeen == now && tr.lastSeen == now && tr.cameraId == camera
  }

  /** How many detections were given the track at index x. */
  function Given(x: nat, before: nat, after: nat, used: set<nat>): nat {
    (if before <= x < after then 1 else 0) + (if x in used then 1 else 0)
  }

  lemma {:induction false} MatchMeaning(tracks: seq<Track>, issued: nat, ds: seq<Detection>, camera: string,
                                        threshold: real, now: int)
    ensures Matched(tracks, issued, ds, camera, now, Match(tracks, issued, ds, camera, threshold, now))
    decreases |ds|
  {
    if ds != [] {
      var n := |ds| - 1;
      MatchMeaning(tracks, issued, ds[..n], camera, threshold, now);
      var s := Match(tracks, issued, ds[..n], camera, threshold, now);
      AssignMatched(tracks, issued, ds[..n], camera, threshold, now, s, ds[n]);
      assert ds[..n] + [ds[n]] == ds;
    }
  }

  /** The index given to a detection is the best eligible track of the scene, or a new one if there is none. */
  ghost predicate Greedy(s: Scene, d: Detection, threshold: real, own: nat) {
    own <= |s.tracks| && IsBest(s.tracks, s.used, d, threshold, |s.tracks|, if own < |s.tracks| then own else -1)
  }

  /** Every detection of a call is given the greedy choice in the scene that the detections before it left. */
  lemma {:induction false} MatchIsGreedy(tracks: seq<Track>, issued: nat, ds: seq<Detection>, camera: string,
                                         threshold: real, now: int, k: nat)
    requires k < |ds|
    ensures var s := Match(tracks, issued, ds, camera, threshold, now);
            |s.own| == |ds|
            && Greedy(Match(tracks, issued, ds[..k], camera, threshold, now), ds[k], threshold, s.own[k])
    decreases |ds|
  {
    var n := |ds| - 1;
    var s := Match(tracks, issued, ds[..n], camera, threshold, now);
    hide Assign, Greedy;
    AssignIsGreedy(s, ds[n], camera, threshold, now);
    if n > 0 {
      MatchIsGreedy(tracks, issued, ds[..n], camera, threshold, now, if k < n then k else 0);
      assert k < n ==> ds[..n][..k] == ds[..k];
    }
  }

  lemma AssignIsGreedy(s: Scene, d: Detection, camera: string, threshold: real, now: int)
    ensures var s' := Assign(s, d, camera, threshold, now);
            && |s'.own| == |s.own| + 1 && (forall k :: 0 <= k < |s.own| ==> s'.own[k] == s.own[k])
            && Greedy(s, d, threshold, s'.own[|s.own|])
  {
    BestIsBest(s.tracks, s.used, d, threshold, |s.tracks|);
    hide ComputeIoU, Best, IsBest;
  }

  lemma AssignMatched(tracks: seq<Track>, issued: nat, ds: seq<Detection>, camera: string, threshold: real, now: int,
                      s: Scene, d: Detection)
    requires Matched(tracks, issued, ds, camera, now, s)
    ensures Matched(tracks, issued, ds + [d], camera, now, Assign(s, d, camera, threshold, now))
  {
    var b := Best(s.tracks, s.used, d, threshold, |s.tracks|);
    BestIsBest(s.tracks, s.used, d, threshold, |s.tracks|);
    var s' := Assign(s, d, camera, threshold, now);
    hide ComputeIoU, Best;
    if b >= 0 {
      AssignReuse(tracks, issued, ds, camera, now, s, d, b, s');
    } else {
      AssignCreate(tracks, issued, ds, camera, now, s, d, s');
    }
  }

  lemma RefreshAnswers(tr: Track, d: Detection, camera: string, now: int)
    requires tr.kind == d.kind
    ensures var tr' := Refresh(tr, d, now);
            && Answers(d, tr', tr'.(cameraId := camera), camera, now) && Holds(tr', d)
            && tr'.id == tr.id && tr'.kind == tr.kind && tr'.firstSeen == tr.firstSeen
  {
  }

  lemma AssignReuse(tracks: seq<Track>, issued: nat, ds: seq<Detection>, camera: string, now: int, s: Scene,
                    d: Detection, b: nat, s': Scene)
    requires Matched(tracks, issued, ds, camera, now, s)
    requires b < |s.tracks| && b !in s.used && s.tracks[b].kind == d.kind
    requires var tr := Refresh(s.tracks[b], d, now);
             s' == Scene(s.tracks[b := tr], s.used + {b}, s.issued, s.out + [tr.(cameraId := camera)], s.own + [b])
    ensures Matched(tracks, issued, ds + [d], camera, now, s')
  {
    hide AllAnswered, AllCreated, AllContinue, AllCounted, AllStored, Answers, Holds, Refresh;
    RefreshAnswers(s.tracks[b], d, camera, now);
    assert s'.own[..|ds|] == s.own && s'.out[..|ds|] == s.out;
    StepCounted(|tracks|, s, s', b);
    StepStored(ds, s, d, s', b);
    StepAnswered(ds, camera, now, s, d, s');
    ReuseKeeps(tracks, issued, camera, now, s, b, d, s');
  }

  lemma AssignCreate(tracks: seq<Track>, issued: nat, ds: seq<Detection>, camera: string, now: int, s: Scene,
                     d: Detection, s': Scene)
    requires Matched(tracks, issued, ds, camera, now, s)
    requires var tr := Track(s.issued, d.kind, d.confidence, d.bbox, now, now, camera);
             s' == Scene(s.tracks + [tr], s.used, s.issued + 1, s.out + [tr], s.own + [|s.tracks|])
    ensures Matched(tracks, issued, ds + [d], camera, now, s')
  {
    hide AllAnswered, AllCreated, AllContinue, AllCounted, AllStored;
    StepCounted(|tracks|, s, s', |s.tracks|);
    StepStored(ds, s, d, s', |s.tracks|);
    StepAnswered(ds, camera, now, s, d, s');
    CreateKeeps(tracks, issued, camera, now, s, s');
  }

  lemma StepCounted(before: nat, s: Scene, s': Scene, owner: nat)
    requires AllCounted(before, s) && before <= |s.tracks| && s'.own == s.own + [owner]
    requires (owner < |s.tracks| && |s'.tracks| == |s.tracks| && owner !in s.used && s'.used == s.used + {owner})
          || (owner == |s.tracks| && |s'.tracks| == |s.tracks| + 1 && s'.used == s.used)
    ensures AllCounted(before, s')
  {
    forall x: nat ensures multiset(s'.own)[x] == Given(x, before, |s'.tracks|, s'.used) {
      assert multiset(s'.own)[x] == multiset(s.own)[x] + (if x == owner then 1 else 0);
    }
  }

  lemma LastGivenBefore(own: seq<nat>, owner: nat, k: nat)
    requires k < |own| && LastGiven(own + [owner], k)
    ensures LastGiven(own, k) && own[k] != owner
  {
    var longer := own + [owner];
    assert longer[|own|] == owner;
    forall l | k < l < |own| ensures own[l] != own[k] {
      assert longer[l] == own[l];
    }
  }

  lemma StepStored(ds: seq<Detection>, s: Scene, d: Detection, s': Scene, owner: nat)
    requires AllStored(ds, s) && s'.own == s.own + [owner] && owner < |s'.tracks| && Holds(s'.tracks[owner], d)
    requires |s.tracks| <= |s'.tracks| && forall x :: 0 <= x < |s.tracks| && x != owner ==> s'.tracks[x] == s.tracks[x]
    ensures AllStored(ds + [d], s')
  {
    var ds' := ds + [d];
    hide Holds;
    forall k | 0 <= k < |ds'| && LastGiven(s'.own, k)
      ensures s'.own[k] < |s'.tracks| && Holds(s'.tracks[s'.own[k]], ds'[k])
    {
      if k < |ds| {
        LastGivenBefore(s.own, owner, k);
      }
    }
  }

  lemma StepAnswered(ds: seq<Detection>, camera: string, now: int, s: Scene, d: Detection, s': Scene)
    requires AllAnswered(ds, camera, now, s) && |s.tracks| <= |s'.tracks|
    requires |s'.own| == |s.own| + 1 == |s'.out| && s'.own[..|ds|] == s.own && s'.out[..|ds|] == s.out
    requires forall x :: 0 <= x < |s.tracks| ==>
      && s'.tracks[x].id == s.tracks[x].id && s'.tracks[x].kind == s.tracks[x].kind
      && s'.tracks[x].firstSeen == s.tracks[x].firstSeen
    requires s'.own[|ds|] < |s'.tracks| && Answers(d, s'.tracks[s'.own[|ds|]], s'.out[|ds|], camera, now)
    ensures AllAnswered(ds + [d], camera, now, s')
  {
    var ds' := ds + [d];
    forall k | 0 <= k < |ds'|
      ensures s'.own[k] < |s'.tracks| && Answers(ds'[k], s'.tracks[s'.own[k]], s'.out[k], camera, now)
    {
      if k < |ds| {
        assert s.own[k] == s'.own[k] && s.out[k] == s'.out[k];
        assert Answers(ds[k], s.tracks[s.own[k]], s.out[k], camera, now);
      }
    }
  }

  lemma ReuseKeeps(tracks: seq<Track>, issued: nat, camera: string, now: int, s: Scene, b: nat, d: Detection, s': Scene)
    requires AllContinue(tracks, now, s) && AllCreated(tracks, issued, camera, now, s)
    requires b < |s.tracks| && s'.tracks == s.tracks[b := Refresh(s.tracks[b], d, now)] && s'.used == s.used + {b}
    ensures AllContinue(tracks, now, s') && AllCreated(tracks, issued, camera, now, s')
  {
    forall x | 0 <= x < |tracks| ensures Continues(tracks[x], s'.tracks[x], x in s'.used, now) {
      assert Continues(tracks[x], s.tracks[x], x in s.used, now);
    }
    forall x | |tracks| <= x < |s'.tracks| ensures Created(s'.tracks[x], issued + (x - |tracks|), camera, now) {
      assert Created(s.tracks[x], issued + (x - |tracks|), camera, now);
    }
  }

  lemma CreateKeeps(tracks: seq<Track>, issued: nat, camera: string, now: int, s: Scene, s': Scene)
    requires AllContinue(tracks, now, s) && AllCreated(tracks, issued, camera, now, s)
    requires |s'.tracks| == |s.tracks| + 1 && s'.tracks[..|s.tracks|] == s.tracks && s'.used == s.used
    requires Created(s'.tracks[|s.tracks|], issued + (|s.tracks| - |tracks|), camera, now)
    ensures AllContinue(tracks, now, s') && AllCreated(tracks, issued, camera, now, s')
  {
    forall x | 0 <= x < |tracks| ensures Continues(tracks[x], s'.tracks[x], x in s'.used, now) {
      assert Continues(tracks[x], s.tracks[x], x in s.used, now);
      assert s'.tracks[..|s.tracks|][x] == s'.tracks[x];
    }
    forall x | |tracks| <= x < |s'.tracks| ensures Created(s'.tracks[x], issued + (x - |tracks|), camera, now) {
      if x < |s.tracks| {
        assert Created(s.tracks[x], issued + (x - |tracks|), camera, now);
        assert s'.tracks[..|s.tracks|][x] == s'.tracks[x];
      }
    }
  }

  // ----- Cleanup -----

  predicate Fresh(tr: Track, now: int, timeout: int) {
    now - tr.lastSeen < timeout
  }

  /** The tracks seen recently enough, in their order. */
  function Active(tracks: seq<Track>, now: int, timeout: int): seq<Track> {
    if tracks == [] then []
    else
      var n := |tracks| - 1;
      Active(tracks[..n], now, timeout) + (if Fresh(tracks[n], now, timeout) then [tracks[n]] else [])
  }

  /** kept is tracks restricted, in order, to those last seen less than the timeout ago; at lists their positions. */
  ghost predicate Picks(tracks: seq<Track>, now: int, timeout: int, kept: seq<Track>, at: seq<nat>) {
    && |at| == |kept|
    && (forall k :: 0 <= k < |at| ==> at[k] < |tracks| && kept[k] == tracks[at[k]])
    && (forall j, k :: 0 <= j < k < |at| ==> at[j] < at[k])
    && (forall i :: 0 <= i < |tracks| ==> (i in at <==> now < tracks[i].lastSeen + timeout))
  }

  lemma PicksNext(tracks: seq<Track>, now: int, timeout: int, kept: seq<Track>, at: seq<nat>, tr: Track)
    requires Picks(tracks, now, timeout, kept, at)
    ensures Fresh(tr, now, timeout) ==> Picks(tracks + [tr], now, timeout, kept + [tr], at + [|tracks|])
    ensures !Fresh(tr, now, timeout) ==> Picks(tracks + [tr], now, timeout, kept, at)
  {
    assert |tracks| !in at;
    forall i | 0 <= i <= |tracks| ensures i in at + [|tracks|] <==> i in at || i == |tracks| {
    }
  }

  /** Cleanup is an order-preserving filter. */
  lemma {:induction false} ActiveIsFilter(tracks: seq<Track>, now: int, timeout: int) returns (at: seq<nat>)
    ensures Picks(tracks, now, timeout, Active(tracks, now, timeout), at)
  {
    at := [];
    if tracks != [] {
      var n := |tracks| - 1;
      at := ActiveIsFilter(tracks[..n], now, timeout);
      PicksNext(tracks[..n], now, timeout, Active(tracks[..n], now, timeout), at, tracks[n]);
      assert tracks == tracks[..n] + [tracks[n]];
      hide Picks, Fresh;
      if Fresh(tracks[n], now, timeout) {
        at := at + [n];
      } else {
        assert Active(tracks[..n], now, timeout) + [] == Active(tracks[..n], now, timeout);
      }
    }
  }

  /** A cleanup step filters the list of every camera in this way and does nothing else. */
  lemma CleanupFilters(st: State, now: int, threshold: real, timeout: int, c: string) returns (at: seq<nat>)
    ensures var st' := Next(st, CleanupStep(now), threshold, timeout);
            && st'.issued == st.issued && st'.tracks.Keys == st.tracks.Keys
            && (c in st.tracks ==> Picks(st.tracks[c], now, timeout, st'.tracks[c], at))
  {
    at := [];
    if c in st.tracks {
      at := ActiveIsFilter(st.tracks[c], now, timeout);
    }
  }

  /** The in-place compaction of cleanupStaleTracks: a write index that never overtakes the read index. */
  method Compact(a: array<Track>, now: int, timeout: int) returns (n: nat)
    modifies a
    ensures n <= a.Length && a[..n] == Active(old(a[..]), now, timeout)
  {
    n := 0;
    ghost var was := a[..];
    assert Active(was[..0], now, timeout) == [];
    hide Active, Fresh;
    for i := 0 to a.Length
      invariant n <= i && forall k :: i <= k < a.Length ==> a[k] == was[k]
      invariant a[..n] == Active(was[..i], now, timeout)
    {
      ActiveNext(was, i, now, timeout);
      if Fresh(a[i], now, timeout) {
        ghost var kept := a[..n];
        a[n] := a[i];
        n := n + 1;
        assert a[..n] == kept + [was[i]];
      }
    }
    assert was[..a.Length] == was;
  }

  lemma ActiveNext(tracks: seq<Track>, i: nat, now: int, timeout: int)
    requires i < |tracks|
    ensures Active(tracks[..i + 1], now, timeout)
         == if Fresh(tracks[i], now, timeout) then Active(tracks[..i], now, timeout) + [tracks[i]]
            else Active(tracks[..i], now, timeout)
  {
    hide Fresh;
    assert tracks[..i + 1][..i] == tracks[..i];
  }

  // ----- Whole runs -----

  datatype State = State(tracks: map<string, seq<Track>>, issued: nat)

  datatype Step = MatchStep(camera: string, ds: seq<Detection>, now: int) | CleanupStep(now: int)

  function Of(tracks: map<string, seq<Track>>, camera: string): seq<Track> {
    if camera in tracks then tracks[camera] else []
  }

  function CleanAll(tracks: map<string, seq<Track>>, now: int, timeout: int): map<string, seq<Track>> {
    map c | c in tracks :: Active(tracks[c], now, timeout)
  }

  function Next(st: State, step: Step, threshold: real, timeout: int): State {
    match step
    case MatchStep(camera, ds, now) =>
      var s := Match(Of(st.tracks, camera), st.issued, ds, camera, threshold, now);
      State(st.tracks[camera := s.tracks], s.issued)
    case CleanupStep(now) =>
      State(CleanAll(st.tracks, now, timeout), st.issued)
  }

  /** The clock never runs backwards along the run. */
  predicate Timely(clock: int, steps: seq<Step>)
    decreases |steps|
  {
    steps == [] || (clock <= steps[0].now && Timely(steps[0].now, steps[1..]))
  }

  function Clock(clock: int, steps: seq<Step>): int
    decreases |steps|
  {
    if steps == [] then clock else Clock(steps[0].now, steps[1..])
  }

  function RunFrom(st: State, steps: seq<Step>, threshold: real, timeout: int): State
    decreases |steps|
  {
    if steps == [] then st else RunFrom(Next(st, steps[0], threshold, timeout), steps[1..], threshold, timeout)
  }

  predicate At(st: State, c: string, i: int) {
    c in st.tracks && 0 <= i < |st.tracks[c]|
  }

  ghost predicate Consistent(st: State, clock: int) {
    && (forall c, i :: At(st, c, i) ==> Sound(st.tracks[c][i], c, st.issued, clock))
    && (forall c, i, d, j :: At(st, c, i) && At(st, d, j) && st.tracks[c][i].id == st.tracks[d][j].id ==>
          c == d && i == j)
  }

  ghost predicate Sound(tr: Track, c: string, issued: nat, clock: int) {
    tr.id < issued && tr.firstSeen <= tr.lastSeen <= clock && tr.cameraId == c
  }

  /** Every track of st' with an old ID continues the track of st with that ID: camera, label and entry time stay. */
  ghost predicate Descends(st: State, st': State) {
    && st.issued <= st'.issued
    && forall c, i :: At(st', c, i) && st'.tracks[c][i].id < st.issued ==>
         exists j :: At(st, c, j) && SameIdentity(st.tracks[c][j], st'.tracks[c][i])
  }

  ghost predicate SameIdentity(a: Track, b: Track) {
    a.id == b.id && a.kind == b.kind && a.firstSeen == b.firstSeen && a.cameraId == b.cameraId
  }

  lemma MatchKeeps(st: State, camera: string, ds: seq<Detection>, now: int, threshold: real, timeout: int, clock: int)
    requires Consistent(st, clock) && clock <= now
    ensures var st' := Next(st, MatchStep(camera, ds, now), threshold, timeout);
            Consistent(st', now) && Descends(st, st')
  {
    var was := Of(st.tracks, camera);
    MatchMeaning(was, st.issued, ds, camera, threshold, now);
    var s := Match(was, st.issued, ds, camera, threshold, now);
    var st' := Next(st, MatchStep(camera, ds, now), threshold, timeout);
    hide Match, Given;
    forall i | 0 <= i < |s.tracks|
      ensures i < |was| ==> At(st, camera, i) && SameIdentity(was[i], s.tracks[i])
      ensures i >= |was| ==> s.tracks[i].id == st.issued + (i - |was|)
      ensures Sound(s.tracks[i], camera, s.issued, now)
    {
      MatchedTrack(was, st.issued, ds, camera, now, s, i);
      if i < |was| {
        assert At(st, camera, i) && Sound(was[i], camera, st.issued, clock);
      }
    }
    forall c, i | At(st', c, i) && c != camera ensures At(st, c, i) && st'.tracks[c][i] == st.tracks[c][i] {
    }
    forall c, i | At(st', c, i) && st'.tracks[c][i].id < st.issued
      ensures At(st, c, i) && SameIdentity(st.tracks[c][i], st'.tracks[c][i])
    {
    }
    forall c, i, d, j | At(st', c, i) && At(st', d, j) && st'.tracks[c][i].id == st'.tracks[d][j].id
      ensures c == d && i == j
    {
      if st'.tracks[c][i].id < st.issued {
        assert At(st, c, i) && At(st, d, j);
      }
    }
  }

  /** One track of the list after a call: continued with a later sighting at most, or created now. */
  lemma MatchedTrack(tracks: seq<Track>, issued: nat, ds: seq<Detection>, camera: string, now: int, s: Scene, i: nat)
    requires Matched(tracks, issued, ds, camera, now, s) && i < |s.tracks|
    ensures i < |tracks| ==> SameIdentity(tracks[i], s.tracks[i])
    ensures i < |tracks| ==> s.tracks[i].lastSeen in {tracks[i].lastSeen, now}
    ensures i >= |tracks| ==> Created(s.tracks[i], issued + (i - |tracks|), camera, now)
  {
    if i < |tracks| {
      assert Continues(tracks[i], s.tracks[i], i in s.used, now);
    }
  }

  lemma CleanupKeeps(st: State, now: int, threshold: real, timeout: int, clock: int)
    requires Consistent(st, clock) && clock <= now
    ensures var st' := Next(st, CleanupStep(now), threshold, timeout);
            Consistent(st', now) && Descends(st, st')
  {
    var st' := Next(st, CleanupStep(now), threshold, timeout);
    forall c, i | At(st', c, i)
      ensures exists k :: At(st, c, k) && st.tracks[c][k] == st'.tracks[c][i]
    {
      var k := Kept(st, st', now, timeout, c, i);
    }
    forall c, i, d, j | At(st', c, i) && At(st', d, j) && st'.tracks[c][i].id == st'.tracks[d][j].id
      ensures c == d && i == j
    {
      var k := Kept(st, st', now, timeout, c, i);
      var l := Kept(st, st', now, timeout, d, j);
      assert c == d;
      assert forall x, y :: 0 <= x < y < |st.tracks[c]| ==> At(st, c, x) && At(st, c, y);
      FilterInjective(st.tracks[c], now, timeout, i, j);
    }
  }

  lemma Kept(st: State, st': State, now: int, timeout: int, c: string, i: nat) returns (k: nat)
    requires st'.tracks == CleanAll(st.tracks, now, timeout) && At(st', c, i)
    ensures At(st, c, k) && st.tracks[c][k] == st'.tracks[c][i]
  {
    var at := ActiveIsFilter(st.tracks[c], now, timeout);
    k := at[i];
  }

  lemma FilterInjective(tracks: seq<Track>, now: int, timeout: int, i: nat, j: nat)
    requires forall x, y :: 0 <= x < y < |tracks| ==> tracks[x].id != tracks[y].id
    requires i < |Active(tracks, now, timeout)| && j < |Active(tracks, now, timeout)|
    requires Active(tracks, now, timeout)[i].id == Active(tracks, now, timeout)[j].id
    ensures i == j
  {
    var at := ActiveIsFilter(tracks, now, timeout);
  }

  lemma DescendsTrans(a: State, b: State, c: State)
    requires Descends(a, b) && Descends(b, c)
    ensures Descends(a, c)
  {
    forall cam, i | At(c, cam, i) && c.tracks[cam][i].id < a.issued
      ensures exists j :: At(a, cam, j) && SameIdentity(a.tracks[cam][j], c.tracks[cam][i])
    {
      var k :| At(b, cam, k) && SameIdentity(b.tracks[cam][k], c.tracks[cam][i]);
      var j :| At(a, cam, j) && SameIdentity(a.tracks[cam][j], b.tracks[cam][k]);
    }
  }

  /**
   Over every run of matching and cleanup: IDs stay distinct across all cameras, every track was first seen no
   later than last seen and no later than now, and an ID never changes camera, label or entry time.
   */
  lemma {:induction false} RunsKeepIdentity(st: State, clock: int, steps: seq<Step>, threshold: real, timeout: int)
    requires Consistent(st, clock) && Timely(clock, steps)
    ensures Consistent(RunFrom(st, steps, threshold, timeout), Clock(clock, steps))
    ensures Descends(st, RunFrom(st, steps, threshold, timeout))
    decreases |steps|
  {
    hide Consistent, Match, CleanAll;
    if steps == [] {
      assert forall c, i :: At(st, c, i) ==> SameIdentity(st.tracks[c][i], st.tracks[c][i]);
    } else {
      match steps[0] {
        case MatchStep(camera, ds, now) => MatchKeeps(st, camera, ds, now, threshold, timeout, clock);
        case CleanupStep(now) => CleanupKeeps(st, now, threshold, timeout, clock);
      }
      var st' := Next(st, steps[0], threshold, timeout);
      RunsKeepIdentity(st', steps[0].now, steps[1..], threshold, timeout);
      DescendsTrans(st, st', RunFrom(st', steps[1..], threshold, timeout));
    }
  }

  // ----- The tracker object -----

  lemma MatchNone(tracks: seq<Track>, issued: nat, camera: string, threshold: real, now: int, ds: seq<Detection>)
    requires ds == []
    ensures Match(tracks, issued, ds, camera, threshold, now) == Scene(tracks, {}, issued, [], [])
  {
  }

  /** The two ways in which a detection is assigned. */
  lemma AssignIs(s: Scene, d: Detection, camera: string, threshold: real, now: int)
    ensures var b, s' := Best(s.tracks, s.used, d, threshold, |s.tracks|), Assign(s, d, camera, threshold, now);
            if b >= 0 then
              && s'.tracks == s.tracks[b := Refresh(s.tracks[b], d, now)]
              && s'.used == s.used + {b} && s'.issued == s.issued
              && s'.out == s.out + [Refresh(s.tracks[b], d, now).(cameraId := camera)]
            else
              var tr := Track(s.issued, d.kind, d.confidence, d.bbox, now, now, camera);
              s'.tracks == s.tracks + [tr] && s'.used == s.used && s'.issued == s.issued + 1 && s'.out == s.out + [tr]
  {
    hide Best, Refresh;
  }

  lemma MatchNext(tracks: seq<Track>, issued: nat, ds: seq<Detection>, k: nat, camera: string, threshold: real,
                  now: int)
    requires k < |ds|
    ensures Match(tracks, issued, ds[..k + 1], camera, threshold, now)
         == Assign(Match(tracks, issued, ds[..k], camera, threshold, now), ds[k], camera, threshold, now)
  {
    hide Assign;
    assert ds[..k + 1][..k] == ds[..k];
  }

  class Tracker {
    var tracks: map<string, seq<Track>>
    var issued: nat
    const ioUThreshold: real
    const trackTimeout: int

    ghost function View(): State
      reads this
    {
      State(tracks, issued)
    }

    constructor (ioUThreshold: real, trackTimeout: int)
      ensures View() == State(map[], 0) && this.ioUThreshold == ioUThreshold && this.trackTimeout == trackTimeout
    {
      tracks, issued := map[], 0;
      this.ioUThreshold, this.trackTimeout := ioUThreshold, trackTimeout;
    }

    method FindBest(camera: string, used: set<nat>, d: Detection) returns (bestIdx: int)
      requires camera in tracks
      ensures bestIdx == Best(tracks[camera], used, d, ioUThreshold, |tracks[camera]|)
    {
      hide ComputeIoU;
      bestIdx := -1;
      var bestIoU := ioUThreshold;
      for i := 0 to |tracks[camera]|
        invariant bestIdx == Best(tracks[camera], used, d, ioUThreshold, i)
        invariant bestIoU == if bestIdx < 0 then ioUThreshold else ComputeIoU(tracks[camera][bestIdx].bbox, d.bbox)
      {
        var tr := tracks[camera][i];
        if i in used { continue; }
        if tr.kind != d.kind { continue; }
        var iou := ComputeIoU(tr.bbox, d.bbox);
        if iou > bestIoU {
          bestIoU, bestIdx := iou, i;
        }
      }
    }

    method MatchDetections(camera: string, ds: seq<Detection>, now: int) returns (matched: seq<Track>)
      modifies this
      ensures View() == Next(old(View()), MatchStep(camera, ds, now), ioUThreshold, trackTimeout)
      ensures matched == Match(old(Of(tracks, camera)), old(issued), ds, camera, ioUThreshold, now).out
    {
      ghost var first, supply := Of(tracks, camera), issued;
      if camera !in tracks {
        tracks := tracks[camera := []];
      }
      matched := [];
      var used: set<nat> := {};
      ghost var s := Scene(first, {}, issued, [], []);
      MatchNone(first, issued, camera, ioUThreshold, now, ds[..0]);
      hide Match, Refresh, Assign, Best;
      for k := 0 to |ds|
        invariant camera in tracks && forall c :: c != camera ==> (c in tracks <==> c in old(tracks))
        invariant forall c :: c in tracks && c != camera ==> tracks[c] == old(tracks)[c]
        invariant s == Match(first, supply, ds[..k], camera, ioUThreshold, now)
        invariant s.tracks == tracks[camera] && s.used == used && s.issued == issued && s.out == matched
      {
        var d := ds[k];
        var bestIdx := FindBest(camera, used, d);
        MatchNext(first, supply, ds, k, camera, ioUThreshold, now);
        AssignIs(s, d, camera, ioUThreshold, now);
        if bestIdx >= 0 {
          used := used + {bestIdx};
          var tr := Refresh(tracks[camera][bestIdx], d, now);
          tracks := tracks[camera := tracks[camera][bestIdx := tr]];
          matched := matched + [tr.(cameraId := camera)];
        } else {
          var tr := Track(issued, d.kind, d.confidence, d.bbox, now, now, camera);
          issued := issued + 1;
          tracks := tracks[camera := tracks[camera] + [tr]];
          matched := matched + [tr];
        }
        s := Assign(s, d, camera, ioUThreshold, now);
      }
      assert ds[..|ds|] == ds;
      assert tracks == old(tracks)[camera := s.tracks];
    }

    method CleanupStaleTracks(now: int)
      modifies this
      ensures View() == Next(old(View()), CleanupStep(now), ioUThreshold, trackTimeout)
    {
      hide Active;
      ghost var was := tracks;
      var todo := tracks.Keys;
      while todo != {}
        invariant tracks.Keys == was.Keys && issued == old(issued) && todo <= was.Keys
        invariant forall c :: c in was ==>
          tracks[c] == if c in todo then was[c] else Active(was[c], now, trackTimeout)
        decreases |todo|
      {
        var c :| c in todo;
        var list := tracks[c];
        var backing := new Track[|list|](i requires 0 <= i < |list| => list[i]);
        assert backing[..] == list;
        var kept := Compact(backing, now, trackTimeout);
        tracks := tracks[c := backing[..kept]];
        todo := todo - {c};
      }
      assert tracks == CleanAll(was, now, trackTimeout);
    }
  }
}
