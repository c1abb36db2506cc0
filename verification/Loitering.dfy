/**
 The loitering dwell machine of services/event-proc/loitering.go. Evaluate works in two lock sections, so a run
 interleaves single sightings, emissions, cleanups and deletions freely; time is in seconds.
 */
module Loitering {
  import opened Geometry
  import opened Boxes
  import Polygon

  datatype Zone = Zone(id: string, polygon: seq<Point>, threshold: int, enabled: bool)

  /** One track of a call; tag is its label. */
  datatype Sighting = Sighting(trackId: string, bbox: Box, tag: string)

  datatype Dwell = Dwell(trackId: string, zoneId: string, entry: real, lastSeen: real, bbox: Box, tag: string)

  datatype Event = Event(trackId: string, zoneId: string, dwellSeconds: real, time: real)

  type Table = map<string, Dwell>

  function Centroid(bbox: Box): Point {
    if |bbox| < 4 then Point(0.0, 0.0)
    else Point((bbox[0] + bbox[2]) / 2.0, (bbox[1] + bbox[3]) / 2.0)
  }

  /** The centroid is halfway between the corners, whichever come first; an incomplete box has the origin. */
  lemma CentroidHalfway(x1: real, y1: real, x2: real, y2: real)
    ensures Centroid([x1, y1, x2, y2]) == Along(Point(x1, y1), Point(x2, y2), 0.5)
    ensures forall bbox: Box :: |bbox| < 4 ==> Centroid(bbox) == Point(0.0, 0.0)
    ensures Centroid([x2, y2, x1, y1]) == Centroid([x1, y1, x2, y2]) == Centroid([x1, y2, x2, y1])
  {
  }

  function Key(trackId: string, zoneId: string): string {
    trackId + ":" + zoneId
  }

  predicate InZone(tr: Sighting, z: Zone) {
    Polygon.Inside(Centroid(tr.bbox), z.polygon)
  }

  predicate InSomeZone(tr: Sighting, zones: seq<Zone>) {
    exists k :: 0 <= k < |zones| && InZone(tr, zones[k])
  }

  // ----- First lock section: one sighting -----

  function SeeInZone(d: Table, tr: Sighting, z: Zone, now: real): Table {
    var key := Key(tr.trackId, z.id);
    if !InZone(tr, z) then d
    else if key in d then d[key := d[key].(lastSeen := now, bbox := tr.bbox)]
    else d[key := Dwell(tr.trackId, z.id, now, now, tr.bbox, tr.tag)]
  }

  function SeeInZones(d: Table, tr: Sighting, zones: seq<Zone>, now: real): Table {
    if zones == [] then d
    else SeeInZone(SeeInZones(d, tr, zones[..|zones| - 1], now), tr, zones[|zones| - 1], now)
  }

  function Forget(d: Table, trackId: string): Table {
    map k | k in d && d[k].trackId != trackId :: d[k]
  }

  function See(d: Table, tr: Sighting, zones: seq<Zone>, now: real): Table {
    if InSomeZone(tr, zones) then SeeInZones(d, tr, zones, now) else Forget(d, tr.trackId)
  }

  // ----- Second lock section: emission -----

  /** The first zone with the given ID. */
  function Lookup(zones: seq<Zone>, id: string): (i: nat)
    ensures i <= |zones| && (i < |zones| ==> zones[i].id == id)
    ensures forall j :: 0 <= j < i ==> zones[j].id != id
  {
    if zones == [] || zones[0].id == id then 0 else 1 + Lookup(zones[1..], id)
  }

  predicate Fires(dt: Dwell, zones: seq<Zone>, now: real) {
    var i := Lookup(zones, dt.zoneId);
    i < |zones| && zones[i].enabled && now - dt.entry >= zones[i].threshold as real
  }

  function EventOf(dt: Dwell, now: real): Event {
    Event(dt.trackId, dt.zoneId, now - dt.entry, now)
  }

  /** The events for the keys of order, in that order. */
  function EventsFor(d: Table, order: seq<string>, now: real): seq<Event>
    requires forall k :: 0 <= k < |order| ==> order[k] in d
  {
    seq(|order|, k requires 0 <= k < |order| => EventOf(d[order[k]], now))
  }

  /** order lists each firing key once: the order in which the map happens to be iterated. */
  ghost predicate IsOrder(d: Table, zones: seq<Zone>, now: real, order: seq<string>) {
    && (forall k :: k in order <==> k in d && Fires(d[k], zones, now))
    && (forall i, j :: 0 <= i < j < |order| ==> order[i] != order[j])
  }

  function Without(d: Table, order: seq<string>): Table {
    map k | k in d && k !in order :: d[k]
  }

  function Cleaned(d: Table, now: real): Table {
    map k | k in d && now - d[k].lastSeen <= 10.0 :: d[k]
  }

  // ----- The detector object -----

  class LoiteringDetector {
    var dwellTracks: Table

    constructor ()
      ensures dwellTracks == map[]
    {
      dwellTracks := map[];
    }

    /** The deletion step of cleanupLoop. */
    method Cleanup(now: real)
      modifies this
      ensures dwellTracks == Cleaned(old(dwellTracks), now)
    {
      ghost var was := dwellTracks;
      var todo := dwellTracks.Keys;
      while todo != {}
        invariant todo <= was.Keys && todo <= dwellTracks.Keys
        invariant forall k :: k in dwellTracks <==> k in was && (k in todo || now - was[k].lastSeen <= 10.0)
        invariant forall k :: k in dwellTracks ==> dwellTracks[k] == was[k]
        decreases |todo|
      {
        var k :| k in todo;
        if now - dwellTracks[k].lastSeen > 10.0 {
          dwellTracks := dwellTracks - {k};
        }
        todo := todo - {k};
      }
    }

    /** The body of the track loop of Evaluate. */
    method Observe(tr: Sighting, zones: seq<Zone>, now: real)
      modifies this
      ensures dwellTracks == See(old(dwellTracks), tr, zones, now)
    {
      var c := Centroid(tr.bbox);
      var inZone := false;
      for i := 0 to |zones|
        invariant inZone <==> exists k :: 0 <= k < i && InZone(tr, zones[k])
        invariant dwellTracks == SeeInZones(old(dwellTracks), tr, zones[..i], now)
      {
        assert zones[..i + 1][..i] == zones[..i];
        var inside := Polygon.PointInPolygon(c, zones[i].polygon);
        if inside {
          inZone := true;
          var key := Key(tr.trackId, zones[i].id);
          if key !in dwellTracks {
            dwellTracks := dwellTracks[key := Dwell(tr.trackId, zones[i].id, now, now, tr.bbox, tr.tag)];
          } else {
            dwellTracks := dwellTracks[key := dwellTracks[key].(lastSeen := now, bbox := tr.bbox)];
          }
        }
      }
      assert zones[..|zones|] == zones;
      if !inZone {
        NotSeen(old(dwellTracks), tr, zones, now);
        dwellTracks := Forget(dwellTracks, tr.trackId);
      }
    }

    /** The second lock section of Evaluate. */
    method Emit(zones: seq<Zone>, now: real) returns (events: seq<Event>, ghost order: seq<string>)
      modifies this
      ensures IsOrder(old(dwellTracks), zones, now, order)
      ensures events == EventsFor(old(dwellTracks), order, now) && dwellTracks == Without(old(dwellTracks), order)
    {
      hide Fires;
      ghost var seen := dwellTracks;
      events, order := [], [];
      var todo := dwellTracks.Keys;
      assert dwellTracks == Without(seen, []);
      while todo != {}
        invariant todo <= seen.Keys
        invariant forall k :: k in order <==> k in seen && k !in todo && Fires(seen[k], zones, now)
        invariant forall i, j :: 0 <= i < j < |order| ==> order[i] != order[j]
        invariant events == EventsFor(seen, order, now)
        invariant dwellTracks == Without(seen, order)
        decreases |todo|
      {
        var key :| key in todo;
        var dt := dwellTracks[key];
        todo := todo - {key};
        if Fires(dt, zones, now) {
          events := events + [Event(dt.trackId, dt.zoneId, now - dt.entry, now)];
          dwellTracks := dwellTracks - {key};
          order := order + [key];
        }
      }
    }

    /** Evaluate, with nothing interfering between its two lock sections. */
    method Evaluate(tracks: seq<Sighting>, zones: seq<Zone>, now: real)
      returns (events: seq<Event>, ghost order: seq<string>)
      modifies this
      ensures var seen := SeeAll(old(dwellTracks), tracks, zones, now);
              IsOrder(seen, zones, now, order)
              && events == EventsFor(seen, order, now) && dwellTracks == Without(seen, order)
    {
      for i := 0 to |tracks|
        invariant dwellTracks == SeeAll(old(dwellTracks), tracks[..i], zones, now)
      {
        assert tracks[..i + 1][..i] == tracks[..i];
        Observe(tracks[i], zones, now);
      }
      assert tracks[..|tracks|] == tracks;
      events, order := Emit(zones, now);
    }
  }

  function SeeAll(d: Table, tracks: seq<Sighting>, zones: seq<Zone>, now: real): Table {
    if tracks == [] then d
    else See(SeeAll(d, tracks[..|tracks| - 1], zones, now), tracks[|tracks| - 1], zones, now)
  }

  lemma {:induction false} NotSeen(d: Table, tr: Sighting, zones: seq<Zone>, now: real)
    requires !InSomeZone(tr, zones)
    ensures SeeInZones(d, tr, zones, now) == d
  {
    if zones != [] {
      assert !InZone(tr, zones[|zones| - 1]);
      NotSeen(d, tr, zones[..|zones| - 1], now);
    }
  }

  // ----- Runs -----

  /** One atomic step. Tick lets a call without tracks advance the clock; Drop is any other deletion. */
  datatype Act =
    | SeeAct(tr: Sighting, zones: seq<Zone>, now: real)
    | EmitAct(zones: seq<Zone>, now: real, order: seq<string>)
    | CleanAct(now: real)
    | TickAct(now: real)
    | DropAct(keys: set<string>)

  function Apply(d: Table, act: Act): Table {
    match act
    case SeeAct(tr, zones, now) => See(d, tr, zones, now)
    case EmitAct(zones, now, order) => Without(d, order)
    case CleanAct(now) => Cleaned(d, now)
    case TickAct(now) => d
    case DropAct(keys) => d - keys
  }

  function After(acts: seq<Act>): Table {
    if acts == [] then map[] else Apply(After(acts[..|acts| - 1]), acts[|acts| - 1])
  }

  function Clock(acts: seq<Act>): real {
    if acts == [] then 0.0
    else
      var act := acts[|acts| - 1];
      if act.SeeAct? || act.CleanAct? || act.TickAct? then act.now else Clock(acts[..|acts| - 1])
  }

  /** The clock does not run backwards; an emission uses its call's earlier reading of the clock. */
  ghost predicate Valid(acts: seq<Act>) {
    acts == [] || (
      var before, act := acts[..|acts| - 1], acts[|acts| - 1];
      Valid(before) && match act
        case EmitAct(zones, now, order) => now <= Clock(before) && IsOrder(After(before), zones, now, order)
        case DropAct(_) => true
        case _ => Clock(before) <= act.now)
  }

  /** An emitted event together with the dwell threshold that its zone had at that moment. */
  datatype Alarm = Alarm(event: Event, threshold: int)

  ghost function AlarmsFor(d: Table, zones: seq<Zone>, now: real, order: seq<string>): (alarms: seq<Alarm>)
    requires IsOrder(d, zones, now, order)
    ensures |alarms| == |order|
    ensures forall k :: 0 <= k < |order| ==> alarms[k].event == EventOf(d[order[k]], now)
    ensures forall k :: 0 <= k < |order| ==> now - d[order[k]].entry >= alarms[k].threshold as real
  {
    seq(|order|, k requires 0 <= k < |order| =>
      assert order[k] in order;
      Alarm(EventOf(d[order[k]], now), zones[Lookup(zones, d[order[k]].zoneId)].threshold))
  }

  /** All alarms of the run, in the order in which they were emitted. */
  ghost function Alarms(acts: seq<Act>): seq<Alarm>
    requires Valid(acts)
  {
    if acts == [] then []
    else
      var before, act := acts[..|acts| - 1], acts[|acts| - 1];
      Alarms(before) + (if act.EmitAct? then AlarmsFor(After(before), act.zones, act.now, act.order) else [])
  }

  // ----- What single steps do to the table -----

  ghost predicate SameEntry(a: Dwell, b: Dwell) {
    a.trackId == b.trackId && a.zoneId == b.zoneId && a.entry == b.entry
  }

  /** dt was recorded at this sighting, inside a zone with its zone ID. */
  ghost predicate Recorded(dt: Dwell, key: string, tr: Sighting, zones: seq<Zone>, now: real) {
    && dt.trackId == tr.trackId && dt.entry == now && key == Key(dt.trackId, dt.zoneId)
    && exists k :: 0 <= k < |zones| && zones[k].id == dt.zoneId && InZone(tr, zones[k])
  }

  lemma {:induction false} SeeInZonesEntries(d: Table, tr: Sighting, zones: seq<Zone>, now: real, key: string)
    requires key in SeeInZones(d, tr, zones, now)
    ensures var dt := SeeInZones(d, tr, zones, now)[key];
            (key in d && SameEntry(d[key], dt)) || Recorded(dt, key, tr, zones, now)
  {
    hide InZone;
    if zones != [] {
      var n := |zones| - 1;
      var mid := SeeInZones(d, tr, zones[..n], now);
      if key in mid {
        SeeInZonesEntries(d, tr, zones[..n], now, key);
        if Recorded(mid[key], key, tr, zones[..n], now) {
          var k :| 0 <= k < n && zones[..n][k].id == mid[key].zoneId && InZone(tr, zones[..n][k]);
          assert zones[k] == zones[..n][k];
        }
      } else {
        assert zones[n].id == SeeInZones(d, tr, zones, now)[key].zoneId && InZone(tr, zones[n]);
      }
    }
  }

  /** An entry of the table after a step was there before, or was recorded by this very sighting. */
  lemma ApplyEntries(d: Table, act: Act, key: string)
    requires key in Apply(d, act)
    ensures var dt := Apply(d, act)[key];
            (key in d && SameEntry(d[key], dt))
            || (act.SeeAct? && Recorded(dt, key, act.tr, act.zones, act.now))
    ensures act.SeeAct? && !InSomeZone(act.tr, act.zones) ==> Apply(d, act)[key].trackId != act.tr.trackId
    ensures act.EmitAct? ==> key !in act.order
  {
    hide InZone;
    if act.SeeAct? && InSomeZone(act.tr, act.zones) {
      SeeInZonesEntries(d, act.tr, act.zones, act.now, key);
    }
  }

  // ----- Spacing -----

  /** No alarm so far for this entry's track and zone is later than the entry. */
  ghost predicate NewerThan(alarms: seq<Alarm>, dt: Dwell) {
    forall i :: 0 <= i < |alarms| && SamePair(alarms[i].event, dt.trackId, dt.zoneId) ==>
      alarms[i].event.time <= dt.entry
  }

  predicate SamePair(e: Event, trackId: string, zoneId: string) {
    e.trackId == trackId && e.zoneId == zoneId
  }

  ghost predicate Spaced(alarms: seq<Alarm>) {
    forall i, j :: 0 <= i < j < |alarms| ==>
      SamePair(alarms[i].event, alarms[j].event.trackId, alarms[j].event.zoneId) ==>
        alarms[j].event.time - alarms[i].event.time >= alarms[j].threshold as real
  }

  ghost predicate Orderly(acts: seq<Act>)
    requires Valid(acts)
  {
    && (forall k :: k in After(acts) ==>
          k == Key(After(acts)[k].trackId, After(acts)[k].zoneId) && NewerThan(Alarms(acts), After(acts)[k]))
    && (forall i :: 0 <= i < |Alarms(acts)| ==> Alarms(acts)[i].event.time <= Clock(acts))
    && Spaced(Alarms(acts))
  }

  lemma EmitSpaced(past: seq<Alarm>, d: Table, zones: seq<Zone>, now: real, order: seq<string>)
    requires IsOrder(d, zones, now, order) && Spaced(past)
    requires forall k :: k in d ==> k == Key(d[k].trackId, d[k].zoneId) && NewerThan(past, d[k])
    ensures Spaced(past + AlarmsFor(d, zones, now, order))
    ensures forall k :: k in d && k !in order ==> NewerThan(past + AlarmsFor(d, zones, now, order), d[k])
  {
    hide Fires, Key;
    var latest := AlarmsFor(d, zones, now, order);
    var all := past + latest;
    forall k, i | k in d && k !in order && 0 <= i < |all| && SamePair(all[i].event, d[k].trackId, d[k].zoneId)
      ensures all[i].event.time <= d[k].entry
    {
      LatestPair(d, zones, now, order, k);
    }
    forall i, j | 0 <= i < j < |all| && SamePair(all[i].event, all[j].event.trackId, all[j].event.zoneId)
      ensures all[j].event.time - all[i].event.time >= all[j].threshold as real
    {
      if j >= |past| {
        var key := order[j - |past|];
        assert key in order && all[j] == latest[j - |past|];
        LatestPair(d, zones, now, order, key);
      }
    }
  }

  /** Among the alarms of one emission only the one for a key concerns that key's track and zone. */
  lemma LatestPair(d: Table, zones: seq<Zone>, now: real, order: seq<string>, k: string)
    requires IsOrder(d, zones, now, order) && k in d
    requires forall k :: k in d ==> k == Key(d[k].trackId, d[k].zoneId)
    ensures var latest := AlarmsFor(d, zones, now, order);
            forall i :: 0 <= i < |latest| && SamePair(latest[i].event, d[k].trackId, d[k].zoneId) ==> order[i] == k
  {
    hide Fires, Key;
    forall i | 0 <= i < |order| ensures order[i] in d {
      assert order[i] in order;
    }
  }

  /** In every run, two alarms for the same track and zone are at least the later one's threshold apart. */
  lemma {:induction false} AlarmsSpaced(acts: seq<Act>)
    requires Valid(acts)
    ensures Orderly(acts)
  {
    if acts != [] {
      var before, act := acts[..|acts| - 1], acts[|acts| - 1];
      AlarmsSpaced(before);
      var d, d', alarms := After(before), After(acts), Alarms(before);
      hide Fires, Key, InZone;
      if act.EmitAct? {
        EmitSpaced(alarms, d, act.zones, act.now, act.order);
      } else {
        assert Alarms(acts) == alarms;
      }
      forall k | k in d' ensures k == Key(d'[k].trackId, d'[k].zoneId) && NewerThan(Alarms(acts), d'[k]) {
        ApplyEntries(d, act, k);
      }
    }
  }

  // ----- What an alarm means -----

  /** From step b + 1 on, every sighting of the track was inside some zone of its call. */
  ghost predicate NeverOutside(acts: seq<Act>, b: nat, trackId: string) {
    forall m :: b < m < |acts| && acts[m].SeeAct? && acts[m].tr.trackId == trackId ==>
      InSomeZone(acts[m].tr, acts[m].zones)
  }

  /** The entry goes back to a sighting inside its zone, after which the track was never seen outside. */
  ghost predicate Witnessed(acts: seq<Act>, dt: Dwell, key: string) {
    exists b :: 0 <= b < |acts| && EntryAt(acts, b, dt, key)
  }

  ghost predicate EntryAt(acts: seq<Act>, b: nat, dt: Dwell, key: string) {
    && b < |acts| && acts[b].SeeAct? && Recorded(dt, key, acts[b].tr, acts[b].zones, acts[b].now)
    && NeverOutside(acts, b, dt.trackId)
  }

  lemma {:induction false} EntriesWitnessed(acts: seq<Act>, key: string)
    requires Valid(acts) && key in After(acts)
    ensures Witnessed(acts, After(acts)[key], key)
  {
    hide InZone, IsOrder;
    var n := |acts| - 1;
    var before, act := acts[..n], acts[n];
    var d, dt := After(before), After(acts)[key];
    ApplyEntries(d, act, key);
    if key in d && SameEntry(d[key], dt) {
      EntriesWitnessed(before, key);
      var b :| 0 <= b < |before| && EntryAt(before, b, d[key], key);
      assert acts[b] == before[b];
      assert NeverOutside(acts, b, dt.trackId) by {
        assert forall m :: 0 <= m < n ==> acts[m] == before[m];
      }
      assert EntryAt(acts, b, dt, key);
    } else {
      assert EntryAt(acts, n, dt, key);
    }
  }

  /**
   Every emission of every run: each event's track entered its zone at the recorded entry time, at least the
   threshold before the event's time, and was not seen outside all zones since.
   */
  lemma AlarmMeaning(acts: seq<Act>, i: nat)
    requires Valid(acts) && acts != [] && acts[|acts| - 1].EmitAct? && i < |acts[|acts| - 1].order|
    ensures var before, act := acts[..|acts| - 1], acts[|acts| - 1];
            var d, key := After(before), act.order[i];
            var e := AlarmsFor(d, act.zones, act.now, act.order)[i].event;
            key in d && e == EventOf(d[key], act.now) && Witnessed(before, d[key], key)
            && e.dwellSeconds >= AlarmsFor(d, act.zones, act.now, act.order)[i].threshold as real
  {
    var act := acts[|acts| - 1];
    assert act.order[i] in act.order;
    EntriesWitnessed(acts[..|acts| - 1], act.order[i]);
  }

  // ----- The latest sighting -----

  /** The sighting lies in a zone whose entry for its track has this key. */
  ghost predicate Touches(act: Act, key: string) {
    act.SeeAct? && exists k :: 0 <= k < |act.zones| && InZone(act.tr, act.zones[k])
                               && Key(act.tr.trackId, act.zones[k].id) == key
  }

  lemma {:induction false} SeeInZonesTouches(d: Table, tr: Sighting, zones: seq<Zone>, now: real, key: string)
    ensures var d' := SeeInZones(d, tr, zones, now);
            if Touches(SeeAct(tr, zones, now), key) then
              key in d' && d'[key].lastSeen == now && d'[key].bbox == tr.bbox
            else
              (key in d' <==> key in d) && (key in d ==> d'[key] == d[key])
  {
    hide InZone;
    if zones != [] {
      var n := |zones| - 1;
      SeeInZonesTouches(d, tr, zones[..n], now, key);
      TouchesMore(tr, zones, now, key);
    }
  }

  lemma TouchesMore(tr: Sighting, zones: seq<Zone>, now: real, key: string)
    requires zones != []
    ensures var n := |zones| - 1;
            Touches(SeeAct(tr, zones, now), key) <==>
              Touches(SeeAct(tr, zones[..n], now), key) || (InZone(tr, zones[n]) && Key(tr.trackId, zones[n].id) == key)
  {
    hide InZone;
    var n := |zones| - 1;
    assert forall k :: 0 <= k < n ==> zones[..n][k] == zones[k];
  }

  lemma SeeTouches(d: Table, act: Act, key: string)
    requires act.SeeAct?
    ensures Touches(act, key) ==>
              key in Apply(d, act) && Apply(d, act)[key].lastSeen == act.now && Apply(d, act)[key].bbox == act.tr.bbox
    ensures !Touches(act, key) && key in Apply(d, act) ==> key in d && Apply(d, act)[key] == d[key]
  {
    hide InZone;
    SeeInZonesTouches(d, act.tr, act.zones, act.now, key);
  }

  ghost predicate LastTouch(acts: seq<Act>, b: nat, key: string) {
    b < |acts| && Touches(acts[b], key) && forall m :: b < m < |acts| ==> !Touches(acts[m], key)
  }

  /** In every run an entry holds the time and the box of the latest sighting inside its zone. */
  lemma {:induction false} LastSeenIs(acts: seq<Act>, key: string) returns (b: nat)
    requires key in After(acts)
    ensures LastTouch(acts, b, key)
    ensures After(acts)[key].lastSeen == acts[b].now && After(acts)[key].bbox == acts[b].tr.bbox
  {
    var n := |acts| - 1;
    var before, act := acts[..n], acts[n];
    hide Touches, See;
    if act.SeeAct? {
      SeeTouches(After(before), act, key);
    } else {
      NoTouch(act, key);
    }
    if act.SeeAct? && Touches(act, key) {
      b := n;
    } else {
      b := LastSeenIs(before, key);
      assert forall m :: 0 <= m < n ==> before[m] == acts[m];
    }
  }

  lemma NoTouch(act: Act, key: string)
    requires !act.SeeAct?
    ensures !Touches(act, key)
  {
  }

  lemma {:induction false} ClockReached(acts: seq<Act>, l: nat)
    requires Valid(acts) && l < |acts| && acts[l].SeeAct?
    ensures acts[l].now <= Clock(acts)
  {
    hide IsOrder;
    var n := |acts| - 1;
    if l < n {
      ClockReached(acts[..n], l);
    }
  }

  /** Sightings are ordered in time. */
  lemma {:induction false} TimesOrdered(acts: seq<Act>, l: nat, b: nat)
    requires Valid(acts) && l <= b < |acts| && acts[l].SeeAct? && acts[b].SeeAct?
    ensures acts[l].now <= acts[b].now
  {
    hide IsOrder;
    var n := |acts| - 1;
    if b < n {
      TimesOrdered(acts[..n], l, b);
    } else if l < n {
      ClockReached(acts[..n], l);
    }
  }

  /** The track was seen inside the zone at most ten seconds before. */
  ghost predicate SeenLately(acts: seq<Act>, key: string, now: real) {
    exists l :: 0 <= l < |acts| && Touches(acts[l], key) && now - acts[l].now <= 10.0
  }

  lemma LastSeenIsLately(acts: seq<Act>, key: string, now: real)
    requires Valid(acts) && key in After(acts)
    ensures now - After(acts)[key].lastSeen <= 10.0 <==> SeenLately(acts, key, now)
  {
    var b := LastSeenIs(acts, key);
    hide InZone, Valid, After;
    if SeenLately(acts, key, now) {
      var l :| 0 <= l < |acts| && Touches(acts[l], key) && now - acts[l].now <= 10.0;
      TimesOrdered(acts, l, b);
    }
  }

  /** A cleanup keeps an entry if and only if its track was seen inside the zone in the last ten seconds. */
  lemma CleanupBySightings(acts: seq<Act>, now: real, key: string)
    requires Valid(acts) && Clock(acts) <= now
    ensures key in After(acts + [CleanAct(now)]) <==> key in After(acts) && SeenLately(acts, key, now)
  {
    hide SeenLately, Valid;
    var longer := acts + [CleanAct(now)];
    assert longer[..|longer| - 1] == acts && longer[|longer| - 1] == CleanAct(now);
    if key in After(acts) {
      LastSeenIsLately(acts, key, now);
    }
  }

  // ----- Staying is reported -----

  /** The emission is given an enabled first zone with the ID whose threshold has passed. */
  ghost predicate DueIn(act: Act, id: string, since: real)
    requires act.EmitAct?
  {
    var i := Lookup(act.zones, id);
    i < |act.zones| && act.zones[i].enabled && act.now - since >= act.zones[i].threshold as real
  }

  /**
   Nothing happens to the track at step m: it is seen in some zone if at all, no emission is due, a cleanup follows a
   sighting inside the zone within ten seconds, and nothing drops the entry.
   */
  ghost predicate QuietAt(acts: seq<Act>, m: nat, track: string, id: string, since: real)
    requires m < |acts|
  {
    match acts[m]
    case SeeAct(tr, zones, _) => tr.trackId == track ==> InSomeZone(tr, zones)
    case EmitAct(_, _, _) => !DueIn(acts[m], id, since)
    case CleanAct(now) => SeenLately(acts[..m], Key(track, id), now)
    case TickAct(_) => true
    case DropAct(keys) => Key(track, id) !in keys
  }

  ghost predicate Quiet(acts: seq<Act>, b: nat, track: string, id: string, since: real) {
    forall m :: b < m < |acts| ==> QuietAt(acts, m, track, id, since)
  }

  /** The track is seen inside a zone with the ID, and there is no entry for it yet. */
  ghost predicate Enters(acts: seq<Act>, b: nat, track: string, id: string) {
    && b < |acts| && Touches(acts[b], Key(track, id)) && acts[b].tr.trackId == track
    && Key(track, id) !in After(acts[..b])
  }

  ghost predicate EntryOf(dt: Dwell, track: string, id: string, since: real) {
    dt.trackId == track && dt.zoneId == id && dt.entry == since
  }

  lemma {:induction false} SeeInZonesKeeps(d: Table, tr: Sighting, zones: seq<Zone>, now: real, key: string)
    requires key in d
    ensures key in SeeInZones(d, tr, zones, now) && SameEntry(d[key], SeeInZones(d, tr, zones, now)[key])
  {
    hide InZone;
    if zones != [] {
      SeeInZonesKeeps(d, tr, zones[..|zones| - 1], now, key);
    }
  }

  lemma SameZone(t: string, a: string, b: string)
    requires Key(t, a) == Key(t, b)
    ensures a == b
  {
    assert a == Key(t, a)[|t| + 1..] && b == Key(t, b)[|t| + 1..];
  }

  lemma EntryOpened(d: Table, act: Act, track: string, id: string)
    requires act.SeeAct? && act.tr.trackId == track && Touches(act, Key(track, id)) && Key(track, id) !in d
    ensures Key(track, id) in Apply(d, act) && EntryOf(Apply(d, act)[Key(track, id)], track, id, act.now)
  {
    hide InZone, See;
    SeeTouches(d, act, Key(track, id));
    ApplyEntries(d, act, Key(track, id));
    SameZone(track, Apply(d, act)[Key(track, id)].zoneId, id);
  }

  /** A quiet step keeps the entry. */
  lemma QuietKeeps(acts: seq<Act>, track: string, id: string, since: real)
    requires Valid(acts) && acts != [] && QuietAt(acts, |acts| - 1, track, id, since)
    requires var d := After(acts[..|acts| - 1]); Key(track, id) in d && EntryOf(d[Key(track, id)], track, id, since)
    ensures Key(track, id) in After(acts) && EntryOf(After(acts)[Key(track, id)], track, id, since)
  {
    hide *;
    LastStep(acts);
    var n, key := |acts| - 1, Key(track, id);
    var before, act := acts[..n], acts[n];
    if act.CleanAct? {
      LastSeenIsLately(before, key, act.now);
    }
    QuietStep(acts, track, id, since, After(before));
  }

  lemma LastStep(acts: seq<Act>)
    requires Valid(acts) && acts != []
    ensures var before, act := acts[..|acts| - 1], acts[|acts| - 1];
            && Valid(before) && After(acts) == Apply(After(before), act)
            && (act.EmitAct? ==> IsOrder(After(before), act.zones, act.now, act.order))
  {
    hide IsOrder, Apply;
  }

  lemma QuietStep(acts: seq<Act>, track: string, id: string, since: real, d: Table)
    requires acts != [] && QuietAt(acts, |acts| - 1, track, id, since)
    requires Key(track, id) in d && EntryOf(d[Key(track, id)], track, id, since)
    requires var act := acts[|acts| - 1];
             && (act.EmitAct? ==> IsOrder(d, act.zones, act.now, act.order))
             && (act.CleanAct? ==>
                  (act.now - d[Key(track, id)].lastSeen <= 10.0
                   <==> SeenLately(acts[..|acts| - 1], Key(track, id), act.now)))
    ensures var d' := Apply(d, acts[|acts| - 1]);
            Key(track, id) in d' && EntryOf(d'[Key(track, id)], track, id, since)
  {
    hide SeenLately, See, InSomeZone, Key, IsOrder, Lookup, DueIn;
    var key, act := Key(track, id), acts[|acts| - 1];
    if act.SeeAct? {
      SeeKeeps(d, act.tr, act.zones, act.now, key);
    } else if act.EmitAct? {
      NotDueKept(d, act, key);
    }
  }

  lemma SeeKeeps(d: Table, tr: Sighting, zones: seq<Zone>, now: real, key: string)
    requires key in d && (tr.trackId == d[key].trackId ==> InSomeZone(tr, zones))
    ensures key in See(d, tr, zones, now) && SameEntry(d[key], See(d, tr, zones, now)[key])
  {
    hide InSomeZone;
    SeeInZonesKeeps(d, tr, zones, now, key);
  }

  lemma NotDueKept(d: Table, act: Act, key: string)
    requires act.EmitAct? && IsOrder(d, act.zones, act.now, act.order) && key in d
    requires !DueIn(act, d[key].zoneId, d[key].entry)
    ensures key in Apply(d, act) && Apply(d, act)[key] == d[key]
  {
    hide Lookup;
  }

  lemma {:induction false} KeptSince(acts: seq<Act>, b: nat, track: string, id: string)
    requires Valid(acts) && Enters(acts, b, track, id) && Quiet(acts, b, track, id, acts[b].now)
    ensures Key(track, id) in After(acts) && EntryOf(After(acts)[Key(track, id)], track, id, acts[b].now)
    decreases |acts|
  {
    var n := |acts| - 1;
    var before := acts[..n];
    hide Touches, See, InSomeZone, DueIn, SeenLately;
    if b == n {
      EntryOpened(After(before), acts[n], track, id);
    } else {
      assert before[b] == acts[b] && before[..b] == acts[..b];
      QuietBefore(acts, b, track, id, acts[b].now);
      KeptSince(before, b, track, id);
      QuietKeeps(acts, track, id, acts[b].now);
    }
  }

  lemma QuietBefore(acts: seq<Act>, b: nat, track: string, id: string, since: real)
    requires Quiet(acts, b, track, id, since) && acts != []
    ensures Quiet(acts[..|acts| - 1], b, track, id, since)
  {
    hide InSomeZone, DueIn, SeenLately;
    var before := acts[..|acts| - 1];
    forall m | b < m < |before| ensures QuietAt(before, m, track, id, since) {
      assert QuietAt(acts, m, track, id, since) && before[m] == acts[m] && before[..m] == acts[..m];
    }
  }

  /**
   Completeness, over the calls alone: a track that enters a zone and to which nothing happens from then on is
   reported by the first due emission, with its own zone and the time since it entered.
   */
  lemma StayingIsReported(acts: seq<Act>, b: nat, track: string, id: string)
    requires Valid(acts) && acts != [] && acts[|acts| - 1].EmitAct? && b < |acts| - 1
    requires Enters(acts, b, track, id) && Quiet(acts[..|acts| - 1], b, track, id, acts[b].now)
    requires DueIn(acts[|acts| - 1], id, acts[b].now)
    ensures var before, act := acts[..|acts| - 1], acts[|acts| - 1];
            exists k :: 0 <= k < |act.order|
              && AlarmsFor(After(before), act.zones, act.now, act.order)[k].event
                 == Event(track, id, act.now - acts[b].now, act.now)
  {
    var before, act, key := acts[..|acts| - 1], acts[|acts| - 1], Key(track, id);
    assert before[b] == acts[b] && before[..b] == acts[..b];
    assert Enters(before, b, track, id) by { hide Touches; }
    KeptSince(before, b, track, id);
    hide Touches, Quiet, Valid, Key;
    assert Fires(After(before)[key], act.zones, act.now) && key in act.order;
    var k :| 0 <= k < |act.order| && act.order[k] == key;
    assert AlarmsFor(After(before), act.zones, act.now, act.order)[k].event == EventOf(After(before)[key], act.now);
  }

  // ----- When an alarm means that the track has not left its zone -----

  function SetOf(zones: seq<Zone>): set<Zone> {
    set z | z in zones
  }

  /** The point lies in a zone of the set, or in one with the given ID. */
  predicate InAny(p: Point, zones: set<Zone>) {
    exists z :: z in zones && Polygon.Inside(p, z.polygon)
  }

  predicate InId(p: Point, zones: set<Zone>, id: string) {
    exists z :: z in zones && z.id == id && Polygon.Inside(p, z.polygon)
  }

  /** An emission given these zones in some order can raise alarms for the ID. */
  predicate Armed(zones: set<Zone>, id: string) {
    exists z :: z in zones && z.id == id && z.enabled
  }

  /** The zones of each track's camera. */
  type Sites = string -> set<Zone>

  /** Among the zones of one track, each that has a point and can raise alarms contains all others. */
  ghost predicate Nested(sites: Sites) {
    forall t, u, id, p, q ::
      Armed(sites(u), id) && InId(p, sites(t), id) && InAny(q, sites(t)) ==> InId(q, sites(t), id)
  }

  /** Every sighting is given the zones of its track, every emission those of some track, in any order. */
  ghost predicate Uses(acts: seq<Act>, sites: Sites) {
    && (forall m :: 0 <= m < |acts| && acts[m].SeeAct? ==> SetOf(acts[m].zones) == sites(acts[m].tr.trackId))
    && (forall m :: 0 <= m < |acts| && acts[m].EmitAct? ==> exists u :: SetOf(acts[m].zones) == sites(u))
  }

  /** Calls do not overlap: a sighting is followed by the next one of its call or by the call's emission. */
  ghost predicate Sequential(acts: seq<Act>) {
    forall m :: 0 <= m < |acts| && acts[m].SeeAct? ==> InCall(acts, m)
  }

  ghost predicate InCall(acts: seq<Act>, m: nat) {
    && m + 1 < |acts| && acts[m].SeeAct? && (acts[m + 1].SeeAct? || acts[m + 1].EmitAct?)
    && acts[m + 1].zones == acts[m].zones && acts[m + 1].now == acts[m].now
  }

  /** The track entered the zone at the entry time and was inside it at every sighting since. */
  ghost predicate StayedInside(acts: seq<Act>, dt: Dwell, key: string, zones: set<Zone>) {
    exists b :: 0 <= b < |acts| && EntryAt(acts, b, dt, key) && InsideSince(acts, b, dt, zones)
  }

  ghost predicate InsideSince(acts: seq<Act>, b: nat, dt: Dwell, zones: set<Zone>) {
    forall m :: b <= m < |acts| && acts[m].SeeAct? && acts[m].tr.trackId == dt.trackId ==>
      InId(Centroid(acts[m].tr.bbox), zones, dt.zoneId)
  }

  /** A run with these zones up to and including an emission. */
  ghost predicate EndsInEmission(acts: seq<Act>, sites: Sites) {
    Valid(acts) && Uses(acts, sites) && acts != [] && acts[|acts| - 1].EmitAct?
  }

  /** For each event of the final emission the track has not left the zone. */
  ghost predicate TrueAlarms(acts: seq<Act>, sites: Sites)
    requires EndsInEmission(acts, sites)
  {
    var before, order := acts[..|acts| - 1], acts[|acts| - 1].order;
    forall key :: key in order ==>
      key in After(before) && StayedInside(before, After(before)[key], key, sites(After(before)[key].trackId))
  }

  /**
   The exact condition, for every assignment of zones to tracks: every run with these zones, in whatever order the
   lists come, raises only alarms whose track was inside the zone at each sighting since its entry, if and only if
   the zones are nested. It is the same condition for runs in which calls do not overlap.
   */
  lemma TrueAlarmsExact(sites: Sites)
    ensures (forall acts :: EndsInEmission(acts, sites) ==> TrueAlarms(acts, sites)) <==> Nested(sites)
    ensures (forall acts :: EndsInEmission(acts, sites) && Sequential(acts) ==> TrueAlarms(acts, sites))
       <==> Nested(sites)
  {
    hide EndsInEmission, TrueAlarms, Sequential, Armed, InId, InAny;
    if Nested(sites) {
      forall acts | EndsInEmission(acts, sites) ensures TrueAlarms(acts, sites) {
        NestedIsTrue(acts, sites);
      }
    } else {
      var t, u, id, p, q :|
        Armed(sites(u), id) && InId(p, sites(t), id) && InAny(q, sites(t)) && !InId(q, sites(t), id);
      var acts := LeavesUnnoticed(sites, t, u, id, p, q);
    }
  }

  lemma NestedIsTrue(acts: seq<Act>, sites: Sites)
    requires EndsInEmission(acts, sites) && Nested(sites)
    ensures TrueAlarms(acts, sites)
  {
    var before, act := acts[..|acts| - 1], acts[|acts| - 1];
    hide InZone, InAny, InId, Armed, NeverOutside, Recorded, StayedInside, Fires;
    forall key | key in act.order
      ensures key in After(before) && StayedInside(before, After(before)[key], key, sites(After(before)[key].trackId))
    {
      var dt := After(before)[key];
      EntriesWitnessed(before, key);
      var u :| SetOf(act.zones) == sites(u);
      FiresArmed(dt, act.zones, act.now);
      assert Uses(before, sites) by { UsesBefore(acts, sites); }
      NestedStays(before, sites, dt, key, u);
    }
  }

  lemma UsesBefore(acts: seq<Act>, sites: Sites)
    requires Uses(acts, sites) && acts != []
    ensures Uses(acts[..|acts| - 1], sites)
  {
    var before := acts[..|acts| - 1];
    forall m | 0 <= m < |before| ensures before[m] == acts[m] {
    }
  }

  /** An entry for a zone that can raise alarms: under nested zones its track has stayed inside. */
  lemma NestedStays(acts: seq<Act>, sites: Sites, dt: Dwell, key: string, u: string)
    requires Uses(acts, sites) && Nested(sites) && Witnessed(acts, dt, key) && Armed(sites(u), dt.zoneId)
    ensures StayedInside(acts, dt, key, sites(dt.trackId))
  {
    hide InZone, InAny, InId, Armed, NeverOutside, Recorded;
    var b :| 0 <= b < |acts| && EntryAt(acts, b, dt, key);
    RecordedInside(dt, key, acts[b].tr, acts[b].zones, acts[b].now);
    forall m | b <= m < |acts| && acts[m].SeeAct? && acts[m].tr.trackId == dt.trackId
      ensures InId(Centroid(acts[m].tr.bbox), sites(dt.trackId), dt.zoneId)
    {
      if m > b {
        SeenInside(acts, b, m, dt.trackId);
      }
    }
    assert InsideSince(acts, b, dt, sites(dt.trackId));
  }

  lemma FiresArmed(dt: Dwell, zones: seq<Zone>, now: real)
    requires Fires(dt, zones, now)
    ensures Armed(SetOf(zones), dt.zoneId)
  {
    assert zones[Lookup(zones, dt.zoneId)] in SetOf(zones);
  }

  lemma RecordedInside(dt: Dwell, key: string, tr: Sighting, zones: seq<Zone>, now: real)
    requires Recorded(dt, key, tr, zones, now)
    ensures tr.trackId == dt.trackId && InId(Centroid(tr.bbox), SetOf(zones), dt.zoneId)
  {
    hide Polygon.Inside;
    var k :| 0 <= k < |zones| && zones[k].id == dt.zoneId && InZone(tr, zones[k]);
    assert zones[k] in SetOf(zones) && Polygon.Inside(Centroid(tr.bbox), zones[k].polygon);
  }

  lemma SeenInside(acts: seq<Act>, b: nat, m: nat, trackId: string)
    requires NeverOutside(acts, b, trackId) && b < m < |acts| && acts[m].SeeAct? && acts[m].tr.trackId == trackId
    ensures InAny(Centroid(acts[m].tr.bbox), SetOf(acts[m].zones))
  {
    hide Polygon.Inside;
    var tr, zones := acts[m].tr, acts[m].zones;
    var k :| 0 <= k < |zones| && InZone(tr, zones[k]);
    assert zones[k] in SetOf(zones) && Polygon.Inside(Centroid(tr.bbox), zones[k].polygon);
  }

  /** A sighting of a track whose centroid is the given point. */
  function SeenAt(t: string, p: Point): (tr: Sighting)
    ensures tr.trackId == t && Centroid(tr.bbox) == p
  {
    Sighting(t, [p.x, p.y, p.x, p.y], "person")
  }

  lemma {:induction false} SeeInZonesCreates(d: Table, tr: Sighting, zones: seq<Zone>, now: real, k: nat)
    requires k < |zones| && InZone(tr, zones[k])
    ensures Key(tr.trackId, zones[k].id) in SeeInZones(d, tr, zones, now)
  {
    hide InZone;
    var n := |zones| - 1;
    if k < n {
      SeeInZonesCreates(d, tr, zones[..n], now, k);
    }
  }

  /** The elements of a set in some order. */
  lemma {:induction false} Enumerate<T>(items: set<T>) returns (order: seq<T>)
    ensures forall x :: x in order <==> x in items
    ensures forall i, j :: 0 <= i < j < |order| ==> order[i] != order[j]
    decreases |items|
  {
    order := [];
    if items != {} {
      var x :| x in items;
      order := Enumerate(items - {x});
      order := order + [x];
    }
  }

  lemma OrderOf(d: Table, zones: seq<Zone>, now: real) returns (order: seq<string>)
    ensures IsOrder(d, zones, now, order)
  {
    hide Fires;
    order := Enumerate(set k | k in d && Fires(d[k], zones, now));
  }

  /** The zones of a set as a list, in whatever order. */
  lemma ListOf(zones: set<Zone>) returns (list: seq<Zone>)
    ensures SetOf(list) == zones
  {
    list := Enumerate(zones);
  }

  /** The zones of a set as a list in which the first zone with the given ID is enabled. */
  lemma ArmedList(zones: set<Zone>, id: string) returns (list: seq<Zone>, threshold: int)
    requires Armed(zones, id)
    ensures SetOf(list) == zones && list != []
    ensures list[0].id == id && list[0].enabled && list[0].threshold == threshold
  {
    var z :| z in zones && z.id == id && z.enabled;
    var rest := ListOf(zones - {z});
    list, threshold := [z] + rest, z.threshold;
    assert SetOf(list) == {z} + SetOf(rest);
  }

  /** Seen at a point of the zone and at another zone's point in one call: the entry is that of the first sighting. */
  lemma EntrySurvives(zones: seq<Zone>, t: string, id: string, p: Point, q: Point)
    requires InId(p, SetOf(zones), id) && InAny(q, SetOf(zones))
    ensures var d := See(See(map[], SeenAt(t, p), zones, 0.0), SeenAt(t, q), zones, 0.0);
            Key(t, id) in d && IsEntry(d[Key(t, id)], t, id)
  {
    hide Polygon.Inside;
    var y :| y in SetOf(zones) && y.id == id && Polygon.Inside(p, y.polygon);
    var z :| z in SetOf(zones) && Polygon.Inside(q, z.polygon);
    var k :| 0 <= k < |zones| && zones[k] == y;
    var l :| 0 <= l < |zones| && zones[l] == z;
    assert InZone(SeenAt(t, p), zones[k]) && InZone(SeenAt(t, q), zones[l]);
    hide InZone, SetOf;
    var key, d1 := Key(t, id), SeeInZones(map[], SeenAt(t, p), zones, 0.0);
    SeeInZonesCreates(map[], SeenAt(t, p), zones, 0.0, k);
    SeeInZonesEntries(map[], SeenAt(t, p), zones, 0.0, key);
    SameZone(t, d1[key].zoneId, id);
    SeeInZonesKeeps(d1, SeenAt(t, q), zones, 0.0, key);
  }

  /** The track's entry of time zero for the zone. */
  predicate IsEntry(dt: Dwell, t: string, id: string) {
    dt.trackId == t && dt.zoneId == id && dt.entry == 0.0
  }

  /** One call in which the track is in the zone and then in another one only, and a later call, if it takes one. */
  lemma LeavesUnnoticed(sites: Sites, t: string, u: string, id: string, p: Point, q: Point) returns (acts: seq<Act>)
    requires Armed(sites(u), id) && InId(p, sites(t), id) && InAny(q, sites(t)) && !InId(q, sites(t), id)
    ensures EndsInEmission(acts, sites) && Sequential(acts) && !TrueAlarms(acts, sites)
  {
    hide *;
    var zones := ListOf(sites(t));
    EntrySurvives(zones, t, id, p, q);
    var d, key := See(See(map[], SeenAt(t, p), zones, 0.0), SeenAt(t, q), zones, 0.0), Key(t, id);
    var first := OrderOf(d, zones, 0.0);
    var seen := SeenTwice(SeenAt(t, p), SeenAt(t, q), zones);
    acts := FirstCall(sites, seen, d, t, zones, first);
    if key in first {
      LeftBefore(sites, acts, seen, d[key], t, id, q, zones);
    } else {
      assert key in Without(d, first) && Without(d, first)[key] == d[key] by { NotEmitted(d, first, key); }
      var later, threshold := ArmedList(sites(u), id);
      var T := if threshold <= 0 then 0.0 else threshold as real;
      var order := OrderOf(Without(d, first), later, T);
      assert key in order by { Due(Without(d, first), later, T, order, key, t, id); }
      var waited := acts + [TickAct(T)];
      acts := SecondCall(sites, acts, Without(d, first), u, later, T, order);
      LeftBefore(sites, acts, waited, d[key], t, id, q, zones);
    }
  }

  lemma NotEmitted(d: Table, order: seq<string>, key: string)
    requires key in d && key !in order
    ensures key in Without(d, order) && Without(d, order)[key] == d[key]
  {
  }

  /** An enabled first zone fires an entry of time zero once its threshold has passed. */
  lemma Due(d: Table, zones: seq<Zone>, now: real, order: seq<string>, key: string, t: string, id: string)
    requires IsOrder(d, zones, now, order) && key in d && IsEntry(d[key], t, id)
    requires zones != [] && zones[0].id == id && zones[0].enabled && now >= zones[0].threshold as real
    ensures key in order
  {
    assert Lookup(zones, id) == 0;
    assert Fires(d[key], zones, now);
  }

  lemma SeenTwice(x: Sighting, y: Sighting, zones: seq<Zone>) returns (acts: seq<Act>)
    ensures acts == [SeeAct(x, zones, 0.0), SeeAct(y, zones, 0.0)]
    ensures Valid(acts) && Clock(acts) == 0.0 && After(acts) == See(See(map[], x, zones, 0.0), y, zones, 0.0)
  {
    hide See;
    Extended([], SeeAct(x, zones, 0.0));
    Extended([] + [SeeAct(x, zones, 0.0)], SeeAct(y, zones, 0.0));
    acts := [] + [SeeAct(x, zones, 0.0)] + [SeeAct(y, zones, 0.0)];
  }

  /** The call's own emission. */
  lemma FirstCall(sites: Sites, seen: seq<Act>, d: Table, t: string, zones: seq<Zone>, order: seq<string>)
    returns (acts: seq<Act>)
    requires |seen| == 2 && seen[0].SeeAct? && seen[1].SeeAct? && Valid(seen) && After(seen) == d && Clock(seen) == 0.0
    requires forall m :: 0 <= m < 2 ==> seen[m].zones == zones && seen[m].now == 0.0 && seen[m].tr.trackId == t
    requires SetOf(zones) == sites(t) && IsOrder(d, zones, 0.0, order)
    ensures acts == seen + [EmitAct(zones, 0.0, order)] && Clock(acts) == 0.0 && After(acts) == Without(d, order)
    ensures EndsInEmission(acts, sites) && Sequential(acts)
  {
    hide *;
    acts := seen + [EmitAct(zones, 0.0, order)];
    Extended(seen, EmitAct(zones, 0.0, order));
    assert After(acts) == Without(d, order) by { ApplyEmit(d, zones, 0.0, order); }
    OneCall(sites, seen, t, zones, order);
    InEmission(acts, sites);
  }

  lemma ApplyEmit(d: Table, zones: seq<Zone>, now: real, order: seq<string>)
    ensures Apply(d, EmitAct(zones, now, order)) == Without(d, order)
  {
  }

  lemma OneCall(sites: Sites, seen: seq<Act>, t: string, zones: seq<Zone>, order: seq<string>)
    requires |seen| == 2 && seen[0].SeeAct? && seen[1].SeeAct? && SetOf(zones) == sites(t)
    requires forall m :: 0 <= m < 2 ==> seen[m].zones == zones && seen[m].now == 0.0 && seen[m].tr.trackId == t
    ensures var acts := seen + [EmitAct(zones, 0.0, order)]; Uses(acts, sites) && Sequential(acts)
  {
    hide SetOf;
    var acts := seen + [EmitAct(zones, 0.0, order)];
    assert InCall(acts, 0) && InCall(acts, 1);
  }

  /** A later call without tracks. */
  lemma SecondCall(sites: Sites, first: seq<Act>, d: Table, u: string, zones: seq<Zone>, T: real, order: seq<string>)
    returns (acts: seq<Act>)
    requires EndsInEmission(first, sites) && Sequential(first) && Clock(first) == 0.0 && After(first) == d
    requires SetOf(zones) == sites(u) && T >= 0.0 && IsOrder(d, zones, T, order)
    ensures acts == first + [TickAct(T)] + [EmitAct(zones, T, order)]
    ensures EndsInEmission(acts, sites) && Sequential(acts) && After(first + [TickAct(T)]) == d
  {
    hide *;
    acts := first + [TickAct(T)] + [EmitAct(zones, T, order)];
    assert Valid(first) && Uses(first, sites) by { InEmission(first, sites); }
    EmptyCall(first, zones, T, order);
    assert Uses(acts, sites) && Sequential(acts) by { UsesMore(sites, first, u, zones, T, order); }
    assert EndsInEmission(acts, sites) by { InEmission(acts, sites); }
  }

  lemma InEmission(acts: seq<Act>, sites: Sites)
    ensures EndsInEmission(acts, sites)
       <==> Valid(acts) && Uses(acts, sites) && acts != [] && acts[|acts| - 1].EmitAct?
  {
    hide Valid, Uses;
  }

  lemma UsesMore(sites: Sites, first: seq<Act>, u: string, zones: seq<Zone>, T: real, order: seq<string>)
    requires Uses(first, sites) && Sequential(first) && SetOf(zones) == sites(u)
    ensures var acts := first + [TickAct(T)] + [EmitAct(zones, T, order)]; Uses(acts, sites) && Sequential(acts)
  {
    hide SetOf;
    var acts := first + [TickAct(T)] + [EmitAct(zones, T, order)];
    assert forall m :: 0 <= m < |first| ==> acts[m] == first[m];
    forall m | 0 <= m < |acts| && acts[m].SeeAct? ensures InCall(acts, m) {
      assert InCall(first, m);
    }
  }

  /** Time passes, and a call without tracks emits. */
  lemma EmptyCall(acts: seq<Act>, zones: seq<Zone>, now: real, order: seq<string>)
    requires Valid(acts) && Clock(acts) <= now && IsOrder(After(acts), zones, now, order)
    ensures var longer := acts + [TickAct(now)] + [EmitAct(zones, now, order)];
            && Valid(longer) && After(acts + [TickAct(now)]) == After(acts)
            && Alarms(longer) == Alarms(acts) + AlarmsFor(After(acts), zones, now, order)
  {
    hide IsOrder, AlarmsFor;
    Extended(acts, TickAct(now));
    Extended(acts + [TickAct(now)], EmitAct(zones, now, order));
  }

  /** Only the first sighting can have made the entry, and at the second the track is outside the zone. */
  lemma LeftBefore(sites: Sites, acts: seq<Act>, before: seq<Act>, dt: Dwell, t: string, id: string, q: Point,
                   zones: seq<Zone>)
    requires EndsInEmission(acts, sites) && before == acts[..|acts| - 1] && Key(t, id) in acts[|acts| - 1].order
    requires 2 <= |before| <= 4 && before[1] == SeeAct(SeenAt(t, q), zones, 0.0) && SetOf(zones) == sites(t)
    requires forall m :: 2 <= m < |before| ==> !before[m].SeeAct?
    requires Key(t, id) in After(before) && After(before)[Key(t, id)] == dt && IsEntry(dt, t, id)
    requires !InId(q, sites(t), id)
    ensures !TrueAlarms(acts, sites)
  {
    hide InId, NeverOutside, Recorded, SetOf;
    var key := Key(t, id);
    forall b | 0 <= b < |before| && EntryAt(before, b, dt, key) ensures !InsideSince(before, b, dt, sites(t)) {
      if b == 1 {
        RecordedInside(dt, key, before[1].tr, zones, 0.0);
        assert false;
      }
      assert before[1].tr.trackId == dt.trackId;
    }
    assert !StayedInside(before, dt, key, sites(t));
  }

  // ----- An event for a zone that was left -----

  function Square(x: real): seq<Point> {
    [Point(x, 0.0), Point(x + 2.0, 0.0), Point(x + 2.0, 2.0), Point(x, 2.0)]
  }

  lemma InSquare(tr: Sighting, z: Zone, x: real)
    requires z.polygon == Square(x)
    ensures InZone(tr, z) <==> x <= Centroid(tr.bbox).x < x + 2.0 && 0.0 <= Centroid(tr.bbox).y < 2.0
  {
    Polygon.RectangleExact(Centroid(tr.bbox), x, 0.0, x + 2.0, 2.0);
  }

  lemma Extended(acts: seq<Act>, act: Act)
    requires Valid(acts)
    ensures After(acts + [act]) == Apply(After(acts), act)
    ensures Clock(acts + [act]) == if act.SeeAct? || act.CleanAct? || act.TickAct? then act.now else Clock(acts)
    ensures (act.SeeAct? || act.TickAct?) && Clock(acts) <= act.now
            ==> Valid(acts + [act]) && Alarms(acts + [act]) == Alarms(acts)
    ensures act.EmitAct? && act.now <= Clock(acts) && IsOrder(After(acts), act.zones, act.now, act.order)
            ==> Valid(acts + [act])
                && Alarms(acts + [act]) == Alarms(acts) + AlarmsFor(After(acts), act.zones, act.now, act.order)
  {
    hide See, Without, Cleaned, IsOrder, AlarmsFor, Apply;
    var longer := acts + [act];
    assert longer[..|longer| - 1] == acts && longer[|longer| - 1] == act;
  }

  const A := Zone("a", Square(0.0), 5, true)
  const B := Zone("b", Square(4.0), 5, true)
  const IN_A := Sighting("t", [-1.0, -1.0, 3.0, 3.0], "person")
  const IN_B := Sighting("t", [3.0, -1.0, 7.0, 3.0], "person")
  const DWELL_A := Dwell("t", "a", 0.0, 0.0, IN_A.bbox, "person")
  const ONLY_A: Table := map["t:a" := DWELL_A]
  const A_AND_B: Table := map["t:a" := DWELL_A, "t:b" := Dwell("t", "b", 1.0, 1.0, IN_B.bbox, "person")]

  lemma Placement()
    ensures InZone(IN_A, A) && !InZone(IN_A, B) && !InZone(IN_B, A) && InZone(IN_B, B)
  {
    InSquare(IN_A, A, 0.0);
    InSquare(IN_A, B, 4.0);
    InSquare(IN_B, A, 0.0);
    InSquare(IN_B, B, 4.0);
  }

  lemma TwoSightings()
    ensures See(map[], IN_A, [A, B], 0.0) == ONLY_A && See(ONLY_A, IN_B, [A, B], 1.0) == A_AND_B
  {
    Placement();
    hide InZone;
    assert InZone(IN_A, [A, B][0]) && InZone(IN_B, [A, B][1]);
    SeeTwo(map[], IN_A, A, B, 0.0);
    SeeTwo(ONLY_A, IN_B, A, B, 1.0);
    assert Key("t", "a") == "t:a" && Key("t", "b") == "t:b" && "t:a"[2] != "t:b"[2];
  }

  lemma Firing()
    ensures IsOrder(ONLY_A, [A, B], 0.0, []) && IsOrder(A_AND_B, [A, B], 1.0, [])
    ensures IsOrder(A_AND_B, [A, B], 5.0, ["t:a"])
  {
    assert [A, B][1..] == [B];
    assert Lookup([A, B], "a") == 0 && "a"[0] != "b"[0] && Lookup([B], "b") == 0;
    assert "t:a"[2] != "t:b"[2];
  }

  /**
   "Outside all zones" cannot be improved to "outside this zone": three calls that do not overlap, and an alarm for a
   zone left four seconds ago.
   */
  lemma AlarmForZoneLeft() returns (acts: seq<Act>)
    ensures Valid(acts) && Sequential(acts) && |acts| == 6 && acts[2].SeeAct? && acts[5].EmitAct?
    ensures acts[2].tr.trackId == "t" && !InZone(acts[2].tr, A) && acts[2].now == 1.0
    ensures A.id == "a" && A in acts[5].zones && |Alarms(acts)| == 1
    ensures Alarms(acts)[0].event == Event("t", "a", 5.0, 5.0)
  {
    Placement();
    TwoSightings();
    Firing();
    var before := TwoQuietCalls();
    hide InZone, See, IsOrder, Valid, Alarms, Clock, After;
    EmptyCall(before, [A, B], 5.0, ["t:a"]);
    acts := before + [TickAct(5.0)] + [EmitAct([A, B], 5.0, ["t:a"])];
    assert InCall(acts, 0) && InCall(acts, 2);
  }

  lemma TwoQuietCalls() returns (acts: seq<Act>)
    ensures |acts| == 4 && acts[0] == SeeAct(IN_A, [A, B], 0.0) && acts[1] == EmitAct([A, B], 0.0, [])
    ensures acts[2] == SeeAct(IN_B, [A, B], 1.0) && acts[3] == EmitAct([A, B], 1.0, [])
    ensures Valid(acts) && Clock(acts) == 1.0 && After(acts) == A_AND_B && Alarms(acts) == []
  {
    TwoSightings();
    Firing();
    acts := [];
    assert Valid(acts) && Clock(acts) == 0.0 && After(acts) == map[] && Alarms(acts) == [];
    hide *;
    QuietCall(acts, IN_A, [A, B], 0.0);
    acts := acts + [SeeAct(IN_A, [A, B], 0.0)] + [EmitAct([A, B], 0.0, [])];
    QuietCall(acts, IN_B, [A, B], 1.0);
    acts := acts + [SeeAct(IN_B, [A, B], 1.0)] + [EmitAct([A, B], 1.0, [])];
  }

  /** A call with one sighting that raises nothing. */
  lemma QuietCall(acts: seq<Act>, tr: Sighting, zones: seq<Zone>, now: real)
    requires Valid(acts) && Clock(acts) <= now && IsOrder(See(After(acts), tr, zones, now), zones, now, [])
    ensures var longer := acts + [SeeAct(tr, zones, now)] + [EmitAct(zones, now, [])];
            && Valid(longer) && Clock(longer) == now && Alarms(longer) == Alarms(acts)
            && After(longer) == See(After(acts), tr, zones, now)
  {
    hide IsOrder, See;
    var see := SeeAct(tr, zones, now);
    Extended(acts, see);
    Extended(acts + [see], EmitAct(zones, now, []));
    assert Without(After(acts + [see]), []) == After(acts + [see]);
  }

  lemma SeeTwo(d: Table, tr: Sighting, a: Zone, b: Zone, now: real)
    ensures SeeInZones(d, tr, [a, b], now) == SeeInZone(SeeInZone(d, tr, a, now), tr, b, now)
  {
    assert [a, b][..1] == [a] && [a][..0] == [];
    assert SeeInZones(d, tr, [a], now) == SeeInZone(SeeInZones(d, tr, [], now), tr, a, now);
  }
}
