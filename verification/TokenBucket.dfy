/** The token-bucket limiter of services/api-gateway/main.go and its background cleanup; time is in seconds. */
module TokenBucket {
  import opened Reals

  datatype Client = Client(tokens: real, last: real)

  type Clients = map<string, Client>

  datatype Params = Params(rate: real, burst: real, cleanup: real) {
    predicate Valid() {
      rate >= 0.0 && burst >= 0.0
    }

    /** newRateLimiter starts the cleanup loop only for a positive period. */
    predicate Loops() {
      cleanup > 0.0
    }
  }

  /** newRateLimiter(100, 200, 10 * time.Minute) */
  const GATEWAY := Params(100.0, 200.0, 600.0)

  function Cap(p: Params, tokens: real): real {
    if tokens > p.burst then p.burst else tokens
  }

  /** Tokens earned in a stretch of time. */
  function Gain(p: Params, elapsed: real): real {
    elapsed * p.rate
  }

  /** The tokens of a client at time now, after the refill. */
  function Refill(p: Params, c: Client, now: real): real {
    Cap(p, c.tokens + Gain(p, now - c.last))
  }

  function Find(p: Params, cl: Clients, key: string, now: real): Client {
    if key in cl then cl[key] else Client(p.burst, now)
  }

  /** What a request for key would find at time now. */
  function Level(p: Params, cl: Clients, key: string, now: real): real {
    Refill(p, Find(p, cl, key, now), now)
  }

  function Take(level: real): real {
    if level >= 1.0 then level - 1.0 else level
  }

  function Sweep(p: Params, cl: Clients, now: real): Clients {
    map k | k in cl && now - cl[k].last <= p.cleanup * 2.0 :: cl[k]
  }

  datatype Act = AllowAct(key: string, now: real) | SweepAct(now: real)

  /** The limiter after one step; the cleanup loop does nothing with sweeping off, or if it was never started. */
  function Next(p: Params, cl: Clients, act: Act, sweeping: bool): Clients {
    match act
    case AllowAct(key, now) => cl[key := Client(Take(Level(p, cl, key, now)), now)]
    case SweepAct(now) => if sweeping && p.Loops() then Sweep(p, cl, now) else cl
  }

  predicate Granted(p: Params, cl: Clients, act: Act) {
    act.AllowAct? && Level(p, cl, act.key, act.now) >= 1.0
  }

  function Answers(p: Params, cl: Clients, acts: seq<Act>, sweeping: bool): seq<bool>
    decreases |acts|
  {
    if acts == [] then []
    else [Granted(p, cl, acts[0])] + Answers(p, Next(p, cl, acts[0], sweeping), acts[1..], sweeping)
  }

  function End(p: Params, cl: Clients, acts: seq<Act>, sweeping: bool): Clients
    decreases |acts|
  {
    if acts == [] then cl else End(p, Next(p, cl, acts[0], sweeping), acts[1..], sweeping)
  }

  predicate Ordered(acts: seq<Act>, from: real)
    decreases |acts|
  {
    acts == [] || (from <= acts[0].now && Ordered(acts[1..], acts[0].now))
  }

  class RateLimiter {
    const p: Params
    var clients: Clients

    constructor (p: Params)
      ensures this.p == p && clients == map[]
    {
      this.p := p;
      clients := map[];
    }

    method Allow(key: string, now: real) returns (ok: bool)
      modifies this
      ensures ok == Granted(p, old(clients), AllowAct(key, now))
      ensures clients == Next(p, old(clients), AllowAct(key, now), true)
    {
      if key !in clients {
        clients := clients[key := Client(p.burst, now)];
      }
      var cl := clients[key];
      var elapsed := now - cl.last;
      var tokens := cl.tokens + elapsed * p.rate;
      if tokens > p.burst {
        tokens := p.burst;
      }
      if tokens >= 1.0 {
        tokens := tokens - 1.0;
        ok := true;
      } else {
        ok := false;
      }
      clients := clients[key := Client(tokens, now)];
    }

    /** The deletion step of cleanupLoop, which runs only if it was started. */
    method Cleanup(now: real)
      requires p.Loops()
      modifies this
      ensures clients == Next(p, old(clients), SweepAct(now), true)
      ensures forall k :: k in old(clients) ==> (k !in clients <==> now - old(clients)[k].last > 2.0 * p.cleanup)
      ensures forall k :: k in clients ==> k in old(clients) && clients[k] == old(clients)[k]
    {
      ghost var was := clients;
      var todo := clients.Keys;
      while todo != {}
        invariant todo <= was.Keys && todo <= clients.Keys
        invariant forall k :: k in clients <==> k in was && (k in todo || now - was[k].last <= p.cleanup * 2.0)
        invariant forall k :: k in clients ==> clients[k] == was[k]
        decreases |todo|
      {
        var k :| k in todo;
        if now - clients[k].last > p.cleanup * 2.0 {
          clients := clients - {k};
        }
        todo := todo - {k};
      }
    }
  }

  // ----- Levels -----

  /** Every bucket holds between zero and burst tokens and was last used in the past. */
  ghost predicate Ok(p: Params, cl: Clients, now: real) {
    forall k :: k in cl ==> 0.0 <= cl[k].tokens <= p.burst && cl[k].last <= now
  }

  lemma GainFacts(p: Params, a: real, b: real)
    requires p.Valid()
    ensures Gain(p, 0.0) == 0.0
    ensures a >= 0.0 ==> Gain(p, a) >= 0.0
    ensures Gain(p, a + b) == Gain(p, a) + Gain(p, b)
    ensures a <= b ==> Gain(p, a) <= Gain(p, b)
  {
    if a <= b {
      NonNegative(b - a, p.rate);
      assert (b - a) * p.rate == b * p.rate - a * p.rate;
    }
    if a >= 0.0 {
      NonNegative(a, p.rate);
    }
  }

  lemma GainIs(p: Params, elapsed: real)
    ensures Gain(p, elapsed) == p.rate * elapsed
  {
  }

  lemma LevelBounds(p: Params, cl: Clients, key: string, now: real)
    requires p.Valid() && Ok(p, cl, now)
    ensures 0.0 <= Level(p, cl, key, now) <= p.burst
    ensures key in cl ==> cl[key].tokens <= Level(p, cl, key, now)
  {
    hide Gain;
    var c := Find(p, cl, key, now);
    GainFacts(p, now - c.last, 0.0);
  }

  /** The level at a later time depends on the level now and on nothing else. */
  lemma LevelLater(p: Params, cl: Clients, key: string, now: real, t: real)
    requires p.Valid() && Ok(p, cl, now) && now <= t
    ensures Level(p, cl, key, t) == Cap(p, Level(p, cl, key, now) + Gain(p, t - now))
  {
    hide Gain;
    GainFacts(p, t - now, 0.0);
    if key in cl {
      var c := cl[key];
      GainFacts(p, now - c.last, t - now);
      assert now - c.last + (t - now) == t - c.last;
    }
  }

  lemma NextOk(p: Params, cl: Clients, act: Act, sweeping: bool, now: real)
    requires p.Valid() && Ok(p, cl, now) && now <= act.now
    ensures Ok(p, Next(p, cl, act, sweeping), act.now)
  {
    hide Gain;
    if act.AllowAct? {
      assert Ok(p, cl, act.now);
      LevelBounds(p, cl, act.key, act.now);
    }
  }

  lemma NoTimePassed(p: Params, tokens: real, now: real)
    requires tokens <= p.burst
    ensures Refill(p, Client(tokens, now), now) == tokens
  {
    assert (now - now) * p.rate == 0.0 * p.rate == 0.0;
  }

  /** A request takes a token from its own key's level and leaves every other key's level alone. */
  lemma AllowLevels(p: Params, cl: Clients, key: string, now: real, k: string)
    requires p.Valid() && Ok(p, cl, now)
    ensures Level(p, Next(p, cl, AllowAct(key, now), true), k, now)
         == if k == key then Take(Level(p, cl, key, now)) else Level(p, cl, k, now)
  {
    hide Gain;
    LevelBounds(p, cl, key, now);
    NoTimePassed(p, Take(Level(p, cl, key, now)), now);
  }

  /** No bucket is deleted before it is full again. */
  predicate RefillsInTime(p: Params) {
    p.Loops() ==> Gain(p, p.cleanup * 2.0) >= p.burst
  }

  /** A bucket idle for two cleanup periods is full again, so deleting it changes no level. */
  lemma SweepLevels(p: Params, cl: Clients, now: real, k: string)
    requires p.Valid() && Ok(p, cl, now) && RefillsInTime(p) && p.Loops()
    ensures Level(p, Sweep(p, cl, now), k, now) == Level(p, cl, k, now)
  {
    hide Gain;
    if k in cl && k !in Sweep(p, cl, now) {
      GainFacts(p, p.cleanup * 2.0, now - cl[k].last);
      NoTimePassed(p, p.burst, now);
    }
  }

  // ----- The rate bound -----

  function Grants(p: Params, cl: Clients, acts: seq<Act>, key: string, sweeping: bool): nat
    decreases |acts|
  {
    if acts == [] then 0
    else
      (if Granted(p, cl, acts[0]) && acts[0].key == key then 1 else 0)
      + Grants(p, Next(p, cl, acts[0], sweeping), acts[1..], key, sweeping)
  }

  /** The level of one key across one step at time t: what was there, plus the refill, minus a grant. */
  lemma StepLevel(p: Params, cl: Clients, act: Act, key: string, sweeping: bool, now: real)
    requires p.Valid() && Ok(p, cl, now) && now <= act.now && (sweeping ==> RefillsInTime(p))
    ensures Ok(p, cl, act.now)
    ensures Level(p, Next(p, cl, act, sweeping), key, act.now)
         == Level(p, cl, key, act.now) - (if Granted(p, cl, act) && act.key == key then 1.0 else 0.0)
  {
    hide Gain, Level;
    assert Ok(p, cl, act.now);
    if act.AllowAct? {
      AllowLevels(p, cl, act.key, act.now, key);
    } else if sweeping && p.Loops() {
      SweepLevels(p, cl, act.now, key);
    }
  }

  /** Tokens granted are paid for by the level at the start and the refill during the run. */
  lemma {:induction false} GrantsPaid(p: Params, cl: Clients, acts: seq<Act>, key: string, sweeping: bool,
                                      now: real, end: real)
    requires p.Valid() && Ok(p, cl, now) && Ordered(acts, now) && (sweeping ==> RefillsInTime(p))
    requires now <= end && forall i :: 0 <= i < |acts| ==> acts[i].now <= end
    ensures Grants(p, cl, acts, key, sweeping) as real <= Level(p, cl, key, now) + Gain(p, end - now)
    decreases |acts|
  {
    hide Gain, Level, Next, Granted;
    LevelBounds(p, cl, key, now);
    GainFacts(p, end - now, 0.0);
    if acts != [] {
      var act := acts[0];
      var t := act.now;
      var cl' := Next(p, cl, act, sweeping);
      StepLevel(p, cl, act, key, sweeping, now);
      NextOk(p, cl, act, sweeping, now);
      GrantsPaid(p, cl', acts[1..], key, sweeping, t, end);
      LevelLater(p, cl, key, now, t);
      GainFacts(p, end - t, t - now);
      assert end - t + (t - now) == end - now;
    }
  }

  lemma {:induction false} EndOk(p: Params, cl: Clients, acts: seq<Act>, sweeping: bool, now: real, end: real)
    requires p.Valid() && Ok(p, cl, now) && Ordered(acts, now)
    requires now <= end && forall i :: 0 <= i < |acts| ==> acts[i].now <= end
    ensures Ok(p, End(p, cl, acts, sweeping), end)
    decreases |acts|
  {
    hide Next;
    if acts != [] {
      NextOk(p, cl, acts[0], sweeping, now);
      EndOk(p, Next(p, cl, acts[0], sweeping), acts[1..], sweeping, acts[0].now, end);
    }
  }

  /**
   After any run, any stretch of requests and cleanups inside an interval of length T grants a key at most
   burst + rate * T requests; without cleanup this needs no condition on the refill, with it RateBoundExact says
   that the condition cannot be dropped.
   */
  lemma RateBound(p: Params, before: seq<Act>, acts: seq<Act>, key: string, sweeping: bool, start: real, T: real)
    requires p.Valid() && (sweeping ==> RefillsInTime(p)) && 0.0 <= start && 0.0 <= T
    requires Ordered(before, 0.0) && Ordered(acts, start)
    requires forall i :: 0 <= i < |before| ==> before[i].now <= start
    requires forall i :: 0 <= i < |acts| ==> acts[i].now <= start + T
    ensures Grants(p, End(p, map[], before, sweeping), acts, key, sweeping) as real <= p.burst + p.rate * T
  {
    hide Level, Grants, Gain, RefillsInTime, End;
    GainIs(p, T);
    var cl := End(p, map[], before, sweeping);
    EndOk(p, map[], before, sweeping, 0.0, start);
    GrantsPaid(p, cl, acts, key, sweeping, start, start + T);
    LevelBounds(p, cl, key, start);
    assert start + T - start == T;
  }

  // ----- Exactly which requests are granted -----

  lemma {:induction false} EndAppend(p: Params, cl: Clients, x: seq<Act>, y: seq<Act>, sweeping: bool)
    ensures End(p, cl, x + y, sweeping) == End(p, End(p, cl, x, sweeping), y, sweeping)
    decreases |x|
  {
    hide Next;
    if x == [] {
      assert x + y == y;
    } else {
      assert (x + y)[1..] == x[1..] + y;
      EndAppend(p, Next(p, cl, x[0], sweeping), x[1..], y, sweeping);
    }
  }

  lemma OneStep(p: Params, cl: Clients, act: Act, key: string, sweeping: bool)
    ensures End(p, cl, [act], sweeping) == Next(p, cl, act, sweeping)
    ensures Grants(p, cl, [act], key, sweeping) == if Granted(p, cl, act) && act.key == key then 1 else 0
  {
    hide Next, Granted;
    assert [act][1..] == [];
  }

  /** The run up to time t, cut before step i at time s. */
  ghost predicate CutAt(acts: seq<Act>, i: nat, s: real, t: real) {
    && i <= |acts| && 0.0 <= s <= t
    && (forall k :: 0 <= k < i ==> acts[k].now <= s) && (forall k :: i <= k < |acts| ==> s <= acts[k].now <= t)
  }

  /** What the key was granted from step i on. */
  function GrantsFrom(p: Params, acts: seq<Act>, i: nat, key: string): nat
    requires i <= |acts|
  {
    Grants(p, End(p, map[], acts[..i], false), acts[i..], key, false)
  }

  lemma GrantsFromSnoc(p: Params, acts: seq<Act>, act: Act, i: nat, key: string)
    requires i <= |acts|
    ensures GrantsFrom(p, acts + [act], i, key)
         == GrantsFrom(p, acts, i, key) + if Granted(p, End(p, map[], acts, false), act) && act.key == key then 1 else 0
  {
    hide Next, Granted, End, Grants;
    var longer, cl := acts + [act], End(p, map[], acts[..i], false);
    assert longer[..i] == acts[..i] && longer[i..] == acts[i..] + [act] && acts[..i] + acts[i..] == acts;
    EndAppend(p, map[], acts[..i], acts[i..], false);
    GrantsAppend(p, cl, acts[i..], [act], key, false);
    OneStep(p, End(p, cl, acts[i..], false), act, key, false);
  }

  /** The level is what is left of a full bucket since some moment of the run, the refill added. */
  ghost predicate LeftSince(p: Params, acts: seq<Act>, key: string, t: real, i: nat, s: real, level: real) {
    CutAt(acts, i, s, t) && level == p.burst + Gain(p, t - s) - GrantsFrom(p, acts, i, key) as real
  }

  lemma {:induction false} LevelSince(p: Params, acts: seq<Act>, key: string, t: real) returns (i: nat, s: real)
    requires p.Valid() && 0.0 <= t && Ordered(acts, 0.0) && forall k :: 0 <= k < |acts| ==> acts[k].now <= t
    ensures LeftSince(p, acts, key, t, i, s, Level(p, End(p, map[], acts, false), key, t))
    decreases |acts|
  {
    i, s := |acts|, t;
    FullSince(p, acts, key, t);
    if acts == [] {
      FreshLevel(p, map[], key, t);
    } else {
      hide *;
      var n := |acts| - 1;
      var before, act := acts[..n], acts[n];
      OrderedPrefix(acts, 0.0);
      var i', s' := LevelSince(p, before, key, act.now);
      LevelGoesOn(p, before, act, key, t, i', s');
      assert acts == before + [act];
      if LeftSince(p, acts, key, t, i', s', Level(p, End(p, map[], acts, false), key, t)) {
        i, s := i', s';
      }
    }
  }

  /** A full bucket is what is left since this moment. */
  lemma FullSince(p: Params, acts: seq<Act>, key: string, t: real)
    requires p.Valid() && 0.0 <= t && forall k :: 0 <= k < |acts| ==> acts[k].now <= t
    ensures LeftSince(p, acts, key, t, |acts|, t, p.burst)
  {
    GainFacts(p, 0.0, 0.0);
    hide Gain, End;
    assert acts[|acts|..] == [] && t - t == 0.0;
  }

  lemma {:induction false} OrderedPrefix(acts: seq<Act>, from: real)
    requires Ordered(acts, from) && acts != []
    ensures var n := |acts| - 1;
            && Ordered(acts[..n], from) && from <= acts[n].now
            && forall k :: 0 <= k < n ==> from <= acts[k].now <= acts[n].now
    decreases |acts|
  {
    if |acts| > 1 {
      OrderedPrefix(acts[1..], acts[0].now);
      var n := |acts| - 1;
      assert acts[..n][1..] == acts[1..][..n - 1];
      forall k | 0 <= k < n ensures from <= acts[k].now <= acts[n].now {
        assert k > 0 ==> acts[k] == acts[1..][k - 1];
      }
    }
  }

  /** After one more step and some time the same holds, or the bucket is full. */
  lemma LevelGoesOn(p: Params, acts: seq<Act>, act: Act, key: string, t: real, i: nat, s: real)
    requires p.Valid() && act.now <= t && 0.0 <= act.now && Ordered(acts, 0.0)
    requires forall k :: 0 <= k < |acts| ==> acts[k].now <= act.now
    requires LeftSince(p, acts, key, act.now, i, s, Level(p, End(p, map[], acts, false), key, act.now))
    ensures var level := Level(p, End(p, map[], acts + [act], false), key, t);
            level == p.burst || LeftSince(p, acts + [act], key, t, i, s, level)
  {
    var cl, now := End(p, map[], acts, false), act.now;
    var cl' := End(p, map[], acts + [act], false);
    StepGoesOn(p, acts, act, key, i, s);
    hide End, Level, Gain, GrantsFrom, LeftSince;
    LevelLater(p, cl', key, now, t);
    TimePasses(p, acts + [act], key, now, t, i, s, Level(p, cl', key, now));
  }

  /** One step: a grant is taken off the level. */
  lemma StepGoesOn(p: Params, acts: seq<Act>, act: Act, key: string, i: nat, s: real)
    requires p.Valid() && 0.0 <= act.now && Ordered(acts, 0.0) && forall k :: 0 <= k < |acts| ==> acts[k].now <= act.now
    requires LeftSince(p, acts, key, act.now, i, s, Level(p, End(p, map[], acts, false), key, act.now))
    ensures var cl' := End(p, map[], acts + [act], false);
            Ok(p, cl', act.now) && LeftSince(p, acts + [act], key, act.now, i, s, Level(p, cl', key, act.now))
  {
    var cl, now := End(p, map[], acts, false), act.now;
    EndOk(p, map[], acts, false, 0.0, now);
    EndAppend(p, map[], acts, [act], false);
    OneStep(p, cl, act, key, false);
    hide Gain, Level, Next, Granted, GrantsFrom, End;
    StepLevel(p, cl, act, key, false, now);
    NextOk(p, cl, act, false, now);
    GrantsFromSnoc(p, acts, act, i, key);
  }

  lemma TimePasses(p: Params, acts: seq<Act>, key: string, now: real, t: real, i: nat, s: real, level: real)
    requires p.Valid() && now <= t && LeftSince(p, acts, key, now, i, s, level)
    ensures Cap(p, level + Gain(p, t - now)) == p.burst
            || LeftSince(p, acts, key, t, i, s, Cap(p, level + Gain(p, t - now)))
  {
    GainFacts(p, now - s, t - now);
    hide Gain, GrantsFrom;
    assert now - s + (t - now) == t - s;
  }

  /** Granting one more request at time t keeps every interval that ends there within burst + rate * T. */
  ghost predicate Conforms(p: Params, acts: seq<Act>, key: string, t: real) {
    forall i, s :: CutAt(acts, i, s, t) ==> GrantsFrom(p, acts, i, key) as real + 1.0 <= p.burst + p.rate * (t - s)
  }

  /**
   The limiter is exact: a request is granted if and only if that keeps every interval ending at it within the rate
   bound. In particular a refused request costs nothing, and what other keys do does not matter.
   */
  lemma GrantedExact(p: Params, acts: seq<Act>, key: string, t: real)
    requires p.Valid() && 0.0 <= t && Ordered(acts, 0.0) && forall k :: 0 <= k < |acts| ==> acts[k].now <= t
    ensures Granted(p, End(p, map[], acts, false), AllowAct(key, t)) <==> Conforms(p, acts, key, t)
  {
    hide *;
    if Granted(p, End(p, map[], acts, false), AllowAct(key, t)) {
      GrantConforms(p, acts, key, t);
    } else {
      RefusedBreaks(p, acts, key, t);
    }
  }

  lemma GrantConforms(p: Params, acts: seq<Act>, key: string, t: real)
    requires p.Valid() && Ordered(acts, 0.0) && Granted(p, End(p, map[], acts, false), AllowAct(key, t))
    ensures Conforms(p, acts, key, t)
  {
    hide Granted, End, GrantsFrom;
    forall i, s | CutAt(acts, i, s, t)
      ensures GrantsFrom(p, acts, i, key) as real + 1.0 <= p.burst + p.rate * (t - s)
    {
      GrantFits(p, acts, key, t, i, s);
    }
  }

  lemma RefusedBreaks(p: Params, acts: seq<Act>, key: string, t: real)
    requires p.Valid() && 0.0 <= t && Ordered(acts, 0.0) && forall k :: 0 <= k < |acts| ==> acts[k].now <= t
    requires !Granted(p, End(p, map[], acts, false), AllowAct(key, t))
    ensures !Conforms(p, acts, key, t)
  {
    var i, s := LevelSince(p, acts, key, t);
    GainIs(p, t - s);
    hide Level, Gain, GrantsFrom, End;
    assert CutAt(acts, i, s, t);
  }

  lemma CutTimes(acts: seq<Act>, i: nat, s: real, t: real)
    requires CutAt(acts, i, s, t)
    ensures i <= |acts| && 0.0 <= s <= t
    ensures forall k :: 0 <= k < |acts[..i]| ==> acts[..i][k].now <= s
    ensures forall k :: i <= k < |acts| ==> s <= acts[k].now <= t
  {
  }

  lemma GrantFits(p: Params, acts: seq<Act>, key: string, t: real, i: nat, s: real)
    requires p.Valid() && Ordered(acts, 0.0) && CutAt(acts, i, s, t)
    requires i <= |acts| && Granted(p, End(p, map[], acts, false), AllowAct(key, t))
    ensures GrantsFrom(p, acts, i, key) as real + 1.0 <= p.burst + p.rate * (t - s)
  {
    hide *;
    var ask := AllowAct(key, t);
    CutTimes(acts, i, s, t);
    GrantsFromSnoc(p, acts, ask, i, key);
    GrantsFromIs(p, acts, ask, i, key);
    OrderedParts(acts, i, 0.0, s, t, key);
    var suffix := acts[i..] + [ask];
    forall k | 0 <= k < |suffix| ensures suffix[k].now <= s + (t - s) {
      assert k < |acts| - i ==> suffix[k] == acts[i + k];
    }
    RateBound(p, acts[..i], suffix, key, false, s, t - s);
  }

  lemma GrantsFromIs(p: Params, acts: seq<Act>, ask: Act, i: nat, key: string)
    requires i <= |acts|
    ensures GrantsFrom(p, acts + [ask], i, key)
         == Grants(p, End(p, map[], acts[..i], false), acts[i..] + [ask], key, false)
  {
    hide Grants, End;
    var longer := acts + [ask];
    assert longer[..i] == acts[..i] && longer[i..] == acts[i..] + [ask];
  }

  lemma {:induction false} OrderedParts(acts: seq<Act>, i: nat, from: real, s: real, t: real, key: string)
    requires Ordered(acts, from) && i <= |acts| && s <= t
    requires forall k :: i <= k < |acts| ==> s <= acts[k].now <= t
    ensures Ordered(acts[..i], from) && Ordered(acts[i..] + [AllowAct(key, t)], s)
    decreases |acts|
  {
    var ask := AllowAct(key, t);
    if i > 0 {
      OrderedParts(acts[1..], i - 1, acts[0].now, s, t, key);
      assert acts[..i][1..] == acts[1..][..i - 1] && acts[i..] == acts[1..][i - 1..];
    } else if acts != [] {
      OrderedParts(acts[1..], 0, acts[0].now, acts[0].now, t, key) by { OrderedTail(acts, from); }
      assert acts[0..] + [ask] == [acts[0]] + (acts[1..][0..] + [ask]);
      OrderedCons(acts[0], acts[1..][0..] + [ask], s);
    } else {
      assert acts[0..] + [ask] == [ask] && [ask][1..] == [];
    }
  }

  lemma {:induction false} OrderedTail(acts: seq<Act>, from: real)
    requires Ordered(acts, from) && acts != []
    ensures Ordered(acts[1..], acts[0].now) && forall k :: 0 <= k < |acts[1..]| ==> acts[0].now <= acts[1..][k].now
    decreases |acts|
  {
    if |acts| > 1 {
      OrderedTail(acts[1..], acts[0].now);
      forall k | 0 <= k < |acts[1..]| ensures acts[0].now <= acts[1..][k].now {
        assert k > 0 ==> acts[1..][k] == acts[1..][1..][k - 1];
      }
    }
  }

  // ----- Steady clients are served -----

  /** Every request for key comes at least one token's worth of time after the one before it. */
  predicate Paced(p: Params, acts: seq<Act>, key: string, last: real)
    decreases |acts|
  {
    acts == [] || (
      if acts[0].AllowAct? && acts[0].key == key then
        Gain(p, acts[0].now - last) >= 1.0 && Paced(p, acts[1..], key, acts[0].now)
      else Paced(p, acts[1..], key, last))
  }

  function Requests(acts: seq<Act>, key: string): nat {
    if acts == [] then 0
    else (if acts[0].AllowAct? && acts[0].key == key then 1 else 0) + Requests(acts[1..], key)
  }

  function AtMostOne(x: real): real {
    if x > 1.0 then 1.0 else x
  }

  /** A key whose requests are paced is granted every one of them, whatever other keys do and with cleanup. */
  lemma {:induction false} PacedNeverRefused(p: Params, cl: Clients, acts: seq<Act>, key: string, last: real, now: real)
    requires p.Valid() && p.burst >= 1.0 && RefillsInTime(p)
    requires Ok(p, cl, now) && last <= now && Ordered(acts, now) && Paced(p, acts, key, last)
    requires Level(p, cl, key, now) >= AtMostOne(Gain(p, now - last))
    ensures Grants(p, cl, acts, key, true) == Requests(acts, key)
    decreases |acts|
  {
    if acts != [] {
      var act := acts[0];
      var t := act.now;
      var asks := act.AllowAct? && act.key == key;
      StepLevel(p, cl, act, key, true, now);
      NextOk(p, cl, act, true, now);
      LevelLater(p, cl, key, now, t);
      GainFacts(p, now - last, t - now);
      assert now - last + (t - now) == t - last;
      GainFacts(p, t - now, 0.0);
      GainFacts(p, t - t, 0.0);
      assert asks ==> Granted(p, cl, act) by { hide Next, Gain; }
      hide Gain, Level, Next, Granted;
      PacedNeverRefused(p, Next(p, cl, act, true), acts[1..], key, if asks then t else last, t);
    }
  }

  // ----- When the cleanup cannot be observed -----

  ghost predicate Same(p: Params, a: Clients, b: Clients, now: real) {
    forall k :: Level(p, a, k, now) == Level(p, b, k, now)
  }

  lemma {:induction false} SameAnswers(p: Params, a: Clients, b: Clients, acts: seq<Act>, now: real)
    requires p.Valid() && (RefillsInTime(p) || p.burst < 1.0)
    requires Ok(p, a, now) && Ok(p, b, now) && (p.burst >= 1.0 ==> Same(p, a, b, now)) && Ordered(acts, now)
    ensures Answers(p, a, acts, true) == Answers(p, b, acts, false)
    decreases |acts|
  {
    hide Gain, Level, Next;
    if acts != [] {
      var act := acts[0];
      var a', b' := Next(p, a, act, true), Next(p, b, act, false);
      NextOk(p, a, act, true, now);
      NextOk(p, b, act, false, now);
      assert Ok(p, a, act.now) && Ok(p, b, act.now);
      if p.burst >= 1.0 {
        forall k ensures Level(p, a, k, act.now) == Level(p, b, k, act.now) {
          LevelLater(p, a, k, now, act.now);
          LevelLater(p, b, k, now, act.now);
        }
        forall k ensures Level(p, a', k, act.now) == Level(p, b', k, act.now) {
          StepLevel(p, a, act, k, true, now);
          StepLevel(p, b, act, k, false, now);
        }
      } else if act.AllowAct? {
        LevelBounds(p, a, act.key, act.now);
        LevelBounds(p, b, act.key, act.now);
      }
      SameAnswers(p, a', b', acts[1..], act.now);
    }
  }

  // ----- When it can -----

  /** One more request to key at time t: the levels of that key, and what is answered. */
  lemma Ask(p: Params, cl: Clients, key: string, now: real, t: real)
    requires p.Valid() && Ok(p, cl, now) && now <= t
    ensures var l := Cap(p, Level(p, cl, key, now) + Gain(p, t - now));
            var cl' := Next(p, cl, AllowAct(key, t), true);
            Granted(p, cl, AllowAct(key, t)) == (l >= 1.0) && Ok(p, cl', t) && Level(p, cl', key, t) == Take(l)
  {
    hide Gain;
    assert Ok(p, cl, t);
    LevelLater(p, cl, key, now, t);
    AllowLevels(p, cl, key, t, key);
    NextOk(p, cl, AllowAct(key, t), true, now);
  }

  /** The time after which a level below one has grown to one. */
  lemma WaitFor(p: Params, missing: real) returns (d: real)
    requires p.rate > 0.0 && missing >= 0.0
    ensures d >= 0.0 && Gain(p, d) == missing
  {
    d := missing / p.rate;
    assert d * p.rate == missing;
  }

  predicate OnlyAsks(acts: seq<Act>) {
    forall i :: 0 <= i < |acts| ==> acts[i].AllowAct?
  }

  lemma AnswersCons(p: Params, cl: Clients, act: Act, acts: seq<Act>, sweeping: bool)
    ensures Answers(p, cl, [act] + acts, sweeping)
         == [Granted(p, cl, act)] + Answers(p, Next(p, cl, act, sweeping), acts, sweeping)
    ensures End(p, cl, [act] + acts, sweeping) == End(p, Next(p, cl, act, sweeping), acts, sweeping)
  {
    assert ([act] + acts)[1..] == acts;
  }

  lemma OrderedCons(act: Act, acts: seq<Act>, from: real)
    requires from <= act.now && Ordered(acts, act.now)
    ensures Ordered([act] + acts, from)
  {
    assert ([act] + acts)[1..] == acts;
  }

  /** Two limiters that hold different levels of a key are told apart by requests alone. */
  lemma {:induction false} TellApart(p: Params, a: Clients, b: Clients, key: string, now: real) returns (acts: seq<Act>)
    requires p.Valid() && p.burst >= 1.0 && Ok(p, a, now) && Ok(p, b, now)
    requires Level(p, a, key, now) > Level(p, b, key, now)
    requires p.rate > 0.0 || Level(p, b, key, now) < 1.0 <= Level(p, a, key, now)
    ensures OnlyAsks(acts) && Ordered(acts, now)
    ensures Answers(p, a, acts, true) != Answers(p, b, acts, false)
    decreases Level(p, b, key, now)
  {
    var x, y := Level(p, b, key, now), Level(p, a, key, now);
    LevelBounds(p, a, key, now);
    LevelBounds(p, b, key, now);
    GainFacts(p, 0.0, 0.0);
    hide Gain, Level, Next, Granted;
    var d := 0.0;
    if y < 1.0 {
      d := WaitFor(p, 1.0 - y);
    }
    var t := now + d;
    assert t - now == d;
    var ask := AllowAct(key, t);
    Ask(p, a, key, now, t);
    Ask(p, b, key, now, t);
    acts := [];
    if x >= 1.0 {
      acts := TellApart(p, Next(p, a, ask, true), Next(p, b, ask, true), key, t);
    }
    AskBoth(p, b, ask);
    AnswersCons(p, a, ask, acts, true);
    AnswersCons(p, b, ask, acts, false);
    OrderedCons(ask, acts, now);
    var rest := acts;
    acts := [ask] + rest;
    assert Answers(p, a, acts, true)[0] == Granted(p, a, ask) && Answers(p, b, acts, false)[0] == Granted(p, b, ask);
    assert x >= 1.0 ==> Answers(p, a, acts, true)[1..] != Answers(p, b, acts, false)[1..];
  }

  lemma AskBoth(p: Params, cl: Clients, ask: Act)
    requires ask.AllowAct?
    ensures Next(p, cl, ask, true) == Next(p, cl, ask, false)
  {
  }

  /** Requests that empty a bucket: to exactly zero if it refills at all, else to less than one token. */
  lemma {:induction false} Drain(p: Params, cl: Clients, key: string, now: real) returns (acts: seq<Act>, end: real)
    requires p.Valid() && p.burst >= 1.0 && Ok(p, cl, now)
    requires 0.0 < Level(p, cl, key, now) && (p.rate > 0.0 || 1.0 <= Level(p, cl, key, now))
    ensures OnlyAsks(acts) && Ordered(acts, now) && now <= end && forall i :: 0 <= i < |acts| ==> acts[i].now <= end
    ensures Emptied(p, End(p, cl, acts, true), key, end)
    ensures Grants(p, cl, acts, key, true) as real
         == Level(p, cl, key, now) + Gain(p, end - now) - End(p, cl, acts, true)[key].tokens
    decreases Level(p, cl, key, now)
  {
    var l := Level(p, cl, key, now);
    LevelBounds(p, cl, key, now);
    GainFacts(p, 0.0, 0.0);
    hide Gain, Level;
    var d := 0.0;
    if l < 1.0 {
      d := WaitFor(p, 1.0 - l);
    }
    var t := now + d;
    assert t - now == d;
    var ask := AllowAct(key, t);
    Ask(p, cl, key, now, t);
    var cl' := Next(p, cl, ask, true);
    TokensAre(p, cl, key, t);
    hide Next;
    acts, end := [], t;
    if l > 1.0 && (p.rate > 0.0 || l >= 2.0) {
      acts, end := Drain(p, cl', key, t);
    }
    GainFacts(p, end - t, t - now);
    assert end - t + (t - now) == end - now && t - t == 0.0;
    GrantsCons(p, cl, ask, acts, key, true);
    AnswersCons(p, cl, ask, acts, true);
    OrderedCons(ask, acts, now);
    acts := [ask] + acts;
  }

  lemma GrantsCons(p: Params, cl: Clients, act: Act, acts: seq<Act>, key: string, sweeping: bool)
    ensures Grants(p, cl, [act] + acts, key, sweeping)
         == (if Granted(p, cl, act) && act.key == key then 1 else 0)
            + Grants(p, Next(p, cl, act, sweeping), acts, key, sweeping)
  {
    assert ([act] + acts)[1..] == acts;
  }

  lemma {:induction false} GrantsAppend(p: Params, cl: Clients, x: seq<Act>, y: seq<Act>, key: string, sweeping: bool)
    ensures Grants(p, cl, x + y, key, sweeping)
         == Grants(p, cl, x, key, sweeping) + Grants(p, End(p, cl, x, sweeping), y, key, sweeping)
    decreases |x|
  {
    hide Next, Granted;
    if x == [] {
      assert x + y == y;
    } else {
      assert x + y == [x[0]] + (x[1..] + y);
      GrantsCons(p, cl, x[0], x[1..] + y, key, sweeping);
      GrantsAppend(p, Next(p, cl, x[0], sweeping), x[1..], y, key, sweeping);
    }
  }

  ghost predicate Emptied(p: Params, cl: Clients, key: string, now: real) {
    key in cl && cl[key].last == now && 0.0 <= cl[key].tokens < 1.0 && (p.rate > 0.0 ==> cl[key].tokens == 0.0)
  }

  lemma TokensAre(p: Params, cl: Clients, key: string, t: real)
    requires p.Valid() && Ok(p, cl, t)
    ensures var cl' := Next(p, cl, AllowAct(key, t), true);
            key in cl' && cl'[key].last == t && cl'[key].tokens == Level(p, cl', key, t)
  {
    hide Gain;
    LevelBounds(p, cl, key, t);
    NoTimePassed(p, Take(Level(p, cl, key, t)), t);
  }

  /** A moment at which cleanup deletes an emptied bucket that is not full again yet. */
  lemma TooEarly(p: Params) returns (d: real)
    requires p.Valid() && !RefillsInTime(p) && p.burst >= 1.0
    ensures d > p.cleanup * 2.0 && Gain(p, d) < p.burst
  {
    var gap := p.burst - Gain(p, p.cleanup * 2.0);
    var e := 1.0;
    if p.rate > 0.0 {
      e := WaitFor(p, gap / 2.0);
    }
    GainFacts(p, p.cleanup * 2.0, e);
    GainFacts(p, e, 0.0);
    d := p.cleanup * 2.0 + e;
    if p.rate == 0.0 {
      assert d * p.rate == 0.0;
    }
  }

  lemma {:induction false} AsksIgnoreCleanup(p: Params, cl: Clients, acts: seq<Act>)
    requires OnlyAsks(acts)
    ensures End(p, cl, acts, true) == End(p, cl, acts, false)
    ensures Answers(p, cl, acts, true) == Answers(p, cl, acts, false)
    decreases |acts|
  {
    if acts != [] {
      AskBoth(p, cl, acts[0]);
      hide Next;
      AsksIgnoreCleanup(p, Next(p, cl, acts[0], true), acts[1..]);
    }
  }

  lemma {:induction false} AnswersAppend(p: Params, cl: Clients, x: seq<Act>, y: seq<Act>, sweeping: bool)
    ensures Answers(p, cl, x + y, sweeping)
         == Answers(p, cl, x, sweeping) + Answers(p, End(p, cl, x, sweeping), y, sweeping)
    decreases |x|
  {
    hide Next, Granted;
    if x == [] {
      assert x + y == y;
    } else {
      assert x + y == [x[0]] + (x[1..] + y);
      AnswersCons(p, cl, x[0], x[1..] + y, sweeping);
      AnswersAppend(p, Next(p, cl, x[0], sweeping), x[1..], y, sweeping);
    }
  }

  lemma {:induction false} OrderedAppend(x: seq<Act>, y: seq<Act>, from: real, mid: real)
    requires Ordered(x, from) && Ordered(y, mid) && from <= mid && forall i :: 0 <= i < |x| ==> x[i].now <= mid
    ensures Ordered(x + y, from)
    decreases |x|
  {
    if x == [] {
      assert x + y == y;
    } else {
      OrderedAppend(x[1..], y, x[0].now, mid);
      assert (x + y)[1..] == x[1..] + y;
    }
  }

  /** A bucket deleted before it has refilled gives the key a full one: some later answer differs. */
  lemma Observed(p: Params, key: string) returns (acts: seq<Act>)
    requires p.Valid() && !RefillsInTime(p) && p.burst >= 1.0
    ensures Ordered(acts, 0.0) && Answers(p, map[], acts, true) != Answers(p, map[], acts, false)
  {
    hide Gain, Level, Next;
    FreshLevel(p, map[], key, 0.0);
    var drain, end := Drain(p, map[], key, 0.0);
    var cl := End(p, map[], drain, true);
    EndOk(p, map[], drain, true, 0.0, end);
    var d := TooEarly(p);
    var t := end + d;
    var sweep := SweepAct(t);
    SweptLevels(p, cl, key, end, t);
    var rest := TellApart(p, Next(p, cl, sweep, true), Next(p, cl, sweep, false), key, t);
    AsksIgnoreCleanup(p, map[], drain);
    AnswersCons(p, cl, sweep, rest, true);
    AnswersCons(p, cl, sweep, rest, false);
    AnswersAppend(p, map[], drain, [sweep] + rest, true);
    AnswersAppend(p, map[], drain, [sweep] + rest, false);
    OrderedCons(sweep, rest, end);
    OrderedAppend(drain, [sweep] + rest, 0.0, end);
    acts := drain + ([sweep] + rest);
    var u, v := Answers(p, cl, [sweep] + rest, true), Answers(p, cl, [sweep] + rest, false);
    assert u[1..] != v[1..];
    var n := |Answers(p, map[], drain, true)|;
    assert Answers(p, map[], acts, true)[n..] == u && Answers(p, map[], acts, false)[n..] == v;
  }

  lemma FreshLevel(p: Params, cl: Clients, key: string, now: real)
    requires key !in cl
    ensures Level(p, cl, key, now) == p.burst
  {
    NoTimePassed(p, p.burst, now);
  }

  lemma SweptLevels(p: Params, cl: Clients, key: string, end: real, t: real)
    requires p.Valid() && p.burst >= 1.0 && Ok(p, cl, end) && Emptied(p, cl, key, end)
    requires p.Loops() && t - end > p.cleanup * 2.0 && Gain(p, t - end) < p.burst
    ensures var a, b := Next(p, cl, SweepAct(t), true), Next(p, cl, SweepAct(t), false);
            Ok(p, a, t) && Ok(p, b, t) && Level(p, a, key, t) == p.burst > Level(p, b, key, t)
            && (p.rate > 0.0 || Level(p, b, key, t) < 1.0)
  {
    if p.rate == 0.0 { assert Gain(p, t - end) == 0.0; }
    hide Gain;
    FreshLevel(p, Sweep(p, cl, t), key, t);
    assert cl[key].last == end;
  }

  /** Every answer is that of a limiter that never deletes. */
  ghost predicate Unobservable(p: Params) {
    forall acts :: Ordered(acts, 0.0) ==> Answers(p, map[], acts, true) == Answers(p, map[], acts, false)
  }

  /**
   The cleanup is unobservable exactly when the loop is never started, when a bucket refills completely within two
   cleanup periods, or when the burst is below one and nothing is ever granted.
   */
  lemma CleanupExact(p: Params)
    requires p.Valid()
    ensures Unobservable(p) <==> p.cleanup <= 0.0 || p.rate * (p.cleanup * 2.0) >= p.burst || p.burst < 1.0
  {
    GainIs(p, p.cleanup * 2.0);
    hide Gain, Answers;
    if RefillsInTime(p) || p.burst < 1.0 {
      forall acts | Ordered(acts, 0.0) ensures Answers(p, map[], acts, true) == Answers(p, map[], acts, false) {
        SameAnswers(p, map[], map[], acts, 0.0);
      }
    } else {
      var acts := Observed(p, "");
    }
  }

  // ----- When the rate bound holds -----

  lemma {:induction false} NothingGranted(p: Params, cl: Clients, acts: seq<Act>, key: string, now: real)
    requires p.Valid() && p.burst < 1.0 && Ok(p, cl, now) && Ordered(acts, now)
    ensures Grants(p, cl, acts, key, true) == 0
    decreases |acts|
  {
    hide Level, Next;
    if acts != [] {
      var act := acts[0];
      NextOk(p, cl, act, true, now);
      if act.AllowAct? {
        assert Ok(p, cl, act.now);
        LevelBounds(p, cl, act.key, act.now);
      }
      NothingGranted(p, Next(p, cl, act, true), acts[1..], key, act.now);
    }
  }

  /** A stretch of a run inside an interval: it starts after the run before it and ends within T. */
  ghost predicate Within(before: seq<Act>, acts: seq<Act>, start: real, T: real) {
    && 0.0 <= start && 0.0 <= T && Ordered(before, 0.0) && Ordered(acts, start)
    && (forall i :: 0 <= i < |before| ==> before[i].now <= start)
    && (forall i :: 0 <= i < |acts| ==> acts[i].now <= start + T)
  }

  /** The cleanup loop included, no interval of any run grants a key more than burst + rate * T. */
  ghost predicate Bounded(p: Params) {
    forall before, acts, key, start, T :: Within(before, acts, start, T) ==>
      Grants(p, End(p, map[], before, true), acts, key, true) as real <= p.burst + p.rate * T
  }

  /** Two buckets emptied with one deletion between them: the numbers. */
  lemma TwoBuckets(burst: real, g1: nat, g2: nat, left1: real, left2: real, gain1: real, gap: real, gain2: real)
    requires burst >= 1.0 && 0.0 <= left1 < 1.0 && 0.0 <= left2 < 1.0 && gap < burst
    requires g1 as real == burst + gain1 - left1 && g2 as real == burst + gain2 - left2
    requires (left1 == 0.0 && left2 == 0.0) || (gain1 == 0.0 && gap == 0.0 && gain2 == 0.0)
    ensures (g1 + g2) as real > burst + gain1 + gap + gain2
  {
    if gain1 == 0.0 && gap == 0.0 && gain2 == 0.0 {
      assert g1 >= 1 && g2 >= 1;
      assert burst < 2.0 || g1 as real + g2 as real > 2.0 * burst - 2.0;
    }
  }

  /** A bucket deleted before it has refilled: its key gets more than the bound. */
  lemma BoundExceeded(p: Params, key: string) returns (acts: seq<Act>, T: real)
    requires p.Valid() && !RefillsInTime(p) && p.burst >= 1.0
    ensures Within([], acts, 0.0, T) && Grants(p, map[], acts, key, true) as real > p.burst + p.rate * T
  {
    hide Gain, Level, Next, Grants, Granted;
    FreshLevel(p, map[], key, 0.0);
    var drain, end := Drain(p, map[], key, 0.0);
    var cl := End(p, map[], drain, true);
    EndOk(p, map[], drain, true, 0.0, end);
    var d := TooEarly(p);
    var t := end + d;
    var sweep := SweepAct(t);
    var swept := Next(p, cl, sweep, true);
    SweptLevels(p, cl, key, end, t);
    var again, last := Drain(p, swept, key, t);
    GrantsCons(p, cl, sweep, again, key, true);
    GrantsAppend(p, map[], drain, [sweep] + again, key, true);
    SweepGrantsNothing(p, cl, t);
    OrderedCons(sweep, again, end);
    OrderedAppend(drain, [sweep] + again, 0.0, end);
    acts, T := drain + ([sweep] + again), last;
    GainParts(p, end, d, last);
    assert end - 0.0 == end;
    TwoBuckets(p.burst, Grants(p, map[], drain, key, true), Grants(p, swept, again, key, true),
               cl[key].tokens, End(p, swept, again, true)[key].tokens, Gain(p, end), Gain(p, d), Gain(p, last - t));
  }

  lemma SweepGrantsNothing(p: Params, cl: Clients, t: real)
    ensures !Granted(p, cl, SweepAct(t))
  {
  }

  lemma GainParts(p: Params, end: real, d: real, last: real)
    requires p.Valid()
    ensures p.rate * last == Gain(p, end) + Gain(p, d) + Gain(p, last - (end + d))
    ensures p.rate == 0.0 ==> Gain(p, end) == 0.0 && Gain(p, d) == 0.0 && Gain(p, last - (end + d)) == 0.0
  {
    GainFacts(p, end, d);
    GainFacts(p, end + d, last - (end + d));
    assert end + d + (last - (end + d)) == last;
    GainIs(p, last);
    if p.rate == 0.0 {
      assert end * p.rate == 0.0 && d * p.rate == 0.0 && (last - (end + d)) * p.rate == 0.0;
    }
  }

  /**
   The exact condition for the rate bound with the cleanup loop: the loop is never started, a bucket refills within
   two cleanup periods, or the burst is below one. It is the condition under which the cleanup is unobservable.
   */
  lemma RateBoundExact(p: Params)
    requires p.Valid()
    ensures Bounded(p) <==> p.cleanup <= 0.0 || p.rate * (p.cleanup * 2.0) >= p.burst || p.burst < 1.0
  {
    GainIs(p, p.cleanup * 2.0);
    hide Gain, Grants, End;
    if RefillsInTime(p) || p.burst < 1.0 {
      forall before, acts, key, start, T | Within(before, acts, start, T)
        ensures Grants(p, End(p, map[], before, true), acts, key, true) as real <= p.burst + p.rate * T
      {
        if p.burst < 1.0 {
          EndOk(p, map[], before, true, 0.0, start);
          NothingGranted(p, End(p, map[], before, true), acts, key, start);
          NonNegative(p.rate, T);
        } else {
          RateBound(p, before, acts, key, true, start, T);
        }
      }
    } else {
      var acts, T := BoundExceeded(p, "");
      assert End(p, map[], [], true) == map[] by { NoActs(p); }
    }
  }

  lemma NoActs(p: Params)
    ensures End(p, map[], [], true) == map[]
  {
  }

  /** The configured limiter qualifies. */
  lemma GatewayCleanupUnobservable()
    ensures Unobservable(GATEWAY)
  {
    CleanupExact(GATEWAY);
    assert 100.0 * (600.0 * 2.0) >= 200.0;
  }
}
