/** The fixed-window limiter of services/auth/main.go and its cleanup; time is in seconds. */
module FixedWindow {

  datatype Request = Request(count: int, windowStart: real)

  type Requests = map<string, Request>

  datatype Params = Params(limit: int, window: real)

  datatype Act = AllowAct(ip: string, now: real) | SweepAct(now: real)

  predicate Current(p: Params, rs: Requests, ip: string, now: real) {
    ip in rs && now - rs[ip].windowStart <= p.window
  }

  predicate Granted(p: Params, rs: Requests, act: Act) {
    act.AllowAct? && (!Current(p, rs, act.ip, act.now) || rs[act.ip].count < p.limit)
  }

  function Next(p: Params, rs: Requests, act: Act, sweeping: bool): Requests {
    match act
    case AllowAct(ip, now) =>
      if !Current(p, rs, ip, now) then rs[ip := Request(1, now)]
      else if rs[ip].count >= p.limit then rs
      else rs[ip := Request(rs[ip].count + 1, rs[ip].windowStart)]
    case SweepAct(now) =>
      if sweeping then map ip | ip in rs && Current(p, rs, ip, now) :: rs[ip] else rs
  }

  class IPRateLimiter {
    const p: Params
    var requests: Requests

    constructor (limit: int, window: real)
      ensures p == Params(limit, window) && requests == map[]
    {
      p := Params(limit, window);
      requests := map[];
    }

    method Allow(ip: string, now: real) returns (ok: bool)
      modifies this
      ensures ok == Granted(p, old(requests), AllowAct(ip, now))
      ensures requests == Next(p, old(requests), AllowAct(ip, now), true)
    {
      if ip !in requests || now - requests[ip].windowStart > p.window {
        requests := requests[ip := Request(1, now)];
        return true;
      }
      var req := requests[ip];
      if req.count >= p.limit {
        return false;
      }
      requests := requests[ip := Request(req.count + 1, req.windowStart)];
      return true;
    }

    method Cleanup(now: real)
      modifies this
      ensures requests == Next(p, old(requests), SweepAct(now), true)
    {
      ghost var was := requests;
      var todo := requests.Keys;
      while todo != {}
        invariant todo <= was.Keys && todo <= requests.Keys
        invariant forall k :: k in requests <==> k in was && (k in todo || Current(p, was, k, now))
        invariant forall k :: k in requests ==> requests[k] == was[k]
        decreases |todo|
      {
        var k :| k in todo;
        if now - requests[k].windowStart > p.window {
          requests := requests - {k};
        }
        todo := todo - {k};
      }
    }
  }

  // ----- Runs -----

  function Answers(p: Params, rs: Requests, acts: seq<Act>, sweeping: bool): seq<bool>
    decreases |acts|
  {
    if acts == [] then []
    else [Granted(p, rs, acts[0])] + Answers(p, Next(p, rs, acts[0], sweeping), acts[1..], sweeping)
  }

  function End(p: Params, rs: Requests, acts: seq<Act>, sweeping: bool): Requests
    decreases |acts|
  {
    if acts == [] then rs else End(p, Next(p, rs, acts[0], sweeping), acts[1..], sweeping)
  }

  function Grants(p: Params, rs: Requests, acts: seq<Act>, ip: string, sweeping: bool): nat
    decreases |acts|
  {
    if acts == [] then 0
    else
      (if Granted(p, rs, acts[0]) && acts[0].ip == ip then 1 else 0)
      + Grants(p, Next(p, rs, acts[0], sweeping), acts[1..], ip, sweeping)
  }

  predicate Ordered(acts: seq<Act>, from: real)
    decreases |acts|
  {
    acts == [] || (from <= acts[0].now && Ordered(acts[1..], acts[0].now))
  }

  predicate Until(acts: seq<Act>, end: real) {
    forall i :: 0 <= i < |acts| ==> acts[i].now <= end
  }

  // ----- Cleanup cannot be observed -----

  /** Both limiters agree on which windows are current and on what those hold. */
  ghost predicate Same(p: Params, a: Requests, b: Requests, now: real) {
    forall ip :: Current(p, a, ip, now) == Current(p, b, ip, now) && (Current(p, a, ip, now) ==> a[ip] == b[ip])
  }

  lemma {:induction false} CleanupUnobservable(p: Params, a: Requests, b: Requests, acts: seq<Act>, now: real)
    requires Same(p, a, b, now) && Ordered(acts, now)
    ensures Answers(p, a, acts, true) == Answers(p, b, acts, false)
    decreases |acts|
  {
    if acts != [] {
      var act := acts[0];
      assert Same(p, a, b, act.now) by {
        forall ip ensures Current(p, a, ip, act.now) ==> Current(p, a, ip, now)
                  ensures Current(p, b, ip, act.now) ==> Current(p, b, ip, now) {
        }
      }
      assert Same(p, Next(p, a, act, true), Next(p, b, act, false), act.now);
      CleanupUnobservable(p, Next(p, a, act, true), Next(p, b, act, false), acts[1..], act.now);
    }
  }

  // ----- The bound -----

  /** Requests one window can grant: the first always, the others up to the limit. */
  function PerWindow(p: Params): nat {
    if p.limit >= 1 then p.limit else 1
  }

  ghost predicate Ok(p: Params, rs: Requests, now: real) {
    forall ip :: ip in rs ==> 1 <= rs[ip].count <= PerWindow(p) && rs[ip].windowStart <= now
  }

  lemma NextOk(p: Params, rs: Requests, act: Act, sweeping: bool, now: real)
    requires Ok(p, rs, now) && now <= act.now
    ensures Ok(p, Next(p, rs, act, sweeping), act.now)
  {
  }

  /** While the current window lasts, it grants what is left of its share. */
  lemma {:induction false} WithinWindow(p: Params, rs: Requests, acts: seq<Act>, ip: string, sweeping: bool,
                                        now: real, end: real)
    requires Ok(p, rs, now) && Ordered(acts, now) && Until(acts, end) && now <= end
    requires ip in rs && end - rs[ip].windowStart <= p.window
    ensures Grants(p, rs, acts, ip, sweeping) <= PerWindow(p) - rs[ip].count
    decreases |acts|
  {
    if acts != [] {
      NextOk(p, rs, acts[0], sweeping, now);
      WithinWindow(p, Next(p, rs, acts[0], sweeping), acts[1..], ip, sweeping, acts[0].now, end);
    }
  }

  /** Inside one interval of the window's length: the rest of the current window, then at most one new one. */
  lemma {:induction false} GrantsBound(p: Params, rs: Requests, acts: seq<Act>, ip: string, sweeping: bool,
                                       now: real, end: real)
    requires Ok(p, rs, now) && Ordered(acts, now) && Until(acts, end) && now <= end <= now + p.window
    ensures Grants(p, rs, acts, ip, sweeping)
         <= PerWindow(p) + if Current(p, rs, ip, now) then PerWindow(p) - rs[ip].count else 0
    decreases |acts|
  {
    if acts != [] {
      var act := acts[0];
      var rs' := Next(p, rs, act, sweeping);
      NextOk(p, rs, act, sweeping, now);
      if act.AllowAct? && act.ip == ip && !Current(p, rs, ip, act.now) {
        WithinWindow(p, rs', acts[1..], ip, sweeping, act.now, end);
      } else {
        GrantsBound(p, rs', acts[1..], ip, sweeping, act.now, end);
      }
    }
  }

  /** At a single instant there is no second window. */
  lemma {:induction false} InstantBound(p: Params, rs: Requests, acts: seq<Act>, ip: string, sweeping: bool, now: real)
    requires Ok(p, rs, now) && Ordered(acts, now) && Until(acts, now) && p.window >= 0.0
    ensures Grants(p, rs, acts, ip, sweeping) <= PerWindow(p)
    decreases |acts|
  {
    if Current(p, rs, ip, now) {
      WithinWindow(p, rs, acts, ip, sweeping, now, now);
    } else if acts != [] {
      var rs' := Next(p, rs, acts[0], sweeping);
      NextOk(p, rs, acts[0], sweeping, now);
      if acts[0].AllowAct? && acts[0].ip == ip {
        WithinWindow(p, rs', acts[1..], ip, sweeping, now, now);
      } else {
        InstantBound(p, rs', acts[1..], ip, sweeping, now);
      }
    }
  }

  /** The most that an interval of the window's length can grant. */
  function MaxGrants(p: Params): nat {
    if p.window == 0.0 then PerWindow(p) else 2 * PerWindow(p) - 1
  }

  lemma {:induction false} EndOk(p: Params, rs: Requests, acts: seq<Act>, sweeping: bool, now: real, end: real)
    requires Ok(p, rs, now) && Ordered(acts, now) && Until(acts, end) && now <= end
    ensures Ok(p, End(p, rs, acts, sweeping), end)
    decreases |acts|
  {
    if acts != [] {
      NextOk(p, rs, acts[0], sweeping, now);
      EndOk(p, Next(p, rs, acts[0], sweeping), acts[1..], sweeping, acts[0].now, end);
    }
  }

  /**
   After any run, a closed interval no longer than the window grants one IP at most 2 * max(limit, 1) - 1
   requests, one less than twice the limit; a window of no length grants max(limit, 1).
   */
  lemma WindowBound(p: Params, before: seq<Act>, acts: seq<Act>, ip: string, sweeping: bool, start: real, T: real)
    requires 0.0 <= start && 0.0 <= T <= p.window
    requires Ordered(before, 0.0) && Until(before, start) && Ordered(acts, start) && Until(acts, start + T)
    ensures Grants(p, End(p, map[], before, sweeping), acts, ip, sweeping) <= MaxGrants(p)
  {
    EndOk(p, map[], before, sweeping, 0.0, start);
    GrantsBound(p, End(p, map[], before, sweeping), acts, ip, sweeping, start, start + T);
    if T == 0.0 {
      InstantBound(p, End(p, map[], before, sweeping), acts, ip, sweeping, start);
    }
  }

  // ----- What a refusal means -----

  lemma {:induction false} EndSnoc(p: Params, rs: Requests, acts: seq<Act>, act: Act, sweeping: bool)
    ensures End(p, rs, acts + [act], sweeping) == Next(p, End(p, rs, acts, sweeping), act, sweeping)
    decreases |acts|
  {
    hide Next;
    if acts == [] {
      assert [] + [act] == [act] && [act][1..] == [];
    } else {
      assert (acts + [act])[1..] == acts[1..] + [act];
      EndSnoc(p, Next(p, rs, acts[0], sweeping), acts[1..], act, sweeping);
    }
  }

  lemma {:induction false} GrantsSnoc(p: Params, rs: Requests, acts: seq<Act>, act: Act, ip: string, sweeping: bool)
    ensures Grants(p, rs, acts + [act], ip, sweeping)
         == Grants(p, rs, acts, ip, sweeping)
            + if Granted(p, End(p, rs, acts, sweeping), act) && act.ip == ip then 1 else 0
    decreases |acts|
  {
    hide Next, Granted;
    if acts == [] {
      assert [] + [act] == [act] && [act][1..] == [];
    } else {
      assert (acts + [act])[1..] == acts[1..] + [act];
      GrantsSnoc(p, Next(p, rs, acts[0], sweeping), acts[1..], act, ip, sweeping);
    }
  }

  /** Step b of the run is a granted request of the IP at the given time, and n were granted from it on. */
  ghost predicate OpenedAt(p: Params, acts: seq<Act>, ip: string, sweeping: bool, b: nat, start: real, n: int) {
    && b < |acts| && acts[b] == AllowAct(ip, start) && Granted(p, End(p, map[], acts[..b], sweeping), acts[b])
    && Grants(p, End(p, map[], acts[..b], sweeping), acts[b..], ip, sweeping) == n
  }

  lemma OpenedLonger(p: Params, acts: seq<Act>, act: Act, ip: string, sweeping: bool, b: nat, start: real, n: int)
    requires OpenedAt(p, acts, ip, sweeping, b, start, n)
    ensures OpenedAt(p, acts + [act], ip, sweeping, b, start,
                     n + if Granted(p, End(p, map[], acts, sweeping), act) && act.ip == ip then 1 else 0)
  {
    hide Next, Granted, Grants;
    var longer := acts + [act];
    assert longer[..b] == acts[..b] && longer[b] == acts[b] && longer[b..] == acts[b..] + [act];
    assert acts[..b] + acts[b..] == acts;
    EndAppend(p, map[], acts[..b], acts[b..], sweeping);
    GrantsSnoc(p, End(p, map[], acts[..b], sweeping), acts[b..], act, ip, sweeping);
  }

  lemma {:induction false} EndAppend(p: Params, rs: Requests, x: seq<Act>, y: seq<Act>, sweeping: bool)
    ensures End(p, rs, x + y, sweeping) == End(p, End(p, rs, x, sweeping), y, sweeping)
    decreases |x|
  {
    hide Next;
    if x == [] {
      assert x + y == y;
    } else {
      assert (x + y)[1..] == x[1..] + y;
      EndAppend(p, Next(p, rs, x[0], sweeping), x[1..], y, sweeping);
    }
  }

  /** In every run a window was opened by a granted request, and its count is the number granted since. */
  lemma {:induction false} EntryMeaning(p: Params, acts: seq<Act>, ip: string, sweeping: bool) returns (b: nat)
    requires ip in End(p, map[], acts, sweeping)
    ensures var r := End(p, map[], acts, sweeping)[ip];
            OpenedAt(p, acts, ip, sweeping, b, r.windowStart, r.count)
    decreases |acts|
  {
    var n := |acts| - 1;
    var before, act := acts[..n], acts[n];
    assert acts == before + [act];
    var rs := End(p, map[], before, sweeping);
    EndSnoc(p, map[], before, act, sweeping);
    hide End;
    if act.AllowAct? && act.ip == ip && !Current(p, rs, ip, act.now) {
      b := n;
      assert acts[n..] == [act];
      OneGrant(p, rs, act, sweeping);
    } else {
      b := EntryMeaning(p, before, ip, sweeping);
      OpenedLonger(p, before, act, ip, sweeping, b, rs[ip].windowStart, rs[ip].count);
      hide OpenedAt, Grants;
    }
  }

  lemma OneGrant(p: Params, rs: Requests, act: Act, sweeping: bool)
    requires act.AllowAct? && Granted(p, rs, act)
    ensures Grants(p, rs, [act], act.ip, sweeping) == 1
  {
    assert [act][1..] == [];
  }

  /**
   A request is refused only if an earlier request of the same IP, at most a window before, was granted and at least
   the limit has been granted since; what was refused in between does not matter. So a request more than a window
   after every granted one is granted.
   */
  lemma RefusedMeans(p: Params, acts: seq<Act>, ip: string, now: real, sweeping: bool) returns (b: nat)
    requires !Granted(p, End(p, map[], acts, sweeping), AllowAct(ip, now))
    ensures exists start, n :: OpenedAt(p, acts, ip, sweeping, b, start, n) && now - start <= p.window && n >= p.limit
  {
    b := EntryMeaning(p, acts, ip, sweeping);
    hide OpenedAt;
  }

  // ----- The bound is reached -----

  function Asks(ip: string, now: real, n: nat): seq<Act> {
    if n == 0 then [] else [AllowAct(ip, now)] + Asks(ip, now, n - 1)
  }

  lemma {:induction false} AsksGranted(p: Params, rs: Requests, ip: string, now: real, n: nat, more: seq<Act>)
    requires Current(p, rs, ip, now) && rs[ip].count + n <= p.limit
    ensures var rs' := rs[ip := Request(rs[ip].count + n, rs[ip].windowStart)];
            Grants(p, rs, Asks(ip, now, n) + more, ip, true) == n + Grants(p, rs', more, ip, true)
    decreases n
  {
    if n == 0 {
      assert Asks(ip, now, 0) + more == more;
      assert rs[ip := Request(rs[ip].count, rs[ip].windowStart)] == rs;
    } else {
      var rs1 := rs[ip := Request(rs[ip].count + 1, rs[ip].windowStart)];
      FirstAsk(p, rs, ip, now, n, more);
      hide Grants, Asks;
      AsksGranted(p, rs1, ip, now, n - 1, more);
      assert rs1[ip := Request(rs1[ip].count + (n - 1), rs1[ip].windowStart)]
          == rs[ip := Request(rs[ip].count + n, rs[ip].windowStart)];
    }
  }

  lemma FirstAsk(p: Params, rs: Requests, ip: string, now: real, n: nat, more: seq<Act>)
    requires n > 0 && Current(p, rs, ip, now) && rs[ip].count < p.limit
    ensures var rs1 := rs[ip := Request(rs[ip].count + 1, rs[ip].windowStart)];
            Grants(p, rs, Asks(ip, now, n) + more, ip, true)
            == 1 + Grants(p, rs1, Asks(ip, now, n - 1) + more, ip, true)
  {
    var acts := Asks(ip, now, n) + more;
    assert acts[0] == AllowAct(ip, now) && acts[1..] == Asks(ip, now, n - 1) + more;
  }

  lemma {:induction false} AsksOrdered(ip: string, now: real, n: nat, more: seq<Act>, end: real)
    requires Ordered(more, now) && Until(more, end) && now <= end
    ensures Ordered(Asks(ip, now, n) + more, now) && Until(Asks(ip, now, n) + more, end)
    decreases n
  {
    if n == 0 {
      assert Asks(ip, now, 0) + more == more;
    } else {
      AsksOrdered(ip, now, n - 1, more, end);
      assert Asks(ip, now, n) + more == [AllowAct(ip, now)] + (Asks(ip, now, n - 1) + more);
      assert ([AllowAct(ip, now)] + (Asks(ip, now, n - 1) + more))[1..] == Asks(ip, now, n - 1) + more;
    }
  }

  /** A window begun early, used up at its last moment, and the next one used up right after it. */
  lemma TwoWindowsUsedUp(p: Params, ip: string) returns (before: seq<Act>, acts: seq<Act>, start: real)
    requires p.limit >= 1 && p.window > 0.0
    ensures 0.0 <= start && Ordered(before, 0.0) && Until(before, start)
    ensures Ordered(acts, start) && Until(acts, start + p.window)
    ensures Grants(p, End(p, map[], before, true), acts, ip, true) == 2 * PerWindow(p) - 1
  {
    var w, n := p.window, p.limit - 1;
    start := w;
    before := [AllowAct(ip, 0.0)];
    var rs := OpenWindow(p, ip);
    hide Next, Grants, Asks, End;
    var late := Asks(ip, 2.0 * w, p.limit);
    acts := Asks(ip, w, n) + late;
    AsksGranted(p, rs, ip, w, n, late);
    var full := rs[ip := Request(p.limit, 0.0)];
    NewWindow(p, full, ip, 2.0 * w);
    AsksOrdered(ip, 2.0 * w, p.limit, [], 2.0 * w);
    assert late + [] == late;
    OrderedEarlier(late, 2.0 * w, w);
    AsksOrdered(ip, w, n, late, 2.0 * w);
  }

  lemma OpenWindow(p: Params, ip: string) returns (rs: Requests)
    requires p.window > 0.0
    ensures rs == map[ip := Request(1, 0.0)] && End(p, map[], [AllowAct(ip, 0.0)], true) == rs
  {
    rs := map[ip := Request(1, 0.0)];
    var acts := [AllowAct(ip, 0.0)];
    assert acts[1..] == [] && Next(p, map[], acts[0], true) == rs;
  }

  /** Requests after a window has expired open the next one and use it up. */
  lemma NewWindow(p: Params, rs: Requests, ip: string, now: real)
    requires p.limit >= 1 && p.window > 0.0 && ip in rs && now - rs[ip].windowStart > p.window
    ensures Grants(p, rs, Asks(ip, now, p.limit), ip, true) == p.limit
  {
    var acts, n := Asks(ip, now, p.limit), p.limit - 1;
    assert acts[0] == AllowAct(ip, now) && acts[1..] == Asks(ip, now, n);
    var renewed := Next(p, rs, acts[0], true);
    assert renewed[ip] == Request(1, now) && Granted(p, rs, acts[0]);
    assert Grants(p, rs, acts, ip, true) == 1 + Grants(p, renewed, Asks(ip, now, n), ip, true);
    hide Next, Grants, Asks;
    AsksGranted(p, renewed, ip, now, n, []);
    assert Asks(ip, now, n) + [] == Asks(ip, now, n);
    NoActs(p, renewed[ip := Request(p.limit, now)], ip);
  }

  lemma NoActs(p: Params, rs: Requests, ip: string)
    ensures Grants(p, rs, [], ip, true) == 0
  {
  }

  /** One window used up at once. */
  lemma OneWindowUsedUp(p: Params, ip: string) returns (acts: seq<Act>)
    requires p.window >= 0.0
    ensures Ordered(acts, 0.0) && Until(acts, 0.0) && Grants(p, map[], acts, ip, true) == PerWindow(p)
  {
    var n := PerWindow(p) - 1;
    acts := Asks(ip, 0.0, n + 1);
    var rs := Next(p, map[], AllowAct(ip, 0.0), true);
    assert acts[0] == AllowAct(ip, 0.0) && acts[1..] == Asks(ip, 0.0, n) && rs == map[ip := Request(1, 0.0)];
    assert Asks(ip, 0.0, n) + [] == Asks(ip, 0.0, n) && acts + [] == acts;
    if n > 0 {
      AsksGranted(p, rs, ip, 0.0, n, []);
    }
    AsksOrdered(ip, 0.0, n + 1, [], 0.0);
  }

  /** For every limit and every window the bound is attained. */
  lemma BoundReached(p: Params, ip: string) returns (before: seq<Act>, acts: seq<Act>, start: real)
    requires p.window >= 0.0
    ensures 0.0 <= start && Ordered(before, 0.0) && Until(before, start)
    ensures Ordered(acts, start) && Until(acts, start + p.window)
    ensures Grants(p, End(p, map[], before, true), acts, ip, true) == MaxGrants(p)
  {
    if p.limit >= 1 && p.window > 0.0 {
      before, acts, start := TwoWindowsUsedUp(p, ip);
    } else {
      before, start := [], 0.0;
      acts := OneWindowUsedUp(p, ip);
    }
  }

  lemma OrderedEarlier(acts: seq<Act>, from: real, earlier: real)
    requires Ordered(acts, from) && earlier <= from
    ensures Ordered(acts, earlier)
  {
  }
}
