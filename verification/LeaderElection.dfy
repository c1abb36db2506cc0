/**
 Leader election over a key with a time to live (pkg/common/leaderelection.go). Calls to the store and the local
 updates that follow them are separate atomic steps, so steps of different nodes interleave freely. A store call
 may fail without effect, or take effect and still report an error.
 */
module LeaderElection {

  datatype Option<T> = None | Some(value: T)

  datatype Entry = Entry(owner: string, written: int)

  datatype Fault = Fine | Lost | Failed

  /** Where a node is between a store call and the local update that follows it. */
  datatype Phase = Idle | Won | Refused | Saw(owner: string) | PutFailed | Releasing

  /** lastWrite is the time of the last write whose success the node has seen. */
  datatype Local = Local(isLeader: bool, leaderID: string, phase: Phase, lastWrite: int)

  type Key = Option<Entry>

  predicate Live(key: Key, now: int, ttl: int) {
    key.Some? && now < key.value.written + ttl
  }

  // ----- The atomic steps of one node -----

  /** elect: kv.Create. */
  function Create(key: Key, l: Local, id: string, now: int, ttl: int, f: Fault): (Key, Local) {
    if Live(key, now, ttl) || f.Failed? then (key, l.(phase := Refused))
    else if f.Lost? then (Some(Entry(id, now)), l.(phase := Refused))
    else (Some(Entry(id, now)), l.(phase := Won, lastWrite := now))
  }

  /** elect: kv.Get after a refused Create. */
  function Get(key: Key, l: Local, now: int, ttl: int, f: Fault): Local {
    if Live(key, now, ttl) && f.Fine? then l.(phase := Saw(key.value.owner)) else l.(phase := Idle)
  }

  /** renew: kv.Put, which does not look at what the key holds. */
  function Put(key: Key, l: Local, id: string, now: int, f: Fault): (Key, Local) {
    match f
    case Fine => (Some(Entry(id, now)), l.(lastWrite := now))
    case Lost => (Some(Entry(id, now)), l.(phase := PutFailed))
    case Failed => (key, l.(phase := PutFailed))
  }

  /** release: kv.Delete, with the node's mutex held until Finish. */
  function Delete(key: Key, l: Local, f: Fault): (Key, Local) {
    (if f.Failed? then key else None, l.(phase := Releasing))
  }

  /** The local update that ends elect, renew or release. */
  function Finish(l: Local, id: string): Local {
    match l.phase
    case Won => l.(isLeader := true, leaderID := id, phase := Idle)
    case Saw(owner) => l.(isLeader := false, leaderID := owner, phase := Idle)
    case PutFailed => l.(isLeader := false, phase := Idle)
    case Releasing => l.(isLeader := false, phase := Idle)
    case _ => l
  }

  // ----- The system -----

  datatype System = System(now: int, key: Key, nodes: map<string, Local>)

  datatype Act =
    | CreateAct(id: string, f: Fault)
    | GetAct(id: string, f: Fault)
    | PutAct(id: string, f: Fault)
    | DeleteAct(id: string, f: Fault)
    | FinishAct(id: string)
    | Advance(d: nat)

  /** The tick choice of Start: a leader renews or releases, any other node elects. */
  predicate Enabled(s: System, act: Act) {
    act.Advance? || (
      act.id in s.nodes && (
        var l := s.nodes[act.id];
        match act
        case CreateAct(_, _) => l.phase.Idle? && !l.isLeader
        case GetAct(_, _) => l.phase.Refused?
        case PutAct(_, _) => l.phase.Idle? && l.isLeader
        case DeleteAct(_, _) => l.phase.Idle? && l.isLeader
        case FinishAct(_) => !l.phase.Idle? && !l.phase.Refused?))
  }

  function Next(s: System, act: Act, ttl: int): System
    requires Enabled(s, act)
  {
    match act
    case CreateAct(id, f) =>
      var (key, l) := Create(s.key, s.nodes[id], id, s.now, ttl, f);
      System(s.now, key, s.nodes[id := l])
    case GetAct(id, f) => s.(nodes := s.nodes[id := Get(s.key, s.nodes[id], s.now, ttl, f)])
    case PutAct(id, f) => var (key, l) := Put(s.key, s.nodes[id], id, s.now, f); System(s.now, key, s.nodes[id := l])
    case DeleteAct(id, f) => var (key, l) := Delete(s.key, s.nodes[id], f); System(s.now, key, s.nodes[id := l])
    case FinishAct(id) => s.(nodes := s.nodes[id := Finish(s.nodes[id], id)])
    case Advance(d) => s.(now := s.now + d)
  }

  /** What IsLeader can answer: while release holds the mutex the question has to wait. */
  predicate ObservedLeader(s: System, id: string) {
    id in s.nodes && s.nodes[id].isLeader && !s.nodes[id].phase.Releasing?
  }

  /** Leaders, and winners of Create that do not know it yet. */
  predicate Holds(s: System, id: string) {
    ObservedLeader(s, id) || (id in s.nodes && s.nodes[id].phase.Won?)
  }

  /** The timing assumption: no holder lets the TTL pass after its last successful write. */
  ghost predicate Timely(s: System, act: Act, ttl: int) {
    act.Advance? ==> forall id :: Holds(s, id) ==> s.now + act.d < s.nodes[id].lastWrite + ttl
  }

  ghost predicate Runs(s: System, acts: seq<Act>, ttl: int)
    decreases |acts|
  {
    acts == [] || (Enabled(s, acts[0]) && Runs(Next(s, acts[0], ttl), acts[1..], ttl))
  }

  ghost predicate TimelyRun(s: System, acts: seq<Act>, ttl: int)
    requires Runs(s, acts, ttl)
    decreases |acts|
  {
    acts == [] || (Timely(s, acts[0], ttl) && TimelyRun(Next(s, acts[0], ttl), acts[1..], ttl))
  }

  function Final(s: System, acts: seq<Act>, ttl: int): System
    requires Runs(s, acts, ttl)
    decreases |acts|
  {
    if acts == [] then s else Final(Next(s, acts[0], ttl), acts[1..], ttl)
  }

  /** Nobody leads yet; the key may hold anything written before. */
  ghost predicate Initial(s: System) {
    && (s.key.Some? ==> s.key.value.written <= s.now)
    && forall id :: id in s.nodes ==> !s.nodes[id].isLeader && s.nodes[id].phase.Idle?
  }

  // ----- Safety -----

  ghost predicate Safe(s: System, ttl: int) {
    && (s.key.Some? ==> s.key.value.written <= s.now)
    && (forall id :: Holds(s, id) ==>
          Live(s.key, s.now, ttl) && s.key.value.owner == id
          && s.nodes[id].lastWrite <= s.key.value.written && s.now < s.nodes[id].lastWrite + ttl)
    && (forall id :: id in s.nodes ==> PhaseFits(s.nodes[id], id))
  }

  ghost predicate PhaseFits(l: Local, id: string) {
    && (l.phase.Won? || l.phase.Refused? || l.phase.Saw? ==> !l.isLeader)
    && (l.phase.PutFailed? || l.phase.Releasing? ==> l.isLeader)
    && (l.isLeader ==> l.leaderID == id)
  }

  lemma StepSafe(s: System, act: Act, ttl: int)
    requires ttl > 0 && Safe(s, ttl) && Enabled(s, act) && Timely(s, act, ttl)
    ensures Safe(Next(s, act, ttl), ttl)
  {
    var s' := Next(s, act, ttl);
    if act.PutAct? || act.DeleteAct? {
      assert Holds(s, act.id);
    }
    forall id | Holds(s', id)
      ensures Live(s'.key, s'.now, ttl) && s'.key.value.owner == id
      ensures s'.nodes[id].lastWrite <= s'.key.value.written && s'.now < s'.nodes[id].lastWrite + ttl
    {
      if act.Advance? || !act.CreateAct? || act.id != id {
        assert Holds(s, id);
      }
    }
  }

  lemma {:induction false} RunSafe(s: System, acts: seq<Act>, ttl: int)
    requires ttl > 0 && Safe(s, ttl) && Runs(s, acts, ttl) && TimelyRun(s, acts, ttl)
    ensures Safe(Final(s, acts, ttl), ttl)
    decreases |acts|
  {
    if acts != [] {
      StepSafe(s, acts[0], ttl);
      RunSafe(Next(s, acts[0], ttl), acts[1..], ttl);
    }
  }

  /**
   In every timely run there is at most one leader; the key is live and holds its ID, and it knows itself as the
   leader.
   */
  lemma AtMostOneLeader(s: System, acts: seq<Act>, ttl: int)
    requires ttl > 0 && Initial(s) && Runs(s, acts, ttl) && TimelyRun(s, acts, ttl)
    ensures var e := Final(s, acts, ttl);
            && (forall id :: ObservedLeader(e, id) ==>
                  Live(e.key, e.now, ttl) && e.key.value.owner == id && e.nodes[id].leaderID == id)
            && (forall id, id' :: ObservedLeader(e, id) && ObservedLeader(e, id') ==> id == id')
  {
    RunSafe(s, acts, ttl);
    var e := Final(s, acts, ttl);
    assert forall id :: ObservedLeader(e, id) ==> Holds(e, id);
  }

  // ----- Safety from the renewal attempts alone -----

  /**
   What a node owes, read off the calls alone: the time of its last successful write, until the node has finished a
   renewal that failed or has begun to release the key. failing holds the nodes in between.
   */
  datatype Duties = Duties(since: map<string, int>, failing: set<string>)

  function Owes(o: Duties, s: System, act: Act, ttl: int): Duties {
    match act
    case CreateAct(id, f) =>
      if f.Fine? && (s.key.None? || s.now >= s.key.value.written + ttl) then o.(since := o.since[id := s.now]) else o
    case PutAct(id, f) => if f.Fine? then o.(since := o.since[id := s.now]) else o.(failing := o.failing + {id})
    case DeleteAct(id, _) => o.(since := o.since - {id})
    case FinishAct(id) => if id in o.failing then Duties(o.since - {id}, o.failing - {id}) else o
    case _ => o
  }

  /** Time passes freely, except past the TTL of a node that has not finished a renewal since its last write. */
  ghost predicate Prompt(s: System, acts: seq<Act>, ttl: int, o: Duties)
    requires Runs(s, acts, ttl)
    decreases |acts|
  {
    acts == [] || (
      && (acts[0].Advance? ==> forall id :: id in o.since ==> s.now + acts[0].d < o.since[id] + ttl)
      && Prompt(Next(s, acts[0], ttl), acts[1..], ttl, Owes(o, s, acts[0], ttl)))
  }

  /** Whoever holds the leadership owes a renewal since its last write, so prompt runs are timely. */
  ghost predicate Owing(s: System, o: Duties) {
    && (forall id :: Holds(s, id) ==> id in o.since && o.since[id] == s.nodes[id].lastWrite)
    && (forall id :: id in s.nodes ==> (id in o.failing <==> s.nodes[id].phase.PutFailed?))
    && (forall id :: id in s.nodes ==> PhaseFits(s.nodes[id], id))
  }

  lemma OwingStep(s: System, act: Act, ttl: int, o: Duties)
    requires Owing(s, o) && Enabled(s, act)
    ensures Owing(Next(s, act, ttl), Owes(o, s, act, ttl))
  {
    var s', o' := Next(s, act, ttl), Owes(o, s, act, ttl);
    forall id | Holds(s', id) ensures id in o'.since && o'.since[id] == s'.nodes[id].lastWrite {
      if act.Advance? || !act.CreateAct? || act.id != id {
        assert Holds(s, id);
      }
    }
  }

  lemma {:induction false} PromptIsTimely(s: System, acts: seq<Act>, ttl: int, o: Duties)
    requires Owing(s, o) && Runs(s, acts, ttl) && Prompt(s, acts, ttl, o)
    ensures TimelyRun(s, acts, ttl)
    decreases |acts|
  {
    hide Next, Enabled, PhaseFits, Owes;
    if acts != [] {
      OwingStep(s, acts[0], ttl, o);
      PromptIsTimely(Next(s, acts[0], ttl), acts[1..], ttl, Owes(o, s, acts[0], ttl));
    }
  }

  /**
   Safety under an assumption on the calls alone: if every node that has written the key finishes a renewal attempt,
   successful or not, or begins to release before the TTL of its last successful write has passed, then there is at
   most one leader. A node whose attempt failed may do nothing more for any time.
   */
  lemma AttemptsSuffice(s: System, acts: seq<Act>, ttl: int)
    requires ttl > 0 && Initial(s) && Runs(s, acts, ttl) && Prompt(s, acts, ttl, Duties(map[], {}))
    ensures var e := Final(s, acts, ttl);
            && (forall id :: ObservedLeader(e, id) ==>
                  Live(e.key, e.now, ttl) && e.key.value.owner == id && e.nodes[id].leaderID == id)
            && (forall id, id' :: ObservedLeader(e, id) && ObservedLeader(e, id') ==> id == id')
  {
    PromptIsTimely(s, acts, ttl, Duties(map[], {}));
    AtMostOneLeader(s, acts, ttl);
  }

  /** A node that finds the key live learns who holds it, and does not lead. */
  lemma LoserFollows(s: System, ttl: int, b: string) returns (acts: seq<Act>)
    requires b in s.nodes && !s.nodes[b].isLeader && s.nodes[b].phase.Idle? && Live(s.key, s.now, ttl)
    ensures acts == [CreateAct(b, Fine), GetAct(b, Fine), FinishAct(b), Advance(0)] && Runs(s, acts, ttl)
    ensures var e := Final(s, acts, ttl);
            && e.key == s.key && b in e.nodes
            && e.nodes[b] == s.nodes[b].(isLeader := false, leaderID := s.key.value.owner)
  {
    acts := [CreateAct(b, Fine), GetAct(b, Fine), FinishAct(b), Advance(0)];
    RunsFour(s, acts[0], acts[1], acts[2], acts[3], ttl);
  }

  /** A leader that releases the key hands it over: the next node to ask is elected at once. */
  lemma ReleaseHandsOver(s: System, ttl: int, a: string, b: string) returns (acts: seq<Act>)
    requires ttl > 0 && ObservedLeader(s, a) && s.nodes[a].phase.Idle?
    requires b in s.nodes && a != b && !s.nodes[b].isLeader && s.nodes[b].phase.Idle?
    ensures acts == [DeleteAct(a, Fine), FinishAct(a), CreateAct(b, Fine), FinishAct(b)] && Runs(s, acts, ttl)
    ensures var e := Final(s, acts, ttl);
            !ObservedLeader(e, a) && ObservedLeader(e, b) && e.nodes[b].leaderID == b && e.key == Some(Entry(b, s.now))
  {
    acts := [DeleteAct(a, Fine), FinishAct(a), CreateAct(b, Fine), FinishAct(b)];
    RunsFour(s, acts[0], acts[1], acts[2], acts[3], ttl);
  }

  // ----- The timing assumption is needed -----

  /**
   Whenever a leader lets its key expire while another node is waiting, two more steps of that node make two
   leaders; and the first leader's next renewal takes the key from the second without either of them noticing.
   */
  lemma ExpiryBreaksSafety(s: System, ttl: int, a: string, b: string, d: nat) returns (acts: seq<Act>)
    requires ttl > 0 && ObservedLeader(s, a) && s.nodes[a].phase.Idle? && s.key.Some?
    requires b in s.nodes && a != b && !s.nodes[b].isLeader && s.nodes[b].phase.Idle?
    requires s.now + d >= s.key.value.written + ttl
    ensures acts == [Advance(d), CreateAct(b, Fine), FinishAct(b), PutAct(a, Fine)]
    ensures Runs(s, acts, ttl) && Runs(s, acts[..3], ttl)
    ensures var e := Final(s, acts[..3], ttl);
            ObservedLeader(e, a) && ObservedLeader(e, b) && e.key == Some(Entry(b, s.now + d))
    ensures var e := Final(s, acts, ttl);
            ObservedLeader(e, a) && ObservedLeader(e, b) && e.key == Some(Entry(a, s.now + d))
  {
    var x1, x2, x3, x4 := Advance(d), CreateAct(b, Fine), FinishAct(b), PutAct(a, Fine);
    acts := [x1, x2, x3, x4];
    var s1 := Next(s, x1, ttl);
    var s2 := Next(s1, x2, ttl);
    var s3 := Next(s2, x3, ttl);
    var s4 := Next(s3, x4, ttl);
    RunsFour(s, x1, x2, x3, x4, ttl);
    assert acts[..3] == [x1, x2, x3];
  }

  lemma RunsFour(s: System, x1: Act, x2: Act, x3: Act, x4: Act, ttl: int)
    requires Enabled(s, x1)
    requires Enabled(Next(s, x1, ttl), x2)
    requires Enabled(Next(Next(s, x1, ttl), x2, ttl), x3)
    requires Enabled(Next(Next(Next(s, x1, ttl), x2, ttl), x3, ttl), x4)
    ensures Runs(s, [x1, x2, x3, x4], ttl) && Runs(s, [x1, x2, x3], ttl)
    ensures Final(s, [x1, x2, x3], ttl) == Next(Next(Next(s, x1, ttl), x2, ttl), x3, ttl)
    ensures Final(s, [x1, x2, x3, x4], ttl) == Next(Next(Next(Next(s, x1, ttl), x2, ttl), x3, ttl), x4, ttl)
  {
    hide Next, Enabled;
    assert [x1, x2, x3, x4][1..] == [x2, x3, x4] && [x2, x3, x4][1..] == [x3, x4];
    assert [x3, x4][1..] == [x4] && [x4][1..] == [];
    assert [x1, x2, x3][1..] == [x2, x3] && [x2, x3][1..] == [x3] && [x3][1..] == [];
    var s1 := Next(s, x1, ttl);
    var s2 := Next(s1, x2, ttl);
    var s3 := Next(s2, x3, ttl);
    var s4 := Next(s3, x4, ttl);
    assert Runs(s4, [], ttl) && Final(s4, [], ttl) == s4 && Runs(s3, [], ttl) && Final(s3, [], ttl) == s3;
    assert Runs(s3, [x4], ttl) && Final(s3, [x4], ttl) == s4;
    assert Runs(s2, [x3, x4], ttl) && Final(s2, [x3, x4], ttl) == s4;
    assert Runs(s2, [x3], ttl) && Final(s2, [x3], ttl) == s3;
    assert Runs(s1, [x2, x3, x4], ttl) && Final(s1, [x2, x3, x4], ttl) == s4;
    assert Runs(s1, [x2, x3], ttl) && Final(s1, [x2, x3], ttl) == s3;
  }

  /** Such a state is reached from the start: one node is elected and then stalls for the TTL. */
  lemma TwoLeadersReachable(ttl: int) returns (s: System, acts: seq<Act>)
    requires ttl > 0
    ensures Initial(s) && Runs(s, acts, ttl)
    ensures ObservedLeader(Final(s, acts, ttl), "a") && ObservedLeader(Final(s, acts, ttl), "b")
  {
    var idle := Local(false, "", Idle, 0);
    s := System(0, None, map["a" := idle, "b" := idle]);
    assert "a"[0] != "b"[0];
    var s1 := Next(s, CreateAct("a", Fine), ttl);
    var s2 := Next(s1, FinishAct("a"), ttl);
    var more := ExpiryBreaksSafety(s2, ttl, "a", "b", ttl);
    acts := [CreateAct("a", Fine), FinishAct("a")] + more;
    hide Next, Enabled;
    assert acts[1..] == [FinishAct("a")] + more && acts[1..][1..] == more;
    assert Runs(s1, acts[1..], ttl) && Final(s1, acts[1..], ttl) == Final(s2, more, ttl);
  }

  // ----- The objects -----

  class KeyValue {
    var entry: Key
    constructor () ensures entry == None { entry := None; }
  }

  class LeaderElection {
    const nodeID: string
    const ttl: int
    const kv: KeyValue
    var isLeader: bool
    var leaderID: string
    ghost var lastWrite: int

    ghost function View(): Local
      reads this
    {
      Local(isLeader, leaderID, Idle, lastWrite)
    }

    constructor (kv: KeyValue, nodeID: string, ttl: int)
      ensures this.kv == kv && this.nodeID == nodeID && this.ttl == ttl && !isLeader && leaderID == ""
    {
      this.kv, this.nodeID, this.ttl := kv, nodeID, ttl;
      isLeader, leaderID, lastWrite := false, "", 0;
    }

    /** elect run without interference is its store steps followed by the local update. */
    method Elect(now: int, create: Fault, get: Fault)
      modifies this, kv
      ensures var (key, l) := Create(old(kv.entry), old(View()), nodeID, now, ttl, create);
              kv.entry == key
              && View() == if l.phase.Won? then Finish(l, nodeID) else Finish(Get(key, l, now, ttl, get), nodeID)
      ensures var won := !old(Live(kv.entry, now, ttl)) && create.Fine?;
              var sees := !won && Live(kv.entry, now, ttl) && get.Fine?;
              && (isLeader <==> won || (!sees && old(isLeader)))
              && leaderID == (if won then nodeID else if sees then kv.entry.value.owner else old(leaderID))
              && kv.entry == (if old(Live(kv.entry, now, ttl)) || create.Failed? then old(kv.entry)
                              else Some(Entry(nodeID, now)))
    {
      var live := Live(kv.entry, now, ttl);
      if !live && !create.Failed? {
        kv.entry := Some(Entry(nodeID, now));
      }
      if live || !create.Fine? {
        if !Live(kv.entry, now, ttl) || !get.Fine? {
          return;
        }
        isLeader, leaderID := false, kv.entry.value.owner;
        return;
      }
      lastWrite := now;
      isLeader, leaderID := true, nodeID;
    }

    method Renew(now: int, put: Fault)
      modifies this, kv
      ensures var (key, l) := Put(old(kv.entry), old(View()), nodeID, now, put);
              kv.entry == key && View() == Finish(l, nodeID)
      ensures isLeader == (old(isLeader) && put.Fine?) && leaderID == old(leaderID)
      ensures kv.entry == if put.Failed? then old(kv.entry) else Some(Entry(nodeID, now))
    {
      if !put.Failed? {
        kv.entry := Some(Entry(nodeID, now));
      }
      if !put.Fine? {
        isLeader := false;
      } else {
        lastWrite := now;
      }
    }

    /** The tick of Start: a leader renews, any other node elects. */
    method Tick(now: int, create: Fault, get: Fault, put: Fault)
      modifies this, kv
      ensures old(isLeader) ==>
                var (key, l) := Put(old(kv.entry), old(View()), nodeID, now, put);
                kv.entry == key && View() == Finish(l, nodeID) && isLeader == put.Fine?
      ensures !old(isLeader) ==>
                var (key, l) := Create(old(kv.entry), old(View()), nodeID, now, ttl, create);
                kv.entry == key
                && View() == if l.phase.Won? then Finish(l, nodeID) else Finish(Get(key, l, now, ttl, get), nodeID)
    {
      if isLeader {
        Renew(now, put);
      } else {
        Elect(now, create, get);
      }
    }

    method Release(delete: Fault)
      modifies this, kv
      ensures !old(isLeader) ==> kv.entry == old(kv.entry) && View() == old(View())
      ensures old(isLeader) ==>
                var (key, l) := Delete(old(kv.entry), old(View()), delete);
                kv.entry == key && View() == Finish(l, nodeID)
      ensures !isLeader && leaderID == old(leaderID)
      ensures old(isLeader) && !delete.Failed? ==> kv.entry == None
    {
      if isLeader {
        if !delete.Failed? {
          kv.entry := None;
        }
        isLeader := false;
      }
    }
  }
}
