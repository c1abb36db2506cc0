/**
 The AI model lifecycle of services/model-registry/main.go. Rows are never deleted, so a row's position serves as
 its fresh ID; each handler is one atomic step on the table.
 */
module ModelRegistry {

  datatype Status = Inactive | Active | Canary | Archived

  datatype Row = Row(name: string, version: int, status: Status, canaryPercent: int)

  datatype Response = Done | BadRequest | NotFound | Conflict

  type Table = seq<Row>

  // ----- The SQL statements -----

  /** SELECT COALESCE(MAX(version), 0) ... WHERE name = $1 */
  function MaxVersion(rows: Table, name: string): int {
    if rows == [] then 0
    else
      var n := |rows| - 1;
      var m := MaxVersion(rows[..n], name);
      if rows[n].name == name && rows[n].version > m then rows[n].version else m
  }

  /** UPDATE ... SET status = 'inactive' WHERE name = $1 AND status = 'active' */
  function Deactivate(rows: Table, name: string): (r: Table)
    ensures |r| == |rows|
    ensures forall i :: 0 <= i < |rows| ==>
      r[i] == if rows[i].name == name && rows[i].status.Active? then rows[i].(status := Inactive) else rows[i]
  {
    seq(|rows|, i requires 0 <= i < |rows| =>
      if rows[i].name == name && rows[i].status.Active? then rows[i].(status := Inactive) else rows[i])
  }

  predicate IsLive(r: Row) {
    r.status.Active? || r.status.Canary?
  }

  /** The live row of the name with the highest version, other than id; -1 if there is none. */
  function Fallback(rows: Table, name: string, id: nat): (r: int)
    ensures -1 <= r < |rows|
    ensures r >= 0 ==> r != id && rows[r].name == name && IsLive(rows[r])
    ensures forall i :: 0 <= i < |rows| && i != id && rows[i].name == name && IsLive(rows[i]) ==>
              r >= 0 && rows[i].version <= rows[r].version
  {
    if rows == [] then -1
    else
      var n := |rows| - 1;
      var r := Fallback(rows[..n], name, id);
      if n != id && rows[n].name == name && IsLive(rows[n]) && (r < 0 || rows[n].version > rows[r].version) then n
      else r
  }

  // ----- The handlers as steps -----

  datatype Step =
    | CreateStep(name: string)
    | ActivateStep(id: nat)
    | CanaryStep(id: nat, percent: int)
    | PromoteStep(id: nat)
    | RollbackStep(id: nat)

  function MakeActive(rows: Table, id: nat): Table
    requires id < |rows|
  {
    var others := Deactivate(rows, rows[id].name);
    others[id := others[id].(status := Active, canaryPercent := 0)]
  }

  function Answer(rows: Table, step: Step): Response {
    match step
    case CreateStep(name) => if name == "" then BadRequest else Done
    case ActivateStep(id) =>
      if id >= |rows| then NotFound
      else if rows[id].status.Inactive? || rows[id].status.Archived? then Done else Conflict
    case CanaryStep(id, percent) =>
      if percent < 1 || percent > 100 then BadRequest
      else if id >= |rows| then NotFound else if rows[id].status.Inactive? then Done else Conflict
    case PromoteStep(id) =>
      if id >= |rows| then NotFound else if rows[id].status.Canary? then Done else Conflict
    case RollbackStep(id) =>
      if id >= |rows| then NotFound
      else if rows[id].status.Inactive? then Conflict
      else if Fallback(rows, rows[id].name, id) < 0 then NotFound else Done
  }

  function Next(rows: Table, step: Step): Table {
    if !Answer(rows, step).Done? then rows
    else match step
      case CreateStep(name) => rows + [Row(name, MaxVersion(rows, name) + 1, Inactive, 0)]
      case ActivateStep(id) => MakeActive(rows, id)
      case CanaryStep(id, percent) => rows[id := rows[id].(status := Canary, canaryPercent := percent)]
      case PromoteStep(id) => MakeActive(rows, id)
      case RollbackStep(id) =>
        var prev := Fallback(rows, rows[id].name, id);
        var cleared := rows[id := rows[id].(status := Inactive, canaryPercent := 0)];
        var status := if rows[id].status.Canary? then Inactive else Active;
        cleared[prev := cleared[prev].(status := status, canaryPercent := 0)]
  }

  function RunFrom(rows: Table, steps: seq<Step>): Table
    decreases |steps|
  {
    if steps == [] then rows else RunFrom(Next(rows, steps[0]), steps[1..])
  }

  // ----- The invariant -----

  function Count(rows: Table, name: string): nat {
    if rows == [] then 0
    else Count(rows[..|rows| - 1], name) + if rows[|rows| - 1].name == name then 1 else 0
  }

  ghost predicate OneActive(rows: Table) {
    forall i, j :: 0 <= i < j < |rows| && rows[i].status.Active? && rows[j].status.Active? ==>
      rows[i].name != rows[j].name
  }

  /** canary_percent is 1 to 100 exactly for canaries and 0 otherwise; nothing is ever archived. */
  predicate RowOk(r: Row) {
    !r.status.Archived? && (if r.status.Canary? then 1 <= r.canaryPercent <= 100 else r.canaryPercent == 0)
  }

  /** The version of a row is its rank among the rows of its name. */
  ghost predicate Ranked(rows: Table) {
    forall i :: 0 <= i < |rows| ==> rows[i].version == Count(rows[..i + 1], rows[i].name)
  }

  ghost predicate Inv(rows: Table) {
    OneActive(rows) && Ranked(rows) && forall i :: 0 <= i < |rows| ==> RowOk(rows[i])
  }

  // ----- The service object -----

  class Registry {
    var table: Table

    constructor ()
      ensures table == []
    {
      table := [];
    }

    method CreateModel(name: string) returns (r: Response)
      modifies this
      ensures r == Answer(old(table), CreateStep(name)) && table == Next(old(table), CreateStep(name))
    {
      if name == "" { return BadRequest; }
      var existing := 0;
      for i := 0 to |table|
        invariant existing == MaxVersion(table[..i], name)
      {
        assert table[..i + 1][..i] == table[..i];
        if table[i].name == name && table[i].version > existing { existing := table[i].version; }
      }
      assert table[..|table|] == table;
      table := table + [Row(name, existing + 1, Inactive, 0)];
      return Done;
    }

    method DeactivateName(name: string)
      modifies this
      ensures table == Deactivate(old(table), name)
    {
      ghost var was := table;
      for i := 0 to |table|
        invariant |table| == |was|
        invariant forall k :: 0 <= k < |was| ==> table[k] == if k < i then Deactivate(was, name)[k] else was[k]
      {
        if table[i].name == name && table[i].status.Active? {
          table := table[i := table[i].(status := Inactive)];
        }
      }
    }

    method ActivateVersion(id: nat) returns (r: Response)
      modifies this
      ensures r == Answer(old(table), ActivateStep(id)) && table == Next(old(table), ActivateStep(id))
    {
      if id >= |table| { return NotFound; }
      if table[id].status != Inactive && table[id].status != Archived { return Conflict; }
      DeactivateName(table[id].name);
      table := table[id := table[id].(status := Active, canaryPercent := 0)];
      return Done;
    }

    method DeployCanary(id: nat, percent: int) returns (r: Response)
      modifies this
      ensures r == Answer(old(table), CanaryStep(id, percent)) && table == Next(old(table), CanaryStep(id, percent))
    {
      if percent < 1 || percent > 100 { return BadRequest; }
      if id >= |table| { return NotFound; }
      if table[id].status != Inactive { return Conflict; }
      table := table[id := table[id].(status := Canary, canaryPercent := percent)];
      return Done;
    }

    method PromoteCanary(id: nat) returns (r: Response)
      modifies this
      ensures r == Answer(old(table), PromoteStep(id)) && table == Next(old(table), PromoteStep(id))
    {
      if id >= |table| { return NotFound; }
      if table[id].status != Canary { return Conflict; }
      DeactivateName(table[id].name);
      table := table[id := table[id].(status := Active, canaryPercent := 0)];
      return Done;
    }

    method Rollback(id: nat) returns (r: Response)
      modifies this
      ensures r == Answer(old(table), RollbackStep(id)) && table == Next(old(table), RollbackStep(id))
    {
      if id >= |table| { return NotFound; }
      if table[id].status == Inactive { return Conflict; }
      var prev := Fallback(table, table[id].name, id);
      if prev < 0 { return NotFound; }
      var previousStatus := table[id].status;
      table := table[id := table[id].(status := Inactive, canaryPercent := 0)];
      var newStatus := if previousStatus == Canary then Inactive else Active;
      table := table[prev := table[prev].(status := newStatus, canaryPercent := 0)];
      return Done;
    }
  }

  // ----- Every run keeps the invariant -----

  ghost predicate SameIdentities(a: Table, b: Table) {
    |a| == |b| && forall i :: 0 <= i < |a| ==> a[i].name == b[i].name && a[i].version == b[i].version
  }

  lemma {:induction false} CountSame(a: Table, b: Table, name: string)
    requires SameIdentities(a, b)
    ensures Count(a, name) == Count(b, name)
  {
    if a != [] {
      CountSame(a[..|a| - 1], b[..|b| - 1], name);
    }
  }

  lemma RankedSame(a: Table, b: Table)
    requires Ranked(a) && SameIdentities(a, b)
    ensures Ranked(b)
  {
    forall i | 0 <= i < |b| ensures b[i].version == Count(b[..i + 1], b[i].name) {
      CountSame(a[..i + 1], b[..i + 1], b[i].name);
    }
  }

  /** With ranks as versions the maximum is the number of rows of the name. */
  lemma {:induction false} MaxIsCount(rows: Table, name: string)
    requires Ranked(rows)
    ensures MaxVersion(rows, name) == Count(rows, name)
  {
    if rows != [] {
      var n := |rows| - 1;
      RankedPrefix(rows, n);
      MaxIsCount(rows[..n], name);
      assert rows[..n + 1] == rows;
      assert rows[n].version == Count(rows[..n + 1], rows[n].name);
    }
  }

  lemma RankedPrefix(rows: Table, n: nat)
    requires Ranked(rows) && n <= |rows|
    ensures Ranked(rows[..n])
  {
    forall i | 0 <= i < n ensures rows[..n][i].version == Count(rows[..n][..i + 1], rows[..n][i].name) {
      assert rows[..n][..i + 1] == rows[..i + 1];
    }
  }

  lemma RankedAppend(rows: Table, r: Row)
    requires Ranked(rows) && r.version == Count(rows, r.name) + 1
    ensures Ranked(rows + [r])
  {
    var rows' := rows + [r];
    assert rows'[..|rows|] == rows;
    assert Count(rows', r.name) == r.version;
    hide Count;
    forall i | 0 <= i < |rows'| ensures rows'[i].version == Count(rows'[..i + 1], rows'[i].name) {
      if i < |rows| {
        assert rows'[..i + 1] == rows[..i + 1];
      } else {
        assert rows'[..i + 1] == rows';
      }
    }
  }

  lemma CreateKeeps(rows: Table, name: string)
    requires Inv(rows) && name != ""
    ensures Inv(Next(rows, CreateStep(name)))
  {
    hide Count, MaxVersion, Ranked;
    MaxIsCount(rows, name);
    RankedAppend(rows, Row(name, MaxVersion(rows, name) + 1, Inactive, 0));
  }

  /** A step that keeps names and versions keeps the ranks; what is left are statuses and percentages. */
  ghost predicate StatusesOk(rows: Table) {
    OneActive(rows) && forall i :: 0 <= i < |rows| ==> RowOk(rows[i])
  }

  lemma MakeActiveKeeps(rows: Table, id: nat)
    requires StatusesOk(rows) && id < |rows|
    ensures StatusesOk(MakeActive(rows, id)) && SameIdentities(rows, MakeActive(rows, id))
  {
    var others, name := Deactivate(rows, rows[id].name), rows[id].name;
    assert forall i :: 0 <= i < |others| && others[i].status.Active? ==> others[i] == rows[i] && others[i].name != name;
  }

  lemma RollbackKeeps(rows: Table, id: nat)
    requires StatusesOk(rows) && Answer(rows, RollbackStep(id)).Done?
    ensures StatusesOk(Next(rows, RollbackStep(id))) && SameIdentities(rows, Next(rows, RollbackStep(id)))
  {
    hide Fallback;
    var rows' := Next(rows, RollbackStep(id));
    var prev := Fallback(rows, rows[id].name, id);
    assert forall i :: 0 <= i < |rows| && i != id && i != prev ==> rows'[i] == rows[i];
    assert rows[id].status.Active? ==>
      forall i :: 0 <= i < |rows| && i != id && rows[i].name == rows[id].name ==> !rows[i].status.Active?;
  }

  lemma StepKeeps(rows: Table, step: Step)
    requires Inv(rows)
    ensures Inv(Next(rows, step))
  {
    if Answer(rows, step).Done? {
      match step {
        case CreateStep(name) => CreateKeeps(rows, name);
        case ActivateStep(id) => MakeActiveKeeps(rows, id);
        case PromoteStep(id) => MakeActiveKeeps(rows, id);
        case RollbackStep(id) => RollbackKeeps(rows, id);
        case CanaryStep(id, percent) =>
      }
      hide Ranked, Fallback, Deactivate, Count;
      if !step.CreateStep? {
        assert SameIdentities(rows, Next(rows, step));
        RankedSame(rows, Next(rows, step));
      }
    }
  }

  /** From the empty table, every sequence of requests keeps the invariant. */
  lemma {:induction false} RunsKeepInv(rows: Table, steps: seq<Step>)
    requires Inv(rows)
    ensures Inv(RunFrom(rows, steps))
    decreases |steps|
  {
    if steps != [] {
      StepKeeps(rows, steps[0]);
      RunsKeepInv(Next(rows, steps[0]), steps[1..]);
    }
  }

  lemma {:induction false} CountPrefix(rows: Table, name: string, m: nat, n: nat)
    requires m <= n <= |rows|
    ensures Count(rows[..m], name) <= Count(rows[..n], name)
    ensures m < n && rows[n - 1].name == name ==> Count(rows[..m], name) < Count(rows[..n], name)
    decreases n
  {
    if m < n {
      assert rows[..n][..n - 1] == rows[..n - 1];
      CountPrefix(rows, name, m, n - 1);
    }
  }

  /** The row of a name with a given rank. */
  lemma {:induction false} RankTaken(rows: Table, name: string, v: int) returns (i: nat)
    requires Ranked(rows) && 1 <= v <= Count(rows, name)
    ensures i < |rows| && rows[i].name == name && rows[i].version == v
    decreases |rows|
  {
    var n := |rows| - 1;
    assert rows[..n + 1] == rows;
    if rows[n].name == name && v == Count(rows, name) {
      i := n;
    } else {
      RankedPrefix(rows, n);
      i := RankTaken(rows[..n], name, v);
    }
  }

  ghost predicate HasVersion(rows: Table, name: string, v: int) {
    exists i :: 0 <= i < |rows| && rows[i].name == name && rows[i].version == v
  }

  lemma RankInRange(rows: Table, i: nat)
    requires Ranked(rows) && i < |rows|
    ensures 1 <= rows[i].version <= Count(rows, rows[i].name)
  {
    assert rows[..|rows|] == rows;
    CountPrefix(rows, rows[i].name, i + 1, |rows|);
    CountPrefix(rows, rows[i].name, i, i + 1);
  }

  /** The versions of each name are exactly 1 to n. */
  lemma VersionsExact(rows: Table, name: string, v: int)
    requires Inv(rows)
    ensures HasVersion(rows, name, v) <==> 1 <= v <= Count(rows, name)
  {
    hide Ranked, OneActive, Count;
    if HasVersion(rows, name, v) {
      var i :| 0 <= i < |rows| && rows[i].name == name && rows[i].version == v;
      RankInRange(rows, i);
    }
    if 1 <= v <= Count(rows, name) {
      var i := RankTaken(rows, name, v);
    }
  }

  /** Each version of a name occurs once, and later rows have higher versions. */
  lemma VersionsIncrease(rows: Table, i: nat, j: nat)
    requires Inv(rows) && i < j < |rows| && rows[i].name == rows[j].name
    ensures rows[i].version < rows[j].version
  {
    CountPrefix(rows, rows[i].name, i + 1, j + 1);
  }

  // ----- Which version of a name is active -----

  ghost predicate HasActive(rows: Table, name: string) {
    exists i :: 0 <= i < |rows| && rows[i].name == name && rows[i].status.Active?
  }

  /** The active row of the name, or -1. */
  function ActiveOf(rows: Table, name: string): (r: int)
    ensures -1 <= r < |rows|
    ensures r >= 0 ==> rows[r].name == name && rows[r].status.Active?
    ensures r < 0 ==> forall i :: 0 <= i < |rows| && rows[i].name == name ==> !rows[i].status.Active?
  {
    if rows == [] then -1
    else
      var n := |rows| - 1;
      if rows[n].name == name && rows[n].status.Active? then n else ActiveOf(rows[..n], name)
  }

  /** The name that a request concerns. */
  function NameOf(rows: Table, step: Step): string {
    if step.CreateStep? then step.name else if step.id < |rows| then rows[step.id].name else ""
  }

  /** How a successful request about the name moves its active version. */
  function Moved(rows: Table, step: Step, name: string): int {
    var active := ActiveOf(rows, name);
    match step
    case CreateStep(_) => active
    case CanaryStep(_, _) => active
    case ActivateStep(id) => id
    case PromoteStep(id) => id
    case RollbackStep(id) =>
      if id == active then Fallback(rows, name, id)
      else if Fallback(rows, name, id) == active then -1
      else active
  }

  /** a is the only active row of the name, or -1 and there is none. */
  ghost predicate OnlyActive(rows: Table, name: string, a: int) {
    && -1 <= a < |rows| && (a >= 0 ==> rows[a].name == name)
    && forall i :: 0 <= i < |rows| && rows[i].name == name ==> (rows[i].status.Active? <==> i == a)
  }

  lemma ActiveIsOnly(rows: Table, name: string)
    requires OneActive(rows)
    ensures OnlyActive(rows, name, ActiveOf(rows, name))
  {
  }

  lemma OnlyIsActive(rows: Table, name: string, a: int)
    requires OnlyActive(rows, name, a)
    ensures ActiveOf(rows, name) == a
  {
    var r := ActiveOf(rows, name);
    assert r >= 0 ==> r == a;
  }

  lemma InactiveAdded(rows: Table, r: Row, name: string, a: int)
    requires OnlyActive(rows, name, a) && !r.status.Active?
    ensures OnlyActive(rows + [r], name, a)
  {
  }

  lemma InactiveChanged(rows: Table, id: nat, r: Row, name: string, a: int)
    requires OnlyActive(rows, name, a) && id < |rows| && !rows[id].status.Active? && !r.status.Active?
    requires r.name == rows[id].name
    ensures OnlyActive(rows[id := r], name, a)
  {
  }

  lemma MakeActiveMoves(rows: Table, id: nat, name: string, a: int)
    requires OnlyActive(rows, name, a) && id < |rows|
    ensures OnlyActive(MakeActive(rows, id), name, if rows[id].name == name then id else a)
  {
  }

  lemma RollbackMoves(rows: Table, id: nat, name: string, a: int)
    requires OnlyActive(rows, name, a) && Answer(rows, RollbackStep(id)).Done? && !rows[id].status.Archived?
    ensures var prev := Fallback(rows, name, id);
            OnlyActive(Next(rows, RollbackStep(id)), name,
                       if rows[id].name != name then a else if id == a then prev else if prev == a then -1 else a)
  {
    var prev, rows' := Fallback(rows, rows[id].name, id), Next(rows, RollbackStep(id));
    hide Fallback;
    assert forall i :: 0 <= i < |rows| && i != id && i != prev ==> rows'[i] == rows[i];
    assert rows'[id].name == rows'[prev].name == rows[id].name && rows'[id].status.Inactive?;
    hide Next, Answer;
    if rows[id].name == name {
      assert rows[id].status.Active? <==> id == a;
    }
  }

  /**
   On every table of a run the handlers refine a machine with one active version per name: requests about other
   names and refused ones leave it alone, and a successful one moves it as Moved says.
   */
  lemma ActiveMoves(rows: Table, step: Step, name: string)
    requires Inv(rows)
    ensures ActiveOf(Next(rows, step), name)
         == if Answer(rows, step).Done? && NameOf(rows, step) == name then Moved(rows, step, name)
            else ActiveOf(rows, name)
  {
    var rows', active := Next(rows, step), ActiveOf(rows, name);
    ActiveIsOnly(rows, name);
    var a := if Answer(rows, step).Done? && NameOf(rows, step) == name then Moved(rows, step, name) else active;
    hide Fallback, MaxVersion, Ranked, ActiveOf, Count, MakeActive, OneActive;
    if Answer(rows, step).Done? {
      match step {
        case CreateStep(_) => InactiveAdded(rows, rows'[|rows|], name, active);
        case CanaryStep(id, _) => InactiveChanged(rows, id, rows'[id], name, active);
        case ActivateStep(id) => MakeActiveMoves(rows, id, name, active);
        case PromoteStep(id) => MakeActiveMoves(rows, id, name, active);
        case RollbackStep(id) => RollbackMoves(rows, id, name, active);
      }
    }
    hide OnlyActive;
    OnlyIsActive(rows', name, a);
  }

  // ----- When a request takes effect, and which -----

  /** A live row of the same name other than id. */
  predicate OtherLive(rows: Table, id: nat, i: int)
    requires id < |rows|
  {
    && 0 <= i < |rows| && i != id && rows[i].name == rows[id].name
    && (rows[i].status == Active || rows[i].status == Canary)
  }

  /** From the table alone: the requests that change it. */
  ghost predicate TakesEffect(rows: Table, step: Step) {
    match step
    case CreateStep(name) => name != ""
    case ActivateStep(id) => id < |rows| && rows[id].status in {Inactive, Archived}
    case CanaryStep(id, percent) => id < |rows| && rows[id].status == Inactive && 1 <= percent <= 100
    case PromoteStep(id) => id < |rows| && rows[id].status == Canary
    case RollbackStep(id) => id < |rows| && rows[id].status != Inactive && exists i :: OtherLive(rows, id, i)
  }

  /** id is active without a percentage, a former active row of its name is inactive, and all else is as before. */
  ghost predicate Activated(rows: Table, id: nat, rows': Table)
    requires id < |rows|
  {
    && |rows'| == |rows| && rows'[id] == Row(rows[id].name, rows[id].version, Active, 0)
    && forall i :: 0 <= i < |rows| && i != id ==>
         rows'[i] == if rows[i].name == rows[id].name && rows[i].status == Active
                     then Row(rows[i].name, rows[i].version, Inactive, rows[i].canaryPercent) else rows[i]
  }

  /** id is inactive, and prev, the other live row of highest version, is active or inactive as the status says. */
  ghost predicate RolledBack(rows: Table, id: nat, prev: int, rows': Table)
    requires id < |rows|
  {
    && OtherLive(rows, id, prev) && (forall i :: OtherLive(rows, id, i) ==> rows[i].version <= rows[prev].version)
    && |rows'| == |rows| && rows'[id] == Row(rows[id].name, rows[id].version, Inactive, 0)
    && rows'[prev] == Row(rows[id].name, rows[prev].version, if rows[id].status == Canary then Inactive else Active, 0)
    && forall i :: 0 <= i < |rows| && i != id && i != prev ==> rows'[i] == rows[i]
  }

  ghost predicate Effect(rows: Table, step: Step, rows': Table)
    requires TakesEffect(rows, step)
  {
    match step
    case CreateStep(name) => rows' == rows + [Row(name, Count(rows, name) + 1, Inactive, 0)]
    case ActivateStep(id) => Activated(rows, id, rows')
    case CanaryStep(id, percent) => rows' == rows[id := Row(rows[id].name, rows[id].version, Canary, percent)]
    case PromoteStep(id) => Activated(rows, id, rows')
    case RollbackStep(id) => exists prev :: RolledBack(rows, id, prev, rows')
  }

  /** The error of a request without effect. */
  predicate ErrorIs(rows: Table, step: Step, r: Response) {
    match step
    case CreateStep(_) => r == BadRequest
    case CanaryStep(id, percent) =>
      r == if percent < 1 || percent > 100 then BadRequest else if id >= |rows| then NotFound else Conflict
    case RollbackStep(id) => r == if id < |rows| && rows[id].status == Inactive then Conflict else NotFound
    case _ => r == if step.id >= |rows| then NotFound else Conflict
  }

  /**
   Every request on every table of a run: it succeeds and has its effect exactly when the table allows it; otherwise
   it answers the stated error and changes nothing.
   */
  lemma RequestExact(rows: Table, step: Step)
    requires Inv(rows)
    ensures TakesEffect(rows, step) ==> Answer(rows, step) == Done && Effect(rows, step, Next(rows, step))
    ensures !TakesEffect(rows, step) ==> ErrorIs(rows, step, Answer(rows, step)) && Next(rows, step) == rows
    ensures forall i :: 0 <= i < |rows| && rows[i].name != NameOf(rows, step) ==>
              i < |Next(rows, step)| && Next(rows, step)[i] == rows[i]
  {
    hide Fallback, MaxVersion, Count, OneActive;
    match step
    case CreateStep(name) =>
      MaxIsCount(rows, name);
    case RollbackStep(id) =>
      hide Ranked;
      if id < |rows| {
        RollbackExact(rows, id);
      }
    case _ =>
      hide Ranked;
  }

  lemma RollbackExact(rows: Table, id: nat)
    requires id < |rows|
    ensures var prev := Fallback(rows, rows[id].name, id);
            && (prev >= 0 <==> exists i :: OtherLive(rows, id, i))
            && (prev >= 0 && rows[id].status != Inactive ==> RolledBack(rows, id, prev, Next(rows, RollbackStep(id))))
  {
    var prev := Fallback(rows, rows[id].name, id);
    FallbackIs(rows, id);
    hide Fallback, OtherLive;
    if prev >= 0 && rows[id].status != Inactive {
      RollbackRows(rows, id, prev);
    }
  }

  lemma FallbackIs(rows: Table, id: nat)
    requires id < |rows|
    ensures var prev := Fallback(rows, rows[id].name, id);
            && (prev >= 0 ==> OtherLive(rows, id, prev))
            && (forall i :: OtherLive(rows, id, i) ==> prev >= 0 && rows[i].version <= rows[prev].version)
  {
    hide Fallback;
  }

  lemma RollbackRows(rows: Table, id: nat, prev: int)
    requires id < |rows| && rows[id].status != Inactive && prev == Fallback(rows, rows[id].name, id) >= 0
    ensures var rows' := Next(rows, RollbackStep(id));
            && |rows'| == |rows| && prev != id && rows'[id] == Row(rows[id].name, rows[id].version, Inactive, 0)
            && rows'[prev].name == rows[id].name && rows'[prev].version == rows[prev].version
            && rows'[prev].status == (if rows[id].status == Canary then Inactive else Active)
            && rows'[prev].canaryPercent == 0
            && forall i :: 0 <= i < |rows| && i != id && i != prev ==> rows'[i] == rows[i]
  {
    hide Fallback;
  }

  // ----- What rollback does to the active version -----

  /**
   Rolling back a canary next to an active version keeps that version active exactly when another canary of the
   name has a higher version; otherwise the name is left without any active version.
   */
  lemma RollbackOfCanary(rows: Table, id: nat, a: nat)
    requires Inv(rows) && id < |rows| && a < |rows| && rows[id].status.Canary?
    requires rows[a].name == rows[id].name && rows[a].status.Active?
    ensures Answer(rows, RollbackStep(id)) == Done
    ensures HasActive(Next(rows, RollbackStep(id)), rows[id].name) <==>
              exists c :: 0 <= c < |rows| && c != id && rows[c].name == rows[id].name && rows[c].status.Canary?
                          && rows[c].version > rows[a].version
  {
    var name := rows[id].name;
    var prev, rows' := Fallback(rows, name, id), Next(rows, RollbackStep(id));
    hide Fallback;
    if prev != a {
      if prev < a { VersionsIncrease(rows, prev, a); } else { VersionsIncrease(rows, a, prev); }
      assert rows'[a].status.Active?;
      assert rows[prev].version > rows[a].version;
    } else {
      forall i | 0 <= i < |rows'| && rows'[i].name == name ensures !rows'[i].status.Active? {
      }
    }
  }

  /** A request that leaves a served name without an active version. */
  ghost predicate Loses(rows: Table, step: Step, name: string) {
    && step.RollbackStep? && step.id < |rows| && rows[step.id].name == name && rows[step.id].status.Canary?
    && ActiveOf(rows, name) >= 0
    && forall c :: 0 <= c < |rows| && c != step.id && rows[c].name == name && rows[c].status.Canary? ==>
         rows[c].version < rows[ActiveOf(rows, name)].version
  }

  ghost predicate Served(rows: Table, steps: seq<Step>, name: string)
    decreases |steps|
  {
    HasActive(rows, name) && (steps == [] || Served(Next(rows, steps[0]), steps[1..], name))
  }

  ghost predicate NeverLoses(rows: Table, steps: seq<Step>, name: string)
    decreases |steps|
  {
    steps == [] || (!Loses(rows, steps[0], name) && NeverLoses(Next(rows, steps[0]), steps[1..], name))
  }

  predicate RollsBackCanary(rows: Table, step: Step, name: string) {
    step.RollbackStep? && step.id < |rows| && rows[step.id].name == name && rows[step.id].status.Canary?
  }

  /** Every other request keeps a served name served. */
  lemma KeepsServed(rows: Table, step: Step, name: string)
    requires Inv(rows) && HasActive(rows, name) && !RollsBackCanary(rows, step, name)
    ensures HasActive(Next(rows, step), name)
  {
    ActiveMoves(rows, step, name);
    var a := ActiveOf(Next(rows, step), name);
    hide Next, Ranked, Count, ActiveOf;
    assert a >= 0;
  }

  lemma OtherVersion(rows: Table, a: nat, c: nat)
    requires Inv(rows) && a < |rows| && c < |rows| && a != c && rows[a].name == rows[c].name
    ensures rows[c].version != rows[a].version
  {
    if c < a { VersionsIncrease(rows, c, a); } else { VersionsIncrease(rows, a, c); }
  }

  /** A served name stays served unless a canary is rolled back and no other canary tops the active version. */
  lemma LosesExact(rows: Table, step: Step, name: string)
    requires Inv(rows) && HasActive(rows, name)
    ensures HasActive(Next(rows, step), name) <==> !Loses(rows, step, name)
  {
    var a := ActiveOf(rows, name);
    if RollsBackCanary(rows, step, name) {
      hide ActiveOf, Next, Answer, Inv;
      RollbackOfCanary(rows, step.id, a);
      forall c | 0 <= c < |rows| && rows[c].name == name && rows[c].status.Canary?
        ensures rows[c].version != rows[a].version
      {
        OtherVersion(rows, a, c);
      }
    } else {
      hide ActiveOf, Next, Answer, Inv;
      KeepsServed(rows, step, name);
    }
  }

  /** Whole runs: a name is served in every state of a run if and only if none of its requests loses it. */
  lemma {:induction false} ServedExact(rows: Table, steps: seq<Step>, name: string)
    requires Inv(rows) && HasActive(rows, name)
    ensures Served(rows, steps, name) <==> NeverLoses(rows, steps, name)
    decreases |steps|
  {
    hide Loses, HasActive, Next, Inv;
    if steps != [] {
      LosesExact(rows, steps[0], name);
      StepKeeps(rows, steps[0]);
      if HasActive(Next(rows, steps[0]), name) {
        ServedExact(Next(rows, steps[0]), steps[1..], name);
      } else {
        NotServed(Next(rows, steps[0]), steps[1..], name);
      }
    }
  }

  lemma NotServed(rows: Table, steps: seq<Step>, name: string)
    requires !HasActive(rows, name)
    ensures !Served(rows, steps, name)
  {
  }

  /** Two versions of a name, the first activated and the second deployed as a canary. */
  const CANARY_RUN := [CreateStep("m"), CreateStep("m"), ActivateStep(0), CanaryStep(1, 10)]

  lemma CanaryRun()
    ensures RunFrom([], CANARY_RUN) == [Row("m", 1, Active, 0), Row("m", 2, Canary, 10)]
  {
    var r1, r2 := Row("m", 1, Inactive, 0), Row("m", 2, Inactive, 0);
    var steps := CANARY_RUN;
    assert MaxVersion([], "m") == 0 && Next([], steps[0]) == [r1];
    assert [r1][..0] == [] && MaxVersion([r1], "m") == 1 && Next([r1], steps[1]) == [r1, r2];
    assert Next([r1, r2], steps[2]) == [r1.(status := Active), r2];
    assert Next([r1.(status := Active), r2], steps[3])
        == [r1.(status := Active), r2.(status := Canary, canaryPercent := 10)];
    hide Next;
    RunFour([], steps);
  }

  lemma RunFour(rows: Table, steps: seq<Step>)
    requires |steps| == 4
    ensures RunFrom(rows, steps) == Next(Next(Next(Next(rows, steps[0]), steps[1]), steps[2]), steps[3])
  {
    hide Next;
    var r1 := Next(rows, steps[0]);
    var r2 := Next(r1, steps[1]);
    var r3 := Next(r2, steps[2]);
    assert steps[1..][1..] == steps[2..] && steps[2..][1..] == steps[3..] && steps[3..][1..] == [];
    assert RunFrom(rows, steps) == RunFrom(r1, steps[1..]);
    assert RunFrom(r1, steps[1..]) == RunFrom(r2, steps[2..]);
    assert RunFrom(r2, steps[2..]) == RunFrom(r3, steps[3..]);
    assert RunFrom(r3, steps[3..]) == RunFrom(Next(r3, steps[3]), []);
  }

  /** From the empty table: after these requests the name is served, and rolling the canary back leaves it unserved. */
  lemma CanaryRollbackLoses()
    ensures var rows := RunFrom([], CANARY_RUN);
            && HasActive(rows, "m") && Answer(rows, RollbackStep(1)) == Done && Loses(rows, RollbackStep(1), "m")
            && !HasActive(Next(rows, RollbackStep(1)), "m")
  {
    CanaryRun();
    var rows := RunFrom([], CANARY_RUN);
    EmptyInv();
    RunsKeepInv([], CANARY_RUN);
    hide Next, RunFrom, Answer, Inv;
    assert rows[0].status.Active?;
    RollbackOfCanary(rows, 1, 0);
    LosesExact(rows, RollbackStep(1), "m");
  }

  lemma EmptyInv()
    ensures Inv([])
  {
  }
}
