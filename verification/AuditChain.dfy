/** The audit hash chain of services/audit/main.go, over an arbitrary digest of fixed output length. */
module AuditChain {

  /** SHA-256 in hexadecimal in the source; here any function on strings. */
  type Digest = string -> string

  datatype Entry = Entry(id: string, timestamp: string, action: string, actor: string, resourceType: string,
                         resourceId: string, details: string, previousHash: string, hash: string)

  const HASH_LENGTH := 64

  function Repeat(c: char, n: nat): (s: string)
    ensures |s| == n && forall i :: 0 <= i < n ==> s[i] == c
  {
    seq(n, _ => c)
  }

  const GENESIS: string := Repeat('0', HASH_LENGTH)

  ghost predicate FixedLength(h: Digest) {
    forall x :: |h(x)| == HASH_LENGTH
  }

  /** The record text that enters the digest after the previous hash: fields concatenated without separators. */
  function Text(e: Entry): string {
    e.timestamp + e.action + e.actor + e.resourceType + e.resourceId + e.details
  }

  function ComputeHash(h: Digest, prev: string, e: Entry): string {
    h(prev + Text(e))
  }

  function Previous(entries: seq<Entry>, i: nat): string
    requires i <= |entries|
  {
    if i == 0 then GENESIS else entries[i - 1].hash
  }

  predicate LinkOk(h: Digest, entries: seq<Entry>, i: nat)
    requires i < |entries|
  {
    && entries[i].previousHash == Previous(entries, i)
    && entries[i].hash == ComputeHash(h, entries[i].previousHash, entries[i])
  }

  predicate ChainOk(h: Digest, entries: seq<Entry>) {
    forall i :: 0 <= i < |entries| ==> LinkOk(h, entries, i)
  }

  predicate HasId(entries: seq<Entry>, id: string) {
    exists i :: 0 <= i < |entries| && entries[i].id == id
  }

  /** The chain after logEntry: unchanged for a known ID, else extended by the entry, linked to the last hash. */
  function Log(h: Digest, entries: seq<Entry>, e: Entry): seq<Entry> {
    if HasId(entries, e.id) then entries
    else
      var prev := Previous(entries, |entries|);
      entries + [e.(previousHash := prev, hash := ComputeHash(h, prev, e))]
  }

  class AuditService {
    const h: Digest
    var entries: seq<Entry>

    constructor (h: Digest)
      ensures this.h == h && entries == []
    {
      this.h := h;
      entries := [];
    }

    method LogEntry(entry: Entry)
      modifies this
      ensures entries == Log(h, old(entries), entry)
    {
      for i := 0 to |entries|
        invariant forall k :: 0 <= k < i ==> entries[k].id != entry.id
      {
        if entries[i].id == entry.id { return; }
      }
      var prevHash := GENESIS;
      if |entries| > 0 {
        prevHash := entries[|entries| - 1].hash;
      }
      var stored := entry.(previousHash := prevHash, hash := ComputeHash(h, prevHash, entry));
      entries := entries + [stored];
    }

    /** handleVerify over the in-memory entries. */
    method Verify() returns (valid: bool, count: nat, firstHash: string, lastHash: string)
      ensures valid == ChainOk(h, entries) && count == |entries|
      ensures entries != [] ==> firstHash == entries[0].hash && lastHash == entries[|entries| - 1].hash
    {
      count, firstHash, lastHash := |entries|, "", "";
      if |entries| == 0 {
        return true, count, firstHash, lastHash;
      }
      firstHash, lastHash, valid := entries[0].hash, entries[|entries| - 1].hash, true;
      for i := 0 to |entries|
        invariant forall k :: 0 <= k < i ==> LinkOk(h, entries, k)
      {
        var expectedPrevHash := GENESIS;
        if i > 0 {
          expectedPrevHash := entries[i - 1].hash;
        }
        var expectedHash := ComputeHash(h, entries[i].previousHash, entries[i]);
        if entries[i].previousHash != expectedPrevHash || entries[i].hash != expectedHash {
          assert !LinkOk(h, entries, i);
          valid := false;
          return;
        }
      }
    }
  }

  // ----- Every reachable chain verifies -----

  function LogAll(h: Digest, entries: seq<Entry>, es: seq<Entry>): seq<Entry>
    decreases |es|
  {
    if es == [] then entries else LogAll(h, Log(h, entries, es[0]), es[1..])
  }

  ghost predicate DistinctIds(entries: seq<Entry>) {
    forall i, j :: 0 <= i < j < |entries| ==> entries[i].id != entries[j].id
  }

  lemma LogKeeps(h: Digest, entries: seq<Entry>, e: Entry)
    requires ChainOk(h, entries) && DistinctIds(entries)
    ensures ChainOk(h, Log(h, entries, e)) && DistinctIds(Log(h, entries, e))
    ensures entries <= Log(h, entries, e) && HasId(Log(h, entries, e), e.id)
  {
    var longer := Log(h, entries, e);
    if !HasId(entries, e.id) {
      assert longer[|entries|].id == e.id;
      forall i | 0 <= i < |longer| ensures LinkOk(h, longer, i) {
        if i < |entries| {
          assert LinkOk(h, entries, i);
        }
      }
    }
  }

  /** After any sequence of log calls the chain verifies, IDs are distinct, and nothing logged was changed. */
  lemma {:induction false} ReachableVerifies(h: Digest, entries: seq<Entry>, es: seq<Entry>)
    requires ChainOk(h, entries) && DistinctIds(entries)
    ensures ChainOk(h, LogAll(h, entries, es)) && DistinctIds(LogAll(h, entries, es))
    ensures entries <= LogAll(h, entries, es)
    decreases |es|
  {
    if es != [] {
      LogKeeps(h, entries, es[0]);
      ReachableVerifies(h, Log(h, entries, es[0]), es[1..]);
    }
  }

  // ----- Tampering yields a collision -----

  /** What two verifying chains that end in the same hash reveal. */
  datatype Finding = SameTexts | Collision(x: string, y: string) | GenesisPreimage(x: string)

  ghost predicate SameHistory(a: seq<Entry>, b: seq<Entry>) {
    |a| == |b| && forall i :: 0 <= i < |a| ==>
      Text(a[i]) == Text(b[i]) && a[i].hash == b[i].hash && a[i].previousHash == b[i].previousHash
  }

  lemma SplitInput(p: string, t: string, q: string, u: string)
    requires |p| == |q| && p + t == q + u
    ensures p == q && t == u
  {
    assert p == (p + t)[..|p|] && q == (q + u)[..|q|];
    assert t == (p + t)[|p|..] && u == (q + u)[|q|..];
  }

  lemma LastLink(h: Digest, a: seq<Entry>)
    requires FixedLength(h) && ChainOk(h, a) && a != []
    ensures var n := |a| - 1;
            a[n].hash == h(a[n].previousHash + Text(a[n])) && a[n].previousHash == Previous(a, n)
            && |a[n].previousHash| == HASH_LENGTH && ChainOk(h, a[..n])
  {
    var n := |a| - 1;
    assert LinkOk(h, a, n);
    if n > 0 {
      assert LinkOk(h, a, n - 1);
    }
    forall i | 0 <= i < n ensures LinkOk(h, a[..n], i) {
      assert LinkOk(h, a, i);
    }
  }

  /**
   Two verifying chains with the same last hash have the same record texts throughout, or an explicit pair of
   different digest inputs with equal digest can be read off them; chains of different length may instead show an
   input whose digest is the genesis string.
   */
  lemma {:induction false} Extract(h: Digest, a: seq<Entry>, b: seq<Entry>) returns (f: Finding)
    requires FixedLength(h) && ChainOk(h, a) && ChainOk(h, b)
    requires Previous(a, |a|) == Previous(b, |b|)
    ensures f.SameTexts? ==> SameHistory(a, b)
    ensures f.Collision? ==> f.x != f.y && h(f.x) == h(f.y)
    ensures f.GenesisPreimage? ==> h(f.x) == GENESIS && |a| != |b|
    decreases |a|
  {
    if a == [] && b == [] {
      f := SameTexts;
    } else if a == [] {
      LastLink(h, b);
      f := GenesisPreimage(b[|b| - 1].previousHash + Text(b[|b| - 1]));
    } else if b == [] {
      LastLink(h, a);
      f := GenesisPreimage(a[|a| - 1].previousHash + Text(a[|a| - 1]));
    } else {
      var m, n := |a| - 1, |b| - 1;
      LastLink(h, a);
      LastLink(h, b);
      var x, y := a[m].previousHash + Text(a[m]), b[n].previousHash + Text(b[n]);
      if x != y {
        f := Collision(x, y);
      } else {
        SplitInput(a[m].previousHash, Text(a[m]), b[n].previousHash, Text(b[n]));
        f := Extract(h, a[..m], b[..n]);
        hide Text;
        if f.SameTexts? {
          assert SameHistory(a[..m], b[..n]);
          assert forall i :: 0 <= i < m ==> a[..m][i] == a[i] && b[..n][i] == b[i];
        }
      }
    }
  }

  /** Equal length, same last hash, some record text different: a collision. */
  lemma TamperingIsCollision(h: Digest, a: seq<Entry>, b: seq<Entry>, i: nat) returns (x: string, y: string)
    requires FixedLength(h) && ChainOk(h, a) && ChainOk(h, b) && |a| == |b| && i < |a|
    requires a[|a| - 1].hash == b[|b| - 1].hash && Text(a[i]) != Text(b[i])
    ensures x != y && h(x) == h(y)
  {
    var f := Extract(h, a, b);
    x, y := f.x, f.y;
  }

  /** Verification sees an entry only through its hashes and its text, so the ID and the field borders are free. */
  lemma OnlyTextMatters(h: Digest, a: seq<Entry>, b: seq<Entry>)
    requires SameHistory(a, b)
    ensures ChainOk(h, a) == ChainOk(h, b)
  {
    forall i | 0 <= i < |a| ensures LinkOk(h, a, i) == LinkOk(h, b, i) {
      assert Text(a[i]) == Text(b[i]);
    }
  }

  // ----- What a replaced entry has to keep -----

  /** The chain with another record in place of entry i, which keeps the stored hashes. */
  function Replaced(entries: seq<Entry>, i: nat, e: Entry): seq<Entry>
    requires i < |entries|
  {
    entries[i := e.(previousHash := entries[i].previousHash, hash := entries[i].hash)]
  }

  /** Logging entries with new, distinct IDs appends all of them with their texts. */
  lemma {:induction false} AllLogged(h: Digest, entries: seq<Entry>, es: seq<Entry>)
    requires DistinctIds(entries + es)
    ensures var all := LogAll(h, entries, es);
            |all| == |entries| + |es| && entries <= all
            && forall k :: 0 <= k < |es| ==> Text(all[|entries| + k]) == Text(es[k])
    decreases |es|
  {
    if es != [] {
      var stored := LogNew(h, entries, es);
      var longer := entries + [stored];
      hide Text, Log, DistinctIds;
      AllLogged(h, longer, es[1..]);
      NextTexts(entries, stored, es, LogAll(h, longer, es[1..]));
    }
  }

  lemma NextTexts(entries: seq<Entry>, stored: Entry, es: seq<Entry>, all: seq<Entry>)
    requires es != [] && |all| == |entries| + |es| && entries + [stored] <= all && Text(stored) == Text(es[0])
    requires forall k :: 0 <= k < |es[1..]| ==> Text(all[|entries| + 1 + k]) == Text(es[1..][k])
    ensures entries <= all && forall k :: 0 <= k < |es| ==> Text(all[|entries| + k]) == Text(es[k])
  {
    hide Text;
    var n := |entries|;
    assert all[n] == (entries + [stored])[n];
    forall k | 0 <= k < |es| ensures Text(all[n + k]) == Text(es[k]) {
      if k > 0 {
        assert es[1..][k - 1] == es[k] && Text(all[n + 1 + (k - 1)]) == Text(es[1..][k - 1]);
      }
    }
  }

  /** Logging the first of several entries with new, distinct IDs. */
  lemma LogNew(h: Digest, entries: seq<Entry>, es: seq<Entry>) returns (stored: Entry)
    requires DistinctIds(entries + es) && es != []
    ensures Log(h, entries, es[0]) == entries + [stored] && Text(stored) == Text(es[0])
    ensures DistinctIds(entries + [stored] + es[1..])
  {
    var all := entries + es;
    forall i | 0 <= i < |entries| ensures entries[i].id != es[0].id {
      assert all[i].id != all[|entries|].id;
    }
    assert !HasId(entries, es[0].id);
    stored := Log(h, entries, es[0])[|entries|];
    hide Text;
    var longer := entries + [stored] + es[1..];
    forall i | 0 <= i < |longer| ensures longer[i].id == all[i].id {
    }
  }

  const ONES: string := Repeat('1', HASH_LENGTH)

  lemma OnesDiffer()
    ensures ONES != GENESIS
  {
    assert ONES[HASH_LENGTH - 1] == '1' && GENESIS[HASH_LENGTH - 1] == '0';
  }

  /** A digest that tells one record text from all others. */
  function Marking(text: string): (h: Digest)
    ensures FixedLength(h)
  {
    (x: string) => if |x| >= HASH_LENGTH && x[HASH_LENGTH..] == text then ONES else GENESIS
  }

  lemma Marks(prev: string, text: string, other: string)
    requires |prev| == HASH_LENGTH
    ensures Marking(text)(prev + other) == if other == text then ONES else GENESIS
  {
    assert (prev + other)[HASH_LENGTH..] == other;
  }

  /** The log of es, with e in place of entry i, passes verification. */
  ghost predicate Passes(h: Digest, es: seq<Entry>, i: nat, e: Entry)
    requires DistinctIds(es) && i < |es|
  {
    AllLogged(h, [], es); assert [] + es == es; ChainOk(h, Replaced(LogAll(h, [], es), i, e))
  }

  /** A replaced record passes under every digest if and only if it has the concatenated text of the logged one. */
  lemma ReplacementExact(es: seq<Entry>, i: nat, e: Entry)
    requires DistinctIds(es) && i < |es|
    ensures (forall h: Digest :: FixedLength(h) ==> Passes(h, es, i, e)) <==> Text(e) == Text(es[i])
  {
    hide *;
    if Text(e) == Text(es[i]) {
      forall h: Digest | FixedLength(h) ensures Passes(h, es, i, e) {
        SameTextPasses(h, es, i, e);
      }
    } else {
      OtherTextFails(es, i, e);
      assert FixedLength(Marking(Text(es[i])));
    }
  }

  lemma Logged(h: Digest, es: seq<Entry>)
    requires DistinctIds(es)
    ensures var all := LogAll(h, [], es);
            |all| == |es| && ChainOk(h, all) && forall k :: 0 <= k < |es| ==> Text(all[k]) == Text(es[k])
  {
    assert [] + es == es && ChainOk(h, []) && DistinctIds([]);
    hide Text, ChainOk, DistinctIds, LogAll;
    AllLogged(h, [], es);
    ReachableVerifies(h, [], es);
  }

  lemma SameTextPasses(h: Digest, es: seq<Entry>, i: nat, e: Entry)
    requires DistinctIds(es) && i < |es| && Text(e) == Text(es[i])
    ensures Passes(h, es, i, e)
  {
    hide Text, ChainOk, LogAll, DistinctIds;
    Logged(h, es);
    var all := LogAll(h, [], es);
    SameText(all[i], e);
    OnlyTextMatters(h, all, Replaced(all, i, e));
  }

  lemma OtherTextFails(es: seq<Entry>, i: nat, e: Entry)
    requires DistinctIds(es) && i < |es| && Text(e) != Text(es[i])
    ensures !Passes(Marking(Text(es[i])), es, i, e)
  {
    hide Text, ChainOk, LogAll, DistinctIds, Marking;
    var h := Marking(Text(es[i]));
    Logged(h, es);
    ForgeryShows(LogAll(h, [], es), i, e);
  }

  lemma SameText(stored: Entry, e: Entry)
    ensures Text(e.(previousHash := stored.previousHash, hash := stored.hash)) == Text(e)
  {
  }

  lemma ForgeryShows(all: seq<Entry>, i: nat, e: Entry)
    requires i < |all| && Text(e) != Text(all[i]) && ChainOk(Marking(Text(all[i])), all)
    ensures !ChainOk(Marking(Text(all[i])), Replaced(all, i, e))
  {
    var h, forged := Marking(Text(all[i])), Replaced(all, i, e);
    hide Text, Marking;
    assert LinkOk(h, all, i);
    assert i > 0 ==> LinkOk(h, all, i - 1);
    var prev := all[i].previousHash;
    assert |prev| == HASH_LENGTH;
    SameText(all[i], e);
    Marks(prev, Text(all[i]), Text(all[i]));
    Marks(prev, Text(all[i]), Text(e));
    OnesDiffer();
    assert all[i].hash == ONES;
    assert forged[i].previousHash == prev && forged[i].hash == ONES && Text(forged[i]) == Text(e);
    assert ComputeHash(h, prev, forged[i]) == GENESIS;
    assert !LinkOk(h, forged, i);
  }

  /** The record passes in place of entry i whatever the digest. */
  ghost predicate PassesAlways(es: seq<Entry>, i: nat, e: Entry)
    requires DistinctIds(es) && i < |es|
  {
    forall h: Digest :: FixedLength(h) ==> Passes(h, es, i, e)
  }

  lemma Middle(front: string, x: string, y: string, back: string)
    ensures front + x + back == front + y + back <==> x == y
  {
    if front + x + back == front + y + back {
      var s, n := front + x + back, |front|;
      assert |x| == |y| && s[n..n + |x|] == x && (front + y + back)[n..n + |y|] == y;
    }
  }

  /**
   Every field is protected: a record that differs from the logged one in no more than one of the six hashed fields
   passes verification under every digest if and only if it does not differ there either.
   */
  lemma EveryFieldMatters(es: seq<Entry>, i: nat, x: string)
    requires DistinctIds(es) && i < |es|
    ensures PassesAlways(es, i, es[i].(timestamp := x)) <==> x == es[i].timestamp
    ensures PassesAlways(es, i, es[i].(action := x)) <==> x == es[i].action
    ensures PassesAlways(es, i, es[i].(actor := x)) <==> x == es[i].actor
    ensures PassesAlways(es, i, es[i].(resourceType := x)) <==> x == es[i].resourceType
    ensures PassesAlways(es, i, es[i].(resourceId := x)) <==> x == es[i].resourceId
    ensures PassesAlways(es, i, es[i].(details := x)) <==> x == es[i].details
  {
    var e := es[i];
    TextByField(e, x);
    hide Text, Passes;
    ReplacementExact(es, i, e.(timestamp := x));
    ReplacementExact(es, i, e.(action := x));
    ReplacementExact(es, i, e.(actor := x));
    ReplacementExact(es, i, e.(resourceType := x));
    ReplacementExact(es, i, e.(resourceId := x));
    ReplacementExact(es, i, e.(details := x));
  }

  lemma TextByField(e: Entry, x: string)
    ensures Text(e.(timestamp := x)) == Text(e) <==> x == e.timestamp
    ensures Text(e.(action := x)) == Text(e) <==> x == e.action
    ensures Text(e.(actor := x)) == Text(e) <==> x == e.actor
    ensures Text(e.(resourceType := x)) == Text(e) <==> x == e.resourceType
    ensures Text(e.(resourceId := x)) == Text(e) <==> x == e.resourceId
    ensures Text(e.(details := x)) == Text(e) <==> x == e.details
  {
    var a, b, c, d, f, g := e.timestamp, e.action, e.actor, e.resourceType, e.resourceId, e.details;
    TextIs(e);
    TextIs(e.(timestamp := x));
    TextIs(e.(action := x));
    TextIs(e.(actor := x));
    TextIs(e.(resourceType := x));
    TextIs(e.(resourceId := x));
    TextIs(e.(details := x));
    hide Text;
    Middle("", x, a, b + c + d + f + g);
    Middle(a, x, b, c + d + f + g);
    Middle(a + b, x, c, d + f + g);
    Middle(a + b + c, x, d, f + g);
    Middle(a + b + c + d, x, f, g);
    Middle(a + b + c + d + f, x, g, "");
  }

  /** The text in front of each field, the field, and the text behind it. */
  lemma TextIs(e: Entry)
    ensures var a, b, c, d, f, g := e.timestamp, e.action, e.actor, e.resourceType, e.resourceId, e.details;
            && Text(e) == "" + a + (b + c + d + f + g) == a + b + (c + d + f + g) == (a + b) + c + (d + f + g)
            && Text(e) == (a + b + c) + d + (f + g) == (a + b + c + d) + f + g == (a + b + c + d + f) + g + ""
  {
  }

  /** A field boundary moved in a logged entry goes unnoticed, whatever the digest. */
  lemma FieldShiftUndetected(h: Digest) returns (logged: Entry, forged: Entry)
    ensures ChainOk(h, [logged]) && ChainOk(h, [forged]) && logged.hash == forged.hash
    ensures logged.actor == "ab" && forged.actor == "a" && logged.resourceType == "c" && forged.resourceType == "bc"
  {
    var e := Entry("1", "t", "delete", "ab", "c", "7", "", "", "");
    logged := Log(h, [], e)[0];
    forged := logged.(actor := "a", resourceType := "bc");
    assert "ab" + "c" == "a" + "bc";
    assert Text(logged) == ("t" + "delete") + ("ab" + "c") + "7" + "";
    assert Text(forged) == ("t" + "delete") + ("a" + "bc") + "7" + "";
    assert [e][0] == e && !HasId([], "1");
    assert LinkOk(h, [logged], 0) && LinkOk(h, [forged], 0);
  }
}
