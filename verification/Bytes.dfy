/** Byte strings and the library search used by the stream splitters. */
module Bytes {

  type Byte = b: int | 0 <= b < 256

  type Bytes = seq<Byte>

  function Concat(parts: seq<Bytes>): Bytes {
    if parts == [] then [] else parts[0] + Concat(parts[1..])
  }

  lemma {:induction false} ConcatAppend(parts: seq<Bytes>, more: seq<Bytes>)
    ensures Concat(parts + more) == Concat(parts) + Concat(more)
  {
    if parts == [] {
      assert parts + more == more;
    } else {
      assert (parts + more)[1..] == parts[1..] + more;
      ConcatAppend(parts[1..], more);
    }
  }

  lemma ConcatSnoc(parts: seq<Bytes>, part: Bytes)
    ensures Concat(parts + [part]) == Concat(parts) + part
  {
    ConcatAppend(parts, [part]);
    assert Concat([part]) == part + Concat([]);
  }

  lemma Regroup<T>(a: seq<T>, b: seq<T>, c: seq<T>)
    ensures a + (b + c) == (a + b) + c
  {
  }

  predicate OccursAt(data: Bytes, pattern: Bytes, i: int) {
    0 <= i <= |data| - |pattern| && data[i..i + |pattern|] == pattern
  }

  /** bytes.Index: the first occurrence, or -1. */
  function Index(data: Bytes, pattern: Bytes): (r: int)
    ensures r == -1 || OccursAt(data, pattern, r)
    ensures forall i :: OccursAt(data, pattern, i) ==> 0 <= r <= i
  {
    IndexFrom(data, pattern, 0)
  }

  function IndexFrom(data: Bytes, pattern: Bytes, from: nat): (r: int)
    requires from <= |data|
    ensures r == -1 || (r >= from && OccursAt(data, pattern, r))
    ensures forall i :: i >= from && OccursAt(data, pattern, i) ==> 0 <= r <= i
    decreases |data| - from
  {
    if OccursAt(data, pattern, from) then from
    else if from == |data| then -1
    else IndexFrom(data, pattern, from + 1)
  }

  /** An occurrence is the same in every prefix that is long enough to hold it. */
  lemma OccursInPrefix(data: Bytes, pattern: Bytes, n: nat, i: int)
    requires n <= |data|
    ensures OccursAt(data[..n], pattern, i) <==> OccursAt(data, pattern, i) && i + |pattern| <= n
  {
    if 0 <= i <= n - |pattern| {
      assert data[..n][i..i + |pattern|] == data[i..i + |pattern|];
    }
  }

  lemma OccursInSuffix(data: Bytes, pattern: Bytes, from: nat, i: int)
    requires from <= |data| && 0 <= i
    ensures OccursAt(data[from..], pattern, i) <==> OccursAt(data, pattern, from + i)
  {
    if i <= |data| - from - |pattern| {
      assert data[from..][i..i + |pattern|] == data[from + i..from + i + |pattern|];
    }
  }

  /** A pattern found in a prefix is found at the same place in every longer prefix. */
  lemma IndexStable(data: Bytes, pattern: Bytes, m: nat, n: nat)
    requires m <= n <= |data| && Index(data[..m], pattern) >= 0
    ensures Index(data[..n], pattern) == Index(data[..m], pattern)
  {
    var r, r' := Index(data[..m], pattern), Index(data[..n], pattern);
    OccursInPrefix(data, pattern, m, r);
    OccursInPrefix(data, pattern, n, r);
    OccursInPrefix(data, pattern, n, r');
    OccursInPrefix(data, pattern, m, r');
  }
}
