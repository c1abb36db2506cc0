/**
 bufio.Scanner as services/ingest/main.go drives it: a window of unconsumed bytes, a split function, a
 size limit, and a reader that hands over the stream in pieces of unpredictable size.
 */
module Scanner {
  import opened Bytes

  /** What a split function answers: ask for more input, or emit a token and advance. */
  datatype Step = More | Token(advance: nat, token: Bytes)

  type Splitter = (Bytes, bool) -> Step

  /** Tokens consume at least one byte and never more than the window holds. */
  ghost predicate Progress(split: Splitter) {
    forall data, eof :: split(data, eof).Token? ==> 0 < split(data, eof).advance <= |data|
  }

  function Min(a: nat, b: nat): nat { if a <= b then a else b }

  /** How many bytes the n-th read delivers: at least one, at most what fits. */
  function ReadSize(cut: nat -> nat, n: nat, fits: nat): (k: nat)
    requires fits > 0
    ensures 0 < k <= fits
  {
    if cut(n) == 0 then 1 else Min(cut(n), fits)
  }

  /** The tokens of a scan that holds window, with rest still unread; cut(n) is the n-th read's size. */
  function Run(split: Splitter, limit: nat, window: Bytes, rest: Bytes, eof: bool, cut: nat -> nat, n: nat)
    : seq<Bytes>
    requires Progress(split)
    decreases |rest|, !eof, |window|
  {
    match (if window != [] || eof then split(window, eof) else More)
    case Token(advance, token) =>
      [token] + Run(split, limit, window[advance..], rest, eof, cut, n)
    case More =>
      if eof || |window| >= limit then []
      else if rest == [] then Run(split, limit, window, rest, true, cut, n)
      else
        var k := ReadSize(cut, n, Min(|rest|, limit - |window|));
        Run(split, limit, window + rest[..k], rest[k..], eof, cut, n + 1)
  }

  // Single steps of a run.

  lemma RunToken(split: Splitter, limit: nat, window: Bytes, rest: Bytes, eof: bool, cut: nat -> nat, n: nat)
    requires Progress(split) && (window != [] || eof) && split(window, eof).Token?
    ensures Run(split, limit, window, rest, eof, cut, n)
         == [split(window, eof).token] + Run(split, limit, window[split(window, eof).advance..], rest, eof, cut, n)
  {
  }

  lemma RunMore(split: Splitter, limit: nat, window: Bytes, rest: Bytes, eof: bool, cut: nat -> nat, n: nat)
    requires Progress(split) && ((window == [] && !eof) || split(window, eof).More?)
    ensures var run := Run(split, limit, window, rest, eof, cut, n);
            if eof || |window| >= limit then run == []
            else if rest == [] then run == Run(split, limit, window, rest, true, cut, n)
            else
              var k := ReadSize(cut, n, Min(|rest|, limit - |window|));
              run == Run(split, limit, window + rest[..k], rest[k..], eof, cut, n + 1)
  {
  }

  lemma Recut(window: Bytes, rest: Bytes, k: nat)
    requires k <= |rest|
    ensures (window + rest[..k]) + rest[k..] == window + rest
  {
  }

  /** The Scan loop: try the window, otherwise read more, until end of input or a full window. */
  method Scan(split: Splitter, limit: nat, stream: Bytes, cut: nat -> nat) returns (tokens: seq<Bytes>)
    requires Progress(split)
    ensures tokens == Run(split, limit, [], stream, false, cut, 0)
  {
    tokens := [];
    var window: Bytes, rest, eof, n := [], stream, false, 0;
    ghost var all := Run(split, limit, window, rest, eof, cut, n);
    while true
      invariant tokens + Run(split, limit, window, rest, eof, cut, n) == all
      decreases |rest|, !eof, |window|
    {
      var step := More;
      if window != [] || eof {
        step := split(window, eof);
      }
      if step.Token? {
        Regroup(tokens, [step.token], Run(split, limit, window[step.advance..], rest, eof, cut, n));
        tokens := tokens + [step.token];
        window := window[step.advance..];
      } else if eof || |window| >= limit {
        return;
      } else if rest == [] {
        eof := true;
      } else {
        var k := ReadSize(cut, n, Min(|rest|, limit - |window|));
        window, rest, n := window + rest[..k], rest[k..], n + 1;
      }
    }
  }

  /** The same tokens read off the whole stream at once, without any notion of reads. */
  function Tokens(split: Splitter, limit: nat, data: Bytes): seq<Bytes>
    requires Progress(split)
    decreases |data|
  {
    match split(data[..Min(limit, |data|)], false)
    case Token(advance, token) => [token] + Tokens(split, limit, data[advance..])
    case More =>
      if |data| >= limit then []
      else match split(data, true)
        case Token(advance, token) => [token] + Tokens(split, limit, data[advance..])
        case More => []
  }

  /** A window the scanner may hold at the front of s; end of input is seen only with all of s in the window. */
  ghost predicate IsWindow(s: Bytes, limit: nat, n: nat, eof: bool) {
    n <= |s| && n <= limit && (eof ==> n == |s|)
  }

  /** On streams that are good for the limit, a token seen in a short window is the one seen in every longer one. */
  ghost predicate Stable(split: Splitter, good: (Bytes, nat) -> bool) {
    && Progress(split)
    && (forall s, limit, i, j, eof :: good(s, limit) && StableAt(split, s, limit, i, j, eof) ==>
          split(s[..j], eof) == split(s[..i], false))
    && (forall s, limit, n, eof :: good(s, limit) && IsWindow(s, limit, n, eof) && split(s[..n], eof).Token? ==>
          good(s[split(s[..n], eof).advance..], limit))
  }

  ghost predicate StableAt(split: Splitter, s: Bytes, limit: nat, i: nat, j: nat, eof: bool) {
    i <= j && IsWindow(s, limit, j, eof) && split(s[..i], false).Token?
  }

  /** A token found in a window is the one found in the longest window, and at end of input. */
  lemma StableToken(split: Splitter, good: (Bytes, nat) -> bool, s: Bytes, limit: nat, i: nat)
    requires Stable(split, good) && good(s, limit) && IsWindow(s, limit, i, false) && split(s[..i], false).Token?
    ensures split(s[..Min(limit, |s|)], false) == split(s[..i], false)
    ensures |s| <= limit ==> split(s, true) == split(s[..i], false)
  {
    assert s[..|s|] == s;
    assert StableAt(split, s, limit, i, Min(limit, |s|), false);
    assert |s| <= limit ==> StableAt(split, s, limit, i, |s|, true);
  }

  lemma GoodRest(split: Splitter, good: (Bytes, nat) -> bool, s: Bytes, limit: nat, n: nat, eof: bool)
    requires Stable(split, good) && good(s, limit) && IsWindow(s, limit, n, eof) && split(s[..n], eof).Token?
    ensures split(s[..n], eof).advance <= n && good(s[split(s[..n], eof).advance..], limit)
  {
  }

  /** Chunk independence: however the stream is cut into reads, a stable splitter yields the same tokens. */
  lemma {:induction false} CutIndependent(split: Splitter, good: (Bytes, nat) -> bool, limit: nat, window: Bytes,
                                          rest: Bytes, eof: bool, cut: nat -> nat, n: nat)
    requires Stable(split, good) && good(window + rest, limit)
    requires |window| <= limit && (eof ==> rest == [] && |window| < limit)
    ensures Run(split, limit, window, rest, eof, cut, n) == Tokens(split, limit, window + rest)
    decreases |rest|, !eof, |window|
  {
    assert Progress(split);
    hide Stable;
    var data, i := window + rest, |window|;
    assert data[..i] == window && data[..|data|] == data;
    var step := if window != [] || eof then split(window, eof) else More;
    if split(window, false).Token? {
      StableToken(split, good, data, limit, i);
    }
    if step.Token? {
      var a := step.advance;
      assert data[a..] == window[a..] + rest;
      GoodRest(split, good, data, limit, i, eof);
      CutIndependent(split, good, limit, window[a..], rest, eof, cut, n);
    } else if eof || |window| >= limit {
    } else if rest == [] {
      CutIndependent(split, good, limit, window, rest, true, cut, n);
    } else {
      var k := ReadSize(cut, n, Min(|rest|, limit - |window|));
      Recut(window, rest, k);
      CutIndependent(split, good, limit, window + rest[..k], rest[k..], eof, cut, n + 1);
    }
  }
}
