/**
 The H.264 byte-stream splitter of services/ingest/main.go (Annex B of ITU-T H.264): NAL units are
 delimited by three-byte (00 00 01) or four-byte (00 00 00 01) start codes.
 */
module AnnexB {
  import opened Bytes
  import opened Scanner

  const SC3: Bytes := [0, 0, 1]
  const SC4: Bytes := [0, 0, 0, 1]

  /** A four-byte code anywhere is preferred to a three-byte code, even to an earlier one. */
  function NalStartCodeIndex(data: Bytes): int {
    if Index(data, SC4) >= 0 then Index(data, SC4) else Index(data, SC3)
  }

  function NalStartCodeLen(data: Bytes): nat {
    if |data| >= 4 && data[0] == 0 && data[1] == 0 && data[2] == 0 && data[3] == 1 then 4
    else if |data| >= 3 && data[0] == 0 && data[1] == 0 && data[2] == 1 then 3
    else 0
  }

  function Split(data: Bytes, eof: bool): Step {
    if eof && data == [] then More
    else
      var start := NalStartCodeIndex(data);
      if start < 0 then (if eof then Token(|data|, data) else More)
      else
        var from := start + NalStartCodeLen(data[start..]);
        var next := NalStartCodeIndex(data[from..]);
        if next < 0 then (if eof then Token(|data|, data) else More)
        else Token(from + next, data[start..from + next])
  }

  // ----- Start codes by position -----

  predicate Three(s: Bytes, i: int) {
    0 <= i && i + 3 <= |s| && s[i] == 0 && s[i + 1] == 0 && s[i + 2] == 1
  }

  predicate Four(s: Bytes, i: int) {
    0 <= i && i + 4 <= |s| && s[i] == 0 && s[i + 1] == 0 && s[i + 2] == 0 && s[i + 3] == 1
  }

  /** A three-byte code that is not the tail of a four-byte one. */
  predicate LoneThree(s: Bytes, i: int) {
    Three(s, i) && (i > 0 ==> s[i - 1] != 0)
  }

  /** Where a NAL unit begins. */
  predicate Code(s: Bytes, i: int) {
    Four(s, i) || LoneThree(s, i)
  }

  /** A three-byte code and a four-byte one behind it that a window beginning with the first can show. */
  ghost predicate Clash(s: Bytes, limit: nat, i: int, j: int) {
    LoneThree(s, i) && Four(s, j) && i < j && j + 4 <= i + limit
  }

  /** No window that begins with a three-byte code shows a four-byte one. */
  ghost predicate FourFirst(s: Bytes, limit: nat) {
    forall i, j :: !Clash(s, limit, i, j)
  }

  /** The streams that are cut into NAL units whatever the reads: see SplitExact. */
  ghost predicate Splittable(s: Bytes, limit: nat) {
    s == [] || (NalStartCodeLen(s) > 0 && FourFirst(s, limit))
  }

  lemma FirstThree(s: Bytes)
    ensures var r := Index(s, SC3); (r == -1 || Three(s, r)) && forall i :: Three(s, i) ==> 0 <= r <= i
  {
    var r := Index(s, SC3);
    if r != -1 {
      assert s[r..r + 3] == SC3;
      assert s[r] == s[r..r + 3][0] && s[r + 1] == s[r..r + 3][1] && s[r + 2] == s[r..r + 3][2];
    }
    forall i | Three(s, i) ensures 0 <= r <= i {
      assert OccursAt(s, SC3, i);
    }
  }

  lemma FirstFour(s: Bytes)
    ensures var r := Index(s, SC4); (r == -1 || Four(s, r)) && forall i :: Four(s, i) ==> 0 <= r <= i
  {
    var r := Index(s, SC4);
    if r != -1 {
      assert s[r..r + 4] == SC4;
      assert s[r] == s[r..r + 4][0] && s[r + 1] == s[r..r + 4][1] && s[r + 2] == s[r..r + 4][2];
      assert s[r + 3] == s[r..r + 4][3];
    }
    forall i | Four(s, i) ensures 0 <= r <= i {
      assert OccursAt(s, SC4, i);
    }
  }

  /** The code that NalStartCodeIndex finds: the first four-byte one, else the first three-byte one. */
  ghost predicate Finds(s: Bytes, r: int) {
    if exists i :: Four(s, i) then Four(s, r) && forall i :: Four(s, i) ==> r <= i
    else if exists i :: Three(s, i) then Three(s, r) && forall i :: Three(s, i) ==> r <= i
    else r == -1
  }

  lemma IndexFinds(s: Bytes)
    ensures Finds(s, NalStartCodeIndex(s))
  {
    hide Index, Three, Four;
    FirstThree(s);
    FirstFour(s);
  }

  lemma FindsUnique(s: Bytes, r: int, r': int)
    requires Finds(s, r) && Finds(s, r')
    ensures r == r'
  {
  }

  // ----- One step on a splittable stream -----

  /** On a splittable stream the window starts with the code that is found. */
  lemma StartsAtZero(s: Bytes, limit: nat, n: nat)
    requires NalStartCodeLen(s) > 0 && FourFirst(s, limit) && NalStartCodeLen(s) <= n <= |s| && n <= limit
    ensures NalStartCodeIndex(s[..n]) == 0 && NalStartCodeLen(s[..n]) == NalStartCodeLen(s)
  {
    var d := s[..n];
    IndexFinds(d);
    if Four(s, 0) {
      assert Four(d, 0);
    } else {
      assert LoneThree(s, 0) && Three(d, 0);
      forall i ensures !Four(d, i) {
        assert Four(d, i) ==> Clash(s, limit, 0, i);
      }
    }
    assert Finds(d, 0);
    FindsUnique(d, NalStartCodeIndex(d), 0);
  }

  /** No code can be found in a window shorter than the leading code. */
  lemma TooShort(s: Bytes, n: nat)
    requires n <= |s| && n < NalStartCodeLen(s)
    ensures NalStartCodeIndex(s[..n]) == -1
  {
    var d := s[..n];
    IndexFinds(d);
    assert forall i :: !Four(d, i) && !Three(d, i);
  }

  lemma CodesInSlice(s: Bytes, lo: nat, hi: nat, i: int)
    requires lo <= hi <= |s|
    ensures Four(s[lo..hi], i) <==> 0 <= i && Four(s, lo + i) && lo + i + 4 <= hi
    ensures Three(s[lo..hi], i) <==> 0 <= i && Three(s, lo + i) && lo + i + 3 <= hi
  {
  }

  /** A three-byte code found because there is no four-byte one is not the tail of a four-byte one. */
  lemma FoundThreeIsLone(s: Bytes, m: nat, r: int)
    requires NalStartCodeLen(s) > 0 && NalStartCodeLen(s) <= m <= |s|
    requires var d := s[NalStartCodeLen(s)..m]; Three(d, r) && forall i :: !Four(d, i)
    ensures LoneThree(s, NalStartCodeLen(s) + r)
  {
    var from := NalStartCodeLen(s);
    CodesInSlice(s, from, m, r);
    CodesInSlice(s, from, m, r - 1);
  }

  /** The next start code found in a window stays the one found when the window grows. */
  lemma NextStable(s: Bytes, limit: nat, m: nat, n: nat)
    requires NalStartCodeLen(s) > 0 && FourFirst(s, limit) && NalStartCodeLen(s) <= m <= n <= |s| && n <= limit
    requires NalStartCodeIndex(s[NalStartCodeLen(s)..m]) >= 0
    ensures NalStartCodeIndex(s[NalStartCodeLen(s)..n]) == NalStartCodeIndex(s[NalStartCodeLen(s)..m])
  {
    var from := NalStartCodeLen(s);
    var d, e := s[from..m], s[from..n];
    var r := NalStartCodeIndex(d);
    IndexFinds(d);
    IndexFinds(e);
    CodesInSlice(s, from, m, r);
    CodesInSlice(s, from, n, r);
    if !Four(d, r) {
      FoundThreeIsLone(s, m, r);
    }
    forall i | 0 <= i < r || (Four(e, i) && !Four(d, r))
      ensures Four(e, i) ==> Four(d, i)
      ensures Three(e, i) && i < r ==> Three(d, i)
    {
      CodesInSlice(s, from, m, i);
      CodesInSlice(s, from, n, i);
      assert Four(e, i) && !Four(d, r) && r < i ==> Clash(s, limit, from + r, from + i);
    }
    assert Finds(e, r);
    FindsUnique(e, r, NalStartCodeIndex(e));
  }

  /** On a splittable stream a window yields a token exactly when it shows a second start code. */
  lemma SplitWindow(s: Bytes, limit: nat, n: nat, eof: bool)
    requires s != [] && Splittable(s, limit) && IsWindow(s, limit, n, eof)
    ensures var from := NalStartCodeLen(s);
            var next := if from <= n then NalStartCodeIndex(s[from..n]) else -1;
            Split(s[..n], eof) == if next >= 0 then Token(from + next, s[..from + next])
                                  else if eof then Token(|s|, s) else More
  {
    var d, from := s[..n], NalStartCodeLen(s);
    if from <= n {
      StartsAtZero(s, limit, n);
      SplitInFront(d, eof, from);
      assert d[from..] == s[from..n];
      var next := NalStartCodeIndex(d[from..]);
      if next >= 0 {
        FoundInside(d[from..]);
        assert d[..from + next] == s[..from + next];
      }
    } else {
      TooShort(s, n);
    }
  }

  lemma FoundInside(data: Bytes)
    ensures -1 <= NalStartCodeIndex(data) <= |data|
  {
    IndexFinds(data);
  }

  /** What the splitter does with a window whose first start code is found in front. */
  lemma SplitInFront(data: Bytes, eof: bool, from: nat)
    requires data != [] && NalStartCodeIndex(data) == 0 && from == NalStartCodeLen(data) <= |data|
    ensures var next := NalStartCodeIndex(data[from..]);
            && next <= |data| - from
            && Split(data, eof) == if next >= 0 then Token(from + next, data[..from + next])
                                   else if eof then Token(|data|, data) else More
  {
    FoundInside(data[from..]);
    hide NalStartCodeIndex, NalStartCodeLen;
    assert data[0..] == data;
  }

  lemma SplitProgress()
    ensures Progress(Split)
  {
    forall data, eof | Split(data, eof).Token? ensures 0 < Split(data, eof).advance <= |data| {
      IndexFinds(data);
      var start := NalStartCodeIndex(data);
      if start >= 0 {
        IndexFinds(data[start + NalStartCodeLen(data[start..])..]);
      }
    }
  }

  /** A stream cut before its second start code: the unit in front holds one code, and the rest is splittable. */
  lemma UnitThenRest(s: Bytes, limit: nat, n: nat, a: nat)
    requires NalStartCodeLen(s) > 0 && FourFirst(s, limit) && NalStartCodeLen(s) <= n <= |s| && n <= limit
    requires NalStartCodeLen(s) <= a && Finds(s[NalStartCodeLen(s)..n], a - NalStartCodeLen(s))
    ensures a < n && Code(s, a) && OneCode(s[..a]) && Splittable(s[a..], limit)
  {
    var from, d := NalStartCodeLen(s), s[NalStartCodeLen(s)..n];
    CodesInSlice(s, from, n, a - from);
    if !Four(s, a) {
      CodesInSlice(s, from, n, a - from - 1);
    }
    assert Code(s, a);
    RestFourFirst(s, limit, a);
    forall i: int | from <= i ensures !Three(s[..a], i) {
      CodesInSlice(s, from, n, i - from);
      CodesInSlice(s, from, n, i - 1 - from);
      assert Three(s[..a], i) ==> Clash(s, limit, i, a);
    }
  }

  /** Cutting before a start code loses no condition. */
  lemma RestFourFirst(s: Bytes, limit: nat, a: nat)
    requires FourFirst(s, limit) && Code(s, a)
    ensures NalStartCodeLen(s[a..]) > 0 && FourFirst(s[a..], limit)
  {
    var rest := s[a..];
    forall i, j ensures !Clash(rest, limit, i, j) {
      assert Clash(rest, limit, i, j) ==> Clash(s, limit, a + i, a + j);
    }
  }

  lemma TokenStable(s: Bytes, limit: nat, i: nat, j: nat, eof: bool)
    requires Splittable(s, limit) && StableAt(Split, s, limit, i, j, eof)
    ensures Split(s[..j], eof) == Split(s[..i], false)
  {
    hide Split, NalStartCodeLen, NalStartCodeIndex, FourFirst;
    EmptyNeverSplits(s[..i]);
    assert NalStartCodeLen(s) > 0 && FourFirst(s, limit);
    assert i <= j && IsWindow(s, limit, i, false) && IsWindow(s, limit, j, eof) && j <= |s| && j <= limit;
    hide *;
    SplitWindow(s, limit, i, false);
    SplitWindow(s, limit, j, eof);
    NextStable(s, limit, i, j);
  }

  /** A token of a splittable stream is its first NAL unit; the rest begins with a code and is splittable. */
  lemma TokenSplits(s: Bytes, limit: nat, n: nat, eof: bool)
    requires Splittable(s, limit) && IsWindow(s, limit, n, eof) && Split(s[..n], eof).Token?
    ensures var a := Split(s[..n], eof).advance;
            && a <= |s| && Split(s[..n], eof).token == s[..a] && OneCode(s[..a]) && Splittable(s[a..], limit)
            && (a < |s| ==> Code(s, a))
  {
    assert s != [];
    SplitWindow(s, limit, n, eof);
    var from, a := NalStartCodeLen(s), Split(s[..n], eof).advance;
    hide Split, NalStartCodeIndex, NalStartCodeLen, Finds, FourFirst, Four, Three;
    IndexFinds(s[from..n]);
    if NalStartCodeIndex(s[from..n]) >= 0 {
      UnitThenRest(s, limit, n, a);
    } else {
      assert a == |s| == n && s[..|s|] == s && s[|s|..] == [];
      LastUnit(s);
    }
  }

  lemma LastUnit(s: Bytes)
    requires NalStartCodeLen(s) > 0 && NalStartCodeIndex(s[NalStartCodeLen(s)..|s|]) < 0
    ensures OneCode(s)
  {
    var from := NalStartCodeLen(s);
    IndexFinds(s[from..|s|]);
    forall i: int | from <= i ensures !Three(s, i) {
      CodesInSlice(s, from, |s|, i - from);
    }
  }

  /** Exactly one start code, at the front. */
  ghost predicate OneCode(t: Bytes) {
    NalStartCodeLen(t) > 0 && forall i :: NalStartCodeLen(t) <= i ==> !Three(t, i)
  }

  lemma SplitStable()
    ensures Stable(Split, Splittable)
  {
    SplitProgress();
    hide Split, Splittable;
    forall s, limit, i, j, eof | Splittable(s, limit) && StableAt(Split, s, limit, i, j, eof)
      ensures Split(s[..j], eof) == Split(s[..i], false)
    {
      TokenStable(s, limit, i, j, eof);
    }
    forall s, limit, n, eof | Splittable(s, limit) && IsWindow(s, limit, n, eof) && Split(s[..n], eof).Token?
      ensures Splittable(s[Split(s[..n], eof).advance..], limit)
    {
      TokenSplits(s, limit, n, eof);
    }
  }

  // ----- Whole streams -----

  /** A unit that begins with a three-byte code does not leave a zero byte of a four-byte code behind. */
  predicate Seam(before: Bytes, unit: Bytes) {
    before != [] && NalStartCodeLen(unit) == 3 ==> before[|before| - 1] != 0
  }

  ghost predicate AreUnits(tokens: seq<Bytes>) {
    tokens == [] ||
    (OneCode(tokens[0]) && AreUnits(tokens[1..]) && (|tokens| > 1 ==> Seam(tokens[0], tokens[1])))
  }

  /** The tokens are the stream cut before every start code but the first; UnitsUnique: there is one such cut. */
  ghost predicate WellFramed(tokens: seq<Bytes>, s: Bytes) {
    Concat(tokens) == s && AreUnits(tokens)
  }

  /** The first unit, or it and the code after it, do not fit the window. */
  ghost predicate TooLong(s: Bytes, limit: nat) {
    limit <= |s| && forall v :: 0 < v && Code(s, v) ==> limit < v + NalStartCodeLen(s[v..])
  }

  /** Every NAL unit fits the window. */
  ghost predicate Fits(s: Bytes, limit: nat) {
    forall u :: 0 <= u <= |s| && Code(s, u) ==> !TooLong(s[u..], limit)
  }

  lemma ConcatCons(t: Bytes, tokens: seq<Bytes>)
    ensures Concat([t] + tokens) == t + Concat(tokens)
  {
    assert ([t] + tokens)[1..] == tokens;
  }

  /** The units of a stream begin with the code that the stream begins with. */
  lemma LeadingCode(tokens: seq<Bytes>, s: Bytes)
    requires AreUnits(tokens) && tokens != [] && |Concat(tokens)| <= |s| && Concat(tokens) == s[..|Concat(tokens)|]
    ensures |tokens[0]| <= |s| && tokens[0] == s[..|tokens[0]|]
    ensures NalStartCodeLen(s) == NalStartCodeLen(tokens[0]) > 0
  {
    assert Concat(tokens)[..|tokens[0]|] == tokens[0];
  }

  lemma ConsUnits(t: Bytes, tokens: seq<Bytes>)
    ensures AreUnits([t] + tokens) <==> OneCode(t) && AreUnits(tokens) && (tokens != [] ==> Seam(t, tokens[0]))
  {
    assert ([t] + tokens)[1..] == tokens;
  }

  /** Behind a unit, start codes are those of the rest of the stream. */
  lemma CodesBehind(s: Bytes, a: nat, u: int)
    requires Code(s, a) && u >= 0
    ensures Code(s[a..], u) <==> Code(s, a + u)
  {
  }

  lemma CodesInFront(s: Bytes, a: nat, u: int)
    requires 0 < a <= |s| && OneCode(s[..a]) && (a < |s| ==> Code(s, a)) && 0 < u < a
    ensures !Code(s, u)
  {
    assert NalStartCodeLen(s[..a]) == NalStartCodeLen(s);
    assert Three(s, u) && u + 3 <= a ==> Three(s[..a], u);
    assert Four(s, u) && u + 4 <= a ==> Three(s[..a], u + 1);
  }

  lemma FitsBehind(s: Bytes, limit: nat, a: nat)
    requires 0 < a <= |s| && OneCode(s[..a]) && (a < |s| ==> Code(s, a)) && !TooLong(s, limit)
    ensures Fits(s, limit) <==> Fits(s[a..], limit)
  {
    hide Code, TooLong, OneCode;
    if Fits(s, limit) {
      forall u | 0 <= u <= |s[a..]| && Code(s[a..], u) ensures !TooLong(s[a..][u..], limit) {
        CodeBound(s[a..], u);
        CodesBehind(s, a, u);
        assert s[a..][u..] == s[a + u..];
      }
    }
    if Fits(s[a..], limit) {
      forall u | 0 <= u <= |s| && Code(s, u) ensures !TooLong(s[u..], limit) {
        CodeBound(s, u);
        if 0 < u < a {
          CodesInFront(s, a, u);
        } else if u == 0 {
          assert s[0..] == s;
        } else {
          CodesBehind(s, a, u - a);
          assert s[a..][u - a..] == s[u..];
        }
      }
    }
  }

  lemma CodeBound(s: Bytes, u: int)
    requires Code(s, u)
    ensures 0 <= u <= |s| - 3
  {
  }

  /** A full window that yields nothing holds no second code. */
  lemma FullWindow(s: Bytes, limit: nat)
    requires s != [] && Splittable(s, limit) && limit <= |s|
    ensures Split(s[..limit], false).More? <==> TooLong(s, limit)
  {
    SplitWindow(s, limit, limit, false);
    hide Split;
    var from := NalStartCodeLen(s);
    if from <= limit {
      IndexFinds(s[from..limit]);
      var next := NalStartCodeIndex(s[from..limit]);
      if next >= 0 {
        UnitThenRest(s, limit, limit, from + next);
        CodesInSlice(s, from, limit, next);
      } else {
        forall v | 0 < v && Code(s, v) ensures limit < v + NalStartCodeLen(s[v..]) {
          CodesInSlice(s, from, limit, v - from);
        }
      }
    }
  }

  /** On a splittable stream the tokens are its NAL units, and all of them exactly when every unit fits the window. */
  lemma {:induction false} TokensAreUnits(s: Bytes, limit: nat) returns (tail: Bytes)
    requires Progress(Split) && Splittable(s, limit)
    ensures var tokens := Tokens(Split, limit, s);
            AreUnits(tokens) && Concat(tokens) + tail == s
    ensures tail == [] || TooLong(tail, limit)
    ensures tail == [] <==> Fits(s, limit)
    decreases |s|
  {
    hide OneCode, Splittable, AreUnits, Split, TooLong, Fits, Code;
    var h := Scanner.Min(limit, |s|);
    assert s[..|s|] == s;
    var first, last := Split(s[..h], false), Split(s, true);
    if first.Token? || (|s| < limit && last.Token?) {
      var n, eof := if first.Token? then h else |s|, !first.Token?;
      var a := Split(s[..n], eof).advance;
      TokenSplits(s, limit, n, eof);
      tail := TokensAreUnits(s[a..], limit);
      var tokens := Tokens(Split, limit, s[a..]);
      FirstUnit(s, a, tokens, tail);
      NotTooLong(s, limit, n, eof);
      FitsBehind(s, limit, a);
    } else {
      tail := s;
      NoToken(s, limit);
    }
  }

  lemma NotTooLong(s: Bytes, limit: nat, n: nat, eof: bool)
    requires if eof then |s| < limit && n == |s| else n == Scanner.Min(limit, |s|)
    requires Splittable(s, limit) && Split(s[..n], eof).Token?
    ensures !TooLong(s, limit)
  {
    hide Split, TooLong, Splittable;
    if limit <= |s| {
      EmptyNeverSplits(s[..n]);
      FullWindow(s, limit);
    } else {
      TooLongIsLong(s, limit);
    }
  }

  lemma EmptyNeverSplits(data: Bytes)
    ensures Split(data, false).Token? ==> data != []
  {
  }

  lemma TooLongIsLong(s: Bytes, limit: nat)
    ensures TooLong(s, limit) ==> limit <= |s|
  {
  }

  lemma FirstUnit(s: Bytes, a: nat, tokens: seq<Bytes>, tail: Bytes)
    requires 0 < a <= |s| && OneCode(s[..a]) && (a < |s| ==> Code(s, a))
    requires AreUnits(tokens) && Concat(tokens) + tail == s[a..]
    ensures AreUnits([s[..a]] + tokens) && Concat([s[..a]] + tokens) + tail == s
  {
    hide *;
    ConsUnits(s[..a], tokens);
    ConcatCons(s[..a], tokens);
    Rejoin(s, a, Concat(tokens), tail);
    if tokens != [] {
      Prefix(Concat(tokens), tail, s[a..]);
      LeadingCode(tokens, s[a..]);
      SeamAt(s, a, tokens[0]);
    }
  }

  lemma Rejoin(s: Bytes, a: nat, middle: Bytes, tail: Bytes)
    requires a <= |s| && middle + tail == s[a..]
    ensures (s[..a] + middle) + tail == s
  {
  }

  lemma Prefix(front: Bytes, back: Bytes, s: Bytes)
    requires front + back == s
    ensures |front| <= |s| && front == s[..|front|]
  {
  }

  /** A unit that begins at a start code of the stream leaves no zero byte of it behind. */
  lemma SeamAt(s: Bytes, a: nat, unit: Bytes)
    requires 0 < a <= |s| && (a < |s| ==> Code(s, a)) && NalStartCodeLen(unit) == NalStartCodeLen(s[a..])
    ensures Seam(s[..a], unit)
  {
    assert s[..a][a - 1] == s[a - 1];
  }

  lemma NoToken(s: Bytes, limit: nat)
    requires Progress(Split) && Splittable(s, limit) && Split(s[..Scanner.Min(limit, |s|)], false).More?
    requires |s| < limit ==> Split(s, true).More?
    ensures Tokens(Split, limit, s) == [] && AreUnits([]) && Concat([]) + s == s
    ensures (s == [] || TooLong(s, limit)) && (s == [] <==> Fits(s, limit))
  {
    if s != [] {
      assert limit <= |s|;
      FullWindow(s, limit);
      assert Code(s, 0) && s[0..] == s;
    }
  }

  lemma {:induction false} UnitsUnique(a: seq<Bytes>, b: seq<Bytes>, s: Bytes)
    requires WellFramed(a, s) && WellFramed(b, s)
    ensures a == b
    decreases |a|
  {
    hide OneCode, Seam;
    if a != [] && b != [] {
      FirstNotShorter(a, b, s);
      FirstNotShorter(b, a, s);
      assert a[0] == s[..|a[0]|] && b[0] == s[..|b[0]|];
      assert Concat(a[1..]) == s[|a[0]|..] == Concat(b[1..]);
      UnitsUnique(a[1..], b[1..], s[|a[0]|..]);
      assert a == [a[0]] + a[1..] && b == [b[0]] + b[1..];
    } else {
      if a != [] { NonEmpty(a); }
      if b != [] { NonEmpty(b); }
    }
  }

  lemma NonEmpty(tokens: seq<Bytes>)
    requires AreUnits(tokens) && tokens != []
    ensures tokens[0] != []
  {
  }

  /** Where the units go on behind the first one, a start code is found. */
  lemma SecondCode(tokens: seq<Bytes>, s: Bytes)
    requires WellFramed(tokens, s) && tokens != []
    ensures var n := |tokens[0]|;
            0 < n <= |s| && tokens[0] == s[..n] && OneCode(s[..n]) && (n < |s| ==> Code(s, n))
  {
    var n := |tokens[0]|;
    assert s == tokens[0] + Concat(tokens[1..]);
    if n < |s| {
      assert Concat(tokens[1..]) == s[n..] && tokens[1..] != [];
      assert s[n..] == s[n..][..|s[n..]|];
      LeadingCode(tokens[1..], s[n..]);
    }
  }

  lemma FirstNotShorter(a: seq<Bytes>, b: seq<Bytes>, s: Bytes)
    requires WellFramed(a, s) && WellFramed(b, s) && a != [] && b != []
    ensures |a[0]| >= |b[0]|
  {
    hide OneCode, Seam, Code, WellFramed;
    SecondCode(a, s);
    SecondCode(b, s);
    if |a[0]| < |b[0]| {
      CodesInFront(s, |b[0]|, |a[0]|);
    }
  }

  /** The scan of publishH264: on a splittable stream its tokens are the NAL units, whatever the reads. */
  method Units(stream: Bytes, limit: nat, cut: nat -> nat) returns (nals: seq<Bytes>)
    ensures Progress(Split) && nals == Run(Split, limit, [], stream, false, cut, 0)
    ensures Splittable(stream, limit) ==> nals == Tokens(Split, limit, stream)
    ensures Splittable(stream, limit) ==>
              exists tail :: AreUnits(nals) && Concat(nals) + tail == stream && (tail == [] || TooLong(tail, limit))
    ensures Splittable(stream, limit) ==> (WellFramed(nals, stream) <==> Fits(stream, limit))
  {
    hide Split, AreUnits, TooLong, Fits;
    SplitProgress();
    SplitStable();
    nals := Scan(Split, limit, stream, cut);
    assert [] + stream == stream;
    if Splittable(stream, limit) {
      CutIndependent(Split, Splittable, limit, [], stream, false, cut, 0);
      ghost var tail := TokensAreUnits(stream, limit);
      assert |Concat(nals) + tail| == |Concat(nals)| + |tail|;
    }
  }

  // ----- Where the splitter fails -----

  lemma TokenFits(data: Bytes, eof: bool)
    requires Split(data, eof).Token?
    ensures |Split(data, eof).token| <= Split(data, eof).advance <= |data|
  {
    IndexFinds(data);
    var start := NalStartCodeIndex(data);
    if start >= 0 {
      IndexFinds(data[start + NalStartCodeLen(data[start..])..]);
    }
  }

  lemma {:induction false} RunLength(limit: nat, window: Bytes, rest: Bytes, eof: bool, cut: nat -> nat, n: nat)
    requires Progress(Split)
    ensures |Concat(Run(Split, limit, window, rest, eof, cut, n))| <= |window| + |rest|
    decreases |rest|, !eof, |window|
  {
    hide Split;
    var step := if window != [] || eof then Split(window, eof) else More;
    if step.Token? {
      TokenFits(window, eof);
      RunLength(limit, window[step.advance..], rest, eof, cut, n);
      ConcatCons(step.token, Run(Split, limit, window[step.advance..], rest, eof, cut, n));
    } else if eof || |window| >= limit {
    } else if rest == [] {
      RunLength(limit, window, rest, true, cut, n);
    } else {
      var k := ReadSize(cut, n, Scanner.Min(|rest|, limit - |window|));
      RunLength(limit, window + rest[..k], rest[k..], eof, cut, n + 1);
    }
  }

  /** Tokens that rebuild the stream without slack: the first is a unit in front, the others rebuild the rest. */
  lemma PeelFirst(s: Bytes, t: Bytes, more: seq<Bytes>, a: nat)
    requires |t| <= a <= |s| && |Concat(more)| <= |s| - a && WellFramed([t] + more, s)
    ensures t == s[..a] && OneCode(t) && WellFramed(more, s[a..]) && (a < |s| ==> Code(s, a))
  {
    hide OneCode, Code;
    ConcatCons(t, more);
    ConsUnits(t, more);
    assert |t| == a && (t + Concat(more))[..a] == t && (t + Concat(more))[a..] == Concat(more);
    SecondCode([t] + more, s);
  }

  /** A window that begins with a three-byte code: a token without slack does not end at a four-byte code. */
  lemma EndsAtThree(data: Bytes, eof: bool)
    requires Three(data, 0) && Split(data, eof).Token? && |Split(data, eof).token| == Split(data, eof).advance
    ensures Split(data, eof).advance < |data| ==> Three(data, Split(data, eof).advance)
    ensures Split(data, eof).advance == |data| ==> eof
  {
    hide Index, IndexFrom, OccursAt;
    IndexFinds(data);
    var start := NalStartCodeIndex(data);
    var from := start + NalStartCodeLen(data[start..]);
    IndexFinds(data[from..]);
    hide Finds;
    if start == 0 && Split(data, eof).advance < |data| {
      FoundThree(data, Split(data, eof).advance);
    }
  }

  /** If a three-byte code is found in front, all codes of the window are three-byte ones. */
  lemma FoundThree(data: Bytes, a: nat)
    requires Three(data, 0) && Finds(data, 0) && 3 <= a && Finds(data[3..], a - 3)
    ensures Three(data, a)
  {
    assert data[3..|data|] == data[3..];
    CodesInSlice(data, 3, |data|, a - 3);
    assert !Four(data, 0);
  }

  /** One token of such a stream, if it is a unit: it ends at the code at i or before, or at another three-byte code. */
  lemma UnitBefore(s: Bytes, window: Bytes, rest: Bytes, eof: bool, i: nat, j: nat) returns (i': nat)
    requires s == window + rest && (eof ==> rest == []) && window != [] && NalStartCodeLen(s) > 0
    requires LoneThree(s, i) && Four(s, j) && i < j && Split(window, eof).Token?
    requires var a := Split(window, eof).advance;
             |Split(window, eof).token| == a <= |window| && OneCode(s[..a]) && (0 < a < |s| ==> Code(s, a))
    ensures var a := Split(window, eof).advance;
            && a <= i' < j && LoneThree(s[a..], i' - a) && Four(s[a..], j - a) && NalStartCodeLen(s[a..]) > 0
  {
    hide *;
    var a := Split(window, eof).advance;
    UnitEndsBefore(s, a, j) by { CodeOf(s, j); }
    i' := if i > 0 then i else a;
    if i == 0 {
      ThreeBehind(s, window, rest, eof, j) by { CodeOf(s, 0); CodeOf(s, j); }
      LoneAt(s, a, j);
    } else {
      UnitEndsBefore(s, a, i) by { CodeOf(s, i); }
    }
    RestCodes(s, a, i', j);
  }

  lemma CodeOf(s: Bytes, i: int)
    ensures Four(s, i) || LoneThree(s, i) ==> Code(s, i) && i <= |s| - 3
    ensures LoneThree(s, i) ==> Three(s, i)
  {
  }

  /** A first unit ends at the next start code or before. */
  lemma UnitEndsBefore(s: Bytes, a: nat, i: nat)
    requires a <= |s| && OneCode(s[..a]) && (0 < a < |s| ==> Code(s, a)) && Code(s, i) && 0 < i
    ensures 0 < a <= i < |s| && Code(s, a)
  {
    assert a > 0 && i < |s|;
    hide *;
    if a > i {
      CodesInFront(s, a, i);
    }
  }

  lemma LoneAt(s: Bytes, a: nat, j: nat)
    requires Code(s, a) && Three(s, a) && Four(s, j) && a <= j
    ensures LoneThree(s, a) && a < j
  {
  }

  lemma ThreeBehind(s: Bytes, window: Bytes, rest: Bytes, eof: bool, j: nat)
    requires s == window + rest && (eof ==> rest == []) && Three(s, 0) && Split(window, eof).Token?
    requires var a := Split(window, eof).advance;
             |Split(window, eof).token| == a <= |window| && Code(s, a) && 0 < a <= j && j < |s|
    ensures Three(s, Split(window, eof).advance)
  {
    var a := Split(window, eof).advance;
    TokenNeedsCode(window, eof);
    assert Three(window, 0);
    EndsAtThree(window, eof);
    assert a < |window|;
  }

  /** A token is longer than a start code, or it is a rest of the stream. */
  lemma TokenNeedsCode(data: Bytes, eof: bool)
    requires Split(data, eof).Token?
    ensures |data| >= 3 || eof
  {
    IndexFinds(data);
  }

  lemma RestCodes(s: Bytes, a: nat, i: nat, j: nat)
    requires Code(s, a) && a <= i < j && LoneThree(s, i) && Four(s, j)
    ensures LoneThree(s[a..], i - a) && Four(s[a..], j - a) && NalStartCodeLen(s[a..]) > 0
  {
  }

  /** A three-byte code before a four-byte one: whatever the window, the limit and the reads, the units are wrong. */
  lemma {:induction false} EveryReadingFails(s: Bytes, limit: nat, window: Bytes, rest: Bytes, eof: bool,
                                             cut: nat -> nat, n: nat, i: nat, j: nat)
    requires Progress(Split) && s == window + rest && (eof ==> rest == []) && NalStartCodeLen(s) > 0
    requires LoneThree(s, i) && Four(s, j) && i < j
    ensures !WellFramed(Run(Split, limit, window, rest, eof, cut, n), s)
    decreases |rest|, !eof, |window|, 1
  {
    assert s != [];
    hide *;
    NothingFramed(s);
    if (window != [] || eof) && Split(window, eof).Token? {
      EveryTokenFails(s, limit, window, rest, eof, cut, n, i, j);
    } else {
      RunMore(Split, limit, window, rest, eof, cut, n);
      if !eof && |window| < limit && rest == [] {
        EveryReadingFails(s, limit, window, rest, true, cut, n, i, j);
      } else if !eof && |window| < limit {
        var k := ReadSize(cut, n, Scanner.Min(|rest|, limit - |window|));
        Recut(window, rest, k);
        EveryReadingFails(s, limit, window + rest[..k], rest[k..], eof, cut, n + 1, i, j);
      }
    }
  }

  lemma {:induction false} EveryTokenFails(s: Bytes, limit: nat, window: Bytes, rest: Bytes, eof: bool,
                                           cut: nat -> nat, n: nat, i: nat, j: nat)
    requires Progress(Split) && s == window + rest && (eof ==> rest == []) && NalStartCodeLen(s) > 0
    requires LoneThree(s, i) && Four(s, j) && i < j
    requires (window != [] || eof) && Split(window, eof).Token?
    ensures !WellFramed(Run(Split, limit, window, rest, eof, cut, n), s)
    decreases |rest|, !eof, |window|, 0
  {
    hide *;
    var a, token := Split(window, eof).advance, Split(window, eof).token;
    TokenFits(window, eof);
    RunToken(Split, limit, window, rest, eof, cut, n);
    var more := Run(Split, limit, window[a..], rest, eof, cut, n);
    RunLength(limit, window[a..], rest, eof, cut, n);
    if WellFramed([token] + more, s) {
      PeelFirst(s, token, more, a);
      var i' := UnitBefore(s, window, rest, eof, i, j);
      assert s[a..] == window[a..] + rest;
      EveryReadingFails(s[a..], limit, window[a..], rest, eof, cut, n, i' - a, j - a);
    }
  }

  lemma NothingFramed(s: Bytes)
    requires s != []
    ensures !WellFramed([], s)
  {
  }

  /** The tokens are the stream's NAL units when the pipe delivers it as cut says. */
  ghost predicate FramedUnder(s: Bytes, limit: nat, cut: nat -> nat)
    requires Progress(Split)
  {
    WellFramed(Run(Split, limit, [], s, false, cut, 0), s)
  }

  /**
   The exact condition, for every stream and every limit: a stream is cut into its NAL units under all ways of reading
   it if it starts with a code, every unit fits the window, and no window shows a three-byte code in front and a
   four-byte one behind it; otherwise it is under none.
   */
  lemma SplitExact(s: Bytes, limit: nat)
    ensures Progress(Split)
    ensures (forall cut: nat -> nat :: FramedUnder(s, limit, cut)) <==> Splittable(s, limit) && Fits(s, limit)
    ensures (exists cut: nat -> nat :: FramedUnder(s, limit, cut)) <==> Splittable(s, limit) && Fits(s, limit)
  {
    SplitProgress();
    hide Split, Fits, Splittable, FramedUnder;
    forall cut: nat -> nat ensures FramedUnder(s, limit, cut) <==> Splittable(s, limit) && Fits(s, limit) {
      FramedExact(s, limit, cut);
    }
    var cut: nat -> nat := n => 0;
    assert FramedUnder(s, limit, cut) <==> Splittable(s, limit) && Fits(s, limit);
  }

  lemma FramedExact(s: Bytes, limit: nat, cut: nat -> nat)
    requires Progress(Split)
    ensures FramedUnder(s, limit, cut) <==> Splittable(s, limit) && Fits(s, limit)
  {
    hide Split, AreUnits, Fits, TooLong, Three, Four, LoneThree, Code;
    assert [] + s == s;
    if Splittable(s, limit) {
      var tail := TokensAreUnits(s, limit);
      assert |Concat(Tokens(Split, limit, s)) + tail| == |Concat(Tokens(Split, limit, s))| + |tail|;
      SplitStable();
      CutIndependent(Split, Splittable, limit, [], s, false, cut, 0);
    } else if NalStartCodeLen(s) == 0 {
      NoLeadingCode(s, Run(Split, limit, [], s, false, cut, 0));
    } else {
      var i, j :| Clash(s, limit, i, j);
      EveryReadingFails(s, limit, [], s, false, cut, 0, i, j) by { ClashIs(s, limit, i, j); }
    }
  }

  lemma ClashIs(s: Bytes, limit: nat, i: int, j: int)
    requires Clash(s, limit, i, j)
    ensures 0 <= i < j && LoneThree(s, i) && Four(s, j)
  {
  }

  lemma NoLeadingCode(s: Bytes, tokens: seq<Bytes>)
    requires s != [] && NalStartCodeLen(s) == 0
    ensures !WellFramed(tokens, s)
  {
    if WellFramed(tokens, s) && tokens != [] {
      SecondCode(tokens, s);
    }
  }
}
