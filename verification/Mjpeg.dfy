/** The MJPEG splitter of services/ingest/main.go: images delimited by the JPEG markers FF D8 and FF D9. */
module Mjpeg {
  import opened Bytes
  import opened Scanner

  const SOI: Bytes := [0xff, 0xd8]
  const EOI: Bytes := [0xff, 0xd9]

  function Split(data: Bytes, eof: bool): Step {
    if eof && data == [] then More
    else
      var i := Index(data, SOI);
      var j := if i >= 0 then Index(data[i + 2..], EOI) else -1;
      if i >= 0 && j >= 0 then Token(i + j + 4, data[i..i + j + 4])
      else if eof then Token(|data|, data)
      else More
  }

  lemma SplitProgress()
    ensures Progress(Split)
  {
  }

  /** Once an image is complete in the window, no further byte changes where it starts or ends. */
  lemma ImageStable(s: Bytes, m: nat, n: nat, eof: bool)
    requires m <= n <= |s| && Split(s[..m], false).Token?
    ensures Split(s[..n], eof) == Split(s[..m], false)
  {
    Complete(s[..m]);
    hide *;
    var i := Index(s[..m], SOI);
    var j := Index(s[..m][i + 2..], EOI);
    IndexStable(s, SOI, m, n);
    EndStable(s, m, n, i + 2);
    SameToken(s, m, n, eof, i, j);
  }

  /** The first end marker of a window that has one stays the first when the window grows. */
  lemma EndStable(s: Bytes, m: nat, n: nat, k: nat)
    requires k <= m <= n <= |s| && Index(s[..m][k..], EOI) >= 0
    ensures Index(s[..n][k..], EOI) == Index(s[..m][k..], EOI)
  {
    hide *;
    PrefixTail(s, m, k);
    PrefixTail(s, n, k);
    IndexStable(s[k..], EOI, m - k, n - k);
  }

  lemma SameToken(s: Bytes, m: nat, n: nat, eof: bool, i: nat, j: nat)
    requires m <= n <= |s| && i == Index(s[..m], SOI) == Index(s[..n], SOI) && i + 2 <= m
    requires j == Index(s[..m][i + 2..], EOI) == Index(s[..n][i + 2..], EOI)
    ensures Split(s[..n], eof) == Split(s[..m], false)
  {
    hide *;
    Found(s[..m], false, i, j);
    Found(s[..n], eof, i, j);
    PrefixSlice(s, m, n, i, i + j + 4);
  }

  /** A token before the end of input is a complete image. */
  lemma Complete(data: Bytes)
    requires Split(data, false).Token?
    ensures 0 <= Index(data, SOI) <= |data| - 4 && Index(data[Index(data, SOI) + 2..], EOI) >= 0
  {
  }

  lemma Found(data: Bytes, eof: bool, i: nat, j: nat)
    requires i == Index(data, SOI) && i + 2 <= |data| && j == Index(data[i + 2..], EOI)
    ensures i + j + 4 <= |data| && Split(data, eof) == Token(i + j + 4, data[i..i + j + 4])
  {
  }

  lemma NotFound(data: Bytes, eof: bool)
    requires Index(data, SOI) >= 0 ==> Index(data[Index(data, SOI) + 2..], EOI) < 0
    ensures Split(data, eof) == if eof && data != [] then Token(|data|, data) else More
  {
  }

  lemma PrefixTail(s: Bytes, m: nat, k: nat)
    requires k <= m <= |s|
    ensures s[..m][k..] == s[k..][..m - k]
  {
  }

  lemma PrefixSlice(s: Bytes, m: nat, n: nat, lo: nat, hi: nat)
    requires lo <= hi <= m <= n <= |s|
    ensures s[..m][lo..hi] == s[..n][lo..hi]
  {
  }

  predicate Always(s: Bytes, limit: nat) { true }

  lemma SplitStable()
    ensures Stable(Split, Always)
  {
    SplitProgress();
    forall s, limit, i, j, eof | Always(s, limit) && StableAt(Split, s, limit, i, j, eof)
      ensures Split(s[..j], eof) == Split(s[..i], false)
    {
      ImageStable(s, i, j, eof);
    }
  }

  /** publishMJPEG: every stream gives the same frames however the pipe delivers it. */
  method Publish(stream: Bytes, limit: nat, cut: nat -> nat) returns (frames: seq<Bytes>)
    ensures Progress(Split) && frames == Tokens(Split, limit, stream)
    ensures Framed(stream, limit, frames)
  {
    SplitProgress();
    SplitStable();
    frames := Scan(Split, limit, stream, cut);
    assert [] + stream == stream;
    CutIndependent(Split, Always, limit, [], stream, false, cut, 0);
    TokensFramed(stream, limit);
  }

  // ----- What the frames are -----

  /** One whole image: the start marker, then no end marker before the final two bytes. */
  ghost predicate IsImage(t: Bytes) {
    && |t| >= 4 && t[..2] == SOI && t[|t| - 2..] == EOI
    && forall j :: 2 <= j < |t| - 2 ==> !OccursAt(t, EOI, j)
  }

  /** The markers in bytes: an image begins with FF D8, ends with FF D9, and FF D9 is nowhere between them. */
  lemma ImageBytes(t: Bytes)
    ensures IsImage(t) <==>
              && |t| >= 4 && t[0] == 0xff && t[1] == 0xd8 && t[|t| - 2] == 0xff && t[|t| - 1] == 0xd9
              && forall j :: 2 <= j < |t| - 2 ==> !(t[j] == 0xff && t[j + 1] == 0xd9)
  {
    if |t| >= 4 {
      assert t[..2] == [t[0], t[1]] && t[|t| - 2..] == [t[|t| - 2], t[|t| - 1]];
      forall j | 2 <= j < |t| - 2 ensures OccursAt(t, EOI, j) <==> t[j] == 0xff && t[j + 1] == 0xd9 {
        assert t[j..j + 2] == [t[j], t[j + 1]];
      }
    }
  }

  /** No start marker is followed by an end marker. */
  ghost predicate NoImage(data: Bytes) {
    forall i, j :: OccursAt(data, SOI, i) && OccursAt(data, EOI, j) ==> j < i + 2
  }

  /**
   The stream is the frames in order. What is skipped before an image holds no start marker; only the last
   frame may be a remainder without an image; bytes are left over only when the window limit is hit.
   */
  ghost predicate Framed(s: Bytes, limit: nat, frames: seq<Bytes>)
    decreases |frames|
  {
    if frames == [] then s == [] || (limit <= |s| && NoImage(s[..limit]))
    else exists skip: nat :: FrameAt(s, skip, frames[0]) && Framed(s[skip + |frames[0]|..], limit, frames[1..])
  }

  ghost predicate FrameAt(s: Bytes, skip: nat, t: Bytes) {
    && skip + |t| <= |s| && s[skip..skip + |t|] == t
    && ((IsImage(t) && forall i :: 0 <= i < skip ==> !OccursAt(s, SOI, i))
        || (skip == 0 && |t| == |s| && NoImage(t)))
  }

  lemma SliceOfSlice(data: Bytes, lo: nat, hi: nat, i: nat, j: nat)
    requires lo <= hi <= |data| && i <= j <= hi - lo
    ensures data[lo..hi][i..j] == data[lo + i..lo + j]
  {
    assert forall k :: 0 <= k < j - i ==> data[lo..hi][i..j][k] == data[lo + i..lo + j][k];
  }

  /** The first start marker, with the first end marker after it, delimits an image. */
  lemma ImageFound(data: Bytes, i: nat, j: nat)
    requires i == Index(data, SOI) && j == Index(data[i + 2..], EOI)
    ensures i + j + 4 <= |data| && FrameAt(data, i, data[i..i + j + 4]) && IsImage(data[i..i + j + 4])
  {
    var n := i + j + 4;
    var t := data[i..n];
    OccursInSuffix(data, EOI, i + 2, j);
    hide Index;
    Ends(data, i, n);
    forall k | 2 <= k < |t| - 2 ensures !OccursAt(t, EOI, k) {
      NoEarlierEnd(data, i, j, k);
    }
  }

  lemma Ends(data: Bytes, i: nat, n: nat)
    requires i + 4 <= n <= |data|
    ensures data[i..n][..2] == data[i..i + 2] && data[i..n][n - i - 2..] == data[n - 2..n]
  {
  }

  lemma NoEarlierEnd(data: Bytes, i: nat, j: nat, k: nat)
    requires i + 2 <= |data| && j == Index(data[i + 2..], EOI) && 2 <= k < j + 2
    ensures i + j + 4 <= |data| && !OccursAt(data[i..i + j + 4], EOI, k)
  {
    SliceOfSlice(data, i, i + j + 4, k, k + 2);
    SliceOfSlice(data, i + 2, |data|, k - 2, k);
    assert data[i + 2..|data|] == data[i + 2..] && !OccursAt(data[i + 2..], EOI, k - 2);
  }

  lemma NothingFound(data: Bytes)
    requires Index(data, SOI) >= 0 ==> Index(data[Index(data, SOI) + 2..], EOI) < 0
    ensures NoImage(data)
  {
    var i := Index(data, SOI);
    forall k, j | OccursAt(data, SOI, k) && OccursAt(data, EOI, j) ensures j < k + 2 {
      if j >= k + 2 {
        OccursInSuffix(data, EOI, i + 2, j - i - 2);
      }
    }
  }

  lemma SplitMeaning(data: Bytes, eof: bool)
    ensures Split(data, eof).More? ==> NoImage(data) && (eof ==> data == [])
    ensures Split(data, eof).Token? ==>
              var t := Split(data, eof).token;
              var a := Split(data, eof).advance;
              |t| <= a <= |data| && FrameAt(data, a - |t|, t) && (!eof ==> IsImage(t))
  {
    hide Split, FrameAt, NoImage, IsImage, IndexFrom;
    var i := Index(data, SOI);
    if i >= 0 && Index(data[i + 2..], EOI) >= 0 {
      var j := Index(data[i + 2..], EOI);
      Found(data, eof, i, j);
      ImageFound(data, i, j);
    } else {
      NotFound(data, eof);
      NothingFound(data);
      Remainder(data);
    }
  }

  lemma Remainder(data: Bytes)
    requires NoImage(data)
    ensures FrameAt(data, 0, data)
  {
    assert data[0..|data|] == data;
  }

  /** A frame found in a prefix of the stream sits at the same place in the stream. */
  lemma FrameInPrefix(s: Bytes, n: nat, skip: nat, t: Bytes)
    requires n <= |s| && FrameAt(s[..n], skip, t) && (IsImage(t) || n == |s|)
    ensures FrameAt(s, skip, t)
  {
    assert s[skip..skip + |t|] == s[..n][skip..skip + |t|];
    if n == |s| {
      assert s[..n] == s;
    } else {
      forall i | 0 <= i < skip ensures !OccursAt(s, SOI, i) {
        OccursInPrefix(s, SOI, n, i);
      }
    }
  }

  lemma {:induction false} TokensFramed(s: Bytes, limit: nat)
    requires Progress(Split)
    ensures Framed(s, limit, Tokens(Split, limit, s))
    decreases |s|, 1
  {
    hide Split, FrameAt, IsImage, NoImage, OccursAt;
    var h := Min(limit, |s|);
    var first, last := Split(s[..h], false), Split(s, true);
    SplitMeaning(s[..h], false);
    SplitMeaning(s, true);
    assert s[..|s|] == s;
    if first.Token? {
      FrameInPrefix(s, h, first.advance - |first.token|, first.token);
      FramedStep(s, limit, first.advance, first.token);
    } else if |s| < limit && last.Token? {
      FramedStep(s, limit, last.advance, last.token);
    }
  }

  lemma {:induction false} FramedStep(s: Bytes, limit: nat, a: nat, t: Bytes)
    requires Progress(Split) && |t| <= a <= |s| && 0 < a && FrameAt(s, a - |t|, t)
    requires Tokens(Split, limit, s) == [t] + Tokens(Split, limit, s[a..])
    ensures Framed(s, limit, Tokens(Split, limit, s))
    decreases |s|, 0
  {
    hide Split, FrameAt, IsImage, NoImage, OccursAt;
    TokensFramed(s[a..], limit);
    var skip: nat, frames := a - |t|, Tokens(Split, limit, s);
    assert frames[0] == t && frames[1..] == Tokens(Split, limit, s[a..]);
    assert FrameAt(s, skip, frames[0]) && Framed(s[skip + |frames[0]|..], limit, frames[1..]);
  }
}
