/** Access-unit batching: the loop of publishH264 in services/ingest/main.go. */
module Frames {
  import opened Bytes
  import Scanner
  import Powers
  import opened AnnexB
  import opened SliceHeader

  type Frame = seq<Bytes>

  predicate IsSlice(nal: Bytes) {
    NalType(nal) in {Done(1), Done(5)}
  }

  /** The unit passes through the loop body without a run-time panic. */
  predicate Readable(nal: Bytes) {
    NalType(nal).Done? && (IsSlice(nal) ==> IsFirstSlice(nal).Done?)
  }

  /** SPS, SEI or a slice with first_mb_in_slice = 0: what ends a frame that already has a slice. */
  predicate StartsFrame(nal: Bytes) {
    NalType(nal) in {Done(6), Done(7)} || (IsSlice(nal) && IsFirstSlice(nal) == Done(true))
  }

  /** Frames published so far, the units buffered since, and the hasSlice flag. */
  datatype Batch = Batch(done: seq<Frame>, cur: Frame, hasSlice: bool)

  function Feed(b: Batch, nal: Bytes): Batch {
    var b' := if StartsFrame(nal) && b.hasSlice then Batch(b.done + [b.cur], [], false) else b;
    Batch(b'.done, b'.cur + [nal], b'.hasSlice || IsSlice(nal))
  }

  function After(nals: seq<Bytes>): Batch {
    if nals == [] then Batch([], [], false) else Feed(After(nals[..|nals| - 1]), nals[|nals| - 1])
  }

  /** All frames, including the remainder that is published when the stream ends. */
  function Group(nals: seq<Bytes>): seq<Frame> {
    var b := After(nals);
    if b.cur == [] then b.done else b.done + [b.cur]
  }

  function FrameBytes(frames: seq<Frame>): seq<Bytes> {
    if frames == [] then [] else [Concat(frames[0])] + FrameBytes(frames[1..])
  }

  function ReadablePrefix(nals: seq<Bytes>): (n: nat)
    ensures n <= |nals| && forall k :: 0 <= k < n ==> Readable(nals[k])
    ensures n < |nals| ==> !Readable(nals[n])
  {
    if nals == [] || !Readable(nals[0]) then 0 else 1 + ReadablePrefix(nals[1..])
  }

  lemma {:induction false} FrameBytesSnoc(frames: seq<Frame>, f: Frame)
    ensures FrameBytes(frames + [f]) == FrameBytes(frames) + [Concat(f)]
  {
    if frames == [] {
      assert frames + [f] == [f];
    } else {
      assert (frames + [f])[1..] == frames[1..] + [f];
      FrameBytesSnoc(frames[1..], f);
    }
  }

  /** What publishH264 has published of a sequence of units, and whether it got through without a panic. */
  ghost predicate Published(nals: seq<Bytes>, published: seq<Bytes>, ok: bool) {
    && (ok <==> forall k :: 0 <= k < |nals| ==> Readable(nals[k]))
    && published == FrameBytes(if ok then Group(nals) else After(nals[..ReadablePrefix(nals)]).done)
    && PublishedOnBytes(if ok then nals else nals[..ReadablePrefix(nals)], published, ok)
  }

  /** The published frames are those of the bytes; if there was a panic, the last one was not published any more. */
  ghost predicate PublishedOnBytes(nals: seq<Bytes>, published: seq<Bytes>, ok: bool) {
    exists frames :: OnBytes(frames, nals)
      && published == FrameBytes(if ok || frames == [] then frames else frames[..|frames| - 1])
  }

  // ----- The frames in terms of bytes -----

  /** Where the header byte is: behind a start code of four or three bytes, or in front. */
  function HeaderPos(nal: Bytes): nat {
    if Four(nal, 0) then 4 else if Three(nal, 0) then 3 else 0
  }

  /** The unit type in the low five bits of the header byte; -1 if there is none. */
  function Header(nal: Bytes): int {
    if HeaderPos(nal) < |nal| then nal[HeaderPos(nal)] % 32 else -1
  }

  /** A complete first_mb_in_slice behind the header. */
  predicate HasFirstMb(nal: Bytes) {
    HeaderPos(nal) > 0 && Present(nal, 8 * (HeaderPos(nal) + 1)) && LeadingZeros(nal, 8 * (HeaderPos(nal) + 1)) < 64
  }

  function FirstMb(nal: Bytes): nat
    requires HasFirstMb(nal)
  {
    UeV(nal, 8 * (HeaderPos(nal) + 1))
  }

  /** Inside a frame no SEI, no SPS and no slice with first_mb_in_slice = 0 comes after a slice. */
  ghost predicate UnbrokenOnBytes(f: Frame) {
    forall i, j :: 0 <= i < j < |f| && Header(f[i]) in {1, 5} ==>
      Header(f[j]) !in {6, 7} && !(Header(f[j]) in {1, 5} && HasFirstMb(f[j]) && FirstMb(f[j]) == 0)
  }

  ghost predicate SliceOnBytes(f: Frame) {
    exists i :: 0 <= i < |f| && Header(f[i]) in {1, 5}
  }

  /** SEI, SPS, or a slice behind a start code whose first_mb_in_slice is not another number than 0. */
  predicate StartOnBytes(nal: Bytes) {
    Header(nal) in {6, 7}
    || (Header(nal) in {1, 5} && HeaderPos(nal) > 0 && (HasFirstMb(nal) ==> FirstMb(nal) == 0))
  }

  ghost predicate OnBytes(frames: seq<Frame>, nals: seq<Bytes>) {
    && Flatten(frames) == nals
    && (forall k :: 0 <= k < |frames| ==> frames[k] != [] && UnbrokenOnBytes(frames[k]))
    && (forall k :: 0 <= k < |frames| - 1 ==> SliceOnBytes(frames[k]))
    && (forall k :: 0 < k < |frames| && frames[k] != [] ==> StartOnBytes(frames[k][0]))
  }

  /** A unit passes without a panic if it has a header byte, and as a slice a code that does not run off the end. */
  lemma ReadableOnBytes(nal: Bytes)
    ensures var pos := HeaderPos(nal);
            var off := 8 * (pos + 1);
            var z := LeadingZeros(nal, off);
            Readable(nal) <==>
              pos < |nal| && !(pos > 0 && Header(nal) in {1, 5} && z > 0 && off + z + 2 <= 8 * |nal| <= off + 2 * z + 1)
  {
    hide LeadingZeros;
  }

  lemma UnitOnBytes(nal: Bytes)
    ensures IsSlice(nal) <==> Header(nal) in {1, 5}
    ensures StartsFrame(nal) ==> StartOnBytes(nal)
    ensures Header(nal) in {6, 7} ==> StartsFrame(nal)
    ensures Header(nal) in {1, 5} && HasFirstMb(nal) && FirstMb(nal) == 0 ==> StartsFrame(nal)
  {
    hide LeadingZeros, UeV, Word, SuffixPanics;
    if Header(nal) in {1, 5} && HeaderPos(nal) > 0 && HasFirstMb(nal) {
      var off := 8 * (HeaderPos(nal) + 1);
      ZeroTestExact(nal, off);
      ZeroIsOneBit(nal, off);
    }
  }

  lemma ZeroIsOneBit(nal: Bytes, off: nat)
    requires Present(nal, off)
    ensures UeV(nal, off) == 0 ==> !SuffixPanics(nal, off)
  {
    hide LeadingZeros, ReadBits;
    var z := LeadingZeros(nal, off);
    if z > 0 {
      Pow2Step(z);
    }
  }

  lemma Pow2Step(z: nat)
    requires z > 0
    ensures Powers.Pow2(z) >= 2
  {
  }

  lemma BatchingOnBytes(frames: seq<Frame>, nals: seq<Bytes>)
    requires IsBatching(frames, nals)
    ensures OnBytes(frames, nals)
  {
    hide IsSlice, StartsFrame, StartOnBytes, HasFirstMb, FirstMb, Header, Flatten;
    forall k | 0 <= k < |frames| ensures UnbrokenOnBytes(frames[k]) {
      FrameOnBytes(frames[k]);
    }
    forall k | 0 <= k < |frames| - 1 ensures SliceOnBytes(frames[k]) {
      assert HasSlice(frames[k]);
      FrameOnBytes(frames[k]);
    }
    forall k | 0 < k < |frames| && frames[k] != [] ensures StartOnBytes(frames[k][0]) {
      UnitOnBytes(frames[k][0]);
    }
  }

  lemma FrameOnBytes(f: Frame)
    ensures Unbroken(f) ==> UnbrokenOnBytes(f)
    ensures HasSlice(f) ==> SliceOnBytes(f)
  {
    hide IsSlice, StartsFrame, StartOnBytes, HasFirstMb, FirstMb, Header;
    forall i | 0 <= i < |f|
      ensures IsSlice(f[i]) <==> Header(f[i]) in {1, 5}
      ensures Header(f[i]) in {6, 7} ==> StartsFrame(f[i])
      ensures Header(f[i]) in {1, 5} && HasFirstMb(f[i]) && FirstMb(f[i]) == 0 ==> StartsFrame(f[i])
    {
      UnitOnBytes(f[i]);
    }
  }

  lemma GroupOnBytes(nals: seq<Bytes>)
    ensures PublishedOnBytes(nals, FrameBytes(Group(nals)), true)
    ensures PublishedOnBytes(nals, FrameBytes(After(nals).done), false)
  {
    GroupIsBatching(nals);
    BatchingOnBytes(Group(nals), nals);
    hide OnBytes, IsBatching, HasSlice, FrameBytes;
    var b := After(nals);
    if nals == [] {
      assert Group(nals) == [] && b.done == [];
    } else {
      hide After;
      assert Group(nals)[..|Group(nals)| - 1] == b.done;
    }
  }

  /** publishH264 after the scan: published is what reached the subject, ok says no panic occurred. */
  method PublishFrames(nals: seq<Bytes>) returns (published: seq<Bytes>, ok: bool)
    ensures Published(nals, published, ok)
  {
    hide NalType, IsFirstSlice, NalStartCodeLen, PublishedOnBytes;
    published, ok := [], true;
    var frameBuf, hasSlice := [], false;
    ghost var b := After([]);
    for i := 0 to |nals|
      invariant b == After(nals[..i])
      invariant published == FrameBytes(b.done) && frameBuf == Concat(b.cur) && hasSlice == b.hasSlice
      invariant forall k :: 0 <= k < i ==> Readable(nals[k])
    {
      var nal := nals[i];
      var t := NalType(nal);
      var first: Outcome<bool> := Done(false);
      if t in {Done(1), Done(5)} {
        first := IsFirstSliceOfFrame(nal);
      }
      if t.Panic? || first.Panic? {
        assert !Readable(nal);
        PrefixIs(nals, i);
        GroupOnBytes(nals[..i]);
        return published, false;
      }
      var isNewFrame := t == Done(7) || (t == Done(6) && hasSlice) || first == Done(true);
      assert nals[..i + 1][..i] == nals[..i];
      if isNewFrame && hasSlice {
        FrameBytesSnoc(b.done, b.cur);
        published := published + [frameBuf];
        frameBuf, hasSlice := [], false;
      }
      ghost var b' := if StartsFrame(nal) && b.hasSlice then Batch(b.done + [b.cur], [], false) else b;
      ConcatSnoc(b'.cur, nal);
      frameBuf := frameBuf + nal;
      if t in {Done(1), Done(5)} {
        hasSlice := true;
      }
      b := Feed(b, nal);
    }
    assert nals[..|nals|] == nals;
    CurBytes(nals);
    GroupOnBytes(nals);
    if |frameBuf| > 0 {
      FrameBytesSnoc(b.done, b.cur);
      published := published + [frameBuf];
    }
  }

  lemma {:induction false} PrefixIs(nals: seq<Bytes>, i: nat)
    requires i < |nals| && !Readable(nals[i]) && forall k :: 0 <= k < i ==> Readable(nals[k])
    ensures ReadablePrefix(nals) == i
  {
    hide Readable;
  }

  /** The buffer is empty only before the first unit. */
  lemma CurBytes(nals: seq<Bytes>)
    requires forall k :: 0 <= k < |nals| ==> Readable(nals[k])
    ensures After(nals).cur == [] <==> Concat(After(nals).cur) == []
  {
    if nals != [] {
      var b, nal := After(nals[..|nals| - 1]), nals[|nals| - 1];
      var cur := if StartsFrame(nal) && b.hasSlice then [] else b.cur;
      assert Readable(nal) && nal != [];
      ConcatSnoc(cur, nal);
    }
  }

  // ----- What the frames are, without mention of the loop -----

  function Flatten(frames: seq<Frame>): seq<Bytes> {
    if frames == [] then [] else frames[0] + Flatten(frames[1..])
  }

  ghost predicate HasSlice(f: Frame) {
    exists k :: 0 <= k < |f| && IsSlice(f[k])
  }

  /** Inside a frame nothing that starts a frame comes after a slice. */
  ghost predicate Unbroken(f: Frame) {
    forall i, j :: 0 <= i < j < |f| && IsSlice(f[i]) ==> !StartsFrame(f[j])
  }

  /** Every frame but the last holds a slice, and every frame but the first begins with a frame start. */
  ghost predicate IsBatching(frames: seq<Frame>, nals: seq<Bytes>) {
    && Flatten(frames) == nals
    && (forall k :: 0 <= k < |frames| ==> frames[k] != [] && Unbroken(frames[k]))
    && (forall k :: 0 <= k < |frames| - 1 ==> HasSlice(frames[k]))
    && (forall k :: 0 < k < |frames| && frames[k] != [] ==> StartsFrame(frames[k][0]))
  }

  lemma {:induction false} FlattenSnoc(frames: seq<Frame>, f: Frame)
    ensures Flatten(frames + [f]) == Flatten(frames) + f
  {
    if frames == [] {
      assert frames + [f] == [f];
      assert Flatten([f]) == f + Flatten([]);
    } else {
      assert (frames + [f])[1..] == frames[1..] + [f];
      FlattenSnoc(frames[1..], f);
    }
  }

  lemma {:induction false} GroupIsBatching(nals: seq<Bytes>)
    ensures IsBatching(Group(nals), nals)
    ensures After(nals).hasSlice <==> HasSlice(After(nals).cur)
    ensures nals != [] ==> After(nals).cur != []
  {
    hide NalType, IsFirstSlice, IsSlice, StartsFrame;
    if nals != [] {
      var n := |nals| - 1;
      GroupIsBatching(nals[..n]);
      var b, nal := After(nals[..n]), nals[n];
      FeedBatching(b, nals[..n], nal);
      assert nals == nals[..n] + [nal];
    }
  }

  lemma OpenFrame(frames: seq<Frame>, nals: seq<Bytes>, nal: Bytes)
    requires IsBatching(frames, nals) && StartsFrame(nal) && frames != [] && HasSlice(frames[|frames| - 1])
    ensures IsBatching(frames + [[nal]], nals + [nal])
  {
    hide IsSlice, StartsFrame;
    FlattenSnoc(frames, [nal]);
    hide Flatten, HasSlice, Unbroken;
    var after := frames + [[nal]];
    assert Unbroken([nal]) by { OneUnit(nal); }
    forall k | 0 <= k < |after| ensures after[k] == if k < |frames| then frames[k] else [nal] {
    }
  }

  lemma OneUnit(nal: Bytes)
    ensures Unbroken([nal])
  {
  }

  lemma ExtendFrame(done: seq<Frame>, cur: Frame, nals: seq<Bytes>, nal: Bytes)
    requires IsBatching(done + [cur], nals) && (StartsFrame(nal) ==> !HasSlice(cur))
    ensures IsBatching(done + [cur + [nal]], nals + [nal])
  {
    hide IsSlice, StartsFrame;
    var before, after := done + [cur], done + [cur + [nal]];
    FlattenSnoc(done, cur + [nal]);
    FlattenSnoc(done, cur);
    assert Flatten(done) + (cur + [nal]) == (Flatten(done) + cur) + [nal];
    assert before[|done|] == cur;
    assert Unbroken(cur + [nal]);
    forall k | 0 <= k < |after| ensures k < |done| ==> after[k] == before[k] {
    }
  }

  lemma FirstFrame(nal: Bytes)
    ensures IsBatching([[nal]], [nal])
  {
    hide IsSlice, StartsFrame;
    FlattenSnoc([], [nal]);
    assert [] + [[nal]] == [[nal]];
  }

  lemma SliceSnoc(cur: Frame, nal: Bytes)
    ensures HasSlice(cur + [nal]) <==> HasSlice(cur) || IsSlice(nal)
  {
    hide IsSlice;
    assert (cur + [nal])[|cur|] == nal;
    if HasSlice(cur) {
      var k :| 0 <= k < |cur| && IsSlice(cur[k]);
      assert IsSlice((cur + [nal])[k]);
    }
  }

  lemma FeedBatching(b: Batch, nals: seq<Bytes>, nal: Bytes)
    requires IsBatching(if b.cur == [] then b.done else b.done + [b.cur], nals)
    requires (b.hasSlice <==> HasSlice(b.cur)) && (b.cur == [] ==> nals == [] && b.done == [])
    ensures var b' := Feed(b, nal);
            b'.cur != [] && (b'.hasSlice <==> HasSlice(b'.cur)) && IsBatching(b'.done + [b'.cur], nals + [nal])
  {
    hide IsBatching, IsSlice, StartsFrame;
    SliceSnoc(b.cur, nal);
    SliceSnoc([], nal);
    assert [] + [nal] == [nal] && !HasSlice([]);
    if StartsFrame(nal) && b.hasSlice {
      OpenFrame(b.done + [b.cur], nals, nal);
    } else if b.cur == [] {
      FirstFrame(nal);
      assert b.cur + [nal] == [nal] && b.done + [[nal]] == [[nal]] && nals + [nal] == [nal];
    } else {
      ExtendFrame(b.done, b.cur, nals, nal);
    }
  }

  /** Conservation in bytes: the published frames concatenate to exactly the units read. */
  lemma {:induction false} BytesKept(frames: seq<Frame>)
    ensures Concat(FrameBytes(frames)) == Concat(Flatten(frames))
  {
    if frames != [] {
      BytesKept(frames[1..]);
      ConcatAppend(frames[0], Flatten(frames[1..]));
      assert FrameBytes(frames)[1..] == FrameBytes(frames[1..]);
    }
  }

  /** A slice with first_mb_in_slice = 0 is the first slice of its frame, and the only such slice. */
  lemma FirstSliceOnce(f: Frame, j: nat)
    requires Unbroken(f) && j < |f| && IsSlice(f[j]) && IsFirstSlice(f[j]) == Done(true)
    ensures forall i :: 0 <= i < j ==> !IsSlice(f[i])
    ensures forall i :: 0 <= i < |f| && i != j && IsSlice(f[i]) ==> IsFirstSlice(f[i]) != Done(true)
  {
  }

  /** The conditions leave no choice: there is only one such batching of a unit sequence. */
  lemma {:induction false} BatchingUnique(a: seq<Frame>, b: seq<Frame>, nals: seq<Bytes>)
    requires IsBatching(a, nals) && IsBatching(b, nals)
    ensures a == b
    decreases |a|
  {
    hide NalType, IsFirstSlice, IsSlice, StartsFrame;
    if a != [] && b != [] {
      NotShorter(a, b, nals);
      NotShorter(b, a, nals);
      assert a[0] == nals[..|a[0]|] && b[0] == nals[..|b[0]|];
      TailBatching(a, nals);
      TailBatching(b, nals);
      BatchingUnique(a[1..], b[1..], nals[|a[0]|..]);
      assert a == [a[0]] + a[1..] && b == [b[0]] + b[1..];
    }
  }

  lemma TailBatching(a: seq<Frame>, nals: seq<Bytes>)
    requires IsBatching(a, nals) && a != []
    ensures |a[0]| <= |nals| && IsBatching(a[1..], nals[|a[0]|..])
  {
    hide IsSlice, StartsFrame;
    assert nals == a[0] + Flatten(a[1..]);
    forall k | 0 <= k < |a[1..]| ensures a[1..][k] == a[k + 1] {
    }
  }

  /** If the first frame does not hold every unit, it has a slice and the next unit starts a frame. */
  lemma NextStarts(a: seq<Frame>, nals: seq<Bytes>)
    requires IsBatching(a, nals) && a != [] && |a[0]| < |nals|
    ensures StartsFrame(nals[|a[0]|]) && exists k :: 0 <= k < |a[0]| && IsSlice(nals[k])
  {
    hide NalType, IsFirstSlice, IsSlice, StartsFrame;
    assert nals == a[0] + Flatten(a[1..]);
    assert |a| > 1 && Flatten(a[1..]) == a[1] + Flatten(a[1..][1..]);
    assert nals[|a[0]|] == a[1][0];
    assert HasSlice(a[0]);
    var k :| 0 <= k < |a[0]| && IsSlice(a[0][k]);
    assert nals[k] == a[0][k];
  }

  lemma NotShorter(a: seq<Frame>, b: seq<Frame>, nals: seq<Bytes>)
    requires IsBatching(a, nals) && IsBatching(b, nals) && a != [] && b != []
    ensures |a[0]| >= |b[0]|
  {
    hide NalType, IsFirstSlice, IsSlice, StartsFrame;
    WithinFirst(b, nals);
    if |a[0]| < |b[0]| {
      NextStarts(a, nals);
    }
  }

  lemma WithinFirst(b: seq<Frame>, nals: seq<Bytes>)
    requires IsBatching(b, nals) && b != []
    ensures |b[0]| <= |nals|
    ensures forall k, n :: 0 <= k < n < |b[0]| && IsSlice(nals[k]) ==> !StartsFrame(nals[n])
  {
    hide NalType, IsFirstSlice, IsSlice, StartsFrame;
    assert nals == b[0] + Flatten(b[1..]);
    forall k, n | 0 <= k < n < |b[0]| && IsSlice(nals[k]) ensures !StartsFrame(nals[n]) {
      assert b[0][k] == nals[k] && b[0][n] == nals[n];
    }
  }

  // ----- End to end -----

  /**
   publishH264 from bytes to published frames. On every splittable stream, whatever the reads, the NAL units are the
   stream's, ok says that all of them are readable, and the published frames are their only batching. If ok they
   hold every byte of the stream up to a unit that exceeds the window; otherwise they are the frames completed
   before the first unreadable unit.
   */
  method PublishH264(stream: Bytes, limit: nat, cut: nat -> nat) returns (published: seq<Bytes>, ok: bool)
    ensures Scanner.Progress(Split)
    ensures Splittable(stream, limit) ==>
              Published(Scanner.Tokens(Split, limit, stream), published, ok)
    ensures Splittable(stream, limit) && ok ==>
              exists tail :: Concat(published) + tail == stream && (tail == [] || TooLong(tail, limit))
    ensures Splittable(stream, limit) && ok && Fits(stream, limit) ==> Concat(published) == stream
    ensures Published(Scanner.Run(Split, limit, [], stream, false, cut, 0), published, ok)
  {
    hide Split, Splittable, Fits, TooLong, AreUnits, Group, Readable, ReadablePrefix, After;
    var nals := Units(stream, limit, cut);
    published, ok := PublishFrames(nals);
    Conserved(nals);
  }

  lemma Conserved(nals: seq<Bytes>)
    ensures Concat(FrameBytes(Group(nals))) == Concat(nals)
  {
    GroupIsBatching(nals);
    BytesKept(Group(nals));
  }
}
