/** Per-segment decoding of binary data (pydicom_seg/reader.py,
    SegmentReader._decode): for every segment in catalog order, each frame
    that references it replaces one slice of the label buffer, and the
    buffer is then copied into that segment's image. */
module PerSegment {
  import opened Types
  import opened Buffer

  /** The numpy element type chosen for the buffer. */
  datatype PixelType = UInt8Pixels | Float32Pixels

  /** `SegmentationType[name]`, then uint8 for BINARY and float32 otherwise. */
  function SegmentPixelType(name: string): (r: Result<PixelType>)
    ensures r.Err? <==> ParseSegmentationType(name).Err?
    ensures r.Err? ==> r.error == InvalidSegmentationType(name)
    ensures r.Ok? ==> (r.value == UInt8Pixels <==> name == "BINARY")
  {
    match ParseSegmentationType(name)
    case Err(e) => Err(e)
    case Ok(t) => Ok(if t == Binary then UInt8Pixels else Float32Pixels)
  }

  /** A frame's samples as the uint8 buffer holds them. */
  function StoredSlice(pixels: seq<seq<int>>): (s: seq<seq<int>>)
    ensures |s| == |pixels|
    ensures forall r :: 0 <= r < |s| ==> |s[r]| == |pixels[r]|
    ensures forall r, c :: 0 <= r < |s| && 0 <= c < |s[r]| ==> s[r][c] == Store(UInt8, pixels[r][c])
  {
    seq(|pixels|, r requires 0 <= r < |pixels| => seq(|pixels[r]|, c requires 0 <= c < |pixels[r]| => Store(UInt8, pixels[r][c])))
  }

  /** Binary samples (0 or 1) are stored exactly, zeros included. */
  lemma StoredSliceBinary(pixels: seq<seq<int>>)
    requires forall r, c :: 0 <= r < |pixels| && 0 <= c < |pixels[r]| ==> pixels[r][c] == 0 || pixels[r][c] == 1
    ensures StoredSlice(pixels) == pixels
  {
    var s := StoredSlice(pixels);
    forall r | 0 <= r < |s| ensures s[r] == pixels[r] {
    }
  }

  /** Every frame of segment `s` lies on one of the `depth` slices. Frames of
      other segments are never indexed by the pass for `s`. */
  predicate InRangeFor(s: int, frames: seq<Frame>, slices: seq<nat>, depth: nat)
    requires |frames| == |slices|
  {
    forall j :: 0 <= j < |frames| && frames[j].segment == s ==> slices[j] < depth
  }

  /** Every frame of every segment of `order` lies on one of the slices. */
  predicate InRangeForAll(order: seq<int>, frames: seq<Frame>, slices: seq<nat>, depth: nat)
    requires |frames| == |slices|
  {
    forall i :: 0 <= i < |order| ==> InRangeFor(order[i], frames, slices, depth)
  }

  /** The buffer after the frame loop for segment `s` has visited the first
      `n` frames, starting from `v`. */
  function SegmentPass(v: Volume, s: int, frames: seq<Frame>, slices: seq<nat>, n: nat): (w: Volume)
    requires n <= |frames| == |slices| && InRangeFor(s, frames, slices, |v|)
    ensures |w| == |v|
  {
    if n == 0 then v
    else
      var w := SegmentPass(v, s, frames, slices, n - 1);
      if frames[n - 1].segment == s then w[slices[n - 1] := StoredSlice(frames[n - 1].pixels)] else w
  }

  /** A frame of `s` on slice `j` */
  predicate Covers(s: int, frames: seq<Frame>, slices: seq<nat>, j: nat, k: int)
    requires j < |frames| == |slices|
  {
    frames[j].segment == s && slices[j] == k
  }

  /** The pass keeps the buffer's shape. */
  lemma {:induction false} PassShaped(v: Volume, s: int, frames: seq<Frame>, slices: seq<nat>, n: nat, rows: nat, cols: nat)
    requires n <= |frames| == |slices| && InRangeFor(s, frames, slices, |v|)
    requires Shaped(v, |v|, rows, cols) && FramesShaped(frames, rows, cols)
    ensures Shaped(SegmentPass(v, s, frames, slices, n), |v|, rows, cols)
  {
    if n > 0 {
      PassShaped(v, s, frames, slices, n - 1, rows, cols);
    }
  }

  /** A slice the segment's frames never cover keeps what the buffer held. */
  lemma {:induction false} PassKeepsUncovered(v: Volume, s: int, frames: seq<Frame>, slices: seq<nat>, n: nat, k: nat)
    requires n <= |frames| == |slices| && InRangeFor(s, frames, slices, |v|) && k < |v|
    requires forall j :: 0 <= j < n ==> !Covers(s, frames, slices, j, k)
    ensures SegmentPass(v, s, frames, slices, n)[k] == v[k]
  {
    if n > 0 {
      assert !Covers(s, frames, slices, n - 1, k);
      PassKeepsUncovered(v, s, frames, slices, n - 1, k);
    }
  }

  /** Frames of other segments change nothing: when no frame references `s`
      the buffer is left as it was. */
  lemma {:induction false} PassIgnoresOtherSegments(v: Volume, s: int, frames: seq<Frame>, slices: seq<nat>, n: nat)
    requires n <= |frames| == |slices| && InRangeFor(s, frames, slices, |v|)
    requires forall j :: 0 <= j < n ==> frames[j].segment != s
    ensures SegmentPass(v, s, frames, slices, n) == v
  {
    if n > 0 {
      PassIgnoresOtherSegments(v, s, frames, slices, n - 1);
    }
  }

  /** A covered slice is exactly the stored samples of the last frame of `s`
      on it, zeros included: whatever the buffer held there is gone. */
  lemma {:induction false} PassLastWriter(v: Volume, s: int, frames: seq<Frame>, slices: seq<nat>, n: nat, k: nat, j: nat)
    requires n <= |frames| == |slices| && InRangeFor(s, frames, slices, |v|)
    requires j < n && Covers(s, frames, slices, j, k)
    requires forall i :: j < i < n ==> !Covers(s, frames, slices, i, k)
    ensures SegmentPass(v, s, frames, slices, n)[k] == StoredSlice(frames[j].pixels)
  {
    if j < n - 1 {
      assert !Covers(s, frames, slices, n - 1, k);
      PassLastWriter(v, s, frames, slices, n - 1, k, j);
    }
  }

  /** The frame loop for one segment, writing whole slices in place. */
  method ApplySegment(buf: array3<int>, ghost v: Volume, s: int, frames: seq<Frame>, slices: seq<nat>)
    requires Holds(buf, v)
    requires |slices| == |frames| && InRangeFor(s, frames, slices, buf.Length0) && FramesShaped(frames, buf.Length1, buf.Length2)
    modifies buf
    ensures Holds(buf, SegmentPass(v, s, frames, slices, |frames|))
  {
    for j := 0 to |frames|
      invariant Holds(buf, SegmentPass(v, s, frames, slices, j))
    {
      PassShaped(v, s, frames, slices, j + 1, buf.Length1, buf.Length2);
      if frames[j].segment == s {
        var k, pixels := slices[j], frames[j].pixels;
        forall r, c | 0 <= r < buf.Length1 && 0 <= c < buf.Length2 {
          buf[k, r, c] := Store(UInt8, pixels[r][c]);
        }
      }
    }
  }

  predicate Distinct(order: seq<int>)
  {
    forall i, j :: 0 <= i < j < |order| ==> order[i] != order[j]
  }

  // ---------------------------------------------------------------------
  // As written: one buffer for all segments

  /** The shared buffer once the first `m` segments of `order` are done. */
  function SharedAfter(order: seq<int>, frames: seq<Frame>, slices: seq<nat>, depth: nat, rows: nat, cols: nat, m: nat): (v: Volume)
    requires m <= |order| && |frames| == |slices| && InRangeForAll(order, frames, slices, depth)
    ensures |v| == depth
  {
    if m == 0 then Zeros(depth, rows, cols)
    else SegmentPass(SharedAfter(order, frames, slices, depth, rows, cols, m - 1), order[m - 1], frames, slices, |frames|)
  }

  lemma {:induction false} SharedShaped(order: seq<int>, frames: seq<Frame>, slices: seq<nat>, depth: nat, rows: nat, cols: nat, m: nat)
    requires m <= |order| && |frames| == |slices| && InRangeForAll(order, frames, slices, depth) && FramesShaped(frames, rows, cols)
    ensures Shaped(SharedAfter(order, frames, slices, depth, rows, cols, m), depth, rows, cols)
  {
    if m > 0 {
      SharedShaped(order, frames, slices, depth, rows, cols, m - 1);
      PassShaped(SharedAfter(order, frames, slices, depth, rows, cols, m - 1), order[m - 1], frames, slices, |frames|, rows, cols);
    }
  }

  /** The images after the first `m` segments, one buffer for all. */
  function SharedImages(order: seq<int>, frames: seq<Frame>, slices: seq<nat>, depth: nat, rows: nat, cols: nat, m: nat): map<int, Volume>
    requires m <= |order| && |frames| == |slices| && InRangeForAll(order, frames, slices, depth)
  {
    if m == 0 then map[]
    else SharedImages(order, frames, slices, depth, rows, cols, m - 1)[order[m - 1] := SharedAfter(order, frames, slices, depth, rows, cols, m)]
  }

  /** With distinct segment numbers there is one image per number, and the
      image of the i-th segment is the shared buffer after i + 1 segments. */
  lemma {:induction false} SharedImagesContents(order: seq<int>, frames: seq<Frame>, slices: seq<nat>, depth: nat, rows: nat, cols: nat, m: nat)
    requires m <= |order| && |frames| == |slices| && InRangeForAll(order, frames, slices, depth) && Distinct(order)
    ensures SharedImages(order, frames, slices, depth, rows, cols, m).Keys == set i | 0 <= i < m :: order[i]
    ensures forall i :: 0 <= i < m ==>
              SharedImages(order, frames, slices, depth, rows, cols, m)[order[i]] == SharedAfter(order, frames, slices, depth, rows, cols, i + 1)
  {
    SharedImagesKeys(order, frames, slices, depth, rows, cols, m);
    forall i | 0 <= i < m
      ensures SharedImages(order, frames, slices, depth, rows, cols, m)[order[i]] == SharedAfter(order, frames, slices, depth, rows, cols, i + 1)
    {
      SharedImageOf(order, frames, slices, depth, rows, cols, m, i);
    }
  }

  lemma {:induction false} SharedImagesKeys(order: seq<int>, frames: seq<Frame>, slices: seq<nat>, depth: nat, rows: nat, cols: nat, m: nat)
    requires m <= |order| && |frames| == |slices| && InRangeForAll(order, frames, slices, depth)
    ensures SharedImages(order, frames, slices, depth, rows, cols, m).Keys == set i | 0 <= i < m :: order[i]
  {
    if m > 0 {
      SharedImagesKeys(order, frames, slices, depth, rows, cols, m - 1);
      assert (set i | 0 <= i < m :: order[i]) == (set i | 0 <= i < m - 1 :: order[i]) + {order[m - 1]};
    }
  }

  lemma {:induction false} SharedImageOf(order: seq<int>, frames: seq<Frame>, slices: seq<nat>, depth: nat, rows: nat, cols: nat, m: nat, i: nat)
    requires i < m <= |order| && |frames| == |slices| && InRangeForAll(order, frames, slices, depth) && Distinct(order)
    ensures order[i] in SharedImages(order, frames, slices, depth, rows, cols, m)
    ensures SharedImages(order, frames, slices, depth, rows, cols, m)[order[i]] == SharedAfter(order, frames, slices, depth, rows, cols, i + 1)
  {
    if i < m - 1 {
      assert order[i] != order[m - 1];
      SharedImageOf(order, frames, slices, depth, rows, cols, m - 1, i);
    }
  }

  /** `SegmentReader._decode` as written: the buffer is allocated once,
      before the segment loop, and each segment's image is a copy of the
      buffer after that segment's frames. */
  method AssembleSegmentsShared(order: seq<int>, frames: seq<Frame>, slices: seq<nat>, depth: nat, rows: nat, cols: nat)
    returns (images: map<int, Volume>)
    requires |slices| == |frames| && InRangeForAll(order, frames, slices, depth) && FramesShaped(frames, rows, cols)
    ensures images == SharedImages(order, frames, slices, depth, rows, cols, |order|)
  {
    var buf := new int[depth, rows, cols]((_, _, _) => 0);
    images := map[];
    for i := 0 to |order|
      invariant Holds(buf, SharedAfter(order, frames, slices, depth, rows, cols, i))
      invariant images == SharedImages(order, frames, slices, depth, rows, cols, i)
    {
      SharedShaped(order, frames, slices, depth, rows, cols, i);
      ApplySegment(buf, SharedAfter(order, frames, slices, depth, rows, cols, i), order[i], frames, slices);
      var image := Snapshot(buf);
      HoldsUnique(buf, image, SharedAfter(order, frames, slices, depth, rows, cols, i + 1));
      images := images[order[i] := image];
    }
  }

  /** In the shared buffer a segment's image still shows, on every slice its
      own frames do not cover, what the earlier segments wrote there. */
  lemma SharedCarriesEarlier(order: seq<int>, frames: seq<Frame>, slices: seq<nat>, depth: nat, rows: nat, cols: nat, m: nat, k: nat, s: int)
    requires 0 < m <= |order| && order[m - 1] == s
    requires |frames| == |slices| && InRangeForAll(order, frames, slices, depth) && k < depth
    requires forall j :: 0 <= j < |frames| ==> !Covers(s, frames, slices, j, k)
    ensures SharedAfter(order, frames, slices, depth, rows, cols, m)[k]
         == SharedAfter(order, frames, slices, depth, rows, cols, m - 1)[k]
  {
    PassKeepsUncovered(SharedAfter(order, frames, slices, depth, rows, cols, m - 1), s, frames, slices, |frames|, k);
  }

  /** Segment 1 on slice 0 and segment 2 on slice 1, one pixel each: the
      image of segment 2 is set on slice 0, which no frame of segment 2
      covers. */
  lemma SharedLeakExample(a: Frame, b: Frame)
    requires a.segment == 1 && a.pixels == [[1]]
    requires b.segment == 2 && b.pixels == [[1]]
    ensures !Covers(2, [a, b], [0, 1], 0, 0) && !Covers(2, [a, b], [0, 1], 1, 0)
    ensures SharedAfter([1, 2], [a, b], [0, 1], 2, 1, 1, 2)[0] == [[1]]
  {
    var frames, slices := [a, b], [0, 1];
    assert InRangeForAll([1, 2], frames, slices, 2);
    assert !Covers(1, frames, slices, 1, 0);
    PassLastWriter(Zeros(2, 1, 1), 1, frames, slices, 2, 0, 0);
    StoredSliceBinary([[1]]);
    assert SharedAfter([1, 2], frames, slices, 2, 1, 1, 1)[0] == [[1]];
    SharedCarriesEarlier([1, 2], frames, slices, 2, 1, 1, 2, 0, 2);
  }

  // ---------------------------------------------------------------------
  // Corrected: a zero-filled buffer per segment

  /** The image of segment `s`: only its own frames, on a zero buffer. */
  function SegmentImage(s: int, frames: seq<Frame>, slices: seq<nat>, depth: nat, rows: nat, cols: nat): (v: Volume)
    requires |frames| == |slices| && InRangeFor(s, frames, slices, depth)
    ensures |v| == depth
  {
    SegmentPass(Zeros(depth, rows, cols), s, frames, slices, |frames|)
  }

  /** The images after the first `m` segments, a fresh buffer each. */
  function FreshImages(order: seq<int>, frames: seq<Frame>, slices: seq<nat>, depth: nat, rows: nat, cols: nat, m: nat): map<int, Volume>
    requires m <= |order| && |frames| == |slices| && InRangeForAll(order, frames, slices, depth)
  {
    if m == 0 then map[]
    else FreshImages(order, frames, slices, depth, rows, cols, m - 1)[order[m - 1] := SegmentImage(order[m - 1], frames, slices, depth, rows, cols)]
  }

  /** One image per segment number, each built from that segment's frames alone
      (a repeated number would only rebuild the same image). */
  lemma {:induction false} FreshImagesContents(order: seq<int>, frames: seq<Frame>, slices: seq<nat>, depth: nat, rows: nat, cols: nat, m: nat)
    requires m <= |order| && |frames| == |slices| && InRangeForAll(order, frames, slices, depth)
    ensures FreshImages(order, frames, slices, depth, rows, cols, m).Keys == set i | 0 <= i < m :: order[i]
    ensures forall x :: x in FreshImages(order, frames, slices, depth, rows, cols, m) ==>
              FreshImages(order, frames, slices, depth, rows, cols, m)[x] == SegmentImage(x, frames, slices, depth, rows, cols)
  {
    if m > 0 {
      FreshImagesContents(order, frames, slices, depth, rows, cols, m - 1);
      assert (set i | 0 <= i < m :: order[i]) == (set i | 0 <= i < m - 1 :: order[i]) + {order[m - 1]};
    }
  }

  /** `SegmentReader._decode` with the buffer allocated inside the segment
      loop. */
  method AssembleSegments(order: seq<int>, frames: seq<Frame>, slices: seq<nat>, depth: nat, rows: nat, cols: nat)
    returns (images: map<int, Volume>)
    requires |slices| == |frames| && InRangeForAll(order, frames, slices, depth) && FramesShaped(frames, rows, cols)
    ensures images == FreshImages(order, frames, slices, depth, rows, cols, |order|)
  {
    images := map[];
    for i := 0 to |order|
      invariant images == FreshImages(order, frames, slices, depth, rows, cols, i)
    {
      var buf := new int[depth, rows, cols]((_, _, _) => 0);
      ApplySegment(buf, Zeros(depth, rows, cols), order[i], frames, slices);
      var image := Snapshot(buf);
      HoldsUnique(buf, image, SegmentImage(order[i], frames, slices, depth, rows, cols));
      images := images[order[i] := image];
    }
  }

  /** A segment's image is, slice by slice, the stored samples of its last
      frame on that slice, and zero on every slice it does not cover. */
  lemma SegmentImageSlices(s: int, frames: seq<Frame>, slices: seq<nat>, depth: nat, rows: nat, cols: nat, k: nat)
    requires |frames| == |slices| && InRangeFor(s, frames, slices, depth) && k < depth
    ensures (forall j :: 0 <= j < |frames| ==> !Covers(s, frames, slices, j, k)) ==>
              SegmentImage(s, frames, slices, depth, rows, cols)[k] == Zeros(depth, rows, cols)[k]
    ensures forall j :: 0 <= j < |frames| && Covers(s, frames, slices, j, k) &&
                        (forall i :: j < i < |frames| ==> !Covers(s, frames, slices, i, k)) ==>
              SegmentImage(s, frames, slices, depth, rows, cols)[k] == StoredSlice(frames[j].pixels)
  {
    if forall j :: 0 <= j < |frames| ==> !Covers(s, frames, slices, j, k) {
      PassKeepsUncovered(Zeros(depth, rows, cols), s, frames, slices, |frames|, k);
    }
    forall j | 0 <= j < |frames| && Covers(s, frames, slices, j, k) &&
               (forall i :: j < i < |frames| ==> !Covers(s, frames, slices, i, k))
      ensures SegmentImage(s, frames, slices, depth, rows, cols)[k] == StoredSlice(frames[j].pixels)
    {
      PassLastWriter(Zeros(depth, rows, cols), s, frames, slices, |frames|, k, j);
    }
  }

  /** The image of a segment does not depend on the order of the catalog:
      the corrected decode of the same example gives segment 2 nothing on
      slice 0. */
  lemma NoLeakExample(a: Frame, b: Frame)
    requires a.segment == 1 && a.pixels == [[1]]
    requires b.segment == 2 && b.pixels == [[1]]
    ensures SegmentImage(2, [a, b], [0, 1], 2, 1, 1)[0] == [[0]]
  {
    var frames, slices := [a, b], [0, 1];
    assert !Covers(2, frames, slices, 0, 0) && !Covers(2, frames, slices, 1, 0);
    SegmentImageSlices(2, frames, slices, 2, 1, 1, 0);
    var z := Zeros(2, 1, 1);
    assert |z[0]| == 1 && |z[0][0]| == 1 && z[0][0][0] == 0;
    assert z[0][0] == [0];
  }
}
