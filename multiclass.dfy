/** Multi-class decoding (pydicom_seg/reader.py, MultiClassReader._decode):
    the precondition checks, the choice of element type, and the masked
    write of every frame into one label buffer. */
module MultiClass {
  import opened Types
  import opened Buffer

  datatype SegmentsOverlap = Yes | Undefined | No

  /** `SegmentsOverlap(dataset.get('SegmentsOverlap', UNDEFINED))`: an absent
      attribute counts as UNDEFINED, an unknown value is an error. */
  function ParseOverlap(flag: Option<string>): (r: Result<SegmentsOverlap>)
    ensures flag.None? ==> r == Ok(Undefined)
    ensures r.Ok? <==> flag.None? || flag.value in {"YES", "UNDEFINED", "NO"}
    ensures r.Err? ==> r.error == InvalidOverlapValue(flag.value)
  {
    match flag
    case None => Ok(Undefined)
    case Some(name) =>
      if name == "YES" then Ok(Yes)
      else if name == "UNDEFINED" then Ok(Undefined)
      else if name == "NO" then Ok(No)
      else Err(InvalidOverlapValue(name))
  }

  function OverlapName(o: SegmentsOverlap): (name: string)
    ensures ParseOverlap(Some(name)) == Ok(o)
  {
    match o
    case Yes => "YES"
    case Undefined => "UNDEFINED"
    case No => "NO"
  }

  /** `max()` of the (non-empty) segment numbers, in catalog order. */
  function MaxNumber(numbers: seq<int>): (m: int)
    requires |numbers| > 0
    ensures m in numbers && forall i :: 0 <= i < |numbers| ==> numbers[i] <= m
  {
    if |numbers| == 1 then numbers[0]
    else
      var rest := MaxNumber(numbers[1..]);
      assert forall i :: 1 <= i < |numbers| ==> numbers[i] == numbers[1..][i - 1];
      if numbers[0] > rest then numbers[0] else rest
  }

  /** The checks at the head of `MultiClassReader._decode`, in the order the
      code makes them, and the element type of the label buffer: 8 bits when
      the largest declared segment number is below 256, 16 bits otherwise. */
  function MultiClassElementType(segType: string, overlap: Option<string>, numbers: seq<int>): (r: Result<IntType>)
    ensures r.Ok? <==>
              segType == "BINARY" && ParseOverlap(overlap).Ok? && ParseOverlap(overlap).value != Yes && |numbers| > 0
    ensures ParseSegmentationType(segType).Err? ==> r == Err(InvalidSegmentationType(segType))
    ensures segType == "FRACTIONAL" ==> r == Err(UnsupportedSegmentationType)
    ensures segType == "BINARY" && ParseOverlap(overlap).Err? ==> r == Err(ParseOverlap(overlap).error)
    ensures segType == "BINARY" && ParseOverlap(overlap) == Ok(Yes) ==> r == Err(OverlappingSegments)
    ensures segType == "BINARY" && ParseOverlap(overlap).Ok? && ParseOverlap(overlap).value != Yes && |numbers| == 0 ==>
              r == Err(NoSegments)
    ensures r.Ok? ==> (r.value == UInt8 <==> forall i :: 0 <= i < |numbers| ==> numbers[i] < 256)
  {
    match ParseSegmentationType(segType)
    case Err(e) => Err(e)
    case Ok(st) =>
      if st != Binary then Err(UnsupportedSegmentationType)
      else
        match ParseOverlap(overlap)
        case Err(e) => Err(e)
        case Ok(o) =>
          if o == Yes then Err(OverlappingSegments)
          else if |numbers| == 0 then Err(NoSegments)
          else if MaxNumber(numbers) < 256 then Ok(UInt8)
          else Ok(UInt16)
  }

  /** With segment numbers 1 and 300 the buffer is 16 bits wide. */
  lemma ElementTypeExample300()
    ensures MultiClassElementType("BINARY", Some("NO"), [1, 300]) == Ok(UInt16)
  {
    assert MaxNumber([1, 300]) >= 300;
  }

  /** Fractional data and overlapping segments are refused even when every
      segment number is small; an absent overlap flag is accepted. */
  lemma ElementTypeRefusals(numbers: seq<int>)
    requires numbers == [1, 2]
    ensures MultiClassElementType("FRACTIONAL", None, numbers) == Err(UnsupportedSegmentationType)
    ensures MultiClassElementType("BINARY", Some("YES"), numbers) == Err(OverlappingSegments)
    ensures MultiClassElementType("BINARY", None, numbers) == Ok(UInt8)
  {
  }

  /** When every declared number is a valid DICOM segment number (an
      unsigned 16-bit value), the chosen element type holds each of them
      unchanged. */
  lemma ElementTypeHoldsNumbers(segType: string, overlap: Option<string>, numbers: seq<int>, n: int)
    requires MultiClassElementType(segType, overlap, numbers).Ok?
    requires forall i :: 0 <= i < |numbers| ==> 0 <= numbers[i] < 65536
    requires n in numbers
    ensures Store(MultiClassElementType(segType, overlap, numbers).value, n) == n
  {
    var t := MultiClassElementType(segType, overlap, numbers).value;
    StoreExact(t, n);
  }

  // ---------------------------------------------------------------------
  // The masked write

  /** Frame `j` lies on slice `k` and is set at (r, c). */
  predicate Hits(frames: seq<Frame>, slices: seq<nat>, j: nat, k: int, r: int, c: int)
    requires j < |frames| == |slices|
  {
    slices[j] == k && Pixel(frames[j], r, c) > 0
  }

  /** The voxel (k, r, c) after the first `n` frames have been written. */
  function LabelAt(t: IntType, frames: seq<Frame>, slices: seq<nat>, n: nat, k: int, r: int, c: int): int
    requires n <= |frames| == |slices|
  {
    if n == 0 then 0
    else if Hits(frames, slices, n - 1, k, r, c) then Store(t, frames[n - 1].segment)
    else LabelAt(t, frames, slices, n - 1, k, r, c)
  }

  /** The frame loop of `MultiClassReader._decode` on a zero-filled buffer of
      shape (depth, rows, cols): frame `i` writes its referenced segment number
      into slice `slices[i]` wherever its pixel data is greater than zero. */
  method AssembleMultiClass(t: IntType, frames: seq<Frame>, slices: seq<nat>, depth: nat, rows: nat, cols: nat)
    returns (buf: array3<int>)
    requires |slices| == |frames|
    requires forall j :: 0 <= j < |slices| ==> slices[j] < depth
    requires FramesShaped(frames, rows, cols)
    ensures fresh(buf)
    ensures buf.Length0 == depth && buf.Length1 == rows && buf.Length2 == cols
    ensures forall k, r, c :: 0 <= k < depth && 0 <= r < rows && 0 <= c < cols ==>
              buf[k, r, c] == LabelAt(t, frames, slices, |frames|, k, r, c)
  {
    buf := new int[depth, rows, cols]((_, _, _) => 0);
    for i := 0 to |frames|
      invariant forall k, r, c :: 0 <= k < depth && 0 <= r < rows && 0 <= c < cols ==>
                  buf[k, r, c] == LabelAt(t, frames, slices, i, k, r, c)
    {
      var f, k := frames[i], slices[i];
      forall r, c | 0 <= r < rows && 0 <= c < cols && f.pixels[r][c] > 0 {
        buf[k, r, c] := Store(t, f.segment);
      }
    }
  }

  /** Last writer wins: the voxel holds the stored number of the last frame,
      in sequence order, that lies on its slice and is set at its position. */
  lemma {:induction false} LastWriterWins(t: IntType, frames: seq<Frame>, slices: seq<nat>, n: nat, k: int, r: int, c: int, j: nat)
    requires n <= |frames| == |slices|
    requires j < n && Hits(frames, slices, j, k, r, c)
    requires forall i :: j < i < n ==> !Hits(frames, slices, i, k, r, c)
    ensures LabelAt(t, frames, slices, n, k, r, c) == Store(t, frames[j].segment)
  {
    if j < n - 1 {
      LastWriterWins(t, frames, slices, n - 1, k, r, c, j);
    }
  }

  /** A voxel no frame writes stays zero. */
  lemma {:induction false} UnwrittenIsZero(t: IntType, frames: seq<Frame>, slices: seq<nat>, n: nat, k: int, r: int, c: int)
    requires n <= |frames| == |slices|
    requires forall i :: 0 <= i < n ==> !Hits(frames, slices, i, k, r, c)
    ensures LabelAt(t, frames, slices, n, k, r, c) == 0
  {
    if n > 0 {
      UnwrittenIsZero(t, frames, slices, n - 1, k, r, c);
    }
  }

  /** Every voxel is either untouched and zero, or holds the stored number of
      the last frame that writes it. */
  lemma {:induction false} LabelAtCases(t: IntType, frames: seq<Frame>, slices: seq<nat>, n: nat, k: int, r: int, c: int)
    requires n <= |frames| == |slices|
    ensures || ((forall i :: 0 <= i < n ==> !Hits(frames, slices, i, k, r, c)) && LabelAt(t, frames, slices, n, k, r, c) == 0)
            || (exists j :: 0 <= j < n && Hits(frames, slices, j, k, r, c) &&
                  (forall i :: j < i < n ==> !Hits(frames, slices, i, k, r, c)) &&
                  LabelAt(t, frames, slices, n, k, r, c) == Store(t, frames[j].segment))
  {
    if n > 0 {
      var v := LabelAt(t, frames, slices, n, k, r, c);
      if Hits(frames, slices, n - 1, k, r, c) {
        assert v == Store(t, frames[n - 1].segment);
      } else {
        LabelAtCases(t, frames, slices, n - 1, k, r, c);
        assert v == LabelAt(t, frames, slices, n - 1, k, r, c);
        if exists j :: 0 <= j < n - 1 && Hits(frames, slices, j, k, r, c) &&
             (forall i :: j < i < n - 1 ==> !Hits(frames, slices, i, k, r, c)) &&
             v == Store(t, frames[j].segment) {
          var j :| 0 <= j < n - 1 && Hits(frames, slices, j, k, r, c) &&
             (forall i :: j < i < n - 1 ==> !Hits(frames, slices, i, k, r, c)) &&
             v == Store(t, frames[j].segment);
          assert forall i :: j < i < n ==> !Hits(frames, slices, i, k, r, c);
        }
      }
    }
  }

  /** When every referenced number fits the element type, each voxel is 0 or
      exactly the segment number of a frame that writes it. */
  lemma VoxelIsZeroOrSegment(t: IntType, frames: seq<Frame>, slices: seq<nat>, k: int, r: int, c: int)
    requires |frames| == |slices|
    requires forall j :: 0 <= j < |frames| ==> 0 <= frames[j].segment < Modulus(t)
    ensures var v := LabelAt(t, frames, slices, |frames|, k, r, c);
            v == 0 || exists j :: 0 <= j < |frames| && Hits(frames, slices, j, k, r, c) && v == frames[j].segment
  {
    LabelAtCases(t, frames, slices, |frames|, k, r, c);
    if exists j :: 0 <= j < |frames| && Hits(frames, slices, j, k, r, c) &&
         (forall i :: j < i < |frames| ==> !Hits(frames, slices, i, k, r, c)) &&
         LabelAt(t, frames, slices, |frames|, k, r, c) == Store(t, frames[j].segment) {
      var j :| 0 <= j < |frames| && Hits(frames, slices, j, k, r, c) &&
         (forall i :: j < i < |frames| ==> !Hits(frames, slices, i, k, r, c)) &&
         LabelAt(t, frames, slices, |frames|, k, r, c) == Store(t, frames[j].segment);
      StoreExact(t, frames[j].segment);
    }
  }

  /** Two frames of segments 1 and 2 on the same slice, both set at (0, 0):
      the later one wins. */
  lemma OverwriteExample(a: Frame, b: Frame)
    requires a.segment == 1 && b.segment == 2
    requires a.pixels == [[1]] && b.pixels == [[1]]
    ensures LabelAt(UInt8, [a, b], [0, 0], 2, 0, 0, 0) == 2
  {
    assert Hits([a, b], [0, 0], 1, 0, 0, 0);
    LastWriterWins(UInt8, [a, b], [0, 0], 2, 0, 0, 0, 1);
  }
}
