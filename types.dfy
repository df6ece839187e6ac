/** Shared value types of the DICOM Segmentation reader: optional values,
    results, the error taxonomy and 3-vectors over the reals. */
module Types {

  datatype Option<T> = None | Some(value: T)

  datatype Result<T> = Ok(value: T) | Err(error: Error)

  /** Every way a decode session can fail. The reader raises a Python
      exception in each case; the model returns the matching `Err`. */
  datatype Error =
    | DuplicateSegment(number: int)          // a segment number declared twice
    | InvalidAlgorithmType(name: string)     // not a member of AlgorithmType
    | MissingCode                            // an empty coded-concept sequence
    | MissingPixelMeasures                   // no Pixel Measures functional group
    | MissingSliceSpacing                    // neither SpacingBetweenSlices nor SliceThickness
    | MissingOrientation                     // no Plane Orientation functional group
    | BadOrientationLength(length: nat)      // ImageOrientationPatient is not 6 values
    | NoFrames                               // no per-frame functional group at all
    | ZeroSliceSpacing                       // extent / 0 in the slice count
    | NegativeSliceCount(count: int)         // numpy refuses a negative dimension
    | InvalidSegmentationType(name: string)  // not a member of SegmentationType
    | UnsupportedSegmentationType            // multi-class decoding of FRACTIONAL data
    | InvalidOverlapValue(name: string)      // not a member of SegmentsOverlap
    | OverlappingSegments                    // multi-class decoding with overlap YES
    | NoSegments                             // max() over an empty segment catalog
    | FrameOutOfBounds(frame: nat)           // a slice index past the buffer's depth

  /** A point or direction in patient coordinates. */
  datatype Vec3 = Vec3(x: real, y: real, z: real)

  function Sub(a: Vec3, b: Vec3): Vec3
  {
    Vec3(a.x - b.x, a.y - b.y, a.z - b.z)
  }

  function Dot(a: Vec3, b: Vec3): real
  {
    a.x * b.x + a.y * b.y + a.z * b.z
  }

  function Abs(x: real): (r: real)
    ensures r >= 0.0 && (r == x || r == -x)
  {
    if x < 0.0 then -x else x
  }

  /** `SegmentationType`, looked up by its value (which equals its name). */
  datatype SegmentationType = Binary | Fractional

  function SegmentationTypeName(t: SegmentationType): (name: string)
    ensures ParseSegmentationType(name) == Ok(t)
  {
    match t
    case Binary => "BINARY"
    case Fractional => "FRACTIONAL"
  }

  function ParseSegmentationType(name: string): (r: Result<SegmentationType>)
    ensures r.Ok? <==> name in {"BINARY", "FRACTIONAL"}
    ensures r.Err? ==> r.error == InvalidSegmentationType(name)
  {
    if name == "BINARY" then Ok(Binary)
    else if name == "FRACTIONAL" then Ok(Fractional)
    else Err(InvalidSegmentationType(name))
  }

  /** One item of PerFrameFunctionalGroupsSequence with its pixel data: the
      referenced segment number, ImagePositionPatient and the frame's
      Rows x Columns samples. */
  datatype Frame = Frame(segment: int, position: Vec3, pixels: seq<seq<int>>)
}
