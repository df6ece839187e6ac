# pydicom-seg reader, modelled in Dafny

This project models the reader of pydicom-seg (`pydicom_seg/reader.py`).
The reader turns a DICOM Segmentation object into volumes, following the
Segmentation IOD of DICOM PS3.3 (section A.51, with the Segmentation Image
module of section C.8.20). A decode session has four stages:

1. It decodes SegmentSequence into a catalog: a map from segment number to
   SegmentInfo.
2. It resolves the geometry. The spacing comes from the Pixel Measures
   functional group. The direction cosines come from the Plane Orientation
   group. The origin and the extent come from projecting every frame's
   ImagePositionPatient onto the slice normal. The slice count is
   `ceil(extent / z) + 1`.
3. `MultiClassReader` writes every frame's segment number, masked by the
   frame's pixels, into one label buffer. The last writer wins.
4. `SegmentReader` builds one image per segment. For each segment it
   replaces whole slices with the pixel data of that segment's frames.

Modules:

- `Types`: shared values. These are `Option`, `Result`, the error
  taxonomy, 3-vectors over `real`, the SegmentationType enum and `Frame`.
- `Segments`: the catalog. `DecodeSegments` is the loop. `Catalog` is its
  specification function.
- `Geometry`: the spacing choice, the direction cosines and the slice count.
  It also holds the size, both as the code writes it and corrected.
- `Origin`: the origin and extent loop (`ImageOriginAndExtent`) and its
  specification.
- `Buffer`: the numpy buffer as a `array3<int>`, its value as nested
  sequences, and integer storage into uint8 or uint16.
- `MultiClass`: the checks at the head of `MultiClassReader._decode`, the
  element type, and the in-place masked write loop.
- `PerSegment`: the slice-replacing loop of `SegmentReader._decode`. It is
  modelled twice: with one buffer shared by all segments, as the code has
  it, and with a fresh buffer per segment.
- `Reader`: the two whole sessions, each `__init__` followed by one
  `_decode`. Each is a method proved equal to a specification function,
  and lemmas state what a successful decode contains.

Modelling decisions:

- Each Python exception becomes an `Err` value. `KeyError`, `IndexError`,
  `AttributeError` and `ValueError` each map to a named `Error`
  constructor.
- The slice index of frame `j` is an input, `slices[j]`. In the source it
  is SimpleITK's `TransformPhysicalPointToIndex`, which is foreign code.
- Positions, spacings and distances are `real`. Float rounding is not
  modelled.
- The reader object's attributes are the fields of a `Session` value,
  because `__init__` fills them once.
- The reader does not reject a frame that references an undeclared
  segment number. An out-of-range slice index raises numpy's `IndexError`
  at the first offending write (`FrameOutOfBounds`); nothing checks it
  earlier.

## Model

| member | source | states |
|---|---|---|
| `Types.ParseSegmentationType` | pydicom_seg/reader.py:22-24 | only BINARY and FRACTIONAL are accepted; every other name is an InvalidSegmentationType error naming it |
| `Types.SegmentationTypeName` | pydicom_seg/reader.py:22-24 | each segmentation type's value parses back to that type |
| `Segments.ParseAlgorithmType` | pydicom_seg/reader.py:10-13 | `AlgorithmType[name]` succeeds exactly for AUTOMATIC, SEMIAUTOMATIC and MANUAL; otherwise it fails with the offending name |
| `Segments.AlgorithmTypeName` | pydicom_seg/reader.py:10-13 | each algorithm type's name looks up to that type |
| `Segments.DecodeSegment` | pydicom_seg/reader.py:78-93 | the SegmentInfo keeps the declared number and label; a missing description becomes `''`; the codes are the first items of the category and type sequences; an empty code sequence or a bad algorithm type fails, in keyword-evaluation order |
| `Segments.DecodeSegments` | pydicom_seg/reader.py:73-93 | the loop returns exactly the catalog specification: the first duplicate number or malformed declaration stops it |
| `Segments.CatalogContents` | pydicom_seg/reader.py:74-87 | on success the keys are exactly the declared numbers, each entry is its declaration decoded, and each entry's number equals its key |
| `Segments.CatalogOkIff` | pydicom_seg/reader.py:74-93 | decoding succeeds if and only if the numbers are pairwise distinct and every declaration is well formed |
| `Segments.DuplicateRejected` | pydicom_seg/reader.py:75-76 | a number declared at two positions always makes decoding fail |
| `Segments.DuplicateReported` | pydicom_seg/reader.py:75-76 | a DuplicateSegment(n) error is only raised when n really is declared at two positions |
| `Segments.DuplicateThreeExample` | pydicom_seg/reader.py:75-76 | two declarations numbered 3 fail, with DuplicateSegment(3) when the first is well formed |
| `Geometry.DeclaredSpacing` | pydicom_seg/reader.py:95-107 | a missing Pixel Measures group is an error; the in-plane spacing is PixelSpacing; z is SpacingBetweenSlices when present, else SliceThickness; with neither, the read fails |
| `Geometry.SliceThicknessIgnored` | pydicom_seg/reader.py:102-105 | when SpacingBetweenSlices is present, SliceThickness has no effect on the spacing |
| `Geometry.ImageDirection` | pydicom_seg/reader.py:109-129 | a missing Plane Orientation group or an orientation whose length is not 6 is an error; the columns are the row cosines, the column cosines and their cross product |
| `Geometry.CrossOrthogonal` | pydicom_seg/reader.py:126 | the slice normal is orthogonal to both in-plane directions |
| `Geometry.DirectionOrthonormal` | pydicom_seg/reader.py:121-129 | for orthonormal row and column cosines, the direction matrix is orthonormal, so the normal has unit length |
| `Geometry.AxialDirection` | pydicom_seg/reader.py:118-129 | the orientation [1,0,0,0,1,0] gives the identity direction with normal (0,0,1) |
| `Geometry.Ceil` | pydicom_seg/reader.py:54 | `np.ceil`: the least integer not below its argument |
| `Geometry.SliceCount` | pydicom_seg/reader.py:54 | for z > 0 the count n satisfies (n-2)·z < extent ≤ (n-1)·z, and it is at least 1 for extent ≥ 0; a zero slice spacing is an error |
| `Geometry.SliceCountExample` | pydicom_seg/reader.py:54 | an extent of 4 at slice spacing 2 gives 3 slices |
| `Geometry.SizeAsWritten` | pydicom_seg/reader.py:54 | the size as written, (Rows, Columns, slices), with the slice count last |
| `Geometry.SizeAsWrittenTransposes` | pydicom_seg/reader.py:54 | with Rows ≠ Columns, the buffer that `size[::-1]` gives has Columns × Rows slices, which is not the Rows × Columns shape of a frame |
| `Geometry.SizeAsWrittenExample` | pydicom_seg/reader.py:54 | Rows 2 and Columns 3 give a buffer of shape (1, 3, 2) |
| `Geometry.ImageSize` | pydicom_seg/reader.py:54 | corrected size (Columns, Rows, slices): its buffer has `slices` slices of Rows × Columns, the shape of a frame |
| `Origin.Firsts` | pydicom_seg/reader.py:139-145 | the keys of the `distances` dictionary: no longer than the frames, starting with the first frame |
| `Origin.FirstsMembers` | pydicom_seg/reader.py:139-145 | every frame position is a key, every key is a frame position, and no key repeats |
| `Origin.ImageOriginAndExtent` | pydicom_seg/reader.py:131-158 | the loop skips repeated positions, keeps the running minimum under strict `<`, and computes the extent from the collected distances; it returns exactly the specification, and no frames is an error |
| `Origin.ScanOriginMinimal` | pydicom_seg/reader.py:147-149 | after any prefix, the running origin is a scanned position at a distance no greater than any scanned frame |
| `Origin.OriginIsMinimal` | pydicom_seg/reader.py:134-149 | the origin is a frame position; its distance is ≤ that of every frame, and it is ≤ 0 because the reference frame is at distance 0 |
| `Origin.OriginEarliest` | pydicom_seg/reader.py:147-149 | ties keep the earliest frame: the origin occurs no later than any frame at the same distance |
| `Origin.ExtentIsSpread` | pydicom_seg/reader.py:151-158 | the extent is ≥ 0; every frame lies between the origin's distance and that plus the extent; some frame lies exactly at the far end, so extent = max − min |
| `Origin.ExtentZeroIff` | pydicom_seg/reader.py:151-158 | the extent is 0 exactly when every frame lies in the reference plane |
| `Origin.RepeatedPositionIgnored` | pydicom_seg/reader.py:140-145 | appending a frame whose position already appeared changes neither the origin nor the extent |
| `Origin.TwoFrames` | pydicom_seg/reader.py:131-158 | two distinct frames, the second further along the normal: the origin is the first and the extent is their separation |
| `Buffer.Store` | pydicom_seg/reader.py:235 | a value stored into a uint8 or uint16 element lies within that type's range |
| `Buffer.StoreExact` | pydicom_seg/reader.py:214-218 | a value is stored unchanged exactly when it fits the element type |
| `Buffer.Zeros` | pydicom_seg/reader.py:222 | `np.zeros`: the requested shape, every voxel 0 |
| `Buffer.Snapshot` | pydicom_seg/reader.py:238 | `GetImageFromArray` copies the buffer: the value holds exactly what the array holds |
| `MultiClass.ParseOverlap` | pydicom_seg/reader.py:208 | an absent SegmentsOverlap counts as UNDEFINED; YES, UNDEFINED and NO are accepted; anything else is an error |
| `MultiClass.MaxNumber` | pydicom_seg/reader.py:214 | `max` of the segment numbers: one of them, and no smaller than any |
| `MultiClass.MultiClassElementType` | pydicom_seg/reader.py:203-218 | non-BINARY data, overlap YES, a bad flag or an empty catalog is refused, in the code's order; otherwise the type is uint8 exactly when every number is below 256 |
| `MultiClass.ElementTypeExample300` | pydicom_seg/reader.py:214-218 | a largest segment number of 300 gives uint16 |
| `MultiClass.ElementTypeRefusals` | pydicom_seg/reader.py:203-210 | FRACTIONAL is refused and overlap YES is refused, even with small numbers; an absent flag is accepted |
| `MultiClass.ElementTypeHoldsNumbers` | pydicom_seg/reader.py:214-218 | the chosen element type stores every declared (16-bit) segment number unchanged |
| `MultiClass.AssembleMultiClass` | pydicom_seg/reader.py:222-235 | after the in-place frame loop over a zero buffer, every voxel equals the last-writer specification |
| `MultiClass.LastWriterWins` | pydicom_seg/reader.py:231-235 | a voxel holds the number of the last frame in sequence order that lies on its slice and is set at its position |
| `MultiClass.UnwrittenIsZero` | pydicom_seg/reader.py:222-235 | a voxel that no frame writes stays 0 |
| `MultiClass.LabelAtCases` | pydicom_seg/reader.py:231-235 | every voxel is either unwritten and 0, or the stored number of its last writer |
| `MultiClass.VoxelIsZeroOrSegment` | pydicom_seg/reader.py:231-235 | when the numbers fit the element type, every voxel is 0 or the segment number of a frame that writes it |
| `MultiClass.OverwriteExample` | pydicom_seg/reader.py:231-235 | two frames on one slice, both set at the same pixel: the later frame's number remains |
| `PerSegment.SegmentPixelType` | pydicom_seg/reader.py:165-166 | `SegmentationType[name]`: uint8 exactly for BINARY, an error for an unknown name |
| `PerSegment.StoredSlice` | pydicom_seg/reader.py:189 | a slice assignment keeps the frame's shape and stores every sample into uint8 |
| `PerSegment.StoredSliceBinary` | pydicom_seg/reader.py:189 | binary samples are stored exactly, zeros included |
| `PerSegment.PassKeepsUncovered` | pydicom_seg/reader.py:178-189 | a slice that no frame of the segment covers keeps what the buffer held |
| `PerSegment.PassIgnoresOtherSegments` | pydicom_seg/reader.py:179-180 | frames that reference other segments leave the buffer unchanged |
| `PerSegment.PassLastWriter` | pydicom_seg/reader.py:189 | a covered slice is exactly the samples of the segment's last frame on it, whatever the buffer held there |
| `PerSegment.ApplySegment` | pydicom_seg/reader.py:178-189 | the in-place frame loop for one segment leaves the buffer holding the pass specification |
| `PerSegment.AssembleSegmentsShared` | pydicom_seg/reader.py:162-197 | as written: one buffer is allocated before the segment loop, and each image is the shared buffer after that segment's frames |
| `PerSegment.SharedImagesContents` | pydicom_seg/reader.py:169-197 | there is one image per distinct number, and the i-th segment's image is the shared buffer after i+1 segments |
| `PerSegment.SharedCarriesEarlier` | pydicom_seg/reader.py:167-189 | in the shared buffer, a segment's image still shows, on slices its own frames do not cover, what earlier segments wrote |
| `PerSegment.SharedLeakExample` | pydicom_seg/reader.py:167-197 | segment 1 on slice 0 and segment 2 on slice 1: the image of segment 2 is set on slice 0 |
| `PerSegment.AssembleSegments` | pydicom_seg/reader.py:162-197 | corrected: a zero buffer per segment, and the images equal the per-segment specification |
| `PerSegment.FreshImagesContents` | pydicom_seg/reader.py:169-197 | corrected: one image per declared number, each built from that segment's frames alone |
| `PerSegment.SegmentImageSlices` | pydicom_seg/reader.py:178-189 | corrected: each slice of a segment's image is the samples of its last frame there, or zero where it has none |
| `PerSegment.NoLeakExample` | pydicom_seg/reader.py:167-197 | corrected: in the example of the shared leak, segment 2's image is zero on slice 0 |
| `Reader.Resolve` | pydicom_seg/reader.py:45-54 | corrected: `__init__` up to its call of `_decode` (line 56) succeeds if and only if the catalog, spacing and direction resolve, a frame exists and z ≠ 0; the error is the catalog's, else the spacing's, else the direction's, else NoFrames, else ZeroSliceSpacing; the session carries the catalog, spacing and direction, and its buffer's slices are Rows × Columns |
| `Reader.ReadSession` | pydicom_seg/reader.py:45-54 | corrected: running the catalog loop and the origin loop gives exactly the resolved session |
| `Reader.SlicesCoverFrames` | pydicom_seg/reader.py:54 | for z > 0 the count n of slices counted from the extent is at least 1, and they reach every frame position: each position's distance is ≤ the origin's plus (n−1)·z |
| `Reader.OriginIsMinimalFrame` | pydicom_seg/reader.py:53 | the session's origin is one of the frame positions, and no frame lies below it along the slice normal |
| `Reader.ResolvedSession` | pydicom_seg/reader.py:45-54 | a resolved session's catalog holds exactly the declared numbers under their own keys; its origin is a minimal frame; for z > 0 there is at least one slice and the slices reach every frame |
| `Reader.FirstOutOfRange` | pydicom_seg/reader.py:231-235 | the first frame whose slice index exceeds the depth, and none when every index is in range |
| `Reader.DecodeMultiClass` | pydicom_seg/reader.py:201-241 | corrected: the whole MultiClassReader session, with the masked writes done in place, equals the specification of the decode |
| `Reader.MultiClassOutcome` | pydicom_seg/reader.py:203-235 | corrected: multi-class decoding succeeds if and only if the session resolves, the data is BINARY, overlap is not YES, a segment exists and every slice index is in range; FRACTIONAL and overlap YES give their own errors |
| `Reader.MultiClassVoxels` | pydicom_seg/reader.py:214-235 | on success, uint8 is chosen exactly when all numbers are below 256; the volume has the resolved shape; each voxel is 0 when unwritten, else its last writer's segment number |
| `Reader.FirstOutOfRangeFor` | pydicom_seg/reader.py:178-189 | the first frame of a segment, in sequence order, whose slice index is not below the depth: every earlier frame of that segment is in range, and none is returned exactly when all of them are |
| `Reader.SegmentsOutOfRange` | pydicom_seg/reader.py:170-189 | the first out-of-range frame when segments are scanned in catalog order: it is the first out-of-range frame of some segment all of whose predecessors are in range; none exactly when every indexed frame is in range |
| `Reader.DecodeSegmentImages` | pydicom_seg/reader.py:162-197 | corrected: the whole SegmentReader session on binary data, with slices written in place, equals the specification of the decode |
| `Reader.SegmentImagesContents` | pydicom_seg/reader.py:167-197 | corrected: on success there is one image per declared segment; each slice is the pixel data of the segment's last frame there, zeros included, or zero where the segment has no frame |

## Findings

| source | as written | input that shows it | evidently intended | confidence | as-written member | corrected member |
|---|---|---|---|---|---|---|
| pydicom_seg/reader.py:54 | `size = (Rows, Columns, n)`, so the buffer `np.zeros(size[::-1])` has shape (n, Columns, Rows) | Rows 2, Columns 3: the buffer is (n, 3, 2) but every frame is 2 × 3, so assigning a frame into a slice fails | SimpleITK order (Columns, Rows, n), which gives a buffer of shape (n, Rows, Columns) | not executed; follows from numpy's shape rules | `Geometry.SizeAsWrittenTransposes` | `Geometry.ImageSize` |
| pydicom_seg/reader.py:167 | `SegmentReader` allocates `segment_buffer` once, before the segment loop, so each segment's image inherits slices written by earlier segments | segment 1 has one frame on slice 0 and segment 2 has one frame on slice 1: segment 2's image is also set on slice 0 | a zero buffer per segment, so each image shows only its own segment | not executed; follows from the loop structure | `PerSegment.SharedLeakExample` | `PerSegment.NoLeakExample` |

The whole-session members in `Reader` use both corrected definitions.
`PerSegment.AssembleSegmentsShared` keeps the as-written shared buffer and
its lemmas.

## Left out

- pydicom parsing, tag lookup and `pixel_array` decompression are left out. The dataset is the plain record `Reader.Dataset`, and each frame's pixels are a `seq<seq<int>>` of Rows × Columns samples.
- SimpleITK is left out: image construction, SetOrigin, SetSpacing and SetDirection. An image is the value of its buffer (`Buffer.Snapshot`), kept beside the session's geometry.
- TransformPhysicalPointToIndex, including its rounding, is left out. Slice indices are an input sequence of naturals.
- Negative slice indices are left out. In numpy they would wrap around to the end of the buffer.
- `Geometry.ImageDirection`: does not divide the row and column cosines by their L2 norm (`reader.py:122-123`), because that needs a square root. The cosines are taken as given, and `DirectionOrthonormal` assumes they are unit length.
- The transpose question at `reader.py:128` is left open. The model stacks the three vectors as columns, as the code does.
- `Reader.SegmentDecode`: FRACTIONAL data is excluded by a precondition. Its float32 division by MaximumFractionalValue (`reader.py:186-187`) is floating-point arithmetic. `Reader.DecodeSegmentImages` carries the same precondition.
- `Reader.MultiClassVoxels`: assumes that every frame references a declared segment number, and that every declared number is an unsigned 16-bit value. Otherwise a stored number is reduced modulo 2^8 or 2^16 (`Buffer.Store`), as numpy 1.x does; numpy 2 raises an error instead.
- Floating point is not modelled. Positions, spacings, distances and the extent are exact reals, and tuple equality of positions is equality of reals.
- `referenced_series_uid` and `referenced_instance_uids` (`reader.py:58-67`) are left out. They are plain field lookups.
- The `attr` and `abc` scaffolding is left out. `Code` is kept only as a record inside `SegmentInfo`.
- `Reader.Resolve`: uses the corrected size (Columns, Rows, n) of `Geometry.ImageSize`; the size as written is `Geometry.SizeAsWritten`, and `Geometry.SizeAsWrittenTransposes` shows how it differs.
- `Reader.ReadSession`: returns the corrected session of `Reader.Resolve`; the as-written size is `Geometry.SizeAsWritten`.
- `Reader.DecodeMultiClass`: allocates its buffer from the corrected size; with the as-written size (`Geometry.SizeAsWritten`) the slice shape differs from a frame's whenever Rows ≠ Columns (`Geometry.SizeAsWrittenTransposes`).
- `Reader.MultiClassOutcome`: is about the decode with the corrected size; with the as-written size (`Geometry.SizeAsWritten`) a Rows ≠ Columns dataset would fail at the first write.
- `Reader.DecodeSegmentImages`: uses the corrected size and a fresh buffer per segment; the as-written halves are `Geometry.SizeAsWritten` and `PerSegment.AssembleSegmentsShared`.
- `Reader.SegmentImagesContents`: is about the corrected decode; in the as-written one (`PerSegment.AssembleSegmentsShared`) an image also keeps earlier segments' slices (`PerSegment.SharedCarriesEarlier`).
- A missing SegmentLabel, PixelSpacing or SharedFunctionalGroupsSequence item is left out (an AttributeError or IndexError in the code). These fields are always present in the record.
