/** The two decode sessions of pydicom_seg/reader.py: `_ReaderBase.__init__`
    resolves the segment catalog and the geometry, then the `_decode` of
    MultiClassReader or of SegmentReader fills the label buffer(s).

    The slice index of frame `j` is `slices[j]`: it stands for the result of
    SimpleITK's TransformPhysicalPointToIndex on the frame's position, a
    foreign call that is not part of this model. */
module Reader {
  import opened Types
  import opened Segments
  import opened Geometry
  import opened Origin
  import opened Buffer
  import MultiClass
  import PerSegment

  /** The attributes of a Segmentation dataset the reader consults. Each
      item of `frames` pairs a PerFrameFunctionalGroupsSequence item with its
      frame of `pixel_array`. */
  datatype Dataset = Dataset(
    segmentSequence: seq<SegmentDecl>,
    sharedGroups: SharedGroups,
    rows: nat,
    columns: nat,
    frames: seq<Frame>,
    segmentationType: string,
    segmentsOverlap: Option<string>)

  /** The reader's attributes once `__init__` has resolved them. The slice
      count `size.z` may still be negative: numpy refuses it only when a
      buffer of that shape is allocated. */
  datatype Session = Session(
    segmentInfos: map<int, SegmentInfo>,
    spacing: Spacing,
    direction: Direction,
    origin: Vec3,
    size: Size3)

  function Positions(frames: seq<Frame>): (ps: seq<Vec3>)
    ensures |ps| == |frames| && forall j :: 0 <= j < |frames| ==> ps[j] == frames[j].position
  {
    seq(|frames|, j requires 0 <= j < |frames| => frames[j].position)
  }

  /** The catalog's keys in insertion order: the declared numbers. */
  function DeclaredNumbers(ds: seq<SegmentDecl>): (ns: seq<int>)
    ensures |ns| == |ds| && forall i :: 0 <= i < |ds| ==> ns[i] == ds[i].number
  {
    seq(|ds|, i requires 0 <= i < |ds| => ds[i].number)
  }

  // ---------------------------------------------------------------------
  // _ReaderBase.__init__

  /** The session `__init__` builds, in the order it builds it: the catalog,
      the spacing, the direction, the origin and extent, then the size. The
      first failure is the session's error. */
  function Resolve(d: Dataset): (r: Result<Session>)
    ensures r.Ok? <==>
              && Catalog(d.segmentSequence).Ok?
              && DeclaredSpacing(d.sharedGroups).Ok?
              && ImageDirection(d.sharedGroups).Ok?
              && |d.frames| > 0
              && DeclaredSpacing(d.sharedGroups).value.z != 0.0
    ensures Catalog(d.segmentSequence).Err? ==> r == Err(Catalog(d.segmentSequence).error)
    ensures Catalog(d.segmentSequence).Ok? && d.sharedGroups.pixelMeasures.None? ==> r == Err(MissingPixelMeasures)
    ensures Catalog(d.segmentSequence).Ok? && DeclaredSpacing(d.sharedGroups).Err? ==>
              r == Err(DeclaredSpacing(d.sharedGroups).error)
    ensures Catalog(d.segmentSequence).Ok? && DeclaredSpacing(d.sharedGroups).Ok? && ImageDirection(d.sharedGroups).Err? ==>
              r == Err(ImageDirection(d.sharedGroups).error)
    ensures (Catalog(d.segmentSequence).Ok? && DeclaredSpacing(d.sharedGroups).Ok? && ImageDirection(d.sharedGroups).Ok? &&
             |d.frames| == 0) ==> r == Err(NoFrames)
    ensures (Catalog(d.segmentSequence).Ok? && DeclaredSpacing(d.sharedGroups).Ok? && ImageDirection(d.sharedGroups).Ok? &&
             |d.frames| > 0 && DeclaredSpacing(d.sharedGroups).value.z == 0.0) ==> r == Err(ZeroSliceSpacing)
    ensures r.Ok? ==>
              && r.value.segmentInfos == Catalog(d.segmentSequence).value
              && r.value.spacing == DeclaredSpacing(d.sharedGroups).value
              && r.value.direction == ImageDirection(d.sharedGroups).value
              && BufferShape(r.value.size).y == d.rows
              && BufferShape(r.value.size).z == d.columns
  {
    match Catalog(d.segmentSequence)
    case Err(e) => Err(e)
    case Ok(infos) =>
      match DeclaredSpacing(d.sharedGroups)
      case Err(e) => Err(e)
      case Ok(spacing) =>
        match ImageDirection(d.sharedGroups)
        case Err(e) => Err(e)
        case Ok(direction) =>
          match OriginAndExtent(Positions(d.frames), direction.sliceDir)
          case Err(e) => Err(e)
          case Ok(oe) =>
            match SliceCount(oe.extent, spacing.z)
            case Err(e) => Err(e)
            case Ok(n) => Ok(Session(infos, spacing, direction, oe.origin, ImageSize(d.rows, d.columns, n)))
  }

  /** `_ReaderBase.__init__` up to the call of `_decode`, running the
      catalog loop and the origin loop. */
  method ReadSession(d: Dataset) returns (r: Result<Session>)
    ensures r == Resolve(d)
  {
    var infos := DecodeSegments(d.segmentSequence);
    if infos.Err? {
      return Err(infos.error);
    }
    var spacing := DeclaredSpacing(d.sharedGroups);
    if spacing.Err? {
      return Err(spacing.error);
    }
    var direction := ImageDirection(d.sharedGroups);
    if direction.Err? {
      return Err(direction.error);
    }
    var oe := ImageOriginAndExtent(Positions(d.frames), direction.value.sliceDir);
    if oe.Err? {
      return Err(oe.error);
    }
    var n := SliceCount(oe.value.extent, spacing.value.z);
    if n.Err? {
      return Err(n.error);
    }
    var size := ImageSize(d.rows, d.columns, n.value);
    return Ok(Session(infos.value, spacing.value, direction.value, oe.value.origin, size));
  }

  /** Every position lies, along the slice normal, no farther from the first
      position than `span` beyond `origin`. */
  predicate WithinSpan(positions: seq<Vec3>, sliceDir: Vec3, origin: Vec3, span: real)
    requires positions != []
  {
    forall j :: 0 <= j < |positions| ==>
      Distance(positions[0], sliceDir, positions[j]) <= Distance(positions[0], sliceDir, origin) + span
  }

  lemma WithinSpanWiden(positions: seq<Vec3>, sliceDir: Vec3, origin: Vec3, span: real, span': real)
    requires positions != [] && WithinSpan(positions, sliceDir, origin, span) && span <= span'
    ensures WithinSpan(positions, sliceDir, origin, span')
  {
    var lo := Distance(positions[0], sliceDir, origin);
    forall j | 0 <= j < |positions|
      ensures Distance(positions[0], sliceDir, positions[j]) <= lo + span'
    {
      var dj := Distance(positions[0], sliceDir, positions[j]);
      assert dj <= lo + span;
    }
  }

  /** The `n` slices `z` apart counted from the extent reach every frame
      position: the last one lies (n - 1) z beyond the origin `o`. */
  lemma SlicesCoverFrames(positions: seq<Vec3>, sliceDir: Vec3, z: real, o: Vec3, n: int)
    requires positions != [] && z > 0.0
    requires OriginAndExtent(positions, sliceDir).value.origin == o
    requires SliceCount(OriginAndExtent(positions, sliceDir).value.extent, z) == Ok(n)
    ensures n >= 1
    ensures WithinSpan(positions, sliceDir, o, (n - 1) as real * z)
  {
    var extent := OriginAndExtent(positions, sliceDir).value.extent;
    ExtentWithinSpan(positions, sliceDir, o);
    SliceCountCovers(extent, z, n);
    WithinSpanWiden(positions, sliceDir, o, extent, (n - 1) as real * z);
  }

  lemma ExtentWithinSpan(positions: seq<Vec3>, sliceDir: Vec3, o: Vec3)
    requires positions != [] && OriginAndExtent(positions, sliceDir).value.origin == o
    ensures OriginAndExtent(positions, sliceDir).value.extent >= 0.0
    ensures WithinSpan(positions, sliceDir, o, OriginAndExtent(positions, sliceDir).value.extent)
  {
    ExtentIsSpread(positions, sliceDir);
  }

  lemma SliceCountCovers(extent: real, z: real, n: int)
    requires extent >= 0.0 && z > 0.0 && SliceCount(extent, z) == Ok(n)
    ensures n >= 1 && extent <= (n - 1) as real * z
  {
  }

  /** The origin `o` is a frame position no frame lies below. */
  lemma OriginIsMinimalFrame(frames: seq<Frame>, sliceDir: Vec3, o: Vec3)
    requires frames != [] && OriginAndExtent(Positions(frames), sliceDir).value.origin == o
    ensures o in Positions(frames)
    ensures forall j :: 0 <= j < |frames| ==>
              Distance(frames[0].position, sliceDir, o) <= Distance(frames[0].position, sliceDir, frames[j].position)
  {
    var ps := Positions(frames);
    OriginIsMinimal(ps, sliceDir);
    assert ps[0] == frames[0].position;
    forall j | 0 <= j < |frames| ensures ps[j] == frames[j].position { }
  }

  /** Resolve, one stage at a time. */
  lemma ResolveStages(d: Dataset)
    requires Resolve(d).Ok?
    ensures var s := Resolve(d).value;
            && Catalog(d.segmentSequence) == Ok(s.segmentInfos)
            && |d.frames| > 0
            && OriginAndExtent(Positions(d.frames), s.direction.sliceDir).Ok?
            && s.origin == OriginAndExtent(Positions(d.frames), s.direction.sliceDir).value.origin
            && SliceCount(OriginAndExtent(Positions(d.frames), s.direction.sliceDir).value.extent, s.spacing.z) == Ok(s.size.z)
  {
  }

  /** The geometry a resolved session promises for its frames: the origin
      `o` is a frame position no frame lies below along the slice normal,
      and for a positive slice spacing `z` there is at least one of the `n`
      slices and they reach every frame. */
  predicate FramesPromises(frames: seq<Frame>, sliceDir: Vec3, o: Vec3, z: real, n: int)
  {
    && |frames| > 0
    && o in Positions(frames)
    && (forall j :: 0 <= j < |frames| ==>
          Distance(frames[0].position, sliceDir, o) <= Distance(frames[0].position, sliceDir, frames[j].position))
    && (z > 0.0 ==> n >= 1 && WithinSpan(Positions(frames), sliceDir, o, (n - 1) as real * z))
  }

  lemma FramesKeepPromises(frames: seq<Frame>, sliceDir: Vec3, o: Vec3, z: real, n: int)
    requires |frames| > 0
    requires OriginAndExtent(Positions(frames), sliceDir).value.origin == o
    requires SliceCount(OriginAndExtent(Positions(frames), sliceDir).value.extent, z) == Ok(n)
    ensures FramesPromises(frames, sliceDir, o, z, n)
  {
    OriginIsMinimalFrame(frames, sliceDir, o);
    if z > 0.0 {
      SlicesCoverFrames(Positions(frames), sliceDir, z, o, n);
    }
  }

  /** What a resolved session promises: the catalog holds exactly the
      declared segments under their own numbers, and its origin and slice
      count keep the frame promises above. */
  predicate SessionPromises(d: Dataset, s: Session)
  {
    && s.segmentInfos.Keys == NumberSet(d.segmentSequence)
    && (forall n :: n in s.segmentInfos ==> s.segmentInfos[n].number == n)
    && FramesPromises(d.frames, s.direction.sliceDir, s.origin, s.spacing.z, s.size.z)
  }

  /** The promises follow from the stages alone. */
  lemma StagesKeepPromises(d: Dataset, s: Session)
    requires Catalog(d.segmentSequence) == Ok(s.segmentInfos) && |d.frames| > 0
    requires OriginAndExtent(Positions(d.frames), s.direction.sliceDir).value.origin == s.origin
    requires SliceCount(OriginAndExtent(Positions(d.frames), s.direction.sliceDir).value.extent, s.spacing.z) == Ok(s.size.z)
    ensures SessionPromises(d, s)
  {
    CatalogContents(d.segmentSequence);
    FramesKeepPromises(d.frames, s.direction.sliceDir, s.origin, s.spacing.z, s.size.z);
  }

  lemma ResolvedSession(d: Dataset)
    requires Resolve(d).Ok?
    ensures SessionPromises(d, Resolve(d).value)
  {
    ResolveStages(d);
    StagesKeepPromises(d, Resolve(d).value);
  }

  // ---------------------------------------------------------------------
  // MultiClassReader._decode

  /** The first frame, in sequence order, whose slice index is not below
      `depth`: the write that raises an IndexError. */
  function FirstOutOfRange(slices: seq<nat>, depth: nat): (r: Option<nat>)
    ensures r.None? <==> forall j :: 0 <= j < |slices| ==> slices[j] < depth
    ensures r.Some? ==>
              && r.value < |slices| && slices[r.value] >= depth
              && forall j :: 0 <= j < r.value ==> slices[j] < depth
    decreases |slices|
  {
    if slices == [] then None
    else
      var p := slices[..|slices| - 1];
      match FirstOutOfRange(p, depth)
      case Some(j) => Some(j)
      case None => if slices[|slices| - 1] >= depth then Some(|slices| - 1) else None
  }

  /** The label volume the frame loop leaves behind, as a value. */
  function Labels(t: IntType, frames: seq<Frame>, slices: seq<nat>, depth: nat, rows: nat, cols: nat): (v: Volume)
    requires |frames| == |slices|
    ensures Shaped(v, depth, rows, cols)
    ensures forall k, r, c :: 0 <= k < depth && 0 <= r < rows && 0 <= c < cols ==>
              v[k][r][c] == MultiClass.LabelAt(t, frames, slices, |frames|, k, r, c)
  {
    seq(depth, k => seq(rows, r => seq(cols, c => MultiClass.LabelAt(t, frames, slices, |frames|, k, r, c))))
  }

  /** The single image of a multi-class decode: the session's geometry, the
      element type and the label volume indexed [slice][row][column]. */
  datatype LabelImage = LabelImage(session: Session, elementType: IntType, voxels: Volume)

  /** A MultiClassReader session: `__init__`, then the checks of `_decode`,
      the allocation of the buffer and the frame loop. */
  function MultiClassDecode(d: Dataset, slices: seq<nat>): (r: Result<LabelImage>)
    requires |slices| == |d.frames|
  {
    match Resolve(d)
    case Err(e) => Err(e)
    case Ok(session) =>
      match MultiClass.MultiClassElementType(d.segmentationType, d.segmentsOverlap, DeclaredNumbers(d.segmentSequence))
      case Err(e) => Err(e)
      case Ok(t) =>
        if session.size.z < 0 then Err(NegativeSliceCount(session.size.z))
        else
          match FirstOutOfRange(slices, session.size.z)
          case Some(j) => Err(FrameOutOfBounds(j))
          case None => Ok(LabelImage(session, t, Labels(t, d.frames, slices, session.size.z, d.rows, d.columns)))
  }

  /** `MultiClassReader(dataset)`, with the masked writes done in place on a
      3-D array. */
  method DecodeMultiClass(d: Dataset, slices: seq<nat>) returns (r: Result<LabelImage>)
    requires |slices| == |d.frames|
    requires FramesShaped(d.frames, d.rows, d.columns)
    ensures r == MultiClassDecode(d, slices)
  {
    var session := ReadSession(d);
    if session.Err? {
      return Err(session.error);
    }
    var t := MultiClass.MultiClassElementType(d.segmentationType, d.segmentsOverlap, DeclaredNumbers(d.segmentSequence));
    if t.Err? {
      return Err(t.error);
    }
    var n := session.value.size.z;
    if n < 0 {
      return Err(NegativeSliceCount(n));
    }
    var bad := FirstOutOfRange(slices, n);
    if bad.Some? {
      return Err(FrameOutOfBounds(bad.value));
    }
    var buf := MultiClass.AssembleMultiClass(t.value, d.frames, slices, n, d.rows, d.columns);
    var voxels := Snapshot(buf);
    HoldsUnique(buf, voxels, Labels(t.value, d.frames, slices, n, d.rows, d.columns));
    return Ok(LabelImage(session.value, t.value, voxels));
  }

  /** The decode succeeds exactly when the session resolves, the data is
      BINARY, the overlap flag is absent, NO or UNDEFINED, some segment is
      declared, the slice count is not negative and every frame lies on a
      slice; FRACTIONAL data and overlap YES are the documented refusals. */
  lemma MultiClassOutcome(d: Dataset, slices: seq<nat>)
    requires |slices| == |d.frames|
    ensures MultiClassDecode(d, slices).Ok? <==>
              && Resolve(d).Ok?
              && d.segmentationType == "BINARY"
              && MultiClass.ParseOverlap(d.segmentsOverlap).Ok?
              && MultiClass.ParseOverlap(d.segmentsOverlap).value != MultiClass.Yes
              && |d.segmentSequence| > 0
              && Resolve(d).value.size.z >= 0
              && forall j :: 0 <= j < |slices| ==> slices[j] < Resolve(d).value.size.z
    ensures Resolve(d).Ok? && d.segmentationType == "FRACTIONAL" ==>
              MultiClassDecode(d, slices) == Err(UnsupportedSegmentationType)
    ensures Resolve(d).Ok? && d.segmentationType == "BINARY" && d.segmentsOverlap == Some("YES") ==>
              MultiClassDecode(d, slices) == Err(OverlappingSegments)
    ensures Resolve(d).Ok? && d.segmentationType == "BINARY" && d.segmentsOverlap.None? && |d.segmentSequence| > 0 ==>
              MultiClassDecode(d, slices).Ok? || MultiClassDecode(d, slices).error.NegativeSliceCount? ||
              MultiClassDecode(d, slices).error.FrameOutOfBounds?
  {
  }

  /** On success the buffer is 8 bits wide exactly when every declared
      number is below 256, and, when every frame references a declared
      segment number (an unsigned 16-bit value), each voxel is 0 or the
      number of the last frame in sequence order that lies on its slice and
      is set at its position. */
  lemma MultiClassVoxels(d: Dataset, slices: seq<nat>, k: nat, r: nat, c: nat)
    requires |slices| == |d.frames|
    requires MultiClassDecode(d, slices).Ok?
    requires forall i :: 0 <= i < |d.segmentSequence| ==> 0 <= d.segmentSequence[i].number < 65536
    requires forall j :: 0 <= j < |d.frames| ==> d.frames[j].segment in NumberSet(d.segmentSequence)
    requires k < Resolve(d).value.size.z && r < d.rows && c < d.columns
    ensures var img := MultiClassDecode(d, slices).value;
            img.elementType == UInt8 <==> forall i :: 0 <= i < |d.segmentSequence| ==> d.segmentSequence[i].number < 256
    ensures var img := MultiClassDecode(d, slices).value;
            && Shaped(img.voxels, img.session.size.z, d.rows, d.columns)
            && ((forall j :: 0 <= j < |d.frames| ==> !MultiClass.Hits(d.frames, slices, j, k, r, c)) ==> img.voxels[k][r][c] == 0)
            && (forall j :: 0 <= j < |d.frames| ==>
                  (MultiClass.Hits(d.frames, slices, j, k, r, c) &&
                   (forall i :: j < i < |d.frames| ==> !MultiClass.Hits(d.frames, slices, i, k, r, c))) ==>
                  img.voxels[k][r][c] == d.frames[j].segment)
  {
    var img := MultiClassDecode(d, slices).value;
    var t := img.elementType;
    var numbers := DeclaredNumbers(d.segmentSequence);
    forall j | 0 <= j < |d.frames| ensures 0 <= d.frames[j].segment < Modulus(t) {
      var i :| 0 <= i < |d.segmentSequence| && d.segmentSequence[i].number == d.frames[j].segment;
      assert numbers[i] == d.frames[j].segment;
      MultiClass.ElementTypeHoldsNumbers(d.segmentationType, d.segmentsOverlap, numbers, d.frames[j].segment);
      StoreExact(t, d.frames[j].segment);
    }
    LabelsVoxel(t, d.frames, slices, img.session.size.z, d.rows, d.columns, k, r, c);
  }

  /** One voxel of the label volume, when every segment number fits the
      element type: 0 when no frame writes it, else the last writer's number. */
  lemma LabelsVoxel(t: IntType, frames: seq<Frame>, slices: seq<nat>, depth: nat, rows: nat, cols: nat, k: nat, r: nat, c: nat)
    requires |frames| == |slices| && k < depth && r < rows && c < cols
    requires forall j :: 0 <= j < |frames| ==> 0 <= frames[j].segment < Modulus(t)
    ensures var v := Labels(t, frames, slices, depth, rows, cols);
            && ((forall j :: 0 <= j < |frames| ==> !MultiClass.Hits(frames, slices, j, k, r, c)) ==> v[k][r][c] == 0)
            && (forall j :: 0 <= j < |frames| ==>
                  (MultiClass.Hits(frames, slices, j, k, r, c) &&
                   (forall i :: j < i < |frames| ==> !MultiClass.Hits(frames, slices, i, k, r, c))) ==>
                  v[k][r][c] == frames[j].segment)
  {
    if forall j :: 0 <= j < |frames| ==> !MultiClass.Hits(frames, slices, j, k, r, c) {
      MultiClass.UnwrittenIsZero(t, frames, slices, |frames|, k, r, c);
    }
    forall j | 0 <= j < |frames| && MultiClass.Hits(frames, slices, j, k, r, c) &&
               (forall i :: j < i < |frames| ==> !MultiClass.Hits(frames, slices, i, k, r, c))
      ensures MultiClass.LabelAt(t, frames, slices, |frames|, k, r, c) == frames[j].segment
    {
      MultiClass.LastWriterWins(t, frames, slices, |frames|, k, r, c, j);
      StoreExact(t, frames[j].segment);
    }
  }

  // ---------------------------------------------------------------------
  // SegmentReader._decode, binary data

  /** The first frame of segment `s` among the first `n` frames whose slice
      index is not below `depth`. */
  function FirstOutOfRangeFor(s: int, frames: seq<Frame>, slices: seq<nat>, depth: nat, n: nat): (r: Option<nat>)
    requires n <= |frames| == |slices|
    ensures r.None? <==> forall j :: 0 <= j < n && frames[j].segment == s ==> slices[j] < depth
    ensures r.Some? ==> r.value < n && frames[r.value].segment == s && slices[r.value] >= depth
    ensures r.Some? ==> forall j :: 0 <= j < r.value && frames[j].segment == s ==> slices[j] < depth
  {
    if n == 0 then None
    else
      match FirstOutOfRangeFor(s, frames, slices, depth, n - 1)
      case Some(j) => Some(j)
      case None => if frames[n - 1].segment == s && slices[n - 1] >= depth then Some(n - 1) else None
  }

  /** The first frame whose write raises an IndexError when the segments of
      `order` are scanned in turn, each over the whole frame sequence. */
  function SegmentsOutOfRange(order: seq<int>, frames: seq<Frame>, slices: seq<nat>, depth: nat, m: nat): (r: Option<nat>)
    requires m <= |order| && |frames| == |slices|
    ensures r.None? <==> forall i :: 0 <= i < m ==> PerSegment.InRangeFor(order[i], frames, slices, depth)
    ensures r.Some? ==> r.value < |frames| && slices[r.value] >= depth && frames[r.value].segment in order[..m]
    ensures r.Some? ==>
              exists i :: 0 <= i < m &&
                (forall i' :: 0 <= i' < i ==> PerSegment.InRangeFor(order[i'], frames, slices, depth)) &&
                r == FirstOutOfRangeFor(order[i], frames, slices, depth, |frames|)
  {
    if m == 0 then None
    else
      match SegmentsOutOfRange(order, frames, slices, depth, m - 1)
      case Some(j) => Some(j)
      case None =>
        var r := FirstOutOfRangeFor(order[m - 1], frames, slices, depth, |frames|);
        assert r.Some? ==> order[..m][m - 1] == order[m - 1];
        r
  }

  /** The images of a per-segment decode, keyed by segment number, each
      indexed [slice][row][column], with the session's geometry. */
  datatype SegmentImages = SegmentImages(session: Session, images: map<int, Volume>)

  /** A SegmentReader session on BINARY (or unrecognised) data: `__init__`,
      then the type lookup, the allocation of the buffer and the segment
      loop, with one zero-filled buffer for every segment. */
  function SegmentDecode(d: Dataset, slices: seq<nat>): (r: Result<SegmentImages>)
    requires |slices| == |d.frames|
    requires d.segmentationType != "FRACTIONAL"
  {
    match Resolve(d)
    case Err(e) => Err(e)
    case Ok(session) =>
      match PerSegment.SegmentPixelType(d.segmentationType)
      case Err(e) => Err(e)
      case Ok(_) =>
        var order := DeclaredNumbers(d.segmentSequence);
        if session.size.z < 0 then Err(NegativeSliceCount(session.size.z))
        else
          match SegmentsOutOfRange(order, d.frames, slices, session.size.z, |order|)
          case Some(j) => Err(FrameOutOfBounds(j))
          case None =>
            Ok(SegmentImages(session,
              PerSegment.FreshImages(order, d.frames, slices, session.size.z, d.rows, d.columns, |order|)))
  }

  /** `SegmentReader(dataset)` on binary data, writing slices in place into
      a 3-D array. */
  method DecodeSegmentImages(d: Dataset, slices: seq<nat>) returns (r: Result<SegmentImages>)
    requires |slices| == |d.frames|
    requires d.segmentationType != "FRACTIONAL"
    requires FramesShaped(d.frames, d.rows, d.columns)
    ensures r == SegmentDecode(d, slices)
  {
    var session := ReadSession(d);
    if session.Err? {
      return Err(session.error);
    }
    var pixelType := PerSegment.SegmentPixelType(d.segmentationType);
    if pixelType.Err? {
      return Err(pixelType.error);
    }
    var order := DeclaredNumbers(d.segmentSequence);
    var n := session.value.size.z;
    if n < 0 {
      return Err(NegativeSliceCount(n));
    }
    var bad := SegmentsOutOfRange(order, d.frames, slices, n, |order|);
    if bad.Some? {
      return Err(FrameOutOfBounds(bad.value));
    }
    var images := PerSegment.AssembleSegments(order, d.frames, slices, n, d.rows, d.columns);
    return Ok(SegmentImages(session.value, images));
  }

  /** On success there is one image per declared segment, and on every slice
      the image of segment `s` is the samples of the last frame of `s` on
      that slice, zeros included, or zero where no frame of `s` lies. */
  lemma SegmentImagesContents(d: Dataset, slices: seq<nat>, s: int, k: nat)
    requires |slices| == |d.frames|
    requires d.segmentationType != "FRACTIONAL"
    requires SegmentDecode(d, slices).Ok?
    requires s in NumberSet(d.segmentSequence)
    requires forall j, r, c :: 0 <= j < |d.frames| && 0 <= r < |d.frames[j].pixels| && 0 <= c < |d.frames[j].pixels[r]| ==>
               d.frames[j].pixels[r][c] == 0 || d.frames[j].pixels[r][c] == 1
    requires k < Resolve(d).value.size.z
    ensures var out := SegmentDecode(d, slices).value;
            && out.images.Keys == NumberSet(d.segmentSequence)
            && |out.images[s]| == out.session.size.z
            && ((forall j :: 0 <= j < |d.frames| ==> !PerSegment.Covers(s, d.frames, slices, j, k)) ==>
                  out.images[s][k] == Zeros(out.session.size.z, d.rows, d.columns)[k])
            && (forall j :: 0 <= j < |d.frames| ==>
                  (PerSegment.Covers(s, d.frames, slices, j, k) &&
                   (forall i :: j < i < |d.frames| ==> !PerSegment.Covers(s, d.frames, slices, i, k))) ==>
                  out.images[s][k] == d.frames[j].pixels)
  {
    var out := SegmentDecode(d, slices).value;
    var order := DeclaredNumbers(d.segmentSequence);
    var n := out.session.size.z;
    PerSegment.FreshImagesContents(order, d.frames, slices, n, d.rows, d.columns, |order|);
    assert (set i | 0 <= i < |order| :: order[i]) == NumberSet(d.segmentSequence);
    var i :| 0 <= i < |d.segmentSequence| && d.segmentSequence[i].number == s;
    assert order[i] == s;
    PerSegment.SegmentImageSlices(s, d.frames, slices, n, d.rows, d.columns, k);
    forall j | 0 <= j < |d.frames| ensures PerSegment.StoredSlice(d.frames[j].pixels) == d.frames[j].pixels {
      PerSegment.StoredSliceBinary(d.frames[j].pixels);
    }
  }
}
