/** Geometry resolution: spacing, direction cosines, the slice count and the
    size of the reconstructed volume (pydicom_seg/reader.py,
    _get_declared_image_spacing, _get_image_direction and the size in
    _ReaderBase.__init__). The origin and extent are in module Origin. */
module Geometry {
  import opened Types

  // ---------------------------------------------------------------------
  // Shared functional groups

  /** The Pixel Measures functional group item. */
  datatype PixelMeasures = PixelMeasures(
    pixelSpacing: (real, real),
    spacingBetweenSlices: Option<real>,
    sliceThickness: Option<real>)

  /** The first item of SharedFunctionalGroupsSequence, reduced to the two
      groups the reader consults. */
  datatype SharedGroups = SharedGroups(
    pixelMeasures: Option<PixelMeasures>,
    imageOrientation: Option<seq<real>>)

  datatype Spacing = Spacing(x: real, y: real, z: real)

  /** `_get_declared_image_spacing`. The in-plane spacing is the declared pair;
      the slice spacing is SpacingBetweenSlices when present and SliceThickness
      otherwise; without a Pixel Measures group, or with neither attribute,
      the read fails. */
  function DeclaredSpacing(sfg: SharedGroups): (r: Result<Spacing>)
    ensures sfg.pixelMeasures.None? ==> r == Err(MissingPixelMeasures)
    ensures r.Ok? <==>
              sfg.pixelMeasures.Some? &&
              (sfg.pixelMeasures.value.spacingBetweenSlices.Some? || sfg.pixelMeasures.value.sliceThickness.Some?)
    ensures r.Ok? ==> (r.value.x, r.value.y) == sfg.pixelMeasures.value.pixelSpacing
    ensures r.Ok? && sfg.pixelMeasures.value.spacingBetweenSlices.Some? ==>
              r.value.z == sfg.pixelMeasures.value.spacingBetweenSlices.value
    ensures r.Ok? && sfg.pixelMeasures.value.spacingBetweenSlices.None? ==>
              r.value.z == sfg.pixelMeasures.value.sliceThickness.value
  {
    match sfg.pixelMeasures
    case None => Err(MissingPixelMeasures)
    case Some(pm) =>
      var (xSpacing, ySpacing) := pm.pixelSpacing;
      if pm.spacingBetweenSlices.Some? then Ok(Spacing(xSpacing, ySpacing, pm.spacingBetweenSlices.value))
      else if pm.sliceThickness.Some? then Ok(Spacing(xSpacing, ySpacing, pm.sliceThickness.value))
      else Err(MissingSliceSpacing)
  }

  /** When SpacingBetweenSlices is present, SliceThickness has no influence. */
  lemma SliceThicknessIgnored(pm: PixelMeasures, thickness: Option<real>, orientation: Option<seq<real>>)
    requires pm.spacingBetweenSlices.Some?
    ensures DeclaredSpacing(SharedGroups(Some(pm), orientation))
         == DeclaredSpacing(SharedGroups(Some(pm.(sliceThickness := thickness)), None))
  {
  }

  // ---------------------------------------------------------------------
  // Direction cosines

  /** The direction matrix, given by its three columns: the row direction,
      the column direction and the slice normal. */
  datatype Direction = Direction(rowDir: Vec3, colDir: Vec3, sliceDir: Vec3)

  function Cross(a: Vec3, b: Vec3): Vec3
  {
    Vec3(a.y * b.z - a.z * b.y, a.z * b.x - a.x * b.z, a.x * b.y - a.y * b.x)
  }

  /** The cross product is orthogonal to both of its factors. */
  lemma CrossOrthogonal(a: Vec3, b: Vec3)
    ensures Dot(Cross(a, b), a) == 0.0 && Dot(Cross(a, b), b) == 0.0
  {
  }

  /** `_get_image_direction`, on direction cosines that are already of unit
      length (the L2 normalisation is not part of this model). */
  function ImageDirection(sfg: SharedGroups): (r: Result<Direction>)
    ensures sfg.imageOrientation.None? ==> r == Err(MissingOrientation)
    ensures r.Ok? <==> sfg.imageOrientation.Some? && |sfg.imageOrientation.value| == 6
    ensures r.Ok? ==>
              var iop := sfg.imageOrientation.value;
              && r.value.rowDir == Vec3(iop[0], iop[1], iop[2])
              && r.value.colDir == Vec3(iop[3], iop[4], iop[5])
              && r.value.sliceDir == Cross(r.value.rowDir, r.value.colDir)
  {
    match sfg.imageOrientation
    case None => Err(MissingOrientation)
    case Some(iop) =>
      if |iop| != 6 then Err(BadOrientationLength(|iop|))
      else
        var xDir := Vec3(iop[0], iop[1], iop[2]);
        var yDir := Vec3(iop[3], iop[4], iop[5]);
        Ok(Direction(xDir, yDir, Cross(xDir, yDir)))
  }

  /** The axial orientation [1, 0, 0, 0, 1, 0] has slice normal (0, 0, 1). */
  lemma AxialDirection(sfg: SharedGroups)
    requires sfg.imageOrientation.Some?
    requires var iop := sfg.imageOrientation.value;
             |iop| == 6 && iop[0] == 1.0 && iop[1] == 0.0 && iop[2] == 0.0 &&
             iop[3] == 0.0 && iop[4] == 1.0 && iop[5] == 0.0
    ensures ImageDirection(sfg) == Ok(Direction(Vec3(1.0, 0.0, 0.0), Vec3(0.0, 1.0, 0.0), Vec3(0.0, 0.0, 1.0)))
  {
    AxialCross();
  }

  lemma AxialCross()
    ensures Cross(Vec3(1.0, 0.0, 0.0), Vec3(0.0, 1.0, 0.0)) == Vec3(0.0, 0.0, 1.0)
  {
  }

  /** |a x b|^2 = |a|^2 |b|^2 - (a . b)^2. */
  lemma LagrangeIdentity(a: Vec3, b: Vec3)
    ensures Dot(Cross(a, b), Cross(a, b)) == Dot(a, a) * Dot(b, b) - Dot(a, b) * Dot(a, b)
  {
  }

  /** For orthonormal row and column cosines the direction matrix is
      orthonormal: the slice normal is a unit vector orthogonal to both. */
  lemma DirectionOrthonormal(sfg: SharedGroups)
    requires ImageDirection(sfg).Ok?
    requires var d := ImageDirection(sfg).value;
             Dot(d.rowDir, d.rowDir) == 1.0 && Dot(d.colDir, d.colDir) == 1.0 && Dot(d.rowDir, d.colDir) == 0.0
    ensures var d := ImageDirection(sfg).value;
            && Dot(d.sliceDir, d.sliceDir) == 1.0
            && Dot(d.sliceDir, d.rowDir) == 0.0
            && Dot(d.sliceDir, d.colDir) == 0.0
  {
    var d := ImageDirection(sfg).value;
    CrossOrthogonal(d.rowDir, d.colDir);
    LagrangeIdentity(d.rowDir, d.colDir);
  }

  // ---------------------------------------------------------------------
  // Slice count and size

  /** The least integer not below `x`. */
  function Ceil(x: real): (c: int)
    ensures (c - 1) as real < x <= c as real
  {
    -((-x).Floor)
  }

  /** `int(np.ceil(extent / z) + 1)`. Dividing by a zero slice spacing fails. */
  function SliceCount(extent: real, z: real): (r: Result<int>)
    ensures r.Err? <==> z == 0.0
    ensures r.Err? ==> r.error == ZeroSliceSpacing
    ensures r.Ok? && z > 0.0 ==> (r.value - 2) as real * z < extent <= (r.value - 1) as real * z
    ensures r.Ok? && z > 0.0 && extent >= 0.0 ==> r.value >= 1
  {
    if z == 0.0 then Err(ZeroSliceSpacing)
    else
      var c := Ceil(extent / z);
      CeilBounds(extent, z, c);
      Ok(c + 1)
  }

  /** Scaling the bounds of `ceil(extent / z)` back by a positive `z`. */
  lemma CeilBounds(extent: real, z: real, c: int)
    requires z != 0.0 && (c - 1) as real < extent / z <= c as real
    ensures z > 0.0 ==> (c - 1) as real * z < extent <= c as real * z
  {
    if z > 0.0 {
      var q := extent / z;
      assert q * z == extent;
      MulMono((c - 1) as real, q, z);
      assert (c - 1) as real * z < q * z;
      MulMonoLe(q, c as real, z);
      assert q * z <= c as real * z;
    }
  }

  lemma MulMono(a: real, b: real, z: real)
    requires a < b && z > 0.0
    ensures a * z < b * z
  {
  }

  lemma MulMonoLe(a: real, b: real, z: real)
    requires a <= b && z > 0.0
    ensures a * z <= b * z
  {
  }

  /** An extent of 4 at a slice spacing of 2 needs 3 slices. */
  lemma SliceCountExample()
    ensures SliceCount(4.0, 2.0) == Ok(3)
  {
    assert 4.0 / 2.0 == 2.0;
  }

  /** The three dimensions of an image, in SimpleITK order (x, y, z). */
  datatype Size3 = Size3(x: int, y: int, z: int)

  /** The numpy shape `size[::-1]` of the buffer allocated for a size. */
  function BufferShape(size: Size3): Size3
  {
    Size3(size.z, size.y, size.x)
  }

  /** The size as `_ReaderBase.__init__` writes it: (Rows, Columns, slices). */
  function SizeAsWritten(rows: int, columns: int, slices: int): (size: Size3)
    ensures size.z == slices
  {
    Size3(rows, columns, slices)
  }

  /** With Rows != Columns the buffer's slices are Columns x Rows, while every
      frame is Rows x Columns: the slice assignment cannot succeed. */
  lemma SizeAsWrittenTransposes(rows: int, columns: int, slices: int)
    requires rows != columns
    ensures var shape := BufferShape(SizeAsWritten(rows, columns, slices));
            (shape.y, shape.z) != (rows, columns)
  {
  }

  lemma SizeAsWrittenExample()
    ensures BufferShape(SizeAsWritten(2, 3, 1)) == Size3(1, 3, 2)
  {
  }

  /** The image size in SimpleITK order (Columns, Rows, slices): its buffer
      holds `slices` frames of Rows x Columns, the shape of a frame. */
  function ImageSize(rows: int, columns: int, slices: int): (size: Size3)
    ensures BufferShape(size) == Size3(slices, rows, columns)
  {
    Size3(columns, rows, slices)
  }
}
