/** The numpy label buffer: a zero-filled 3-D array of shape
    (slices, Rows, Columns) of an unsigned integer element type, and its
    value as a nested sequence (what `sitk.GetImageFromArray` copies). */
module Buffer {
  import opened Types

  /** The unsigned integer element types numpy allocates for label buffers. */
  datatype IntType = UInt8 | UInt16

  function Modulus(t: IntType): (m: int)
    ensures m == 256 || m == 65536
  {
    match t
    case UInt8 => 256
    case UInt16 => 65536
  }

  /** The value a Python integer takes once stored into an element of type
      `t`: the C cast keeps the low 8 or 16 bits. */
  function Store(t: IntType, v: int): (s: int)
    ensures 0 <= s < Modulus(t)
  {
    v % Modulus(t)
  }

  /** Values that fit the element type are stored unchanged, and only they;
      a value one modulus away is stored as the same element. */
  lemma StoreExact(t: IntType, v: int)
    ensures Store(t, v) == v <==> 0 <= v < Modulus(t)
    ensures Store(t, v + Modulus(t)) == Store(t, v)
  {
  }

  /** A 3-D volume indexed [slice][row][column]. */
  type Volume = seq<seq<seq<int>>>

  predicate Shaped(v: Volume, depth: nat, rows: nat, cols: nat)
  {
    |v| == depth &&
    (forall k :: 0 <= k < depth ==> |v[k]| == rows) &&
    (forall k, r :: 0 <= k < depth && 0 <= r < rows ==> |v[k][r]| == cols)
  }

  /** `np.zeros((depth, rows, cols))`. */
  function Zeros(depth: nat, rows: nat, cols: nat): (v: Volume)
    ensures Shaped(v, depth, rows, cols)
    ensures forall k, r, c :: 0 <= k < depth && 0 <= r < rows && 0 <= c < cols ==> v[k][r][c] == 0
  {
    seq(depth, _ => seq(rows, _ => seq(cols, _ => 0)))
  }

  /** The array holds exactly the volume `v`. */
  predicate Holds(b: array3<int>, v: Volume)
    reads b
  {
    Shaped(v, b.Length0, b.Length1, b.Length2) &&
    forall k, r, c :: 0 <= k < b.Length0 && 0 <= r < b.Length1 && 0 <= c < b.Length2 ==> b[k, r, c] == v[k][r][c]
  }

  /** The current contents of the array, as a value. */
  function Snapshot(b: array3<int>): (v: Volume)
    reads b
    ensures Holds(b, v)
  {
    seq(b.Length0, k requires 0 <= k < b.Length0 reads b =>
      seq(b.Length1, r requires 0 <= r < b.Length1 reads b =>
        seq(b.Length2, c requires 0 <= c < b.Length2 reads b => b[k, r, c])))
  }

  /** An array holds one volume only. */
  lemma HoldsUnique(b: array3<int>, v: Volume, w: Volume)
    requires Holds(b, v) && Holds(b, w)
    ensures v == w
  {
    forall k | 0 <= k < |v| ensures v[k] == w[k] {
      forall r | 0 <= r < |v[k]| ensures v[k][r] == w[k][r] {
      }
    }
  }

  /** The sample of a frame at (row, column); outside the frame there is none. */
  function Pixel(f: Frame, r: int, c: int): int
  {
    if 0 <= r < |f.pixels| && 0 <= c < |f.pixels[r]| then f.pixels[r][c] else 0
  }

  /** Every frame is Rows x Columns samples, as in `pixel_array`. */
  predicate FramesShaped(frames: seq<Frame>, rows: nat, cols: nat)
  {
    forall j :: 0 <= j < |frames| ==>
      |frames[j].pixels| == rows && forall r :: 0 <= r < rows ==> |frames[j].pixels[r]| == cols
  }
}
