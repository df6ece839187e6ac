/** The origin and extent of the volume, inferred from the frame positions
    projected onto the slice normal (pydicom_seg/reader.py,
    _get_image_origin_and_extent). */
module Origin {
  import opened Types
  import opened Geometry

  /** Signed distance of `p` from the plane through `reference` with normal
      `sliceDir`: `np.dot(p - reference, sliceDir)`. */
  function Distance(reference: Vec3, sliceDir: Vec3, p: Vec3): real
  {
    Dot(Sub(p, reference), sliceDir)
  }

  /** The distinct positions of `ps`, each at its first occurrence, in
      order: the keys of the `distances` dictionary. */
  function Firsts(ps: seq<Vec3>): (u: seq<Vec3>)
    ensures |u| <= |ps|
    ensures |ps| > 0 ==> |u| > 0 && u[0] == ps[0]
    decreases |ps|
  {
    if ps == [] then []
    else
      var q := ps[..|ps| - 1];
      if ps[|ps| - 1] in q then Firsts(q) else Firsts(q) + [ps[|ps| - 1]]
  }

  /** Firsts keeps every position, invents none and repeats none. */
  lemma {:induction false} FirstsMembers(ps: seq<Vec3>)
    ensures forall i :: 0 <= i < |ps| ==> ps[i] in Firsts(ps)
    ensures forall k :: 0 <= k < |Firsts(ps)| ==> Firsts(ps)[k] in ps
    ensures forall i, j :: 0 <= i < j < |Firsts(ps)| ==> Firsts(ps)[i] != Firsts(ps)[j]
    decreases |ps|
  {
    if ps != [] {
      var q := ps[..|ps| - 1];
      FirstsMembers(q);
      assert forall i :: 0 <= i < |q| ==> ps[i] == q[i];
      assert ps == q + [ps[|ps| - 1]];
    }
  }

  function Distances(reference: Vec3, sliceDir: Vec3, u: seq<Vec3>): (ds: seq<real>)
    ensures |ds| == |u|
    ensures forall k :: 0 <= k < |u| ==> ds[k] == Distance(reference, sliceDir, u[k])
  {
    seq(|u|, k requires 0 <= k < |u| => Distance(reference, sliceDir, u[k]))
  }

  function SeqMin(ds: seq<real>): (m: real)
    requires |ds| > 0
    ensures m in ds && forall j :: 0 <= j < |ds| ==> m <= ds[j]
    decreases |ds|
  {
    if |ds| == 1 then ds[0]
    else
      var m := SeqMin(ds[..|ds| - 1]);
      if ds[|ds| - 1] < m then ds[|ds| - 1] else m
  }

  function SeqMax(ds: seq<real>): (m: real)
    requires |ds| > 0
    ensures m in ds && forall j :: 0 <= j < |ds| ==> ds[j] <= m
    decreases |ds|
  {
    if |ds| == 1 then ds[0]
    else
      var m := SeqMax(ds[..|ds| - 1]);
      if ds[|ds| - 1] > m then ds[|ds| - 1] else m
  }

  /** The extent as the reader computes it: first minus last of the sorted
      distances, in absolute value, and 0.0 unless there are two or more. */
  function Extent(ds: seq<real>): real
  {
    if |ds| > 1 then Abs(SeqMin(ds) - SeqMax(ds)) else 0.0
  }

  /** The origin once the first `n` frames have been scanned: a position not
      seen before replaces it only when strictly nearer along the normal. */
  function ScanOrigin(positions: seq<Vec3>, sliceDir: Vec3, n: nat): Vec3
    requires 0 < n <= |positions|
    decreases n
  {
    if n == 1 then positions[0]
    else
      var o := ScanOrigin(positions, sliceDir, n - 1);
      var p := positions[n - 1];
      if p in positions[..n - 1] then o
      else if Distance(positions[0], sliceDir, p) < Distance(positions[0], sliceDir, o) then p
      else o
  }

  /** The scanned origin is one of the scanned positions and lies no farther
      along the normal than any of them. */
  lemma {:induction false} ScanOriginMinimal(positions: seq<Vec3>, sliceDir: Vec3, n: nat)
    requires 0 < n <= |positions|
    ensures ScanOrigin(positions, sliceDir, n) in positions[..n]
    ensures forall j :: 0 <= j < n ==>
              Distance(positions[0], sliceDir, ScanOrigin(positions, sliceDir, n))
              <= Distance(positions[0], sliceDir, positions[j])
    decreases n
  {
    if n > 1 {
      ScanOriginMinimal(positions, sliceDir, n - 1);
      var p := positions[n - 1];
      assert positions[..n] == positions[..n - 1] + [p];
      if p in positions[..n - 1] {
        var i :| 0 <= i < n - 1 && positions[..n - 1][i] == p;
        assert positions[i] == p;
      }
    } else {
      assert positions[..1][0] == positions[0];
    }
  }

  datatype OriginExtent = OriginExtent(origin: Vec3, extent: real)

  /** The origin and extent determined by the frame positions in frame order. */
  function OriginAndExtent(positions: seq<Vec3>, sliceDir: Vec3): Result<OriginExtent>
  {
    if positions == [] then Err(NoFrames)
    else
      Ok(OriginExtent(
        ScanOrigin(positions, sliceDir, |positions|),
        Extent(Distances(positions[0], sliceDir, Firsts(positions)))))
  }

  /** `distances.values()`: the values of a dictionary in insertion order. */
  function DictValues(distances: map<Vec3, real>, keys: seq<Vec3>): (vs: seq<real>)
    requires forall k :: 0 <= k < |keys| ==> keys[k] in distances
    ensures |vs| == |keys| && forall k :: 0 <= k < |keys| ==> vs[k] == distances[keys[k]]
  {
    seq(|keys|, k requires 0 <= k < |keys| => distances[keys[k]])
  }

  /** `_get_image_origin_and_extent`: one pass over the frames, skipping
      repeated positions, keeping the running minimum distance and its
      position, then the extent from the collected distances. `keys` is the
      insertion order of the `distances` dictionary. */
  method ImageOriginAndExtent(positions: seq<Vec3>, sliceDir: Vec3) returns (r: Result<OriginExtent>)
    ensures r == OriginAndExtent(positions, sliceDir)
  {
    if |positions| == 0 {
      return Err(NoFrames);
    }
    var reference := positions[0];
    var minDistance: real := 0.0;   // not read before frame 0 sets it
    var origin := reference;
    var distances: map<Vec3, real> := map[];
    var keys: seq<Vec3> := [];
    var frameIdx := 0;
    while frameIdx < |positions|
      invariant 0 <= frameIdx <= |positions|
      invariant keys == Firsts(positions[..frameIdx])
      invariant forall p :: p in distances <==> p in positions[..frameIdx]
      invariant forall p :: p in distances ==> distances[p] == Distance(reference, sliceDir, p)
      invariant frameIdx > 0 ==>
                  && origin == ScanOrigin(positions, sliceDir, frameIdx)
                  && minDistance == Distance(reference, sliceDir, origin)
    {
      var framePosition := positions[frameIdx];
      ScanStep(positions, frameIdx);
      if framePosition !in distances {
        var frameDistance := Distance(reference, sliceDir, framePosition);
        if frameIdx > 0 {
          ScanOriginNext(positions, sliceDir, frameIdx, origin, minDistance, frameDistance);
        }
        distances := distances[framePosition := frameDistance];
        if frameIdx == 0 || frameDistance < minDistance {
          minDistance := frameDistance;
          origin := framePosition;
        }
        keys := keys + [framePosition];
      } else if frameIdx > 0 {
        ScanOriginRepeat(positions, sliceDir, frameIdx);
      }
      frameIdx := frameIdx + 1;
    }
    assert positions[..frameIdx] == positions;
    FirstsMembers(positions);
    var values := DictValues(distances, keys);
    assert values == Distances(reference, sliceDir, keys);
    var extent := 0.0;
    if |values| > 1 {
      extent := Abs(SeqMin(values) - SeqMax(values));
    }
    return Ok(OriginExtent(origin, extent));
  }

  /** One more frame scanned: the prefix grows by that frame, and its
      position joins the distinct ones when it is new. */
  lemma ScanStep(positions: seq<Vec3>, i: nat)
    requires i < |positions|
    ensures positions[..i + 1] == positions[..i] + [positions[i]]
    ensures forall p :: p in positions[..i + 1] <==> p in positions[..i] || p == positions[i]
    ensures Firsts(positions[..i + 1]) ==
              if positions[i] in positions[..i] then Firsts(positions[..i])
              else Firsts(positions[..i]) + [positions[i]]
  {
    assert positions[..i + 1][..i] == positions[..i];
  }

  /** A new position at index `i` replaces the origin exactly when its
      distance `dp` is below the origin's `dmin`. */
  lemma ScanOriginNext(positions: seq<Vec3>, sliceDir: Vec3, i: nat, o: Vec3, dmin: real, dp: real)
    requires 0 < i < |positions| && positions[i] !in positions[..i]
    requires o == ScanOrigin(positions, sliceDir, i)
    requires dmin == Distance(positions[0], sliceDir, o) && dp == Distance(positions[0], sliceDir, positions[i])
    ensures ScanOrigin(positions, sliceDir, i + 1) == if dp < dmin then positions[i] else o
  {
  }

  /** A position seen before leaves the origin as it was. */
  lemma ScanOriginRepeat(positions: seq<Vec3>, sliceDir: Vec3, i: nat)
    requires 0 < i < |positions| && positions[i] in positions[..i]
    ensures ScanOrigin(positions, sliceDir, i + 1) == ScanOrigin(positions, sliceDir, i)
  {
  }

  /** The origin is a frame position whose distance is no greater than that
      of any frame, and, since the first frame lies at distance 0, it is at
      most 0. */
  lemma OriginIsMinimal(positions: seq<Vec3>, sliceDir: Vec3)
    requires positions != []
    ensures var o := OriginAndExtent(positions, sliceDir).value.origin;
            && o in positions
            && Distance(positions[0], sliceDir, o) <= 0.0
            && forall j :: 0 <= j < |positions| ==>
                 Distance(positions[0], sliceDir, o) <= Distance(positions[0], sliceDir, positions[j])
  {
    ScanOriginMinimal(positions, sliceDir, |positions|);
    assert positions[..|positions|] == positions;
    assert Distance(positions[0], sliceDir, positions[0]) == 0.0;
  }

  /** Ties keep the earliest frame: the origin occurs no later than any frame
      lying at the same distance as the origin. */
  lemma {:induction false} ScanOriginEarliest(positions: seq<Vec3>, sliceDir: Vec3, n: nat, j: nat)
    requires j < n <= |positions|
    requires Distance(positions[0], sliceDir, positions[j])
          == Distance(positions[0], sliceDir, ScanOrigin(positions, sliceDir, n))
    ensures ScanOrigin(positions, sliceDir, n) in positions[..j + 1]
    decreases n
  {
    if n > 1 {
      var o := ScanOrigin(positions, sliceDir, n - 1);
      var p := positions[n - 1];
      var o' := ScanOrigin(positions, sliceDir, n);
      ScanOriginMinimal(positions, sliceDir, n - 1);
      if o' == o {
        if j < n - 1 {
          ScanOriginEarliest(positions, sliceDir, n - 1, j);
        } else {
          assert o in positions[..n - 1];
          var i :| 0 <= i < n - 1 && positions[..n - 1][i] == o;
          assert positions[..j + 1][i] == o;
        }
      } else {
        assert o' == p;
        assert Distance(positions[0], sliceDir, p) < Distance(positions[0], sliceDir, o);
        assert j == n - 1;
        assert positions[..j + 1][j] == p;
      }
    }
  }

  lemma OriginEarliest(positions: seq<Vec3>, sliceDir: Vec3, j: nat)
    requires j < |positions|
    requires Distance(positions[0], sliceDir, positions[j])
          == Distance(positions[0], sliceDir, OriginAndExtent(positions, sliceDir).value.origin)
    ensures OriginAndExtent(positions, sliceDir).value.origin in positions[..j + 1]
  {
    ScanOriginEarliest(positions, sliceDir, |positions|, j);
  }

  /** Every frame lies between the origin and the origin plus the extent along
      the normal, and some frame lies exactly at the far end: the extent is
      the spread of the frames' distances, whatever the repetitions. */
  lemma ExtentIsSpread(positions: seq<Vec3>, sliceDir: Vec3)
    requires positions != []
    ensures var oe := OriginAndExtent(positions, sliceDir).value;
            var lo := Distance(positions[0], sliceDir, oe.origin);
            && oe.extent >= 0.0
            && (forall j :: 0 <= j < |positions| ==>
                  lo <= Distance(positions[0], sliceDir, positions[j]) <= lo + oe.extent)
            && (exists j :: 0 <= j < |positions| && Distance(positions[0], sliceDir, positions[j]) == lo + oe.extent)
  {
    var u := Firsts(positions);
    var ds := Distances(positions[0], sliceDir, u);
    var oe := OriginAndExtent(positions, sliceDir).value;
    OriginIsMinimal(positions, sliceDir);
    FirstsMembers(positions);
    var lo := Distance(positions[0], sliceDir, oe.origin);
    var i0 :| 0 <= i0 < |positions| && positions[i0] == oe.origin;
    assert lo == SeqMin(ds) by {
      var k0 :| 0 <= k0 < |u| && u[k0] == oe.origin;
      assert ds[k0] == lo;
      var k1 :| 0 <= k1 < |ds| && ds[k1] == SeqMin(ds);
      assert u[k1] in positions;
      var j1 :| 0 <= j1 < |positions| && positions[j1] == u[k1];
    }
    forall j | 0 <= j < |positions|
      ensures Distance(positions[0], sliceDir, positions[j]) <= SeqMax(ds)
    {
      var k :| 0 <= k < |u| && u[k] == positions[j];
      assert ds[k] == Distance(positions[0], sliceDir, positions[j]);
    }
    var k :| 0 <= k < |ds| && ds[k] == SeqMax(ds);
    assert u[k] in positions;
    var j :| 0 <= j < |positions| && positions[j] == u[k];
    assert Distance(positions[0], sliceDir, positions[j]) == SeqMax(ds);
    assert oe.extent == SeqMax(ds) - lo;
  }

  /** The extent is 0 exactly when every frame lies in the reference plane. */
  lemma ExtentZeroIff(positions: seq<Vec3>, sliceDir: Vec3)
    requires positions != []
    ensures OriginAndExtent(positions, sliceDir).value.extent == 0.0 <==>
            forall j :: 0 <= j < |positions| ==> Distance(positions[0], sliceDir, positions[j]) == 0.0
  {
    ExtentIsSpread(positions, sliceDir);
    OriginIsMinimal(positions, sliceDir);
    assert Distance(positions[0], sliceDir, positions[0]) == 0.0;
  }

  /** The scan of a prefix depends on nothing after it. */
  lemma {:induction false} ScanOriginPrefix(a: seq<Vec3>, b: seq<Vec3>, sliceDir: Vec3, n: nat)
    requires 0 < n <= |a| && n <= |b| && a[..n] == b[..n]
    ensures ScanOrigin(a, sliceDir, n) == ScanOrigin(b, sliceDir, n)
    decreases n
  {
    assert a[0] == a[..n][0] && b[0] == b[..n][0];
    if n > 1 {
      assert a[..n - 1] == a[..n][..n - 1] && b[..n - 1] == b[..n][..n - 1];
      ScanOriginPrefix(a, b, sliceDir, n - 1);
      assert a[n - 1] == a[..n][n - 1] && b[n - 1] == b[..n][n - 1];
    }
  }

  /** A frame whose position already appeared changes neither the origin nor
      the extent. */
  lemma RepeatedPositionIgnored(positions: seq<Vec3>, sliceDir: Vec3, q: Vec3)
    requires q in positions
    ensures OriginAndExtent(positions + [q], sliceDir) == OriginAndExtent(positions, sliceDir)
  {
    var ps := positions + [q];
    assert ps[..|ps| - 1] == positions;
    assert ps[..|positions|] == positions[..|positions|];
    ScanOriginPrefix(ps, positions, sliceDir, |positions|);
    assert ps[0] == positions[0];
  }

  lemma FirstsOfTwo(a: Vec3, b: Vec3)
    requires a != b
    ensures Firsts([a, b]) == [a, b]
  {
    assert [a, b][..1] == [a];
    assert [a][..0] == [];
    assert b !in [a];
  }

  lemma ExtentOfTwo(lo: real, hi: real)
    requires lo <= hi
    ensures Extent([lo, hi]) == hi - lo
  {
    assert [lo, hi][..1] == [lo];
  }

  /** Two distinct frames, the second one further along the normal: the
      origin is the first frame and the extent is their separation. */
  lemma TwoFrames(a: Vec3, b: Vec3, sliceDir: Vec3)
    requires a != b && Distance(a, sliceDir, b) >= 0.0
    ensures OriginAndExtent([a, b], sliceDir) == Ok(OriginExtent(a, Distance(a, sliceDir, b)))
  {
    var ps := [a, b];
    FirstsOfTwo(a, b);
    var d := Distance(a, sliceDir, b);
    assert Distance(a, sliceDir, a) == 0.0 by { DistanceSelf(a, sliceDir); }
    var ds := Distances(a, sliceDir, ps);
    assert ds == [0.0, d];
    ExtentOfTwo(0.0, d);
    assert ps[..1] == [a];
    assert ScanOrigin(ps, sliceDir, 2) == a;
  }

  lemma DistanceSelf(a: Vec3, sliceDir: Vec3)
    ensures Distance(a, sliceDir, a) == 0.0
  {
    assert Sub(a, a) == Vec3(0.0, 0.0, 0.0);
  }
}
