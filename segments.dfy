/** The segment catalog: the items of SegmentSequence decoded into a map from
    segment number to SegmentInfo (pydicom_seg/reader.py, _decode_segments). */
module Segments {
  import opened Types

  datatype AlgorithmType = Automatic | Semiautomatic | Manual

  /** A coded concept (a CodeSequence item). */
  datatype Code = Code(value: string, codingSchemeDesignator: string, meaning: string)

  datatype SegmentInfo = SegmentInfo(
    number: int,
    segmentLabel: string,
    description: string,
    algorithmType: AlgorithmType,
    propertyCategory: Code,
    propertyType: Code)

  /** One SegmentSequence item as the dataset holds it: the algorithm type is
      still a string and the coded properties are still sequences. */
  datatype SegmentDecl = SegmentDecl(
    number: int,
    segmentLabel: string,
    description: Option<string>,
    algorithmType: string,
    categoryCodes: seq<Code>,
    typeCodes: seq<Code>)

  function AlgorithmTypeName(t: AlgorithmType): (name: string)
    ensures ParseAlgorithmType(name) == Ok(t)
  {
    match t
    case Automatic => "AUTOMATIC"
    case Semiautomatic => "SEMIAUTOMATIC"
    case Manual => "MANUAL"
  }

  /** `AlgorithmType[name]`: lookup by member name, a KeyError otherwise. */
  function ParseAlgorithmType(name: string): (r: Result<AlgorithmType>)
    ensures r.Ok? <==> name in {"AUTOMATIC", "SEMIAUTOMATIC", "MANUAL"}
    ensures r.Err? ==> r.error == InvalidAlgorithmType(name)
  {
    if name == "AUTOMATIC" then Ok(Automatic)
    else if name == "SEMIAUTOMATIC" then Ok(Semiautomatic)
    else if name == "MANUAL" then Ok(Manual)
    else Err(InvalidAlgorithmType(name))
  }

  /** A declaration the reader can turn into a SegmentInfo. */
  predicate WellFormed(d: SegmentDecl)
  {
    |d.categoryCodes| > 0 && ParseAlgorithmType(d.algorithmType).Ok? && |d.typeCodes| > 0
  }

  /** The SegmentInfo built for one declaration. The keyword arguments are
      evaluated in the order written: the category code first, then the
      algorithm type, then the type code. */
  function DecodeSegment(d: SegmentDecl): (r: Result<SegmentInfo>)
    ensures r.Ok? <==> WellFormed(d)
    ensures r.Err? && |d.categoryCodes| == 0 ==> r.error == MissingCode
    ensures r.Err? && |d.categoryCodes| > 0 && ParseAlgorithmType(d.algorithmType).Err? ==>
              r.error == InvalidAlgorithmType(d.algorithmType)
    ensures r.Ok? ==>
              && r.value.number == d.number
              && r.value.segmentLabel == d.segmentLabel
              && r.value.description == (if d.description.Some? then d.description.value else "")
              && AlgorithmTypeName(r.value.algorithmType) == d.algorithmType
              && r.value.propertyCategory == d.categoryCodes[0]
              && r.value.propertyType == d.typeCodes[0]
  {
    if |d.categoryCodes| == 0 then Err(MissingCode)
    else
      match ParseAlgorithmType(d.algorithmType)
      case Err(e) => Err(e)
      case Ok(t) =>
        if |d.typeCodes| == 0 then Err(MissingCode)
        else
          Ok(SegmentInfo(
            d.number, d.segmentLabel,
            if d.description.Some? then d.description.value else "",
            t, d.categoryCodes[0], d.typeCodes[0]))
  }

  /** The catalog after the declarations of `ds` have been processed in order:
      the first duplicate number or malformed declaration stops the decode. */
  function Catalog(ds: seq<SegmentDecl>): Result<map<int, SegmentInfo>>
    decreases |ds|
  {
    if ds == [] then Ok(map[])
    else
      match Catalog(ds[..|ds| - 1])
      case Err(e) => Err(e)
      case Ok(m) => AddSegment(m, ds[|ds| - 1])
  }

  function AddSegment(m: map<int, SegmentInfo>, d: SegmentDecl): Result<map<int, SegmentInfo>>
  {
    if d.number in m then Err(DuplicateSegment(d.number))
    else
      match DecodeSegment(d)
      case Err(e) => Err(e)
      case Ok(info) => Ok(m[d.number := info])
  }

  function NumberSet(ds: seq<SegmentDecl>): set<int>
  {
    set i | 0 <= i < |ds| :: ds[i].number
  }

  predicate DistinctNumbers(ds: seq<SegmentDecl>)
  {
    forall i, j :: 0 <= i < j < |ds| ==> ds[i].number != ds[j].number
  }

  predicate AllWellFormed(ds: seq<SegmentDecl>)
  {
    forall i :: 0 <= i < |ds| ==> WellFormed(ds[i])
  }

  /** `_decode_segments`: fills the catalog one declaration at a time. */
  method DecodeSegments(ds: seq<SegmentDecl>) returns (r: Result<map<int, SegmentInfo>>)
    ensures r == Catalog(ds)
  {
    var infos: map<int, SegmentInfo> := map[];
    var i := 0;
    while i < |ds|
      invariant 0 <= i <= |ds|
      invariant Catalog(ds[..i]) == Ok(infos)
    {
      var d := ds[i];
      assert ds[..i + 1][..i] == ds[..i];
      if d.number in infos {
        CatalogErrPersists(ds, i + 1);
        return Err(DuplicateSegment(d.number));
      }
      var info := DecodeSegment(d);
      if info.Err? {
        CatalogErrPersists(ds, i + 1);
        return Err(info.error);
      }
      infos := infos[d.number := info.value];
      i := i + 1;
    }
    assert ds[..i] == ds;
    r := Ok(infos);
  }

  /** Once a prefix fails, the whole sequence fails with the same error. */
  lemma {:induction false} CatalogErrPersists(ds: seq<SegmentDecl>, n: nat)
    requires n <= |ds|
    requires Catalog(ds[..n]).Err?
    ensures Catalog(ds) == Catalog(ds[..n])
    decreases |ds| - n
  {
    if n < |ds| {
      assert ds[..n + 1][..n] == ds[..n];
      CatalogErrPersists(ds, n + 1);
    } else {
      assert ds[..n] == ds;
    }
  }

  lemma NumberSetSnoc(p: seq<SegmentDecl>, d: SegmentDecl)
    ensures NumberSet(p + [d]) == NumberSet(p) + {d.number}
  {
    var ds := p + [d];
    assert ds[|p|] == d;
    forall n | n in NumberSet(ds) ensures n in NumberSet(p) + {d.number} {
      var i :| 0 <= i < |ds| && ds[i].number == n;
      if i < |p| { assert p[i] == ds[i]; }
    }
    forall n | n in NumberSet(p) ensures n in NumberSet(ds) {
      var i :| 0 <= i < |p| && p[i].number == n;
      assert ds[i] == p[i];
    }
  }

  /** `m` is the catalog of `ds`: keyed by the declared numbers, each entry
      the decoded declaration, carrying its own key as its number. */
  predicate Describes(ds: seq<SegmentDecl>, m: map<int, SegmentInfo>)
  {
    && m.Keys == NumberSet(ds)
    && (forall i :: 0 <= i < |ds| ==>
          DecodeSegment(ds[i]).Ok? && ds[i].number in m && m[ds[i].number] == DecodeSegment(ds[i]).value)
    && forall n :: n in m ==> m[n].number == n
  }

  lemma DescribesSnoc(p: seq<SegmentDecl>, d: SegmentDecl, m: map<int, SegmentInfo>, info: SegmentInfo)
    requires Describes(p, m) && d.number !in m && DecodeSegment(d) == Ok(info)
    ensures Describes(p + [d], m[d.number := info])
  {
    var ds, m' := p + [d], m[d.number := info];
    NumberSetSnoc(p, d);
    forall i | 0 <= i < |ds|
      ensures DecodeSegment(ds[i]).Ok? && ds[i].number in m' && m'[ds[i].number] == DecodeSegment(ds[i]).value
    {
      if i < |p| {
        assert ds[i] == p[i];
        assert p[i].number in m;
      } else {
        assert ds[i] == d;
      }
    }
  }

  /** On success the keys are exactly the declared numbers and each entry is
      the decoded declaration, so it carries its own key as its number. */
  lemma {:induction false} CatalogContents(ds: seq<SegmentDecl>)
    requires Catalog(ds).Ok?
    ensures Catalog(ds).value.Keys == NumberSet(ds)
    ensures forall i :: 0 <= i < |ds| ==>
              DecodeSegment(ds[i]).Ok? && Catalog(ds).value[ds[i].number] == DecodeSegment(ds[i]).value
    ensures forall n :: n in Catalog(ds).value ==> Catalog(ds).value[n].number == n
    decreases |ds|
  {
    if ds != [] {
      var p, d := ds[..|ds| - 1], ds[|ds| - 1];
      assert ds == p + [d];
      CatalogContents(p);
      var m := Catalog(p).value;
      DescribesSnoc(p, d, m, DecodeSegment(d).value);
      assert Catalog(ds) == Ok(m[d.number := DecodeSegment(d).value]);
      assert Describes(ds, Catalog(ds).value);
    }
  }

  /** The decode succeeds exactly when the numbers are distinct and every
      declaration is well formed. */
  lemma {:induction false} CatalogOkIff(ds: seq<SegmentDecl>)
    ensures Catalog(ds).Ok? <==> DistinctNumbers(ds) && AllWellFormed(ds)
    decreases |ds|
  {
    if ds != [] {
      var p, d := ds[..|ds| - 1], ds[|ds| - 1];
      assert ds == p + [d];
      CatalogOkIff(p);
      DistinctSnoc(p, d);
      AllWellFormedSnoc(p, d);
      if Catalog(p).Ok? {
        CatalogContents(p);
      }
    }
  }

  lemma DistinctSnoc(p: seq<SegmentDecl>, d: SegmentDecl)
    ensures DistinctNumbers(p + [d]) <==> DistinctNumbers(p) && d.number !in NumberSet(p)
  {
    var ds := p + [d];
    if DistinctNumbers(ds) {
      forall i, j | 0 <= i < j < |p| ensures p[i].number != p[j].number {
        assert ds[i] == p[i] && ds[j] == p[j];
      }
      forall i | 0 <= i < |p| ensures p[i].number != d.number {
        assert ds[i] == p[i] && ds[|p|] == d;
      }
    }
    if DistinctNumbers(p) && d.number !in NumberSet(p) {
      forall i, j | 0 <= i < j < |ds| ensures ds[i].number != ds[j].number {
        assert ds[i] == p[i];
        if j < |p| { assert ds[j] == p[j]; } else { assert p[i].number in NumberSet(p); }
      }
    }
  }

  lemma AllWellFormedSnoc(p: seq<SegmentDecl>, d: SegmentDecl)
    ensures AllWellFormed(p + [d]) <==> AllWellFormed(p) && WellFormed(d)
  {
    var ds := p + [d];
    assert forall i :: 0 <= i < |p| ==> ds[i] == p[i];
    assert ds[|p|] == d;
  }

  /** A number declared twice always makes the decode fail, and the failure
      reported as a duplicate names a number declared at two positions. */
  lemma DuplicateRejected(ds: seq<SegmentDecl>, i: nat, j: nat)
    requires i < j < |ds| && ds[i].number == ds[j].number
    ensures Catalog(ds).Err?
  {
    CatalogOkIff(ds);
  }

  lemma {:induction false} DuplicateReported(ds: seq<SegmentDecl>, n: int)
    requires Catalog(ds) == Err(DuplicateSegment(n))
    ensures exists i, j :: 0 <= i < j < |ds| && ds[i].number == n && ds[j].number == n
    decreases |ds|
  {
    var p, d := ds[..|ds| - 1], ds[|ds| - 1];
    if Catalog(p).Err? {
      DuplicateReported(p, n);
      var i, j :| 0 <= i < j < |p| && p[i].number == n && p[j].number == n;
      assert ds[i] == p[i] && ds[j] == p[j];
    } else {
      CatalogContents(p);
      assert d.number == n && n in NumberSet(p);
      var i :| 0 <= i < |p| && p[i].number == n;
      assert ds[i] == p[i];
    }
  }

  /** The scenario of two declarations both numbered 3. */
  lemma DuplicateThreeExample(a: SegmentDecl, b: SegmentDecl)
    requires a.number == 3 && b.number == 3
    ensures Catalog([a, b]).Err?
    ensures WellFormed(a) ==> Catalog([a, b]) == Err(DuplicateSegment(3))
  {
    DuplicateRejected([a, b], 0, 1);
    assert [a, b][..1] == [a];
    assert [a][..0] == [];
    if WellFormed(a) {
      assert Catalog([a]) == Ok(map[3 := DecodeSegment(a).value]);
    }
  }
}
