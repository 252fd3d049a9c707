/** The two entry points of LsstCameraUtils and the module state they share:
    the camera and its pupil coordinate map, built once on first use. */
module LsstCameraUtils {
  import opened CameraTypes
  import opened FootprintIndex
  import opened Shortlist
  import opened ResolverSpec
  import opened Resolver

  /** The fields of an ObservationMetaData that the (RA, Dec) lookup needs. */
  datatype ObsMetadata = ObsMetadata(mjd: Option<real>, rotSkyPos: Option<real>)

  // ---------------------------------------------------------------------
  // The query from pupil coordinates, stated as a function

  /** The points of a pair of coordinate arrays. */
  function Zip(xs: seq<real>, ys: seq<real>): (pts: seq<Point>)
    requires |xs| == |ys|
    ensures |pts| == |xs|
    ensures forall i :: 0 <= i < |xs| ==> pts[i] == Point(xs[i], ys[i])
  {
    seq(|xs|, i requires 0 <= i < |xs| => Point(xs[i], ys[i]))
  }

  /** Point `i` lies in the detector's pixel box. */
  function PointCover(camera: Camera, points: seq<Point>): (Detector, nat) -> bool
  {
    (d: Detector, i: nat) => i < |points| && camera.contains(d, points[i])
  }

  /** The shortlist of every point against the camera's footprint map. */
  function Shortlists(camera: Camera, points: seq<Point>): (s: seq<seq<Detector>>)
    requires WellFormed(camera)
    ensures |s| == |points|
  {
    var table := FootprintTable(camera);
    TableNamesKnown(camera);
    seq(|points|, i requires 0 <= i < |points| => Candidates(camera.distance, points[i], table, camera.detectors))
  }

  /** What chipNameFromPupilCoordsLSST returns (lines 164-206): the input
      check of _validate_inputs (arrays of one length), then the rejection of
      scalars, then one entry per point. */
  function PupilQuery(camera: Camera, xPupil: seq<real>, yPupil: seq<real>, areArrays: bool, allowMultiple: bool)
    : (r: Result<seq<ChipName>, Error>)
    requires WellFormed(camera)
    ensures r.Ok? <==> areArrays && |xPupil| == |yPupil|
    ensures r.Ok? ==> |r.value| == |xPupil|
  {
    if areArrays && |xPupil| != |yPupil| then Err(InputShape)
    else if !areArrays then Err(NotArrays)
    else
      var points := Zip(xPupil, yPupil);
      Ok(Resolution(Shortlists(camera, points), allowMultiple, PointCover(camera, points)))
  }

  /** Every chip of the map is a detector of the camera. */
  lemma TableNamesKnown(camera: Camera)
    requires WellFormed(camera)
    ensures NamesKnown(FootprintTable(camera), camera.detectors)
  {
    var table := FootprintTable(camera);
    forall k | 0 <= k < |table| ensures table[k].name in Names(camera.detectors) {
      assert Names(camera.detectors)[k] == table[k].name;
    }
  }

  // ---------------------------------------------------------------------
  // The checks of the (RA, Dec) lookup

  /** The first failing check of lines 234-246, if any: coordinate arrays
      of one length, then epoch, ObservationMetaData, mjd and rotSkyPos. */
  function RaDecRequestError(ra: seq<real>, dec: seq<real>, areArrays: bool, epoch: Option<real>, obs: Option<ObsMetadata>)
    : (e: Option<Error>)
    ensures e == Some(InputShape) <==> areArrays && |ra| != |dec|
    ensures e == None <==>
      && (!areArrays || |ra| == |dec|)
      && epoch.Some? && obs.Some? && obs.value.mjd.Some? && obs.value.rotSkyPos.Some?
  {
    if areArrays && |ra| != |dec| then Some(InputShape)
    else if epoch.None? then Some(MissingEpoch)
    else if obs.None? then Some(MissingObsMetadata)
    else if obs.value.mjd.None? then Some(MissingMjd)
    else if obs.value.rotSkyPos.None? then Some(MissingRotSkyPos)
    else None
  }

  /** The checks of the (RA, Dec) lookup, in the order they are made. */
  const RaDecChecks: seq<Error> := [InputShape, MissingEpoch, MissingObsMetadata, MissingMjd, MissingRotSkyPos]

  /** Whether the condition behind one error holds of the request, taken on
      its own. */
  predicate Fails(e: Error, ra: seq<real>, dec: seq<real>, areArrays: bool, epoch: Option<real>, obs: Option<ObsMetadata>)
  {
    match e
    case InputShape => areArrays && |ra| != |dec|
    case MissingEpoch => epoch.None?
    case MissingObsMetadata => obs.None?
    case MissingMjd => obs.Some? && obs.value.mjd.None?
    case MissingRotSkyPos => obs.Some? && obs.value.rotSkyPos.None?
    case _ => false
  }

  /** Each check, taken in order, tests the condition of its own error. */
  lemma RaDecChecksInOrder(ra: seq<real>, dec: seq<real>, areArrays: bool, epoch: Option<real>, obs: Option<ObsMetadata>)
    ensures Fails(RaDecChecks[0], ra, dec, areArrays, epoch, obs) == (areArrays && |ra| != |dec|)
    ensures Fails(RaDecChecks[1], ra, dec, areArrays, epoch, obs) == epoch.None?
    ensures Fails(RaDecChecks[2], ra, dec, areArrays, epoch, obs) == obs.None?
    ensures Fails(RaDecChecks[3], ra, dec, areArrays, epoch, obs) == (obs.Some? && obs.value.mjd.None?)
    ensures Fails(RaDecChecks[4], ra, dec, areArrays, epoch, obs) == (obs.Some? && obs.value.rotSkyPos.None?)
  {
  }

  /** The error reported is `e` exactly when `e`'s check is the first whose
      condition holds. */
  lemma RaDecReports(e: Error, ra: seq<real>, dec: seq<real>, areArrays: bool, epoch: Option<real>, obs: Option<ObsMetadata>)
    ensures RaDecRequestError(ra, dec, areArrays, epoch, obs) == Some(e) <==>
      exists k :: 0 <= k < |RaDecChecks| && RaDecChecks[k] == e && Fails(e, ra, dec, areArrays, epoch, obs)
        && forall j :: 0 <= j < k ==> !Fails(RaDecChecks[j], ra, dec, areArrays, epoch, obs)
  {
    RaDecChecksInOrder(ra, dec, areArrays, epoch, obs);
    if RaDecRequestError(ra, dec, areArrays, epoch, obs) == Some(e) {
      var k := if e == InputShape then 0 else if e == MissingEpoch then 1 else if e == MissingObsMetadata then 2
        else if e == MissingMjd then 3 else 4;
      assert RaDecChecks[k] == e;
    }
  }

  /** The (RA, Dec) lookup reports the first check, in order, whose condition
      holds, and passes exactly when none holds. */
  lemma RaDecFirstFailureWins(ra: seq<real>, dec: seq<real>, areArrays: bool, epoch: Option<real>, obs: Option<ObsMetadata>)
    ensures RaDecRequestError(ra, dec, areArrays, epoch, obs) == None <==>
      forall k :: 0 <= k < |RaDecChecks| ==> !Fails(RaDecChecks[k], ra, dec, areArrays, epoch, obs)
    ensures forall e :: RaDecRequestError(ra, dec, areArrays, epoch, obs) == Some(e) <==>
      exists k :: 0 <= k < |RaDecChecks| && RaDecChecks[k] == e && Fails(e, ra, dec, areArrays, epoch, obs)
        && forall j :: 0 <= j < k ==> !Fails(RaDecChecks[j], ra, dec, areArrays, epoch, obs)
  {
    RaDecChecksInOrder(ra, dec, areArrays, epoch, obs);
    forall e ensures RaDecRequestError(ra, dec, areArrays, epoch, obs) == Some(e) <==>
      exists k :: 0 <= k < |RaDecChecks| && RaDecChecks[k] == e && Fails(e, ra, dec, areArrays, epoch, obs)
        && forall j :: 0 <= j < k ==> !Fails(RaDecChecks[j], ra, dec, areArrays, epoch, obs)
    {
      RaDecReports(e, ra, dec, areArrays, epoch, obs);
    }
  }

  // ---------------------------------------------------------------------
  // Module state

  /** The camera and the lazily built pupil coordinate map. `builds` counts
      the builds that took place. */
  class LsstCamera {
    const camera: Camera
    var pupilCoordMap: Option<seq<Footprint>>
    ghost var builds: nat

    /** The map is absent until the one build, and once built it is the
        footprint table of the camera. */
    ghost predicate Valid()
      reads this
    {
      && WellFormed(camera)
      && builds <= 1
      && (pupilCoordMap.None? <==> builds == 0)
      && (pupilCoordMap.Some? ==> pupilCoordMap.value == FootprintTable(camera))
    }

    /** The module as loaded (lines 14-16): the camera, and no map yet. */
    constructor(camera: Camera)
      requires WellFormed(camera)
      ensures Valid() && this.camera == camera && pupilCoordMap == None
    {
      this.camera := camera;
      pupilCoordMap := None;
      builds := 0;
    }

    /** _build_lsst_pupil_coord_map (lines 18-79): refuses when the map is
        already built, and otherwise builds it. */
    method BuildPupilCoordMap() returns (r: Result<(), Error>)
      requires Valid()
      modifies this
      ensures Valid()
      ensures old(pupilCoordMap).Some? ==>
        r == Err(AlreadyBuilt) && pupilCoordMap == old(pupilCoordMap) && builds == old(builds)
      ensures old(pupilCoordMap).None? ==>
        r == Ok(()) && pupilCoordMap == Some(FootprintTable(camera)) && builds == 1
    {
      if pupilCoordMap.Some? {
        return Err(AlreadyBuilt);
      }
      var table := BuildFootprints(camera);
      pupilCoordMap := Some(table);
      builds := builds + 1;
      r := Ok(());
    }

    /** chipNameFromPupilCoordsLSST (lines 164-206): builds the map when it
        is absent, even for a request it then rejects, and never builds it a
        second time. */
    method ChipNameFromPupilCoords(xPupil: seq<real>, yPupil: seq<real>, areArrays: bool, allowMultiple: bool)
      returns (r: Result<seq<ChipName>, Error>)
      requires Valid()
      modifies this
      ensures Valid()
      ensures pupilCoordMap == Some(FootprintTable(camera)) && builds == 1
      ensures r == PupilQuery(camera, xPupil, yPupil, areArrays, allowMultiple)
    {
      if pupilCoordMap.None? {
        var _ := BuildPupilCoordMap();
      }
      if areArrays && |xPupil| != |yPupil| {
        return Err(InputShape);
      }
      if !areArrays {
        return Err(NotArrays);
      }
      var cameraPointList := Zip(xPupil, yPupil);
      var table := pupilCoordMap.value;
      TableNamesKnown(camera);
      var validDetectors := ShortlistCandidates(camera.distance, cameraPointList, table, camera.detectors);
      assert validDetectors == Shortlists(camera, cameraPointList);
      var nameList, _ := FindDetectors(validDetectors, allowMultiple, PointCover(camera, cameraPointList));
      r := Ok(nameList);
    }

    /** _chipNameFromRaDecLSST (lines 209-249): a request failing a check is
        refused before any transform and leaves the state alone; otherwise
        the coordinates are carried to the pupil plane by `toPupil` and
        looked up there. */
    method ChipNameFromRaDec(ra: seq<real>, dec: seq<real>, areArrays: bool, obs: Option<ObsMetadata>, epoch: Option<real>,
                             allowMultiple: bool, toPupil: (real, real, ObsMetadata, real) -> Point)
      returns (r: Result<seq<ChipName>, Error>)
      requires Valid()
      modifies this
      ensures Valid()
      ensures RaDecRequestError(ra, dec, areArrays, epoch, obs).Some? ==>
        && r == Err(RaDecRequestError(ra, dec, areArrays, epoch, obs).value)
        && pupilCoordMap == old(pupilCoordMap) && builds == old(builds)
      ensures RaDecRequestError(ra, dec, areArrays, epoch, obs).None? ==>
        && pupilCoordMap == Some(FootprintTable(camera)) && builds == 1
        && r == PupilQuery(camera, SkyToPupil(ra, dec, obs.value, epoch.value, toPupil, true),
                           SkyToPupil(ra, dec, obs.value, epoch.value, toPupil, false), areArrays, allowMultiple)
    {
      if areArrays && |ra| != |dec| {
        return Err(InputShape);
      }
      if epoch.None? {
        return Err(MissingEpoch);
      }
      if obs.None? {
        return Err(MissingObsMetadata);
      }
      if obs.value.mjd.None? {
        return Err(MissingMjd);
      }
      if obs.value.rotSkyPos.None? {
        return Err(MissingRotSkyPos);
      }
      var xp := SkyToPupil(ra, dec, obs.value, epoch.value, toPupil, true);
      var yp := SkyToPupil(ra, dec, obs.value, epoch.value, toPupil, false);
      r := ChipNameFromPupilCoords(xp, yp, areArrays, allowMultiple);
    }
  }

  /** One pupil coordinate (x when `first`, y otherwise) of every (RA, Dec)
      pair, as _pupilCoordsFromRaDec produces it. */
  function SkyToPupil(ra: seq<real>, dec: seq<real>, obs: ObsMetadata, epoch: real,
                      toPupil: (real, real, ObsMetadata, real) -> Point, first: bool): (s: seq<real>)
    ensures |s| == if |ra| <= |dec| then |ra| else |dec|
  {
    var n := if |ra| <= |dec| then |ra| else |dec|;
    seq(n, i requires 0 <= i < n =>
      var p := toPupil(ra[i], dec[i], obs, epoch);
      if first then p.x else p.y)
  }

  // ---------------------------------------------------------------------
  // Properties of the lookup as a whole

  /** The camera lookup by name finds the detector itself when names are unique. */
  lemma {:induction false} DetectorNamedIsUnique(ds: seq<Detector>, k: nat)
    requires UniqueNames(ds) && k < |ds|
    ensures DetectorNamed(ds, ds[k].name) == ds[k]
  {
    if k > 0 && ds[0].name != ds[k].name {
      var rest := ds[1..];
      assert UniqueNames(rest) by {
        forall a, b | 0 <= a < b < |rest| ensures rest[a].name != rest[b].name {
          assert rest[a] == ds[a + 1] && rest[b] == ds[b + 1];
        }
      }
      assert rest[k - 1] == ds[k];
      DetectorNamedIsUnique(rest, k - 1);
    }
  }

  /** A detector is a candidate of a point exactly when it belongs to the
      camera and the point is near its footprint. */
  lemma CameraCandidates(camera: Camera, p: Point)
    requires WellFormed(camera)
    ensures NamesKnown(FootprintTable(camera), camera.detectors)
    ensures forall d :: d in Candidates(camera.distance, p, FootprintTable(camera), camera.detectors) <==>
      d in camera.detectors && Near(camera.distance, p, FootprintOf(camera, d.name))
  {
    var table := FootprintTable(camera);
    var ds := camera.detectors;
    TableNamesKnown(camera);
    CandidatesExact(camera.distance, p, table, ds);
    forall d ensures d in Candidates(camera.distance, p, table, ds) <==> d in ds && Near(camera.distance, p, FootprintOf(camera, d.name)) {
      if d in ds && Near(camera.distance, p, FootprintOf(camera, d.name)) {
        var k :| 0 <= k < |ds| && ds[k] == d;
        DetectorNamedIsUnique(ds, k);
        assert table[k] == FootprintOf(camera, d.name);
      }
    }
  }

  /** A point at the centre of a chip's bounding circle has that chip among
      its candidates, when the circle has a positive radius and the distance
      from a point to itself is zero. */
  lemma CentreIsShortlisted(camera: Camera, d: Detector)
    requires WellFormed(camera)
    requires d in camera.detectors
    requires FootprintOf(camera, d.name).radius > 0.0
    requires camera.distance(FootprintOf(camera, d.name).center, FootprintOf(camera, d.name).center) == 0.0
    ensures d in Candidates(camera.distance, FootprintOf(camera, d.name).center, FootprintTable(camera), camera.detectors)
  {
    CameraCandidates(camera, FootprintOf(camera, d.name).center);
  }

  /** Every candidate of every point is a detector of the camera. */
  lemma ShortlistsFromCamera(camera: Camera, points: seq<Point>)
    requires WellFormed(camera)
    ensures forall j, d :: 0 <= j < |points| && d in Shortlists(camera, points)[j] ==> d in camera.detectors
  {
    var s := Shortlists(camera, points);
    forall j, d | 0 <= j < |points| && d in s[j] ensures d in camera.detectors {
      CameraCandidates(camera, points[j]);
    }
  }

  /** Shortlists drawn from one camera name each detector once. */
  lemma ShortlistsIdentify(camera: Camera, points: seq<Point>)
    requires WellFormed(camera)
    ensures NamesIdentify(Shortlists(camera, points))
  {
    ShortlistsFromCamera(camera, points);
    DrawnFromUniqueNames(Shortlists(camera, points), camera.detectors);
  }

  /** Shortlists drawn from detectors with distinct names name each detector
      once. */
  lemma DrawnFromUniqueNames(shortlists: seq<seq<Detector>>, ds: seq<Detector>)
    requires UniqueNames(ds)
    requires forall j, d :: 0 <= j < |shortlists| && d in shortlists[j] ==> d in ds
    ensures NamesIdentify(shortlists)
  {
    forall j1: nat, j2: nat, d1: Detector, d2: Detector
      | 0 <= j1 < |shortlists| && 0 <= j2 < |shortlists| && d1 in shortlists[j1] && d2 in shortlists[j2] && d1.name == d2.name
      ensures d1 == d2
    {
      assert d1 in ds && d2 in ds;
      var a :| 0 <= a < |ds| && ds[a] == d1;
      var b :| 0 <= b < |ds| && ds[b] == d2;
      assert a == b;
    }
  }

  /** A chip reported for a point is a detector of the camera whose
      footprint the point is near and whose pixel box holds the point. */
  lemma ReportedChipHoldsPoint(camera: Camera, xPupil: seq<real>, yPupil: seq<real>, allowMultiple: bool, i: nat)
    requires WellFormed(camera) && |xPupil| == |yPupil| && i < |xPupil|
    ensures var names := PupilQuery(camera, xPupil, yPupil, true, allowMultiple).value;
      && |names| == |xPupil|
      && (names[i].Chip? ==> exists d ::
            && d in camera.detectors && d.name == names[i].name
            && Near(camera.distance, Point(xPupil[i], yPupil[i]), FootprintOf(camera, d.name))
            && camera.contains(d, Point(xPupil[i], yPupil[i])))
  {
    var points := Zip(xPupil, yPupil);
    var s := Shortlists(camera, points);
    EntryFromOwnShortlist(s, allowMultiple, PointCover(camera, points), i);
    CameraCandidates(camera, points[i]);
  }

  /** Every name of a multi-chip entry is a detector of the camera whose
      footprint the point is near and whose pixel box holds the point. */
  lemma ReportedChipsHoldPoint(camera: Camera, xPupil: seq<real>, yPupil: seq<real>, allowMultiple: bool, i: nat, k: nat)
    requires WellFormed(camera) && |xPupil| == |yPupil| && i < |xPupil|
    requires PupilQuery(camera, xPupil, yPupil, true, allowMultiple).value[i].Chips?
    requires k < |PupilQuery(camera, xPupil, yPupil, true, allowMultiple).value[i].names|
    ensures allowMultiple
    ensures exists d ::
      && d in camera.detectors && d.name == PupilQuery(camera, xPupil, yPupil, true, allowMultiple).value[i].names[k]
      && Near(camera.distance, Point(xPupil[i], yPupil[i]), FootprintOf(camera, d.name))
      && camera.contains(d, Point(xPupil[i], yPupil[i]))
  {
    var points := Zip(xPupil, yPupil);
    var s := Shortlists(camera, points);
    EntryFromOwnShortlist(s, allowMultiple, PointCover(camera, points), i);
    CameraCandidates(camera, points[i]);
  }

  /** A point reported on no chip lies in the pixel box of no detector whose
      footprint it is near. */
  lemma NoChipMeansNoNearDetectorHolds(camera: Camera, xPupil: seq<real>, yPupil: seq<real>, allowMultiple: bool, i: nat)
    requires WellFormed(camera) && |xPupil| == |yPupil| && i < |xPupil|
    requires PupilQuery(camera, xPupil, yPupil, true, allowMultiple).value[i] == NoChip
    ensures forall d ::
      (d in camera.detectors && Near(camera.distance, Point(xPupil[i], yPupil[i]), FootprintOf(camera, d.name)))
      ==> !camera.contains(d, Point(xPupil[i], yPupil[i]))
  {
    var points := Zip(xPupil, yPupil);
    var s := Shortlists(camera, points);
    ShortlistsIdentify(camera, points);
    CandidatesExhausted(s, allowMultiple, PointCover(camera, points), i);
    CameraCandidates(camera, points[i]);
  }

  /** Querying twice gives the same answer and builds the map once. */
  method QueryTwice(lsst: LsstCamera, xPupil: seq<real>, yPupil: seq<real>, areArrays: bool, allowMultiple: bool)
    returns (first: Result<seq<ChipName>, Error>, second: Result<seq<ChipName>, Error>)
    requires lsst.Valid()
    modifies lsst
    ensures first == second && lsst.builds == 1
  {
    first := lsst.ChipNameFromPupilCoords(xPupil, yPupil, areArrays, allowMultiple);
    second := lsst.ChipNameFromPupilCoords(xPupil, yPupil, areArrays, allowMultiple);
  }
}
