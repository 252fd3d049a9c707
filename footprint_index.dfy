/** The pupil coordinate map of _build_lsst_pupil_coord_map: for every chip
    of the camera, in camera order, the centre of its four corners in pupil
    coordinates and the mean distance from that centre to the corners. */
module FootprintIndex {
  import opened CameraTypes

  /** One entry of the flat corner lists: a pixel corner and its chip. */
  datatype PixelCorner = PixelCorner(chip: string, pixel: Point)

  /** The flat corner lists of lines 36-43 after the first `c` chips: each
      chip contributes its corners, tagged with its name. */
  function Corners(camera: Camera, c: nat): seq<PixelCorner>
    requires c <= |camera.detectors|
  {
    if c == 0 then []
    else
      var name := camera.detectors[c - 1].name;
      var cp := camera.cornerPixels(name);
      Corners(camera, c - 1) + seq(|cp|, q requires 0 <= q < |cp| => PixelCorner(name, cp[q]))
  }

  /** With four corners per chip, corner `q` of chip `k` sits at index 4k+q. */
  lemma {:induction false} CornersAt(camera: Camera, c: nat)
    requires WellFormed(camera) && c <= |camera.detectors|
    ensures |Corners(camera, c)| == 4 * c
    ensures forall k, q :: 0 <= k < c && 0 <= q < 4 ==>
      Corners(camera, c)[4 * k + q]
        == PixelCorner(camera.detectors[k].name, camera.cornerPixels(camera.detectors[k].name)[q])
  {
    if c > 0 {
      CornersAt(camera, c - 1);
      var name := camera.detectors[c - 1].name;
      assert |camera.cornerPixels(name)| == 4;
    }
  }

  /** Corner `q` of the named chip, carried to pupil coordinates. */
  function PupilCorner(camera: Camera, name: string, q: nat): Point
    requires q < |camera.cornerPixels(name)|
  {
    camera.pixelToPupil(name, camera.cornerPixels(name)[q])
  }

  /** The footprint of a chip (lines 57-71): the mean of its four pupil
      corners, and the mean distance from that centre to them. */
  function FootprintOf(camera: Camera, name: string): (f: Footprint)
    requires |camera.cornerPixels(name)| == 4
    ensures f.name == name
  {
    var p0 := PupilCorner(camera, name, 0);
    var p1 := PupilCorner(camera, name, 1);
    var p2 := PupilCorner(camera, name, 2);
    var p3 := PupilCorner(camera, name, 3);
    var center := Point(0.25 * (p0.x + p1.x + p2.x + p3.x), 0.25 * (p0.y + p1.y + p2.y + p3.y));
    Footprint(name, center,
      0.25 * (camera.distance(center, p0) + camera.distance(center, p1)
            + camera.distance(center, p2) + camera.distance(center, p3)))
  }

  /** The finished map: one footprint per chip, in camera order. */
  function FootprintTable(camera: Camera): (t: seq<Footprint>)
    requires WellFormed(camera)
    ensures |t| == |camera.detectors|
    ensures forall k :: 0 <= k < |t| ==> t[k].name == camera.detectors[k].name
  {
    seq(|camera.detectors|, k requires 0 <= k < |camera.detectors| => FootprintOf(camera, camera.detectors[k].name))
  }

  /** Lines 32-43: the corners of every chip, flattened into parallel lists
      of chip names and pixel coordinates, and the number of chips. */
  method FlattenCorners(camera: Camera) returns (names: seq<string>, xPix: seq<real>, yPix: seq<real>, nChips: nat)
    ensures nChips == |camera.detectors|
    ensures |names| == |xPix| == |yPix| == |Corners(camera, nChips)|
    ensures forall j :: 0 <= j < |names| ==>
      && names[j] == Corners(camera, nChips)[j].chip
      && Point(xPix[j], yPix[j]) == Corners(camera, nChips)[j].pixel
  {
    names, xPix, yPix, nChips := [], [], [], 0;
    for c := 0 to |camera.detectors|
      invariant nChips == c
      invariant |names| == |xPix| == |yPix| == |Corners(camera, c)|
      invariant forall j :: 0 <= j < |names| ==>
        && names[j] == Corners(camera, c)[j].chip
        && Point(xPix[j], yPix[j]) == Corners(camera, c)[j].pixel
    {
      var chipName := camera.detectors[c].name;
      nChips := nChips + 1;
      var cornerList := camera.cornerPixels(chipName);
      ghost var base := |names|;
      for q := 0 to |cornerList|
        invariant |names| == |xPix| == |yPix| == base + q
        invariant forall j :: 0 <= j < base ==>
          && names[j] == Corners(camera, c)[j].chip
          && Point(xPix[j], yPix[j]) == Corners(camera, c)[j].pixel
        invariant forall j :: base <= j < base + q ==>
          && names[j] == chipName
          && Point(xPix[j], yPix[j]) == cornerList[j - base]
      {
        xPix := xPix + [cornerList[q].x];
        yPix := yPix + [cornerList[q].y];
        names := names + [chipName];
      }
    }
  }

  /** The flat pupil corner lists of every chip, as lines 45-51 hand them on. */
  predicate PupilCorners(camera: Camera, names: seq<string>, xPup: seq<real>, yPup: seq<real>, nChips: nat)
    requires nChips <= |camera.detectors|
  {
    && |names| == |xPup| == |yPup| == |Corners(camera, nChips)|
    && forall j :: 0 <= j < |names| ==>
      && names[j] == Corners(camera, nChips)[j].chip
      && Point(xPup[j], yPup[j]) == camera.pixelToPupil(names[j], Corners(camera, nChips)[j].pixel)
  }

  /** Lines 57-71 for chip `ixCt`: its name, the mean of its four pupil
      corners, and the mean distance from that centre to them. */
  method ChipFootprint(camera: Camera, names: seq<string>, xPup: seq<real>, yPup: seq<real>, nChips: nat, ixCt: nat)
    returns (f: Footprint)
    requires WellFormed(camera) && nChips == |camera.detectors| && ixCt < nChips
    requires PupilCorners(camera, names, xPup, yPup, nChips)
    ensures f == FootprintOf(camera, camera.detectors[ixCt].name)
  {
    var ix := ixCt * 4;
    ChipCornersAt(camera, names, xPup, yPup, nChips, ixCt);
    var chipName := names[ix];
    var xx := 0.25 * (xPup[ix] + xPup[ix + 1] + xPup[ix + 2] + xPup[ix + 3]);
    var yy := 0.25 * (yPup[ix] + yPup[ix + 1] + yPup[ix + 2] + yPup[ix + 3]);
    var center := Point(xx, yy);
    var dx := 0.25 * (camera.distance(center, Point(xPup[ix], yPup[ix]))
                    + camera.distance(center, Point(xPup[ix + 1], yPup[ix + 1]))
                    + camera.distance(center, Point(xPup[ix + 2], yPup[ix + 2]))
                    + camera.distance(center, Point(xPup[ix + 3], yPup[ix + 3])));
    f := Footprint(chipName, center, dx);
  }

  /** The four flat entries of chip `k` start at index 4k and hold its name
      and its pupil corners, in order. */
  lemma ChipCornersAt(camera: Camera, names: seq<string>, xPup: seq<real>, yPup: seq<real>, nChips: nat, k: nat)
    requires WellFormed(camera) && nChips == |camera.detectors| && k < nChips
    requires PupilCorners(camera, names, xPup, yPup, nChips)
    ensures 4 * k + 3 < |names|
    ensures names[4 * k] == camera.detectors[k].name
    ensures forall q :: 0 <= q < 4 ==>
      Point(xPup[4 * k + q], yPup[4 * k + q]) == PupilCorner(camera, camera.detectors[k].name, q)
  {
    CornersAt(camera, nChips);
    var corners := Corners(camera, nChips);
    var name := camera.detectors[k].name;
    forall q | 0 <= q < 4
      ensures corners[4 * k + q] == PixelCorner(name, camera.cornerPixels(name)[q])
    {
    }
    assert corners[4 * k] == PixelCorner(name, camera.cornerPixels(name)[0]) by {
      assert 4 * k == 4 * k + 0;
    }
    assert names[4 * k] == corners[4 * k].chip;
  }

  /** Lines 52-71: regroup the flat pupil corner lists four at a time into
      one footprint per chip, in camera order. */
  method GroupCorners(camera: Camera, names: seq<string>, xPup: seq<real>, yPup: seq<real>, nChips: nat)
    returns (table: seq<Footprint>)
    requires WellFormed(camera) && nChips == |camera.detectors|
    requires PupilCorners(camera, names, xPup, yPup, nChips)
    ensures table == FootprintTable(camera)
  {
    table := [];
    for ixCt := 0 to nChips
      invariant |table| == ixCt
      invariant forall k :: 0 <= k < ixCt ==> table[k] == FootprintOf(camera, camera.detectors[k].name)
    {
      var f := ChipFootprint(camera, names, xPup, yPup, nChips, ixCt);
      table := table + [f];
    }
  }

  /** _build_lsst_pupil_coord_map, lines 32-71: flatten the corners of every
      chip, carry them to pupil coordinates in one batch, then regroup them
      into one footprint per chip. */
  method BuildFootprints(camera: Camera) returns (table: seq<Footprint>)
    requires WellFormed(camera)
    ensures table == FootprintTable(camera)
  {
    var names, xPix, yPix, nChips := FlattenCorners(camera);
    // pupilCoordsFromPixelCoords, applied to the whole batch
    var xPup := seq(|names|, j requires 0 <= j < |names| => camera.pixelToPupil(names[j], Point(xPix[j], yPix[j])).x);
    var yPup := seq(|names|, j requires 0 <= j < |names| => camera.pixelToPupil(names[j], Point(xPix[j], yPix[j])).y);
    table := GroupCorners(camera, names, xPup, yPup, nChips);
  }
}
