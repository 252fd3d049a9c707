/** Values shared by the LSST detector lookup: detectors, points in the pupil
    plane, footprint records, result entries and the error conditions. The
    camera description and its coordinate transforms are not modelled; they
    enter as functions carried by a Camera value. */
module CameraTypes {

  datatype Option<T> = None | Some(value: T)

  datatype Result<T, E> = Ok(value: T) | Err(error: E)

  /** The RuntimeErrors the lookup raises, one constructor per message. */
  datatype Error =
    | AlreadyBuilt        // the pupil coordinate map is built a second time
    | InputShape          // coordinate arrays of different lengths
    | NotArrays           // pupil coordinates passed as scalars
    | MissingEpoch        // no epoch for the (RA, Dec) lookup
    | MissingObsMetadata  // no ObservationMetaData
    | MissingMjd          // ObservationMetaData without an mjd
    | MissingRotSkyPos    // ObservationMetaData without a rotSkyPos

  /** A point in a two-dimensional plane (pupil or pixel coordinates). */
  datatype Point = Point(x: real, y: real)

  /** The detector types of the camera geometry library. Only Wavefront
      detectors may report a point on more than one chip. */
  datatype DetectorType = Science | Focus | Guider | Wavefront

  /** A detector is known by its name, which is unique within a camera. */
  datatype Detector = Detector(name: string, kind: DetectorType)

  /** One entry of a lookup result: no chip, one chip, or the names of all
      chips that see a point eligible for multiple membership. */
  datatype ChipName = NoChip | Chip(name: string) | Chips(names: seq<string>)

  /** The cached bounding circle of one chip in pupil coordinates. */
  datatype Footprint = Footprint(name: string, center: Point, radius: real)

  /** The camera description and the transforms the lookup consumes.
      cornerPixels: the four pixel corners of a chip (getCornerPixels);
      pixelToPupil: a pixel position on the named chip in pupil coordinates
      (pupilCoordsFromPixelCoords, applied point by point);
      distance: Euclidean distance in the pupil plane;
      contains: whether a pupil point, carried to the detector's pixel frame,
      lies in the detector's pixel bounding box. */
  datatype Camera = Camera(
    detectors: seq<Detector>,
    cornerPixels: string -> seq<Point>,
    pixelToPupil: (string, Point) -> Point,
    distance: (Point, Point) -> real,
    contains: (Detector, Point) -> bool)

  /** The names of a run of detectors, in order. */
  function Names(ds: seq<Detector>): (r: seq<string>)
    ensures |r| == |ds|
    ensures forall k :: 0 <= k < |ds| ==> r[k] == ds[k].name
  {
    seq(|ds|, k requires 0 <= k < |ds| => ds[k].name)
  }

  predicate UniqueNames(ds: seq<Detector>)
  {
    forall a, b :: 0 <= a < b < |ds| ==> ds[a].name != ds[b].name
  }

  /** What the lookup assumes of the camera: chip names are unique and every
      chip has four corners. */
  predicate WellFormed(camera: Camera)
  {
    && UniqueNames(camera.detectors)
    && forall k :: 0 <= k < |camera.detectors| ==> |camera.cornerPixels(camera.detectors[k].name)| == 4
  }

  /** Strictly ascending indices, as numpy.where produces them. */
  predicate Increasing(s: seq<nat>)
  {
    forall a, b :: 0 <= a < b < |s| ==> s[a] < s[b]
  }
}
