# LSST chip-name lookup, modelled in Dafny

This project models the chip-name lookup of `lsst.sims.coordUtils.LsstCameraUtils`.
The lookup answers which detector of the LSST camera sees each point of a
batch. A point is given in pupil coordinates, or as an (RA, Dec) pair that is
carried to the pupil plane first. The lookup has three stages:

1. **Pupil coordinate map.** On first use, the module builds a map of bounding
   circles in the pupil plane, one per chip. A circle's centre is the mean of
   the chip's four corners, and its radius is the mean distance from that
   centre to the corners. The map is built once; a second build is refused.
2. **Shortlist.** Each point keeps the chips whose centre lies within 1.1
   radii of it, in map order.
3. **Resolution.** `_findDetectorsListLSST` walks the points in input order.
   A point that holds no chip at its turn walks its own shortlist. Every
   detector met there whose name has not been checked yet is tested once,
   against every still-unfound point that lists it. A point that is not
   eligible for several chips takes the detector's name and is found. A point
   that is eligible collects every containing chip it is tested against (see
   the skip rule below); a point is eligible when
   multiple chips are allowed and its shortlist holds a wavefront sensor. The
   walk returns early once no point is left unfound.

Modules:

- `CameraTypes` holds the values: detectors, points, footprints, result
  entries and errors.
- `FootprintIndex` holds the map build: `BuildFootprints`, proved equal to
  `FootprintTable`.
- `Shortlist` holds the shortlister: `ShortlistCandidates`, proved equal to
  `Candidates`.
- `ResolverSpec` states what the resolver computes without its loops:
  - `VisitOrder` is the global order in which detectors are tested, with the
    skip rule of line 126.
  - `Hits` lists, in test order, the detectors of a point's shortlist that
    contain it.
  - `Verdict` keeps the first hit or all of them.
  - `Resolution` gives one verdict per point over the whole visit order.
- `Resolver` is the imperative resolver. `FindDetectors` is proved to return
  `Resolution`, including when it stops early.
- `LsstCameraUtils` is the module state: class `LsstCamera` holds the camera
  and the lazily built map, with the two entry points. It also holds the
  properties of the lookup as a whole.

The model follows two behaviours of the code exactly as written:

- **The skip rule.** A point that received a chip from an earlier point's
  batch never walks its own shortlist (line 126). So, with multiple chips
  allowed, a point whose shortlist holds a wavefront sensor can miss a
  candidate that contains it (`WavefrontPointCanMissCandidate`). Such an
  eligible point that does walk its own shortlist collects every candidate
  that contains it (`EligibleCollectsAll`). A point that is not eligible
  keeps only the first containing candidate (`FirstContainingWins`).
- **The early return.** It fires only once every point is found. That never
  happens while some point is eligible for several chips, so then the walk
  always runs to the end.

Every source path below is relative to the repository root. All line numbers
in the .dfy comments refer to `python/lsst/sims/coordUtils/LsstCameraUtils.py`.

## Model

| member | source | states |
|---|---|---|
| ResolverSpec.Resolution | python/lsst/sims/coordUtils/LsstCameraUtils.py:114-160 | one entry per point; an entry holds several chips only for a point eligible for multiple membership, with at least two names, and never when multiple chips are not allowed |
| ResolverSpec.Record | python/lsst/sims/coordUtils/LsstCameraUtils.py:145-154 | the name just recorded is the slot's single chip or the last of its list; a point not eligible for several chips keeps only that name |
| ResolverSpec.VisitOrder | python/lsst/sims/coordUtils/LsstCameraUtils.py:125-129 | the global order in which detectors are tested: a point holding no chip at its turn adds the unchecked detectors of its shortlist, a point holding one adds nothing (line 126) |
| ResolverSpec.RecordExtendsVerdict | python/lsst/sims/coordUtils/LsstCameraUtils.py:143-154 | recording containing detectors one at a time into an empty slot (None, then a name, then a list) builds exactly the verdict on all of them |
| ResolverSpec.HitsAppend | python/lsst/sims/coordUtils/LsstCameraUtils.py:136-154 | testing one more detector adds its name to a point's hits exactly when the detector is in the point's shortlist and contains it |
| ResolverSpec.HitsSound | python/lsst/sims/coordUtils/LsstCameraUtils.py:136-146 | every hit names a tested detector of the point's shortlist that contains the point |
| ResolverSpec.HitsPrefix | python/lsst/sims/coordUtils/LsstCameraUtils.py:143-154 | testing more detectors only appends to a point's hits |
| ResolverSpec.HitsContain | python/lsst/sims/coordUtils/LsstCameraUtils.py:136-146 | a tested detector of the shortlist that contains the point is among its hits |
| ResolverSpec.HitsFirst | python/lsst/sims/coordUtils/LsstCameraUtils.py:145-147 | the first hit is the first tested detector of the shortlist that contains the point |
| ResolverSpec.NoCatchWithoutHits | python/lsst/sims/coordUtils/LsstCameraUtils.py:143-147 | a point with no hits is contained by no tested detector of its shortlist |
| ResolverSpec.HitsDistinct | python/lsst/sims/coordUtils/LsstCameraUtils.py:128-129 | over detectors with distinct names, no name is a hit twice |
| ResolverSpec.HitsInTestOrder | python/lsst/sims/coordUtils/LsstCameraUtils.py:148-154 | hits appear in the order their detectors were tested |
| ResolverSpec.UnvisitedProps | python/lsst/sims/coordUtils/LsstCameraUtils.py:127-129 | a walk over a shortlist visits only its detectors with unchecked names, each name once, and leaves every name of the shortlist checked |
| ResolverSpec.VisitOrderProps | python/lsst/sims/coordUtils/LsstCameraUtils.py:125-129 | each detector name is tested at most once, and only detectors of the shortlists walked so far are tested |
| ResolverSpec.VisitOrderGrows | python/lsst/sims/coordUtils/LsstCameraUtils.py:125-129 | the tested detectors only grow, by appending, as points take their turn |
| ResolverSpec.UnvisitedPrefix | python/lsst/sims/coordUtils/LsstCameraUtils.py:127-129 | part of a shortlist walk visits a prefix of what the whole walk visits |
| ResolverSpec.WalkIsPrefix | python/lsst/sims/coordUtils/LsstCameraUtils.py:127-135 | at any detector of a point's walk, what has been tested is a prefix of the final visit order |
| ResolverSpec.AllFoundIsFinal | python/lsst/sims/coordUtils/LsstCameraUtils.py:130-135 | once every point is found, testing more detectors changes no entry, so the early return gives what the full loop would |
| ResolverSpec.EntryFromOwnShortlist | python/lsst/sims/coordUtils/LsstCameraUtils.py:136-154 | every name reported for a point is a detector of that point's own shortlist that contains the point |
| ResolverSpec.FirstContainingWins | python/lsst/sims/coordUtils/LsstCameraUtils.py:143-147 | a point not eligible for several chips gets no chip exactly when no visited detector of its shortlist contains it; otherwise it gets the first one in visit order |
| ResolverSpec.ChipsInVisitOrder | python/lsst/sims/coordUtils/LsstCameraUtils.py:148-154 | a multi-chip entry names each chip once, in the order the chips were visited |
| ResolverSpec.ShortlistVisited | python/lsst/sims/coordUtils/LsstCameraUtils.py:126-129 | when a point holds no chip at its turn, its whole shortlist ends up tested |
| ResolverSpec.CandidatesExhausted | python/lsst/sims/coordUtils/LsstCameraUtils.py:125-154 | a point left with no chip is contained by none of its candidates |
| ResolverSpec.EligibleCollectsAll | python/lsst/sims/coordUtils/LsstCameraUtils.py:100-104 | a point eligible for several chips that holds no chip at its turn is reported on every candidate that contains it, alone or within a list |
| ResolverSpec.SoleCandidateWins | python/lsst/sims/coordUtils/LsstCameraUtils.py:125-154 | a point whose only candidate contains it is reported on that chip |
| ResolverSpec.WavefrontPointCanMissCandidate | python/lsst/sims/coordUtils/LsstCameraUtils.py:126 | a wavefront point found by an earlier point's batch skips its own walk and reports one chip even though a second candidate contains it |
| ResolverSpec.WavefrontPointAloneCollectsBoth | python/lsst/sims/coordUtils/LsstCameraUtils.py:148-154 | the same wavefront point, walking its own shortlist, reports both chips in walk order |
| Resolver.MultipleEligibility | python/lsst/sims/coordUtils/LsstCameraUtils.py:118-123 | a point's flag is set exactly when multiple chips are allowed and its shortlist holds a wavefront sensor |
| Resolver.UnfoundPointsExact | python/lsst/sims/coordUtils/LsstCameraUtils.py:130 | the unfound points are exactly the indices whose found marker is negative, in ascending order |
| Resolver.PointsHoldingExact | python/lsst/sims/coordUtils/LsstCameraUtils.py:136 | the batch holds exactly the unfound points whose shortlist lists the detector, in ascending order |
| Resolver.TestBatch | python/lsst/sims/coordUtils/LsstCameraUtils.py:143-154 | each batch point the detector contains has the detector recorded in its slot, and is found unless eligible for several chips; nothing else changes |
| Resolver.BatchKeepsTracking | python/lsst/sims/coordUtils/LsstCameraUtils.py:136-154 | testing a detector against exactly the unfound points that list it keeps every slot equal to the verdict on its hits, and a point found exactly when it is not eligible and has a hit |
| Resolver.TestDetector | python/lsst/sims/coordUtils/LsstCameraUtils.py:130-154 | it stops, with the state unchanged, exactly when every point is found; otherwise the state tracks one more tested detector |
| Resolver.WalkShortlist | python/lsst/sims/coordUtils/LsstCameraUtils.py:127-154 | a full walk tests exactly the point's share of the visit order and records the checked names; an early stop leaves every point found after a prefix of the visit order |
| Resolver.TakeTurn | python/lsst/sims/coordUtils/LsstCameraUtils.py:125-154 | one point's turn advances the state to the visit order after that point, or stops with every point found |
| Resolver.EmptySlots | python/lsst/sims/coordUtils/LsstCameraUtils.py:114-115 | the empty slots and unfound markers are the state before any detector is tested |
| Resolver.RunTurns | python/lsst/sims/coordUtils/LsstCameraUtils.py:125-155 | the outer loop either tests the whole visit order, or stops with every point found after a prefix of it |
| Resolver.StoppedIsResolution | python/lsst/sims/coordUtils/LsstCameraUtils.py:130-135 | an early stop already holds the resolution, and happens only when no point is eligible for several chips and every point has a chip |
| Resolver.TrackedIsResolution | python/lsst/sims/coordUtils/LsstCameraUtils.py:156-160 | a loop that ran to the end, having tested the whole visit order, holds the resolution |
| Resolver.FindDetectors | python/lsst/sims/coordUtils/LsstCameraUtils.py:82-160 | returns the resolution of every point; when it returns early, no point is eligible for several chips and every point has a chip |
| FootprintIndex.CornersAt | python/lsst/sims/coordUtils/LsstCameraUtils.py:36-43 | with four corners per chip, the flat corner lists hold corner q of chip k at index 4k+q, tagged with the chip's name |
| FootprintIndex.FootprintTable | python/lsst/sims/coordUtils/LsstCameraUtils.py:52-79 | one entry per chip of the camera, in camera order, under the chip's name |
| FootprintIndex.FootprintOf | python/lsst/sims/coordUtils/LsstCameraUtils.py:57-71 | a chip's footprint carries the chip's name, centred on the mean of its four pupil corners with the mean corner distance as radius |
| FootprintIndex.FlattenCorners | python/lsst/sims/coordUtils/LsstCameraUtils.py:32-43 | the flat lists hold every chip's corners with its name, chip after chip, and the chip count is the camera's |
| FootprintIndex.ChipCornersAt | python/lsst/sims/coordUtils/LsstCameraUtils.py:56-58 | chip k's entries start at index 4k, carry its name and hold its four pupil corners in order |
| FootprintIndex.ChipFootprint | python/lsst/sims/coordUtils/LsstCameraUtils.py:57-71 | the regrouped centre and radius of chip k are its footprint |
| FootprintIndex.GroupCorners | python/lsst/sims/coordUtils/LsstCameraUtils.py:52-71 | regrouping the pupil corners four at a time gives the footprint table |
| FootprintIndex.BuildFootprints | python/lsst/sims/coordUtils/LsstCameraUtils.py:32-79 | the built map is the footprint table of the camera |
| Shortlist.NearIsRatioTest | python/lsst/sims/coordUtils/LsstCameraUtils.py:198-199 | for a positive radius, the near test is the ratio test distance / radius < 1.1 |
| Shortlist.NearIndicesExact | python/lsst/sims/coordUtils/LsstCameraUtils.py:198-199 | the near indices are exactly the map entries near the point, in ascending order |
| Shortlist.DetectorNamed | python/lsst/sims/coordUtils/LsstCameraUtils.py:201 | the camera lookup by name gives a detector of the camera with that name |
| Shortlist.Candidates | python/lsst/sims/coordUtils/LsstCameraUtils.py:197-201 | a point's shortlist holds only detectors of the camera |
| Shortlist.CandidatesExact | python/lsst/sims/coordUtils/LsstCameraUtils.py:196-202 | a detector is a candidate exactly when it is the camera's detector for a map entry near the point |
| Shortlist.CandidatesInMapOrder | python/lsst/sims/coordUtils/LsstCameraUtils.py:198-201 | candidates appear in the order of their map entries |
| Shortlist.CandidatesSnoc | python/lsst/sims/coordUtils/LsstCameraUtils.py:197-201 | a map with one more entry adds at most that entry's detector, at the end of the shortlist |
| Shortlist.PointShortlist | python/lsst/sims/coordUtils/LsstCameraUtils.py:197-201 | the scan over the map entries, keeping the detector of each entry within reach, yields exactly the point's candidates |
| Shortlist.ShortlistCandidates | python/lsst/sims/coordUtils/LsstCameraUtils.py:196-202 | one shortlist per point, in input order, each the point's candidates |
| LsstCameraUtils.PupilQuery | python/lsst/sims/coordUtils/LsstCameraUtils.py:185-206 | a pupil query succeeds exactly for arrays of one length, and then gives one entry per point |
| LsstCameraUtils.RaDecRequestError | python/lsst/sims/coordUtils/LsstCameraUtils.py:234-246 | the length error is reported exactly for arrays of different lengths, and no error exactly when the lengths agree and epoch, ObservationMetaData, mjd and rotSkyPos are all present |
| LsstCameraUtils.Zip | python/lsst/sims/coordUtils/LsstCameraUtils.py:194 | point i is (xPupil[i], yPupil[i]) |
| LsstCameraUtils.TableNamesKnown | python/lsst/sims/coordUtils/LsstCameraUtils.py:201 | every chip name in the map is a detector of the camera |
| LsstCameraUtils.RaDecReports | python/lsst/sims/coordUtils/LsstCameraUtils.py:234-246 | the error reported is a given one exactly when its check is the first, in order, whose condition holds |
| LsstCameraUtils.RaDecFirstFailureWins | python/lsst/sims/coordUtils/LsstCameraUtils.py:234-246 | a request passes exactly when no check fails; otherwise the error is the first failing check in the order: length, epoch, ObservationMetaData, mjd, rotSkyPos |
| LsstCameraUtils.LsstCamera.constructor | python/lsst/sims/coordUtils/LsstCameraUtils.py:14-16 | the module starts with the camera and no map |
| LsstCameraUtils.LsstCamera.BuildPupilCoordMap | python/lsst/sims/coordUtils/LsstCameraUtils.py:18-79 | refuses, leaving the map unchanged, when the map already exists; otherwise stores the footprint table |
| LsstCameraUtils.LsstCamera.ChipNameFromPupilCoords | python/lsst/sims/coordUtils/LsstCameraUtils.py:164-206 | builds the map once, even for a request it then rejects; rejects arrays of different lengths, then scalars; otherwise returns the resolution of the points' shortlists |
| LsstCameraUtils.LsstCamera.ChipNameFromRaDec | python/lsst/sims/coordUtils/LsstCameraUtils.py:209-249 | a request failing a check gets that check's error and leaves the state alone; otherwise it returns the pupil lookup of the transformed points |
| LsstCameraUtils.SkyToPupil | python/lsst/sims/coordUtils/LsstCameraUtils.py:248 | one pupil coordinate per (RA, Dec) pair |
| LsstCameraUtils.DetectorNamedIsUnique | python/lsst/sims/coordUtils/LsstCameraUtils.py:201 | with unique names, the lookup by a detector's name gives back that detector |
| LsstCameraUtils.CameraCandidates | python/lsst/sims/coordUtils/LsstCameraUtils.py:196-202 | a detector is a candidate of a point exactly when it belongs to the camera and the point is near its footprint |
| LsstCameraUtils.CentreIsShortlisted | python/lsst/sims/coordUtils/LsstCameraUtils.py:196-202 | a point at the centre of a chip's bounding circle, of positive radius, has that chip among its candidates |
| LsstCameraUtils.ShortlistsIdentify | python/lsst/sims/coordUtils/LsstCameraUtils.py:201 | in shortlists drawn from one camera, a name stands for a single detector |
| LsstCameraUtils.ReportedChipHoldsPoint | python/lsst/sims/coordUtils/LsstCameraUtils.py:142-147 | a single chip reported for a point belongs to the camera, the point is near its footprint, and its pixel box holds the point |
| LsstCameraUtils.ReportedChipsHoldPoint | python/lsst/sims/coordUtils/LsstCameraUtils.py:142-154 | every chip of a multi-chip entry belongs to the camera, the point is near its footprint, and its pixel box holds the point; such entries occur only when multiple chips are allowed |
| LsstCameraUtils.NoChipMeansNoNearDetectorHolds | python/lsst/sims/coordUtils/LsstCameraUtils.py:196-204 | a point reported on no chip lies in the pixel box of no detector whose footprint it is near |
| LsstCameraUtils.QueryTwice | python/lsst/sims/coordUtils/LsstCameraUtils.py:185-187 | two identical queries give the same answer and build the map once |

## Left out

- Camera loading (`LsstSimMapper().camera`) is not modelled. The camera is a value carrying its detectors, and the geometry functions below.
- `getCornerPixels`, `pupilCoordsFromPixelCoords` and `_pupilCoordsFromRaDec` are external calls. They become function parameters (`cornerPixels`, `pixelToPupil`, `toPupil`). `WellFormed` assumes four corners per chip and unique chip names.
- The afw transforms and `Box2D.contains` (lines 112, 139-144) become one abstract predicate, `contains`, on a detector and a pupil point.
- Floating point is not modelled. Centres are exact real means, and the distance is an abstract `distance` function, so `np.sqrt` is not modelled. The ratio test is stated as `distance < 1.1 * radius` with a positive radius; `NearIsRatioTest` proves this equivalent. A zero radius, which gives inf or NaN in numpy, is never near.
- `_validate_inputs` is modelled only as the `areArrays` flag plus a length check for arrays. Its checks of element types and mixed scalar/array input are not modelled.
- The final rendering of multi-chip entries with `str(list)`, and the conversion to a numpy array, are not modelled. A multi-chip entry is kept as the list of names (`Chips`).
- The map is stored as a sequence of `Footprint` records, not as a dictionary of numpy arrays. Python lists (`outputNameList`, `chip_has_found`, `checked_detectors`) are sequence values that the methods reassign, so aliasing is not modelled.
- Default parameter values, such as `epoch=2000.0` and `allow_multiple_chips=False`, are not modelled. The caller passes every argument.
- Module globals are modelled as the fields of one `LsstCamera` object. Concurrency is not modelled.
- The native-coordinate transform of line 112 is folded into `contains`.
