/** The candidate shortlister of chipNameFromPupilCoordsLSST (lines 196-202):
    for each point, the chips of the pupil coordinate map whose centre lies
    within 1.1 radii of the point, in map order. */
module Shortlist {
  import opened CameraTypes

  /** The slack on a chip's radius within which it is a candidate. */
  const Margin: real := 1.1

  /** The test of lines 198-199, distance / radius < 1.1. A zero radius
      gives an infinite or undefined ratio there, which never passes. */
  predicate Near(distance: (Point, Point) -> real, p: Point, f: Footprint)
  {
    f.radius > 0.0 && distance(p, f.center) < Margin * f.radius
  }

  /** On a positive radius, Near is the ratio test as written. */
  lemma NearIsRatioTest(distance: (Point, Point) -> real, p: Point, f: Footprint)
    requires f.radius > 0.0
    ensures Near(distance, p, f) <==> distance(p, f.center) / f.radius < Margin
  {
    var d := distance(p, f.center);
    var r := f.radius;
    assert d == (d / r) * r;
    if d / r < Margin {
      assert (d / r) * r < Margin * r;
    }
  }

  /** The map indices whose footprint is near the point, ascending
      (numpy.where, line 198). */
  function NearIndices(distance: (Point, Point) -> real, p: Point, table: seq<Footprint>): seq<nat>
  {
    if table == [] then []
    else
      var n := |table| - 1;
      NearIndices(distance, p, table[..n]) + (if Near(distance, p, table[n]) then [n] else [])
  }

  /** The near indices are exactly the indices of near footprints, ascending. */
  lemma {:induction false} NearIndicesExact(distance: (Point, Point) -> real, p: Point, table: seq<Footprint>)
    ensures Increasing(NearIndices(distance, p, table))
    ensures forall x :: x in NearIndices(distance, p, table) <==> 0 <= x < |table| && Near(distance, p, table[x])
  {
    if table != [] {
      var n := |table| - 1;
      var r := NearIndices(distance, p, table[..n]);
      NearIndicesExact(distance, p, table[..n]);
      assert forall a :: 0 <= a < |r| ==> r[a] in r;
      forall x ensures x in NearIndices(distance, p, table) <==> 0 <= x < |table| && Near(distance, p, table[x]) {
        if 0 <= x < n {
          assert table[..n][x] == table[x];
        }
      }
    }
  }

  /** Every chip named in the map is a detector of the camera. */
  predicate NamesKnown(table: seq<Footprint>, detectors: seq<Detector>)
  {
    forall k :: 0 <= k < |table| ==> table[k].name in Names(detectors)
  }

  /** The camera's detector of the given name (the camera lookup by name of
      line 201): the first one carrying it. */
  function DetectorNamed(detectors: seq<Detector>, name: string): (d: Detector)
    requires name in Names(detectors)
    ensures d in detectors && d.name == name
  {
    if detectors[0].name == name then detectors[0]
    else
      assert Names(detectors[1..]) == Names(detectors)[1..];
      DetectorNamed(detectors[1..], name)
  }

  /** The shortlist of one point: the detectors of the near map entries, in
      map order. */
  function Candidates(distance: (Point, Point) -> real, p: Point, table: seq<Footprint>, detectors: seq<Detector>): (c: seq<Detector>)
    requires NamesKnown(table, detectors)
    ensures forall k :: 0 <= k < |c| ==> c[k] in detectors
  {
    var dexes := NearIndices(distance, p, table);
    NearIndicesExact(distance, p, table);
    assert forall j :: 0 <= j < |dexes| ==> dexes[j] in dexes;
    assert forall j :: 0 <= j < |dexes| ==> dexes[j] < |table|;
    seq(|dexes|, j requires 0 <= j < |dexes| => DetectorNamed(detectors, table[dexes[j]].name))
  }

  /** A detector is a candidate of a point exactly when it is the camera's
      detector for the name of a map entry near the point. */
  lemma CandidatesExact(distance: (Point, Point) -> real, p: Point, table: seq<Footprint>, detectors: seq<Detector>)
    requires NamesKnown(table, detectors)
    ensures forall d :: d in Candidates(distance, p, table, detectors) <==>
      exists k :: 0 <= k < |table| && Near(distance, p, table[k]) && d == DetectorNamed(detectors, table[k].name)
  {
    var dexes := NearIndices(distance, p, table);
    NearIndicesExact(distance, p, table);
    var c := Candidates(distance, p, table, detectors);
    forall d | d in c
      ensures exists k :: 0 <= k < |table| && Near(distance, p, table[k]) && d == DetectorNamed(detectors, table[k].name)
    {
      var j :| 0 <= j < |c| && c[j] == d;
      assert dexes[j] in dexes;
    }
    forall k | 0 <= k < |table| && Near(distance, p, table[k])
      ensures DetectorNamed(detectors, table[k].name) in c
    {
      var j :| 0 <= j < |dexes| && dexes[j] == k;
      assert c[j] == DetectorNamed(detectors, table[k].name);
    }
  }

  /** The shortlist follows map order: candidates drawn from distinct map
      entries appear in the order of those entries. */
  lemma CandidatesInMapOrder(distance: (Point, Point) -> real, p: Point, table: seq<Footprint>, detectors: seq<Detector>, a: nat, b: nat)
    requires NamesKnown(table, detectors)
    requires a < b < |Candidates(distance, p, table, detectors)|
    ensures exists ka, kb ::
      && 0 <= ka < kb < |table|
      && Candidates(distance, p, table, detectors)[a] == DetectorNamed(detectors, table[ka].name)
      && Candidates(distance, p, table, detectors)[b] == DetectorNamed(detectors, table[kb].name)
  {
    var dexes := NearIndices(distance, p, table);
    NearIndicesExact(distance, p, table);
    assert dexes[a] in dexes && dexes[b] in dexes;
    assert dexes[a] < dexes[b];
  }

  /** A longer map adds at most the detector of its last entry to the end of
      the shortlist. */
  lemma CandidatesSnoc(distance: (Point, Point) -> real, p: Point, table: seq<Footprint>, detectors: seq<Detector>)
    requires table != [] && NamesKnown(table, detectors)
    ensures NamesKnown(table[..|table| - 1], detectors)
    ensures Candidates(distance, p, table, detectors)
      == Candidates(distance, p, table[..|table| - 1], detectors)
         + (if Near(distance, p, table[|table| - 1]) then [DetectorNamed(detectors, table[|table| - 1].name)] else [])
  {
    var n := |table| - 1;
    var prefix := table[..n];
    var before := NearIndices(distance, p, prefix);
    var dexes := NearIndices(distance, p, table);
    assert dexes == before + (if Near(distance, p, table[n]) then [n] else []);
    NearIndicesExact(distance, p, prefix);
    var c := Candidates(distance, p, table, detectors);
    var c' := Candidates(distance, p, prefix, detectors);
    var tail := if Near(distance, p, table[n]) then [DetectorNamed(detectors, table[n].name)] else [];
    forall j | 0 <= j < |c| ensures c[j] == (c' + tail)[j] {
      if j < |before| {
        assert before[j] in before;
        assert dexes[j] == before[j] && prefix[before[j]] == table[before[j]];
      }
    }
    assert c == c' + tail;
  }

  /** Lines 197-201 for one point: the map entries are scanned in order, and
      the camera's detector is kept for each entry within reach. */
  method PointShortlist(distance: (Point, Point) -> real, p: Point, table: seq<Footprint>, detectors: seq<Detector>)
    returns (localValid: seq<Detector>)
    requires NamesKnown(table, detectors)
    ensures localValid == Candidates(distance, p, table, detectors)
  {
    localValid := [];
    for k := 0 to |table|
      invariant NamesKnown(table[..k], detectors)
      invariant localValid == Candidates(distance, p, table[..k], detectors)
    {
      if Near(distance, p, table[k]) {
        localValid := localValid + [DetectorNamed(detectors, table[k].name)];
      }
      assert table[..k + 1][..k] == table[..k];
      CandidatesSnoc(distance, p, table[..k + 1], detectors);
    }
    assert table[..|table|] == table;
  }

  /** Lines 196-202: the shortlist of every point, in input order. */
  method ShortlistCandidates(distance: (Point, Point) -> real, points: seq<Point>, table: seq<Footprint>, detectors: seq<Detector>)
    returns (validDetectors: seq<seq<Detector>>)
    requires NamesKnown(table, detectors)
    ensures |validDetectors| == |points|
    ensures forall i :: 0 <= i < |points| ==> validDetectors[i] == Candidates(distance, points[i], table, detectors)
  {
    validDetectors := [];
    for i := 0 to |points|
      invariant |validDetectors| == i
      invariant forall k :: 0 <= k < i ==> validDetectors[k] == Candidates(distance, points[k], table, detectors)
    {
      var localValid := PointShortlist(distance, points[i], table, detectors);
      validDetectors := validDetectors + [localValid];
    }
  }
}
