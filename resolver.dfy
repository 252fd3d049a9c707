/** The batched detector lookup of _findDetectorsListLSST, step by step:
    points are walked in input order, each detector met is tested once
    against every point that is still unfound and lists it, and the walk
    stops as soon as no point is left unfound. FindDetectors is proved to
    return the entries ResolverSpec.Resolution describes. */
module Resolver {
  import opened CameraTypes
  import opened ResolverSpec

  /** The per-point flags of lines 118-123: a point may collect several chips
      when multiple chips are allowed and its shortlist holds a wavefront
      sensor. */
  method MultipleEligibility(shortlists: seq<seq<Detector>>, allowMultiple: bool) returns (could: seq<bool>)
    ensures |could| == |shortlists|
    ensures forall i :: 0 <= i < |shortlists| ==> (could[i] <==> Eligible(shortlists[i], allowMultiple))
  {
    could := seq(|shortlists|, _ => false);
    if allowMultiple {
      var ipt := 0;
      while ipt < |shortlists|
        invariant 0 <= ipt <= |shortlists| && |could| == |shortlists|
        invariant forall i :: 0 <= i < ipt ==> (could[i] <==> Eligible(shortlists[i], true))
        invariant forall i :: ipt <= i < |shortlists| ==> !could[i]
      {
        var k := 0;
        while k < |shortlists[ipt]|
          invariant 0 <= k <= |shortlists[ipt]| && |could| == |shortlists|
          invariant forall i :: 0 <= i < ipt ==> (could[i] <==> Eligible(shortlists[i], true))
          invariant forall i :: ipt < i < |shortlists| ==> !could[i]
          invariant could[ipt] <==> exists j :: 0 <= j < k && shortlists[ipt][j].kind == Wavefront
        {
          if shortlists[ipt][k].kind == Wavefront {
            could := could[ipt := true];
          }
          k := k + 1;
        }
        ipt := ipt + 1;
      }
    }
  }

  /** The indices of the points not yet found, in ascending order
      (numpy.where(chip_has_found < 0), line 130). */
  function UnfoundPoints(hasFound: seq<int>): seq<nat>
  {
    if hasFound == [] then []
    else
      var n := |hasFound| - 1;
      UnfoundPoints(hasFound[..n]) + (if hasFound[n] < 0 then [n] else [])
  }

  /** The unfound points are exactly the indices marked negative, ascending. */
  lemma {:induction false} UnfoundPointsExact(hasFound: seq<int>)
    ensures Increasing(UnfoundPoints(hasFound))
    ensures forall x :: x in UnfoundPoints(hasFound) <==> 0 <= x < |hasFound| && hasFound[x] < 0
  {
    if hasFound != [] {
      var n := |hasFound| - 1;
      var p := UnfoundPoints(hasFound[..n]);
      UnfoundPointsExact(hasFound[..n]);
      assert forall a :: 0 <= a < |p| ==> p[a] in p;
      forall x ensures x in UnfoundPoints(hasFound) <==> 0 <= x < |hasFound| && hasFound[x] < 0 {
        if 0 <= x < n {
          assert hasFound[..n][x] == hasFound[x];
        }
      }
    }
  }

  /** The unfound points whose shortlist lists the detector, in the order of
      `unfound` (line 136). */
  function PointsHolding(unfound: seq<nat>, det: Detector, shortlists: seq<seq<Detector>>): seq<nat>
    requires forall k :: 0 <= k < |unfound| ==> unfound[k] < |shortlists|
  {
    if unfound == [] then []
    else
      var n := |unfound| - 1;
      PointsHolding(unfound[..n], det, shortlists) + (if det in shortlists[unfound[n]] then [unfound[n]] else [])
  }

  /** The batch holds exactly the listed points that list the detector, and
      stays ascending. */
  lemma {:induction false} PointsHoldingExact(unfound: seq<nat>, det: Detector, shortlists: seq<seq<Detector>>)
    requires forall k :: 0 <= k < |unfound| ==> unfound[k] < |shortlists|
    ensures forall x :: x in PointsHolding(unfound, det, shortlists) <==> x in unfound && det in shortlists[x]
    ensures Increasing(unfound) ==> Increasing(PointsHolding(unfound, det, shortlists))
  {
    if unfound != [] {
      var n := |unfound| - 1;
      var u' := unfound[..n];
      var p := PointsHolding(u', det, shortlists);
      PointsHoldingExact(u', det, shortlists);
      assert unfound == u' + [unfound[n]];
      assert forall a :: 0 <= a < |p| ==> p[a] in p;
      if Increasing(unfound) {
        assert Increasing(u');
        forall a | 0 <= a < |p| ensures p[a] < unfound[n] {
          var k :| 0 <= k < n && u'[k] == p[a];
        }
      }
    }
  }

  /** Test one detector against a batch of points (lines 143-154): a point
      it contains is recorded on it; a point not eligible for several chips
      is then found. */
  method TestBatch(valid: seq<nat>, det: Detector, output: seq<ChipName>, hasFound: seq<int>,
                   could: seq<bool>, covers: (Detector, nat) -> bool)
    returns (output': seq<ChipName>, hasFound': seq<int>)
    requires |output| == |hasFound| == |could|
    requires Increasing(valid) && forall k :: 0 <= k < |valid| ==> valid[k] < |output|
    ensures |output'| == |output| && |hasFound'| == |hasFound|
    ensures forall i :: 0 <= i < |output| ==>
      output'[i] == (if i in valid && covers(det, i) then Record(output[i], det.name, could[i]) else output[i])
    ensures forall i :: 0 <= i < |output| ==>
      hasFound'[i] == (if i in valid && covers(det, i) && !could[i] then 1 else hasFound[i])
  {
    output', hasFound' := output, hasFound;
    var j := 0;
    while j < |valid|
      invariant 0 <= j <= |valid|
      invariant |output'| == |output| && |hasFound'| == |hasFound|
      invariant forall i :: 0 <= i < |output| ==>
        output'[i] == (if i in valid[..j] && covers(det, i) then Record(output[i], det.name, could[i]) else output[i])
      invariant forall i :: 0 <= i < |output| ==>
        hasFound'[i] == (if i in valid[..j] && covers(det, i) && !could[i] then 1 else hasFound[i])
    {
      var ix := valid[j];
      assert ix !in valid[..j] by {
        forall k | 0 <= k < j ensures valid[..j][k] != ix {
          assert valid[k] < valid[j];
        }
      }
      assert valid[..j + 1] == valid[..j] + [ix];
      if covers(det, ix) {
        if !could[ix] {
          output' := output'[ix := Chip(det.name)];
          hasFound' := hasFound'[ix := 1];
        } else {
          match output'[ix]
          case NoChip =>
            output' := output'[ix := Chip(det.name)];
          case Chips(names) =>
            output' := output'[ix := Chips(names + [det.name])];
          case Chip(first) =>
            output' := output'[ix := Chips([first, det.name])];
        }
      }
      j := j + 1;
    }
    assert valid[..j] == valid;
  }

  /** The loop state after testing the detectors of `tested`: each entry is
      the verdict on the hits so far, and a point is found exactly when it
      is not eligible for several chips and has a hit. */
  ghost predicate Tracks(tested: seq<Detector>, output: seq<ChipName>, hasFound: seq<int>, could: seq<bool>,
                         shortlists: seq<seq<Detector>>, covers: (Detector, nat) -> bool)
  {
    && |output| == |shortlists| && |hasFound| == |shortlists| && |could| == |shortlists|
    && forall i :: 0 <= i < |shortlists| ==>
      && output[i] == Verdict(Hits(tested, shortlists[i], covers, i), could[i])
      && (hasFound[i] < 0 <==> could[i] || Hits(tested, shortlists[i], covers, i) == [])
  }

  /** Testing a detector against exactly the unfound points that list it
      keeps the loop state tracking the hits. */
  lemma BatchKeepsTracking(tested: seq<Detector>, det: Detector, valid: seq<nat>,
                           output: seq<ChipName>, hasFound: seq<int>, output': seq<ChipName>, hasFound': seq<int>,
                           could: seq<bool>, shortlists: seq<seq<Detector>>, covers: (Detector, nat) -> bool)
    requires Tracks(tested, output, hasFound, could, shortlists, covers)
    requires forall i :: 0 <= i < |shortlists| ==> (i in valid <==> hasFound[i] < 0 && det in shortlists[i])
    requires |output'| == |output| && |hasFound'| == |hasFound|
    requires forall i :: 0 <= i < |output| ==>
      output'[i] == (if i in valid && covers(det, i) then Record(output[i], det.name, could[i]) else output[i])
    requires forall i :: 0 <= i < |output| ==>
      hasFound'[i] == (if i in valid && covers(det, i) && !could[i] then 1 else hasFound[i])
    ensures Tracks(tested + [det], output', hasFound', could, shortlists, covers)
  {
    forall i | 0 <= i < |shortlists|
      ensures output'[i] == Verdict(Hits(tested + [det], shortlists[i], covers, i), could[i])
      ensures hasFound'[i] < 0 <==> could[i] || Hits(tested + [det], shortlists[i], covers, i) == []
    {
      var h := Hits(tested, shortlists[i], covers, i);
      HitsAppend(tested, det, shortlists[i], covers, i);
      if i in valid && covers(det, i) {
        RecordExtendsVerdict(h, det.name, could[i]);
      } else if h != [] {
        assert (h + [det.name])[0] == h[0];
      }
    }
  }

  /** The names of a run of detectors, split at a join. */
  lemma NamesAppend(a: seq<Detector>, b: seq<Detector>)
    ensures Names(a + b) == Names(a) + Names(b)
  {
  }

  /** One step of the walk over a shortlist (lines 127-129): the detector is
      visited exactly when its name has not been checked yet. */
  lemma WalkStep(before: seq<Detector>, tested: seq<Detector>, checked: seq<string>, sl: seq<Detector>, k: nat)
    requires k < |sl|
    requires tested == before + Unvisited(Names(before), sl[..k])
    requires checked == Names(tested)
    ensures sl[k].name in checked ==> tested == before + Unvisited(Names(before), sl[..k + 1])
    ensures sl[k].name !in checked ==>
      && tested + [sl[k]] == before + Unvisited(Names(before), sl[..k + 1])
      && checked + [sl[k].name] == Names(tested + [sl[k]])
  {
    var p := Unvisited(Names(before), sl[..k]);
    assert sl[..k + 1][..k] == sl[..k];
    NamesAppend(before, p);
    NamesAppend(tested, [sl[k]]);
  }

  /** Lines 130-154 for one newly visited detector: stop when no point is
      left unfound, otherwise test the detector against the unfound points
      that list it. */
  method TestDetector(det: Detector, shortlists: seq<seq<Detector>>, output: seq<ChipName>, hasFound: seq<int>,
                      could: seq<bool>, covers: (Detector, nat) -> bool, ghost tested: seq<Detector>)
    returns (output': seq<ChipName>, hasFound': seq<int>, allFound: bool)
    requires Tracks(tested, output, hasFound, could, shortlists, covers)
    ensures allFound <==> forall i :: 0 <= i < |shortlists| ==> !could[i] && Hits(tested, shortlists[i], covers, i) != []
    ensures allFound ==> output' == output && hasFound' == hasFound
    ensures !allFound ==> Tracks(tested + [det], output', hasFound', could, shortlists, covers)
  {
    var unfound := UnfoundPoints(hasFound);
    UnfoundPointsExact(hasFound);
    if |unfound| == 0 {
      return output, hasFound, true;
    }
    assert forall k :: 0 <= k < |unfound| ==> unfound[k] in unfound;
    var valid := PointsHolding(unfound, det, shortlists);
    PointsHoldingExact(unfound, det, shortlists);
    output', hasFound', allFound := output, hasFound, false;
    if |valid| > 0 {
      assert forall k :: 0 <= k < |valid| ==> valid[k] in valid;
      output', hasFound' := TestBatch(valid, det, output, hasFound, could, covers);
    }
    BatchKeepsTracking(tested, det, valid, output, hasFound, output', hasFound', could, shortlists, covers);
  }

  /** Lines 127-154 for a point that holds no chip at its turn: walk its
      shortlist, visiting each detector whose name has not been checked.
      Stops early when a newly visited detector finds no point unfound. */
  method WalkShortlist(shortlists: seq<seq<Detector>>, ipt: nat, output: seq<ChipName>, hasFound: seq<int>,
                       checked: seq<string>, could: seq<bool>, covers: (Detector, nat) -> bool, ghost before: seq<Detector>)
    returns (output': seq<ChipName>, hasFound': seq<int>, checked': seq<string>, stopped: bool, ghost tested: seq<Detector>)
    requires ipt < |shortlists|
    requires before == VisitOrder(shortlists, covers, ipt)
    requires Hits(before, shortlists[ipt], covers, ipt) == []
    requires checked == Names(before)
    requires Tracks(before, output, hasFound, could, shortlists, covers)
    ensures Tracks(tested, output', hasFound', could, shortlists, covers)
    ensures stopped ==> tested <= VisitOrder(shortlists, covers, |shortlists|)
    ensures stopped ==> forall i :: 0 <= i < |shortlists| ==> !could[i] && Hits(tested, shortlists[i], covers, i) != []
    ensures !stopped ==> tested == VisitOrder(shortlists, covers, ipt + 1) && checked' == Names(tested)
  {
    var sl := shortlists[ipt];
    output', hasFound', checked', stopped, tested := output, hasFound, checked, false, before;
    var k := 0;
    while k < |sl|
      invariant 0 <= k <= |sl|
      invariant tested == before + Unvisited(Names(before), sl[..k])
      invariant checked' == Names(tested)
      invariant Tracks(tested, output', hasFound', could, shortlists, covers)
    {
      var det := sl[k];
      WalkStep(before, tested, checked', sl, k);
      if det.name !in checked' {
        checked' := checked' + [det.name];
        output', hasFound', stopped := TestDetector(det, shortlists, output', hasFound', could, covers, tested);
        if stopped {
          WalkIsPrefix(shortlists, covers, ipt, k);
          return;
        }
        tested := tested + [det];
      }
      k := k + 1;
    }
    assert sl[..k] == sl;
    VisitOrderStep(shortlists, covers, ipt);
  }

  /** A point holding a chip at its turn leaves the visit order as it is
      (line 126). */
  lemma VisitOrderSkip(shortlists: seq<seq<Detector>>, covers: (Detector, nat) -> bool, i: nat)
    requires i < |shortlists|
    requires Hits(VisitOrder(shortlists, covers, i), shortlists[i], covers, i) != []
    ensures VisitOrder(shortlists, covers, i + 1) == VisitOrder(shortlists, covers, i)
  {
  }

  /** A loop state tracking the whole visit order holds the resolution. */
  lemma TrackedIsResolution(shortlists: seq<seq<Detector>>, allowMultiple: bool, covers: (Detector, nat) -> bool,
                            tested: seq<Detector>, output: seq<ChipName>, hasFound: seq<int>, could: seq<bool>)
    requires tested == VisitOrder(shortlists, covers, |shortlists|)
    requires Tracks(tested, output, hasFound, could, shortlists, covers)
    requires forall i :: 0 <= i < |shortlists| ==> (could[i] <==> Eligible(shortlists[i], allowMultiple))
    ensures output == Resolution(shortlists, allowMultiple, covers)
  {
  }

  /** A loop state in which every point is found already holds the
      resolution: no point is eligible for several chips and every point
      has a chip. */
  lemma StoppedIsResolution(shortlists: seq<seq<Detector>>, allowMultiple: bool, covers: (Detector, nat) -> bool,
                            tested: seq<Detector>, output: seq<ChipName>, hasFound: seq<int>, could: seq<bool>)
    requires tested <= VisitOrder(shortlists, covers, |shortlists|)
    requires Tracks(tested, output, hasFound, could, shortlists, covers)
    requires forall i :: 0 <= i < |shortlists| ==> (could[i] <==> Eligible(shortlists[i], allowMultiple))
    requires forall i :: 0 <= i < |shortlists| ==> !could[i] && Hits(tested, shortlists[i], covers, i) != []
    ensures output == Resolution(shortlists, allowMultiple, covers)
    ensures forall i :: 0 <= i < |shortlists| ==> !Eligible(shortlists[i], allowMultiple) && output[i] != NoChip
  {
    AllFoundIsFinal(tested, VisitOrder(shortlists, covers, |shortlists|), shortlists, could, covers);
  }

  /** One turn of the outer loop (lines 125-154): a point that holds no
      chip walks its shortlist; a point that holds one is skipped. */
  method TakeTurn(shortlists: seq<seq<Detector>>, ipt: nat, output: seq<ChipName>, hasFound: seq<int>,
                  checked: seq<string>, could: seq<bool>, covers: (Detector, nat) -> bool, ghost tested: seq<Detector>)
    returns (output': seq<ChipName>, hasFound': seq<int>, checked': seq<string>, stopped: bool, ghost tested': seq<Detector>)
    requires ipt < |shortlists|
    requires tested == VisitOrder(shortlists, covers, ipt) && checked == Names(tested)
    requires Tracks(tested, output, hasFound, could, shortlists, covers)
    ensures Tracks(tested', output', hasFound', could, shortlists, covers)
    ensures stopped ==> tested' <= VisitOrder(shortlists, covers, |shortlists|)
    ensures stopped ==> forall i :: 0 <= i < |shortlists| ==> !could[i] && Hits(tested', shortlists[i], covers, i) != []
    ensures !stopped ==> tested' == VisitOrder(shortlists, covers, ipt + 1) && checked' == Names(tested')
  {
    if output[ipt] == NoChip {
      output', hasFound', checked', stopped, tested' :=
        WalkShortlist(shortlists, ipt, output, hasFound, checked, could, covers, tested);
    } else {
      VisitOrderSkip(shortlists, covers, ipt);
      output', hasFound', checked', stopped, tested' := output, hasFound, checked, false, tested;
    }
  }

  /** Lines 114-115: every slot starts empty and every point unfound,
      which is the state before any detector is tested. */
  method EmptySlots(could: seq<bool>, shortlists: seq<seq<Detector>>, covers: (Detector, nat) -> bool)
    returns (output: seq<ChipName>, hasFound: seq<int>)
    requires |could| == |shortlists|
    ensures Tracks([], output, hasFound, could, shortlists, covers)
  {
    output := seq(|shortlists|, _ => NoChip);
    hasFound := seq(|shortlists|, _ => -1);
  }

  /** The outer loop of lines 125-154 from the first point on: it either
      runs to the end, having visited the whole visit order, or stops early
      once every point is found. */
  method RunTurns(shortlists: seq<seq<Detector>>, could: seq<bool>, covers: (Detector, nat) -> bool)
    returns (output: seq<ChipName>, hasFound: seq<int>, stopped: bool, ghost tested: seq<Detector>)
    requires |could| == |shortlists|
    ensures Tracks(tested, output, hasFound, could, shortlists, covers)
    ensures stopped ==> tested <= VisitOrder(shortlists, covers, |shortlists|)
    ensures stopped ==> forall i :: 0 <= i < |shortlists| ==> !could[i] && Hits(tested, shortlists[i], covers, i) != []
    ensures !stopped ==> tested == VisitOrder(shortlists, covers, |shortlists|)
  {
    var n := |shortlists|;
    output, hasFound := EmptySlots(could, shortlists, covers);
    var checked: seq<string> := [];
    tested := [];
    stopped := false;

    var ipt := 0;
    while ipt < n
      invariant 0 <= ipt <= n
      invariant tested == VisitOrder(shortlists, covers, ipt)
      invariant checked == Names(tested)
      invariant Tracks(tested, output, hasFound, could, shortlists, covers)
    {
      output, hasFound, checked, stopped, tested :=
        TakeTurn(shortlists, ipt, output, hasFound, checked, could, covers, tested);
      if stopped {
        return;
      }
      ipt := ipt + 1;
    }
  }

  /** _findDetectorsListLSST (lines 82-160): the entry of every point, in
      input order. The early return of lines 130-135 fires only when every
      point is found, which never happens while a point is eligible for
      several chips, and it returns what the full loop would. */
  method FindDetectors(shortlists: seq<seq<Detector>>, allowMultiple: bool, covers: (Detector, nat) -> bool)
    returns (names: seq<ChipName>, ghost exitedEarly: bool)
    ensures names == Resolution(shortlists, allowMultiple, covers)
    ensures exitedEarly ==> forall i :: 0 <= i < |shortlists| ==>
      !Eligible(shortlists[i], allowMultiple) && names[i] != NoChip
  {
    var could := MultipleEligibility(shortlists, allowMultiple);
    var hasFound, stopped;
    ghost var tested;
    names, hasFound, stopped, tested := RunTurns(shortlists, could, covers);
    exitedEarly := stopped;
    if stopped {
      StoppedIsResolution(shortlists, allowMultiple, covers, tested, names, hasFound, could);
    } else {
      TrackedIsResolution(shortlists, allowMultiple, covers, tested, names, hasFound, could);
    }
  }
}
