/** What _findDetectorsListLSST computes, stated without its loops.

    Points are walked in input order. A point whose result slot is still
    empty at its turn walks its own shortlist, and every detector met there
    whose name has not been visited yet is visited: it is tested against every
    point that is not yet found and has it in its shortlist. This fixes one
    global visit order (VisitOrder). A point then collects, in visit order,
    the names of the visited detectors of its shortlist that contain it
    (Hits); a point that is not eligible for multiple membership keeps only
    the first of them (Verdict). */
module ResolverSpec {
  import opened CameraTypes

  /** A point may collect several chips only when multiple chips are allowed
      and its shortlist holds a wavefront sensor. */
  predicate Eligible(shortlist: seq<Detector>, allowMultiple: bool)
  {
    allowMultiple && exists k :: 0 <= k < |shortlist| && shortlist[k].kind == Wavefront
  }

  /** The detectors of `xs`, in order, that a walk over `xs` visits: those
      whose name is neither in `seen` nor carried by an earlier one of `xs`. */
  function Unvisited(seen: seq<string>, xs: seq<Detector>): seq<Detector>
  {
    if xs == [] then []
    else
      var p := Unvisited(seen, xs[..|xs| - 1]);
      var d := xs[|xs| - 1];
      if d.name in seen || d.name in Names(p) then p else p + [d]
  }

  /** Detector `d` is a candidate of the shortlist and contains point `i`. */
  predicate Catches(d: Detector, shortlist: seq<Detector>, covers: (Detector, nat) -> bool, i: nat)
  {
    d in shortlist && covers(d, i)
  }

  /** The names, in the order of `tested`, of the tested detectors that are
      in `shortlist` and contain point `i`. */
  function Hits(tested: seq<Detector>, shortlist: seq<Detector>, covers: (Detector, nat) -> bool, i: nat): seq<string>
  {
    if tested == [] then []
    else
      var d := tested[|tested| - 1];
      Hits(tested[..|tested| - 1], shortlist, covers, i)
        + (if Catches(d, shortlist, covers, i) then [d.name] else [])
  }

  /** The detectors visited once the first `m` points have had their turn. A
      point that already holds a chip at its turn does not walk its shortlist
      (source line 126). */
  function VisitOrder(shortlists: seq<seq<Detector>>, covers: (Detector, nat) -> bool, m: nat): seq<Detector>
    requires m <= |shortlists|
  {
    if m == 0 then []
    else
      var t := VisitOrder(shortlists, covers, m - 1);
      if Hits(t, shortlists[m - 1], covers, m - 1) != [] then t
      else t + Unvisited(Names(t), shortlists[m - 1])
  }

  /** The entry of a point with the given hits. */
  function Verdict(hits: seq<string>, eligible: bool): ChipName
  {
    if hits == [] then NoChip
    else if !eligible || |hits| == 1 then Chip(hits[0])
    else Chips(hits)
  }

  /** How a containing detector is recorded in a point's slot (source lines
      145-154): a point that is not eligible takes the name; an eligible one
      goes from no chip to one name to a growing list. */
  function Record(slot: ChipName, name: string, eligible: bool): (r: ChipName)
    ensures r == Chip(name) || (r.Chips? && r.names != [] && r.names[|r.names| - 1] == name)
    ensures !eligible ==> r == Chip(name)
  {
    if !eligible then Chip(name)
    else
      match slot
      case NoChip => Chip(name)
      case Chip(first) => Chips([first, name])
      case Chips(names) => Chips(names + [name])
  }

  /** The result of the lookup: one entry per point, in input order. */
  function Resolution(shortlists: seq<seq<Detector>>, allowMultiple: bool, covers: (Detector, nat) -> bool): (r: seq<ChipName>)
    ensures |r| == |shortlists|
    ensures !allowMultiple ==> forall i :: 0 <= i < |r| ==> !r[i].Chips?
    ensures forall i :: 0 <= i < |r| && r[i].Chips? ==>
      Eligible(shortlists[i], allowMultiple) && |r[i].names| >= 2
  {
    var visited := VisitOrder(shortlists, covers, |shortlists|);
    seq(|shortlists|, i requires 0 <= i < |shortlists| =>
      Verdict(Hits(visited, shortlists[i], covers, i), Eligible(shortlists[i], allowMultiple)))
  }

  /** Shortlists drawn from one camera: a name stands for one detector. */
  predicate NamesIdentify(shortlists: seq<seq<Detector>>)
  {
    forall j1, j2, d1, d2 ::
      (0 <= j1 < |shortlists| && 0 <= j2 < |shortlists| && d1 in shortlists[j1] && d2 in shortlists[j2]
       && d1.name == d2.name) ==> d1 == d2
  }

  // ---------------------------------------------------------------------
  // Lemmas about the slot rule and the hits

  /** Recording hit after hit builds exactly the verdict on all of them. */
  lemma RecordExtendsVerdict(hits: seq<string>, name: string, eligible: bool)
    requires eligible || hits == []
    ensures Record(Verdict(hits, eligible), name, eligible) == Verdict(hits + [name], eligible)
  {
    if eligible && |hits| == 1 {
      assert hits == [hits[0]];
    }
  }

  /** Testing one more detector adds its name to the hits exactly when it is
      in the shortlist and contains the point. */
  lemma HitsAppend(tested: seq<Detector>, d: Detector, shortlist: seq<Detector>, covers: (Detector, nat) -> bool, i: nat)
    ensures Hits(tested + [d], shortlist, covers, i)
      == Hits(tested, shortlist, covers, i) + (if d in shortlist && covers(d, i) then [d.name] else [])
  {
    assert (tested + [d])[..|tested|] == tested;
  }

  /** Every hit names a tested detector of the shortlist that contains the point. */
  lemma {:induction false} HitsSound(tested: seq<Detector>, shortlist: seq<Detector>, covers: (Detector, nat) -> bool, i: nat)
    ensures forall k :: 0 <= k < |Hits(tested, shortlist, covers, i)| ==>
      exists d :: d in tested && d in shortlist && covers(d, i) && d.name == Hits(tested, shortlist, covers, i)[k]
  {
    if tested != [] {
      var t' := tested[..|tested| - 1];
      HitsSound(t', shortlist, covers, i);
      var h' := Hits(t', shortlist, covers, i);
      var h := Hits(tested, shortlist, covers, i);
      var last := tested[|tested| - 1];
      assert h == h' + (if Catches(last, shortlist, covers, i) then [last.name] else []);
      forall k | 0 <= k < |h|
        ensures exists d :: d in tested && d in shortlist && covers(d, i) && d.name == h[k]
      {
        if k < |h'| {
          assert h[k] == h'[k];
          var d :| d in t' && d in shortlist && covers(d, i) && d.name == h'[k];
          var a :| 0 <= a < |t'| && t'[a] == d;
          assert tested[a] == d;
        } else {
          assert Catches(last, shortlist, covers, i);
          assert last in tested && h[k] == last.name;
        }
      }
    } else {
      assert Hits(tested, shortlist, covers, i) == [];
    }
  }

  lemma {:induction false} HitsPrefix(t: seq<Detector>, u: seq<Detector>, shortlist: seq<Detector>, covers: (Detector, nat) -> bool, i: nat)
    requires t <= u
    ensures Hits(t, shortlist, covers, i) <= Hits(u, shortlist, covers, i)
    decreases |u|
  {
    if |t| < |u| {
      var u' := u[..|u| - 1];
      assert t <= u';
      HitsPrefix(t, u', shortlist, covers, i);
    } else {
      assert t == u;
    }
  }

  /** A tested detector of the shortlist that contains the point is a hit. */
  lemma {:induction false} HitsContain(tested: seq<Detector>, d: Detector, shortlist: seq<Detector>, covers: (Detector, nat) -> bool, i: nat)
    requires d in tested && d in shortlist && covers(d, i)
    ensures d.name in Hits(tested, shortlist, covers, i)
  {
    var last := tested[|tested| - 1];
    if d != last {
      assert d in tested[..|tested| - 1] by {
        var k :| 0 <= k < |tested| && tested[k] == d;
        assert k < |tested| - 1;
        assert tested[..|tested| - 1][k] == d;
      }
      HitsContain(tested[..|tested| - 1], d, shortlist, covers, i);
    }
  }

  /** The first hit is the first tested detector of the shortlist that
      contains the point. */
  lemma {:induction false} HitsFirst(tested: seq<Detector>, shortlist: seq<Detector>, covers: (Detector, nat) -> bool, i: nat)
    requires Hits(tested, shortlist, covers, i) != []
    ensures exists k ::
      && 0 <= k < |tested| && Catches(tested[k], shortlist, covers, i)
      && Hits(tested, shortlist, covers, i)[0] == tested[k].name
      && (forall j :: 0 <= j < k ==> !Catches(tested[j], shortlist, covers, i))
  {
    var t' := tested[..|tested| - 1];
    var last := tested[|tested| - 1];
    assert tested == t' + [last];
    var h' := Hits(t', shortlist, covers, i);
    if h' != [] {
      HitsFirst(t', shortlist, covers, i);
      var k :|
        && 0 <= k < |t'| && Catches(t'[k], shortlist, covers, i)
        && h'[0] == t'[k].name
        && (forall j :: 0 <= j < k ==> !Catches(t'[j], shortlist, covers, i));
      FirstCatchKept(t', last, shortlist, covers, i, k);
      assert Hits(tested, shortlist, covers, i)[0] == h'[0];
    } else {
      NoCatchWithoutHits(t', shortlist, covers, i);
      assert forall j :: 0 <= j < |t'| ==> tested[j] == t'[j];
    }
  }

  /** Testing one more detector keeps the first catch where it was. */
  lemma FirstCatchKept(t: seq<Detector>, d: Detector, shortlist: seq<Detector>, covers: (Detector, nat) -> bool, i: nat, k: nat)
    requires k < |t| && Catches(t[k], shortlist, covers, i)
    requires forall j :: 0 <= j < k ==> !Catches(t[j], shortlist, covers, i)
    ensures (t + [d])[k] == t[k]
    ensures forall j :: 0 <= j < k ==> !Catches((t + [d])[j], shortlist, covers, i)
  {
    assert forall j :: 0 <= j < k ==> (t + [d])[j] == t[j];
  }

  /** With no hits, no tested detector catches the point. */
  lemma NoCatchWithoutHits(tested: seq<Detector>, shortlist: seq<Detector>, covers: (Detector, nat) -> bool, i: nat)
    requires Hits(tested, shortlist, covers, i) == []
    ensures forall j :: 0 <= j < |tested| ==> !Catches(tested[j], shortlist, covers, i)
  {
    forall j | 0 <= j < |tested| ensures !Catches(tested[j], shortlist, covers, i) {
      if Catches(tested[j], shortlist, covers, i) {
        HitsContain(tested, tested[j], shortlist, covers, i);
      }
    }
  }

  /** Over detectors with distinct names, no name is a hit twice. */
  lemma {:induction false} HitsDistinct(tested: seq<Detector>, shortlist: seq<Detector>, covers: (Detector, nat) -> bool, i: nat)
    requires UniqueNames(tested)
    ensures forall a, b :: 0 <= a < b < |Hits(tested, shortlist, covers, i)| ==>
      Hits(tested, shortlist, covers, i)[a] != Hits(tested, shortlist, covers, i)[b]
  {
    if tested != [] {
      var t' := tested[..|tested| - 1];
      var d := tested[|tested| - 1];
      HitsDistinct(t', shortlist, covers, i);
      HitsSound(t', shortlist, covers, i);
      var h' := Hits(t', shortlist, covers, i);
      var h := Hits(tested, shortlist, covers, i);
      forall k | 0 <= k < |h'| ensures h'[k] != d.name {
        var e :| e in t' && e in shortlist && covers(e, i) && e.name == h'[k];
        var a :| 0 <= a < |t'| && t'[a] == e;
        assert tested[a] == e;
      }
      forall a, b | 0 <= a < b < |h| ensures h[a] != h[b] {
        assert h[a] == h'[a];
        if b < |h'| {
          assert h[b] == h'[b];
        }
      }
    } else {
      assert Hits(tested, shortlist, covers, i) == [];
    }
  }

  // ---------------------------------------------------------------------
  // Lemmas about the visit order

  /** A walk over `xs` visits only detectors of `xs` with unseen names, each
      name at most once, and afterwards every name of `xs` has been seen. */
  lemma {:induction false} UnvisitedProps(seen: seq<string>, xs: seq<Detector>)
    ensures forall k :: 0 <= k < |Unvisited(seen, xs)| ==>
      Unvisited(seen, xs)[k] in xs && Unvisited(seen, xs)[k].name !in seen
    ensures UniqueNames(Unvisited(seen, xs))
    ensures forall d :: d in xs ==> d.name in seen || d.name in Names(Unvisited(seen, xs))
  {
    if xs != [] {
      var xs' := xs[..|xs| - 1];
      var p := Unvisited(seen, xs');
      var d := xs[|xs| - 1];
      UnvisitedProps(seen, xs');
      assert forall e :: e in xs' ==> e in xs;
      assert forall e :: e in xs ==> e in xs' || e == d by {
        forall e | e in xs ensures e in xs' || e == d {
          var k :| 0 <= k < |xs| && xs[k] == e;
          if k < |xs| - 1 { assert xs'[k] == e; }
        }
      }
      if !(d.name in seen || d.name in Names(p)) {
        var r := p + [d];
        assert Names(r) == Names(p) + [d.name];
        forall a, b | 0 <= a < b < |r| ensures r[a].name != r[b].name {
          if b == |p| {
            assert Names(p)[a] == p[a].name;
          }
        }
      }
    }
  }

  /** The visit order holds each name at most once (each detector is tested
      at most once) and only detectors of the shortlists walked so far. */
  lemma {:induction false} VisitOrderProps(shortlists: seq<seq<Detector>>, covers: (Detector, nat) -> bool, m: nat)
    requires m <= |shortlists|
    ensures UniqueNames(VisitOrder(shortlists, covers, m))
    ensures forall k :: 0 <= k < |VisitOrder(shortlists, covers, m)| ==>
      exists j :: 0 <= j < m && VisitOrder(shortlists, covers, m)[k] in shortlists[j]
  {
    if m > 0 {
      var t := VisitOrder(shortlists, covers, m - 1);
      VisitOrderProps(shortlists, covers, m - 1);
      if Hits(t, shortlists[m - 1], covers, m - 1) == [] {
        var u := Unvisited(Names(t), shortlists[m - 1]);
        UnvisitedProps(Names(t), shortlists[m - 1]);
        var r := t + u;
        forall a, b | 0 <= a < b < |r| ensures r[a].name != r[b].name {
          if a < |t| && b >= |t| {
            assert Names(t)[a] == t[a].name;
            assert u[b - |t|].name !in Names(t);
          }
        }
        forall k | 0 <= k < |r| ensures exists j :: 0 <= j < m && r[k] in shortlists[j] {
          if k >= |t| {
            assert r[k] in shortlists[m - 1];
          } else {
            var j :| 0 <= j < m - 1 && t[k] in shortlists[j];
          }
        }
      } else {
        forall k | 0 <= k < |t| ensures exists j :: 0 <= j < m && t[k] in shortlists[j] {
          var j :| 0 <= j < m - 1 && t[k] in shortlists[j];
        }
      }
    }
  }

  /** The visit order only grows as more points take their turn. */
  lemma {:induction false} VisitOrderGrows(shortlists: seq<seq<Detector>>, covers: (Detector, nat) -> bool, m: nat, m': nat)
    requires m <= m' <= |shortlists|
    ensures VisitOrder(shortlists, covers, m) <= VisitOrder(shortlists, covers, m')
    decreases m' - m
  {
    if m < m' {
      VisitOrderGrows(shortlists, covers, m, m' - 1);
      VisitOrderExtends(shortlists, covers, m');
      PrefixTransitive(VisitOrder(shortlists, covers, m), VisitOrder(shortlists, covers, m' - 1),
                       VisitOrder(shortlists, covers, m'));
    }
  }

  /** One more turn only appends to the visit order. */
  lemma VisitOrderExtends(shortlists: seq<seq<Detector>>, covers: (Detector, nat) -> bool, m: nat)
    requires 0 < m <= |shortlists|
    ensures VisitOrder(shortlists, covers, m - 1) <= VisitOrder(shortlists, covers, m)
  {
  }

  lemma PrefixTransitive(a: seq<Detector>, b: seq<Detector>, c: seq<Detector>)
    requires a <= b && b <= c
    ensures a <= c
  {
  }

  /** Walking a prefix of a shortlist visits a prefix of what the whole walk visits. */
  lemma {:induction false} UnvisitedPrefix(seen: seq<string>, xs: seq<Detector>, k: nat)
    requires k <= |xs|
    ensures Unvisited(seen, xs[..k]) <= Unvisited(seen, xs)
    decreases |xs| - k
  {
    if k < |xs| {
      var xs' := xs[..|xs| - 1];
      assert xs'[..k] == xs[..k];
      UnvisitedPrefix(seen, xs', k);
    } else {
      assert xs[..k] == xs;
    }
  }

  /** Part way through the walk of point `i`'s shortlist, what has been
      visited is a prefix of the final visit order. */
  lemma WalkIsPrefix(shortlists: seq<seq<Detector>>, covers: (Detector, nat) -> bool, i: nat, k: nat)
    requires i < |shortlists| && k <= |shortlists[i]|
    requires Hits(VisitOrder(shortlists, covers, i), shortlists[i], covers, i) == []
    ensures var before := VisitOrder(shortlists, covers, i);
      before + Unvisited(Names(before), shortlists[i][..k]) <= VisitOrder(shortlists, covers, |shortlists|)
  {
    var before := VisitOrder(shortlists, covers, i);
    UnvisitedPrefix(Names(before), shortlists[i], k);
    VisitOrderGrows(shortlists, covers, i + 1, |shortlists|);
  }

  /** Once every point is found (none eligible, each with a hit), testing
      more detectors changes no entry: the early return gives what the full
      loop would (source lines 130-135). */
  lemma AllFoundIsFinal(tested: seq<Detector>, full: seq<Detector>, shortlists: seq<seq<Detector>>, could: seq<bool>, covers: (Detector, nat) -> bool)
    requires tested <= full && |could| == |shortlists|
    requires forall i :: 0 <= i < |shortlists| ==> !could[i] && Hits(tested, shortlists[i], covers, i) != []
    ensures forall i :: 0 <= i < |shortlists| ==>
      Verdict(Hits(full, shortlists[i], covers, i), could[i]) == Verdict(Hits(tested, shortlists[i], covers, i), could[i])
  {
    forall i | 0 <= i < |shortlists|
      ensures Verdict(Hits(full, shortlists[i], covers, i), could[i]) == Verdict(Hits(tested, shortlists[i], covers, i), could[i])
    {
      HitsPrefix(tested, full, shortlists[i], covers, i);
    }
  }

  // ---------------------------------------------------------------------
  // Properties of the result

  /** An entry names only detectors of the point's own shortlist that
      contain the point. */
  lemma EntryFromOwnShortlist(shortlists: seq<seq<Detector>>, allowMultiple: bool, covers: (Detector, nat) -> bool, i: nat)
    requires i < |shortlists|
    ensures var r := Resolution(shortlists, allowMultiple, covers)[i];
      && (r.Chip? ==> exists d :: d in shortlists[i] && covers(d, i) && d.name == r.name)
      && (r.Chips? ==> forall k :: 0 <= k < |r.names| ==>
            exists d :: d in shortlists[i] && covers(d, i) && d.name == r.names[k])
  {
    var visited := VisitOrder(shortlists, covers, |shortlists|);
    var h := Hits(visited, shortlists[i], covers, i);
    var r := Resolution(shortlists, allowMultiple, covers)[i];
    assert r == Verdict(h, Eligible(shortlists[i], allowMultiple));
    HitsSound(visited, shortlists[i], covers, i);
    if r.Chip? {
      assert r.name == h[0];
    } else if r.Chips? {
      forall k | 0 <= k < |r.names|
        ensures exists d :: d in shortlists[i] && covers(d, i) && d.name == r.names[k]
      {
        assert r.names[k] == h[k];
        var d :| d in visited && d in shortlists[i] && covers(d, i) && d.name == h[k];
      }
      assert forall k :: 0 <= k < |r.names| ==> exists d :: d in shortlists[i] && covers(d, i) && d.name == r.names[k];
    }
  }

  /** A point that is not eligible for multiple membership gets the first
      detector of the visit order that is in its shortlist and contains it,
      or no chip when there is none. */
  lemma FirstContainingWins(shortlists: seq<seq<Detector>>, allowMultiple: bool, covers: (Detector, nat) -> bool, i: nat, visited: seq<Detector>)
    requires i < |shortlists| && !Eligible(shortlists[i], allowMultiple)
    requires visited == VisitOrder(shortlists, covers, |shortlists|)
    ensures Resolution(shortlists, allowMultiple, covers)[i] == NoChip <==>
      forall k :: 0 <= k < |visited| ==> !Catches(visited[k], shortlists[i], covers, i)
    ensures Resolution(shortlists, allowMultiple, covers)[i] != NoChip ==>
      exists k ::
        && 0 <= k < |visited| && Catches(visited[k], shortlists[i], covers, i)
        && Resolution(shortlists, allowMultiple, covers)[i] == Chip(visited[k].name)
        && (forall j :: 0 <= j < k ==> !Catches(visited[j], shortlists[i], covers, i))
  {
    var h := Hits(visited, shortlists[i], covers, i);
    assert Resolution(shortlists, allowMultiple, covers)[i] == Verdict(h, false);
    if h != [] {
      HitsFirst(visited, shortlists[i], covers, i);
    } else {
      NoCatchWithoutHits(visited, shortlists[i], covers, i);
    }
  }

  /** The hits follow the order in which their detectors were tested. */
  lemma {:induction false} HitsInTestOrder(tested: seq<Detector>, shortlist: seq<Detector>, covers: (Detector, nat) -> bool, i: nat)
    ensures forall a, b :: 0 <= a < b < |Hits(tested, shortlist, covers, i)| ==>
      exists ka, kb ::
        && 0 <= ka < kb < |tested|
        && tested[ka].name == Hits(tested, shortlist, covers, i)[a]
        && tested[kb].name == Hits(tested, shortlist, covers, i)[b]
  {
    if tested != [] {
      var t' := tested[..|tested| - 1];
      HitsInTestOrder(t', shortlist, covers, i);
      HitsSound(t', shortlist, covers, i);
      var h' := Hits(t', shortlist, covers, i);
      var h := Hits(tested, shortlist, covers, i);
      forall a, b | 0 <= a < b < |h|
        ensures exists ka, kb :: 0 <= ka < kb < |tested| && tested[ka].name == h[a] && tested[kb].name == h[b]
      {
        assert h[a] == h'[a];
        if b < |h'| {
          assert h[b] == h'[b];
          var ka, kb :| 0 <= ka < kb < |t'| && t'[ka].name == h'[a] && t'[kb].name == h'[b];
          assert tested[ka] == t'[ka] && tested[kb] == t'[kb];
        } else {
          var d :| d in t' && d in shortlist && covers(d, i) && d.name == h'[a];
          var ka :| 0 <= ka < |t'| && t'[ka] == d;
          assert tested[ka] == d;
          assert tested[|tested| - 1].name == h[b];
        }
      }
    } else {
      assert Hits(tested, shortlist, covers, i) == [];
    }
  }

  /** A multi-chip verdict lists the hits themselves. */
  lemma VerdictChips(hits: seq<string>, eligible: bool, names: seq<string>)
    requires Verdict(hits, eligible) == Chips(names)
    ensures hits == names && eligible && |names| >= 2
  {
  }

  /** Over detectors with distinct names, the hits are distinct and follow
      the test order. */
  lemma {:induction false} HitsDistinctInOrder(tested: seq<Detector>, shortlist: seq<Detector>, covers: (Detector, nat) -> bool, i: nat, h: seq<string>)
    requires UniqueNames(tested) && h == Hits(tested, shortlist, covers, i)
    ensures forall a, b :: 0 <= a < b < |h| ==>
      && h[a] != h[b]
      && exists ka, kb :: 0 <= ka < kb < |tested| && tested[ka].name == h[a] && tested[kb].name == h[b]
  {
    HitsDistinct(tested, shortlist, covers, i);
    HitsInTestOrder(tested, shortlist, covers, i);
    forall a, b | 0 <= a < b < |h|
      ensures h[a] != h[b]
      ensures exists ka, kb :: 0 <= ka < kb < |tested| && tested[ka].name == h[a] && tested[kb].name == h[b]
    {
      var ka, kb :| 0 <= ka < kb < |tested| && tested[ka].name == h[a] && tested[kb].name == h[b];
    }
  }

  /** A multi-chip entry names each chip once, in visit order. */
  lemma {:induction false} ChipsInVisitOrder(shortlists: seq<seq<Detector>>, allowMultiple: bool, covers: (Detector, nat) -> bool, i: nat,
                          visited: seq<Detector>, names: seq<string>)
    requires i < |shortlists| && Resolution(shortlists, allowMultiple, covers)[i] == Chips(names)
    requires visited == VisitOrder(shortlists, covers, |shortlists|)
    ensures forall a, b :: 0 <= a < b < |names| ==>
      && names[a] != names[b]
      && exists ka, kb :: 0 <= ka < kb < |visited| && visited[ka].name == names[a] && visited[kb].name == names[b]
  {
    var h := Hits(visited, shortlists[i], covers, i);
    assert Resolution(shortlists, allowMultiple, covers)[i] == Verdict(h, Eligible(shortlists[i], allowMultiple));
    VerdictChips(h, Eligible(shortlists[i], allowMultiple), names);
    VisitOrderProps(shortlists, covers, |shortlists|);
    HitsDistinctInOrder(visited, shortlists[i], covers, i, names);
    forall a, b | 0 <= a < b < |names|
      ensures names[a] != names[b]
      ensures exists ka, kb :: 0 <= ka < kb < |visited| && visited[ka].name == names[a] && visited[kb].name == names[b]
    {
      var ka, kb :| 0 <= ka < kb < |visited| && visited[ka].name == names[a] && visited[kb].name == names[b];
    }
  }

  /** Among detectors drawn from the shortlists, a name seen is a detector seen. */
  lemma NamedIsVisited(shortlists: seq<seq<Detector>>, visited: seq<Detector>, d: Detector, i: nat)
    requires NamesIdentify(shortlists)
    requires i < |shortlists| && d in shortlists[i]
    requires forall k :: 0 <= k < |visited| ==> exists j :: 0 <= j < |shortlists| && visited[k] in shortlists[j]
    requires d.name in Names(visited)
    ensures d in visited
  {
    var k :| 0 <= k < |visited| && Names(visited)[k] == d.name;
    var j :| 0 <= j < |shortlists| && visited[k] in shortlists[j];
    assert visited[k] == d;
  }

  /** A walk over a shortlist leaves every one of its detectors visited,
      when names identify detectors. */
  lemma WalkCoversShortlist(shortlists: seq<seq<Detector>>, i: nat, before: seq<Detector>, after: seq<Detector>)
    requires NamesIdentify(shortlists)
    requires i < |shortlists|
    requires after == before + Unvisited(Names(before), shortlists[i])
    requires forall k :: 0 <= k < |after| ==> exists j :: 0 <= j < |shortlists| && after[k] in shortlists[j]
    ensures forall d :: d in shortlists[i] ==> d in after
  {
    var u := Unvisited(Names(before), shortlists[i]);
    assert Names(after) == Names(before) + Names(u);
    UnvisitedProps(Names(before), shortlists[i]);
    forall d | d in shortlists[i] ensures d in after {
      assert d.name in Names(after);
      NamedIsVisited(shortlists, after, d, i);
    }
  }

  /** A point that holds no chip at its turn appends its walk to the visit order. */
  lemma VisitOrderStep(shortlists: seq<seq<Detector>>, covers: (Detector, nat) -> bool, i: nat)
    requires i < |shortlists|
    requires Hits(VisitOrder(shortlists, covers, i), shortlists[i], covers, i) == []
    ensures VisitOrder(shortlists, covers, i + 1)
      == VisitOrder(shortlists, covers, i) + Unvisited(Names(VisitOrder(shortlists, covers, i)), shortlists[i])
  {
  }

  /** Every visited detector comes from some shortlist. */
  lemma VisitedFromShortlists(shortlists: seq<seq<Detector>>, covers: (Detector, nat) -> bool, m: nat)
    requires m <= |shortlists|
    ensures forall k :: 0 <= k < |VisitOrder(shortlists, covers, m)| ==>
      exists j :: 0 <= j < |shortlists| && VisitOrder(shortlists, covers, m)[k] in shortlists[j]
  {
    VisitOrderProps(shortlists, covers, m);
    var t := VisitOrder(shortlists, covers, m);
    forall k | 0 <= k < |t| ensures exists j :: 0 <= j < |shortlists| && t[k] in shortlists[j] {
      var j :| 0 <= j < m && t[k] in shortlists[j];
    }
  }

  /** When point `i` holds no chip at its turn, its whole shortlist ends up
      in the visit order. */
  lemma ShortlistVisited(shortlists: seq<seq<Detector>>, covers: (Detector, nat) -> bool, i: nat)
    requires NamesIdentify(shortlists)
    requires i < |shortlists|
    requires Hits(VisitOrder(shortlists, covers, i), shortlists[i], covers, i) == []
    ensures forall d :: d in shortlists[i] ==> d in VisitOrder(shortlists, covers, |shortlists|)
  {
    var before := VisitOrder(shortlists, covers, i);
    var after := VisitOrder(shortlists, covers, i + 1);
    var full := VisitOrder(shortlists, covers, |shortlists|);
    VisitOrderStep(shortlists, covers, i);
    VisitedFromShortlists(shortlists, covers, i + 1);
    VisitOrderGrows(shortlists, covers, i + 1, |shortlists|);
    WalkInPrefix(shortlists, i, before, after, full);
  }

  /** A walk over a shortlist that ends a prefix of `full` leaves every one
      of its detectors in `full`. */
  lemma WalkInPrefix(shortlists: seq<seq<Detector>>, i: nat, before: seq<Detector>, after: seq<Detector>, full: seq<Detector>)
    requires NamesIdentify(shortlists)
    requires i < |shortlists|
    requires after == before + Unvisited(Names(before), shortlists[i])
    requires forall k :: 0 <= k < |after| ==> exists j :: 0 <= j < |shortlists| && after[k] in shortlists[j]
    requires after <= full
    ensures forall d :: d in shortlists[i] ==> d in full
  {
    WalkCoversShortlist(shortlists, i, before, after);
    PrefixKeeps(after, full);
  }

  lemma PrefixKeeps(a: seq<Detector>, b: seq<Detector>)
    requires a <= b
    ensures forall x :: x in a ==> x in b
  {
    forall x | x in a ensures x in b {
      var k :| 0 <= k < |a| && a[k] == x;
      assert b[k] == x;
    }
  }

  /** A point left with no chip is contained by none of its candidates:
      its whole shortlist was tested against it. */
  lemma CandidatesExhausted(shortlists: seq<seq<Detector>>, allowMultiple: bool, covers: (Detector, nat) -> bool, i: nat)
    requires NamesIdentify(shortlists)
    requires i < |shortlists|
    requires Resolution(shortlists, allowMultiple, covers)[i] == NoChip
    ensures forall d :: d in shortlists[i] ==> !covers(d, i)
  {
    var n := |shortlists|;
    var full := VisitOrder(shortlists, covers, n);
    var before := VisitOrder(shortlists, covers, i);
    assert Hits(full, shortlists[i], covers, i) == [];
    VisitOrderGrows(shortlists, covers, i, n);
    HitsPrefix(before, full, shortlists[i], covers, i);
    ShortlistVisited(shortlists, covers, i);
    forall d | d in shortlists[i] ensures !covers(d, i) {
      if covers(d, i) {
        HitsContain(full, d, shortlists[i], covers, i);
      }
    }
  }

  /** Multiple membership as promised: a point eligible for several chips
      that holds no chip at its turn is reported on every candidate that
      contains it, alone or within a list. */
  lemma EligibleCollectsAll(shortlists: seq<seq<Detector>>, allowMultiple: bool, covers: (Detector, nat) -> bool, i: nat, d: Detector)
    requires NamesIdentify(shortlists)
    requires i < |shortlists|
    requires Eligible(shortlists[i], allowMultiple)
    requires Hits(VisitOrder(shortlists, covers, i), shortlists[i], covers, i) == []
    requires d in shortlists[i] && covers(d, i)
    ensures Resolution(shortlists, allowMultiple, covers)[i] == Chip(d.name)
      || (Resolution(shortlists, allowMultiple, covers)[i].Chips? && d.name in Resolution(shortlists, allowMultiple, covers)[i].names)
  {
    var full := VisitOrder(shortlists, covers, |shortlists|);
    ShortlistVisited(shortlists, covers, i);
    HitsContain(full, d, shortlists[i], covers, i);
    VerdictKeepsAll(Hits(full, shortlists[i], covers, i), d.name);
  }

  /** The verdict of an eligible point names each of its hits. */
  lemma VerdictKeepsAll(hits: seq<string>, name: string)
    requires name in hits
    ensures Verdict(hits, true) == Chip(name) || (Verdict(hits, true).Chips? && name in Verdict(hits, true).names)
  {
    if |hits| == 1 {
      assert hits == [hits[0]];
    }
  }

  lemma {:induction false} HitsWithout(tested: seq<Detector>, d: Detector, covers: (Detector, nat) -> bool, i: nat)
    requires d !in tested
    ensures Hits(tested, [d], covers, i) == []
  {
    if tested != [] {
      var t' := tested[..|tested| - 1];
      assert d !in t' by {
        forall k | 0 <= k < |t'| ensures t'[k] != d {
          assert t'[k] == tested[k];
        }
      }
      HitsWithout(t', d, covers, i);
    }
  }

  /** Over detectors with distinct names, a one-detector shortlist is hit
      exactly once by a tested detector that contains the point. */
  lemma {:induction false} HitsOfSingle(tested: seq<Detector>, d: Detector, covers: (Detector, nat) -> bool, i: nat)
    requires UniqueNames(tested) && d in tested && covers(d, i)
    ensures Hits(tested, [d], covers, i) == [d.name]
  {
    var t' := tested[..|tested| - 1];
    var last := tested[|tested| - 1];
    assert UniqueNames(t') by {
      forall a, b | 0 <= a < b < |t'| ensures t'[a].name != t'[b].name {
        assert t'[a] == tested[a] && t'[b] == tested[b];
      }
    }
    if last == d {
      assert d !in t' by {
        forall k | 0 <= k < |t'| ensures t'[k] != d {
          assert t'[k].name == tested[k].name != tested[|tested| - 1].name;
        }
      }
      HitsWithout(t', d, covers, i);
    } else {
      assert d in t' by {
        var k :| 0 <= k < |tested| && tested[k] == d;
        assert t'[k] == d;
      }
      HitsOfSingle(t', d, covers, i);
    }
  }

  /** A detector that catches the point as its sole candidate was tested. */
  lemma CaughtIsTested(tested: seq<Detector>, d: Detector, covers: (Detector, nat) -> bool, i: nat)
    requires Hits(tested, [d], covers, i) != []
    ensures d in tested
  {
    var h := Hits(tested, [d], covers, i);
    assert 0 < |h|;
    HitsSound(tested, [d], covers, i);
    assert exists e :: e in tested && e in [d] && covers(e, i) && e.name == h[0];
    var e :| e in tested && e in [d] && covers(e, i) && e.name == h[0];
    assert e == d;
  }

  /** A point's sole candidate ends up visited: either the point walks its
      shortlist, or an earlier visit already caught it. */
  lemma SoleCandidateVisited(shortlists: seq<seq<Detector>>, covers: (Detector, nat) -> bool, i: nat, d: Detector)
    requires NamesIdentify(shortlists)
    requires i < |shortlists| && shortlists[i] == [d]
    ensures d in VisitOrder(shortlists, covers, |shortlists|)
  {
    var before := VisitOrder(shortlists, covers, i);
    if Hits(before, [d], covers, i) == [] {
      ShortlistVisited(shortlists, covers, i);
    } else {
      CaughtIsTested(before, d, covers, i);
      VisitOrderGrows(shortlists, covers, i, |shortlists|);
      PrefixKeeps(before, VisitOrder(shortlists, covers, |shortlists|));
    }
  }

  /** A point whose only candidate contains it is reported on that chip,
      whether or not multiple chips are allowed. */
  lemma SoleCandidateWins(shortlists: seq<seq<Detector>>, allowMultiple: bool, covers: (Detector, nat) -> bool, i: nat, d: Detector)
    requires NamesIdentify(shortlists)
    requires i < |shortlists| && shortlists[i] == [d] && covers(d, i)
    ensures Resolution(shortlists, allowMultiple, covers)[i] == Chip(d.name)
  {
    var full := VisitOrder(shortlists, covers, |shortlists|);
    SoleCandidateVisited(shortlists, covers, i, d);
    VisitOrderProps(shortlists, covers, |shortlists|);
    HitsOfSingle(full, d, covers, i);
  }

  /** A containment that holds for every detector and point. */
  predicate Everywhere(d: Detector, i: nat)
  {
    true
  }

  /** Line 126 as written: a wavefront point that received a chip from an
      earlier point's batch never walks its own shortlist, so it can miss a
      candidate that contains it. */
  lemma WavefrontPointCanMissCandidate(a: Detector, b: Detector)
    requires a == Detector("A", Wavefront) && b == Detector("B", Wavefront)
    ensures Eligible([a, b], true)
    ensures Resolution([[a], [a, b]], true, Everywhere)[1] == Chip("A")
  {
    var pair := [[a], [a, b]];
    assert Unvisited([], [a]) == [a] by {
      assert [a][..0] == [];
    }
    assert VisitOrder(pair, Everywhere, 1) == [a];
    assert Hits([a], [a, b], Everywhere, 1) == ["A"] by {
      assert [a][..0] == [];
    }
    assert VisitOrder(pair, Everywhere, 2) == [a];
    assert [a, b][0].kind == Wavefront;
  }

  /** A walk over two differently named detectors, with nothing seen yet,
      visits both. */
  lemma WalkOfTwo(a: Detector, b: Detector)
    requires a.name != b.name
    ensures Unvisited([], [a, b]) == [a, b]
  {
    assert Unvisited([], [a]) == [a] by {
      assert [a][..0] == [];
    }
    assert [a, b][..1] == [a];
    assert Names([a]) == [a.name];
    assert b.name !in [a.name];
  }

  /** Two tested detectors of the shortlist that both contain the point are
      both hits, in test order. */
  lemma HitsOfTwo(a: Detector, b: Detector, covers: (Detector, nat) -> bool, i: nat)
    requires covers(a, i) && covers(b, i)
    ensures Hits([a, b], [a, b], covers, i) == [a.name, b.name]
  {
    assert Hits([a], [a, b], covers, i) == [a.name] by {
      assert [a][..0] == [];
    }
    assert [a, b][..1] == [a];
  }

  /** The same wavefront point, walking its own shortlist, collects both chips. */
  lemma WavefrontPointAloneCollectsBoth(a: Detector, b: Detector)
    requires a == Detector("A", Wavefront) && b == Detector("B", Wavefront)
    ensures Resolution([[a, b]], true, Everywhere)[0] == Chips(["A", "B"])
  {
    var single := [[a, b]];
    WalkOfTwo(a, b);
    assert VisitOrder(single, Everywhere, 1) == [a, b];
    HitsOfTwo(a, b, Everywhere, 0);
    assert [a, b][0].kind == Wavefront;
  }
}
