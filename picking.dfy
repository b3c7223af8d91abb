/**
 * Nearest-node picking (Mycelia::nearestNode and the three selectNode
 * overloads). Both scans keep a running minimum that a node replaces only
 * when it is eligible and strictly below the current bound, so the first
 * minimum in iteration order wins. Picking reads the live graph g.
 */
module Picking {
  import opened Types

  /** One node as a scan sees it: its id, the key it is ranked by, and whether it may be picked. */
  datatype Candidate = Candidate(id: int, key: real, eligible: bool)

  /** The scan's state: the node picked so far and the bound a later node must beat. */
  datatype Pick = Pick(node: int, bound: real)

  /** The running minimum over cs, as the loops of nearestNode and selectNode(Ray) compute it. */
  function RunningMin(cs: seq<Candidate>): Pick
  {
    if cs == [] then Pick(SELECTION_NONE, FLOAT_MAX)
    else
      var p := RunningMin(cs[..|cs| - 1]);
      var c := cs[|cs| - 1];
      if c.eligible && c.key < p.bound then Pick(c.id, c.key) else p
  }

  /** cs[k] is eligible, below FLOAT_MAX, minimal among the eligible, and no earlier eligible candidate ties it. */
  ghost predicate IsFirstMin(cs: seq<Candidate>, k: int)
  {
    && 0 <= k < |cs|
    && cs[k].eligible
    && cs[k].key < FLOAT_MAX
    && (forall j :: 0 <= j < |cs| && cs[j].eligible ==> cs[k].key <= cs[j].key)
    && (forall j :: 0 <= j < k && cs[j].eligible ==> cs[k].key < cs[j].key)
  }

  /** No eligible candidate can beat the initial bound. */
  ghost predicate NoneBelowMax(cs: seq<Candidate>)
  {
    forall j :: 0 <= j < |cs| && cs[j].eligible ==> cs[j].key >= FLOAT_MAX
  }

  /** The running minimum is either "nothing" (and nothing could be picked) or the first minimum. */
  lemma {:induction false} RunningMinCases(cs: seq<Candidate>)
    ensures || (RunningMin(cs) == Pick(SELECTION_NONE, FLOAT_MAX) && NoneBelowMax(cs))
            || (exists k :: IsFirstMin(cs, k) && RunningMin(cs) == Pick(cs[k].id, cs[k].key))
  {
    if cs != [] {
      var n := |cs| - 1;
      var pre := cs[..n];
      RunningMinCases(pre);
      var c := cs[n];
      assert forall j :: 0 <= j < n ==> cs[j] == pre[j];
      if RunningMin(pre) == Pick(SELECTION_NONE, FLOAT_MAX) && NoneBelowMax(pre) {
        if c.eligible && c.key < FLOAT_MAX {
          assert IsFirstMin(cs, n);
        } else {
          assert NoneBelowMax(cs);
        }
      } else {
        var k :| IsFirstMin(pre, k) && RunningMin(pre) == Pick(pre[k].id, pre[k].key);
        if c.eligible && c.key < pre[k].key {
          assert IsFirstMin(cs, n);
        } else {
          assert IsFirstMin(cs, k);
        }
      }
    }
  }

  /** There is at most one first minimum. */
  lemma FirstMinUnique(cs: seq<Candidate>, k: int, k': int)
    requires IsFirstMin(cs, k) && IsFirstMin(cs, k')
    ensures k == k'
  {
  }

  /** The scan picks the first minimum whenever there is one. */
  lemma RunningMinPicksFirstMin(cs: seq<Candidate>, k: int)
    requires IsFirstMin(cs, k)
    ensures RunningMin(cs) == Pick(cs[k].id, cs[k].key)
  {
    RunningMinCases(cs);
    assert !NoneBelowMax(cs);
    var k' :| IsFirstMin(cs, k') && RunningMin(cs) == Pick(cs[k'].id, cs[k'].key);
    FirstMinUnique(cs, k, k');
  }

  /** When no eligible key is below FLOAT_MAX the scan keeps its initial state. */
  lemma RunningMinEmptyPick(cs: seq<Candidate>)
    requires NoneBelowMax(cs)
    ensures RunningMin(cs) == Pick(SELECTION_NONE, FLOAT_MAX)
  {
    RunningMinCases(cs);
    assert forall k :: !IsFirstMin(cs, k);
  }

  /** The candidates of a point query: every node, ranked by squared distance to the point. */
  function PointCandidates(g: Graph, click: Point): seq<Candidate>
  {
    seq(|g.nodes|, i requires 0 <= i < |g.nodes| => Candidate(g.nodes[i].id, SqrDist(click, g.nodes[i].position), true))
  }

  /** The running-minimum state of nearestNode: (nearest, minDist2). */
  method NearestNode(g: Graph, click: Point) returns (nearest: int, minDist2: real)
    ensures Pick(nearest, minDist2) == RunningMin(PointCandidates(g, click))
    ensures forall k :: IsFirstMin(PointCandidates(g, click), k) ==>
              nearest == g.nodes[k].id && minDist2 == SqrDist(click, g.nodes[k].position)
    ensures NoneBelowMax(PointCandidates(g, click)) ==> nearest == SELECTION_NONE && minDist2 == FLOAT_MAX
    ensures WellFormed(g) ==> (nearest == SELECTION_NONE <==> NoneBelowMax(PointCandidates(g, click)))
  {
    ghost var cs := PointCandidates(g, click);
    nearest, minDist2 := SELECTION_NONE, FLOAT_MAX;
    var i := 0;
    while i < |g.nodes|
      invariant 0 <= i <= |g.nodes|
      invariant Pick(nearest, minDist2) == RunningMin(cs[..i])
    {
      var dist2 := SqrDist(click, g.nodes[i].position);
      assert cs[..i + 1][..i] == cs[..i];
      if dist2 < minDist2 {
        nearest, minDist2 := g.nodes[i].id, dist2;
      }
      i := i + 1;
    }
    assert cs[..i] == cs;
    forall k | IsFirstMin(cs, k) ensures nearest == g.nodes[k].id && minDist2 == SqrDist(click, g.nodes[k].position) {
      RunningMinPicksFirstMin(cs, k);
    }
    if NoneBelowMax(cs) {
      RunningMinEmptyPick(cs);
    }
    RunningMinCases(cs);
  }

  /**
   * selectNode(Point): the nearest node if its squared distance is within
   * (8 * nodeRadius)^2, SELECTION_NONE otherwise.
   */
  function SelectNodeAtPoint(g: Graph, click: Point, nodeRadius: real): (nearest: int)
    ensures forall k :: IsFirstMin(PointCandidates(g, click), k) ==>
              nearest == (if SqrDist(click, g.nodes[k].position) <= Sqr(8.0 * nodeRadius) then g.nodes[k].id else SELECTION_NONE)
    ensures NoneBelowMax(PointCandidates(g, click)) ==> nearest == SELECTION_NONE
    ensures nearest == SELECTION_NONE || nearest == RunningMin(PointCandidates(g, click)).node
  {
    var cs := PointCandidates(g, click);
    var p := RunningMin(cs);
    assert forall k :: IsFirstMin(cs, k) ==> p == Pick(g.nodes[k].id, SqrDist(click, g.nodes[k].position)) by {
      forall k | IsFirstMin(cs, k) ensures p == Pick(g.nodes[k].id, SqrDist(click, g.nodes[k].position)) {
        RunningMinPicksFirstMin(cs, k);
      }
    }
    assert NoneBelowMax(cs) ==> p == Pick(SELECTION_NONE, FLOAT_MAX) by {
      if NoneBelowMax(cs) { RunningMinEmptyPick(cs); }
    }
    if p.bound <= Sqr(8.0 * nodeRadius) then p.node else SELECTION_NONE
  }

  /**
   * The cone test of selectNode(Ray): y2 / x2 <= coneAngle2. With x2 == 0
   * the float division gives +inf or NaN, and neither compares <= a finite
   * cone, so such a node never passes.
   */
  predicate ConeAccepts(x2: real, y2: real, coneAngle2: real)
  {
    x2 != 0.0 && y2 / x2 <= coneAngle2
  }

  datatype Ray = Ray(origin: Point, direction: Point)

  /** x2 = (sp . dir)^2 with sp the vector from the ray origin to p. */
  function RayX2(ray: Ray, p: Point): real
  {
    Sqr(Dot(Sub(p, ray.origin), ray.direction))
  }

  /** y2 = |sp x dir|^2. */
  function RayY2(ray: Ray, p: Point): real
  {
    SqrNorm(Cross(Sub(p, ray.origin), ray.direction))
  }

  /** The candidates of a ray query: ranked by x2, eligible when x2 >= 0 and the cone test passes. */
  function RayCandidates(g: Graph, ray: Ray, coneAngle2: real): seq<Candidate>
  {
    seq(|g.nodes|, i requires 0 <= i < |g.nodes| =>
      var x2 := RayX2(ray, g.nodes[i].position);
      Candidate(g.nodes[i].id, x2, x2 >= 0.0 && ConeAccepts(x2, RayY2(ray, g.nodes[i].position), coneAngle2)))
  }

  /**
   * selectNode(Ray): among the nodes passing the cone test, the one with the
   * smallest x2, the first one on ties; SELECTION_NONE when none passes.
   */
  method SelectNodeAlongRay(g: Graph, ray: Ray, coneAngle2: real) returns (nearest: int)
    ensures nearest == RunningMin(RayCandidates(g, ray, coneAngle2)).node
    ensures forall k :: IsFirstMin(RayCandidates(g, ray, coneAngle2), k) ==> nearest == g.nodes[k].id
    ensures NoneBelowMax(RayCandidates(g, ray, coneAngle2)) ==> nearest == SELECTION_NONE
    ensures WellFormed(g) ==> (nearest == SELECTION_NONE <==> NoneBelowMax(RayCandidates(g, ray, coneAngle2)))
  {
    ghost var cs := RayCandidates(g, ray, coneAngle2);
    nearest := SELECTION_NONE;
    var lambdaMin2 := FLOAT_MAX;
    var i := 0;
    while i < |g.nodes|
      invariant 0 <= i <= |g.nodes|
      invariant Pick(nearest, lambdaMin2) == RunningMin(cs[..i])
    {
      var sp := Sub(g.nodes[i].position, ray.origin);
      var x2 := Sqr(Dot(sp, ray.direction));
      assert cs[..i + 1][..i] == cs[..i];
      if x2 >= 0.0 && x2 < lambdaMin2 {
        var y2 := SqrNorm(Cross(sp, ray.direction));
        if x2 != 0.0 && y2 / x2 <= coneAngle2 {
          nearest, lambdaMin2 := g.nodes[i].id, x2;
        }
      }
      i := i + 1;
    }
    assert cs[..i] == cs;
    forall k | IsFirstMin(cs, k) ensures nearest == g.nodes[k].id {
      RunningMinPicksFirstMin(cs, k);
    }
    if NoneBelowMax(cs) {
      RunningMinEmptyPick(cs);
    }
    RunningMinCases(cs);
  }

  /**
   * An input device, with its position or ray already transformed into
   * graph coordinates: a 6-DOF device gives a point, any other device a ray.
   */
  datatype Device = SixDof(position: Point) | RayCaster(ray: Ray)

  /** selectNode(InputDevice*): the point query for a 6-DOF device, the ray query otherwise. */
  method SelectNodeForDevice(g: Graph, device: Device, nodeRadius: real, coneAngle2: real) returns (nearest: int)
    ensures device.SixDof? ==> nearest == SelectNodeAtPoint(g, device.position, nodeRadius)
    ensures device.RayCaster? ==> nearest == RunningMin(RayCandidates(g, device.ray, coneAngle2)).node
  {
    match device
    case SixDof(p) =>
      nearest := SelectNodeAtPoint(g, p, nodeRadius);
    case RayCaster(r) =>
      nearest := SelectNodeAlongRay(g, r, coneAngle2);
  }

  /** The guard x2 >= 0 excludes nothing: x2 is a square. */
  lemma {:induction false} RayGuardIsVacuous(g: Graph, ray: Ray, coneAngle2: real)
    ensures forall i :: 0 <= i < |g.nodes| ==>
              RayCandidates(g, ray, coneAngle2)[i].eligible ==
              ConeAccepts(RayX2(ray, g.nodes[i].position), RayY2(ray, g.nodes[i].position), coneAngle2)
  {
    forall i | 0 <= i < |g.nodes|
      ensures RayX2(ray, g.nodes[i].position) >= 0.0
    {
      var d := Dot(Sub(g.nodes[i].position, ray.origin), ray.direction);
      assert Sqr(d) == d * d;
    }
  }

  /**
   * So the x2 >= 0 guard does not ignore nodes behind the ray origin: a node
   * whose offset from the origin points against the ray direction is still
   * eligible whenever it passes the cone test.
   */
  lemma NodeBehindOriginIsEligible(g: Graph, ray: Ray, coneAngle2: real, i: int)
    requires 0 <= i < |g.nodes|
    requires Dot(Sub(g.nodes[i].position, ray.origin), ray.direction) < 0.0
    requires ConeAccepts(RayX2(ray, g.nodes[i].position), RayY2(ray, g.nodes[i].position), coneAngle2)
    ensures RayCandidates(g, ray, coneAngle2)[i].eligible
  {
    RayGuardIsVacuous(g, ray, coneAngle2);
  }

  /**
   * The point query on nodes at (0,0,0) and (100,0,0) with radius 1: the
   * point (0.5,0,0) selects the first node, the point (1000,0,0) nothing.
   */
  lemma PointQueryExample()
    ensures var a := Node(0, Point(0.0, 0.0, 0.0), "shape", "", 1.0, 1.0, 0);
            var b := Node(1, Point(100.0, 0.0, 0.0), "shape", "", 1.0, 1.0, 0);
            var g := Graph([a, b], [], 0, "");
            SelectNodeAtPoint(g, Point(0.5, 0.0, 0.0), 1.0) == 0 &&
            SelectNodeAtPoint(g, Point(1000.0, 0.0, 0.0), 1.0) == SELECTION_NONE
  {
    var a := Node(0, Point(0.0, 0.0, 0.0), "shape", "", 1.0, 1.0, 0);
    var b := Node(1, Point(100.0, 0.0, 0.0), "shape", "", 1.0, 1.0, 0);
    var g := Graph([a, b], [], 0, "");
    var near := PointCandidates(g, Point(0.5, 0.0, 0.0));
    assert near[0] == Candidate(0, 0.25, true);
    assert near[1] == Candidate(1, 9900.25, true);
    assert IsFirstMin(near, 0);
    RunningMinPicksFirstMin(near, 0);
    var far := PointCandidates(g, Point(1000.0, 0.0, 0.0));
    assert far[0] == Candidate(0, 1000000.0, true);
    assert far[1] == Candidate(1, 810000.0, true);
    assert IsFirstMin(far, 1);
    RunningMinPicksFirstMin(far, 1);
  }

  /**
   * The header promises nearestNode never returns SELECTION_NONE; that
   * holds once the graph has a node whose squared distance is below FLOAT_MAX.
   */
  lemma NearestIsSomeNode(g: Graph, click: Point, i: int)
    requires WellFormed(g)
    requires 0 <= i < |g.nodes| && SqrDist(click, g.nodes[i].position) < FLOAT_MAX
    ensures RunningMin(PointCandidates(g, click)).node != SELECTION_NONE
    ensures HasNode(g, RunningMin(PointCandidates(g, click)).node)
  {
    var cs := PointCandidates(g, click);
    assert cs[i].eligible && cs[i].key < FLOAT_MAX;
    RunningMinCases(cs);
    var k :| IsFirstMin(cs, k) && RunningMin(cs) == Pick(cs[k].id, cs[k].key);
    assert g.nodes[k] in g.nodes;
  }

  /** A 6-DOF device still applies the 8 * nodeRadius threshold: a nearest node farther away gives nothing. */
  lemma SixDofAppliesThreshold(g: Graph, p: Point, nodeRadius: real, k: int)
    requires IsFirstMin(PointCandidates(g, p), k)
    requires SqrDist(p, g.nodes[k].position) > Sqr(8.0 * nodeRadius)
    ensures SelectNodeAtPoint(g, p, nodeRadius) == SELECTION_NONE
  {
  }
}
