/**
 * Values shared by the whole model of the Mycelia graph viewer: the constants
 * of mycelia.hpp, the graph as a value (nodes in iteration order, edges,
 * version counter) and the items a frame draws.
 */
module Types {

  /** The selection id meaning "no node". */
  const SELECTION_NONE: int := -1

  /** The two layout kinds of setLayoutType. */
  const LAYOUT_STATIC: int := 0
  const LAYOUT_DYNAMIC: int := 1

  /** numeric_limits<float>::max(), the starting value of every running minimum. */
  const FLOAT_MAX: real := 340282346638528859811704183484516925440.0

  datatype Option<T> = None | Some(value: T)

  datatype Point = Point(x: real, y: real, z: real)

  function Sub(p: Point, q: Point): Point
  {
    Point(p.x - q.x, p.y - q.y, p.z - q.z)
  }

  function Dot(u: Point, v: Point): real
  {
    u.x * v.x + u.y * v.y + u.z * v.z
  }

  function Cross(u: Point, v: Point): Point
  {
    Point(u.y * v.z - u.z * v.y, u.z * v.x - u.x * v.z, u.x * v.y - u.y * v.x)
  }

  function Sqr(a: real): real
  {
    a * a
  }

  /** Geometry::sqr of a vector: its squared norm. */
  function SqrNorm(v: Point): real
  {
    Dot(v, v)
  }

  /** Geometry::sqrDist. */
  function SqrDist(p: Point, q: Point): real
  {
    SqrNorm(Sub(p, q))
  }

  /**
   * A node as the graph reports it: id, position, type tag ("shape",
   * "image", ...), image path and scale for image nodes, size for shape
   * nodes, and connected-component id.
   */
  datatype Node = Node(id: int, position: Point, nodeType: string, imagePath: string,
                       size: real, imageScale: real, component: int)

  datatype Edge = Edge(source: int, target: int)

  /**
   * The graph: nodes in the order getNodes() iterates them, edges indexed by
   * their edge id, the version counter and the texture-node mode.
   */
  datatype Graph = Graph(nodes: seq<Node>, edges: seq<Edge>, version: int, textureNodeMode: string)

  /** Node ids are valid (non-negative) and distinct; edges join nodes of the graph. */
  ghost predicate WellFormed(g: Graph)
  {
    && (forall i :: 0 <= i < |g.nodes| ==> g.nodes[i].id >= 0)
    && (forall i, j :: 0 <= i < j < |g.nodes| ==> g.nodes[i].id != g.nodes[j].id)
    && (forall e :: e in g.edges ==> HasNode(g, e.source) && HasNode(g, e.target))
  }

  /** Graph::isValidNode. */
  predicate HasNode(g: Graph, id: int)
  {
    exists n :: n in g.nodes && n.id == id
  }

  /** The first node of ns with the given id, if any. */
  function Lookup(ns: seq<Node>, id: int): (r: Option<Node>)
    ensures r.Some? ==> r.value in ns && r.value.id == id
    ensures r.None? ==> forall n :: n in ns ==> n.id != id
  {
    if ns == [] then None
    else if ns[0].id == id then Some(ns[0])
    else Lookup(ns[1..], id)
  }

  /** Graph::getNodeComponent; an id the graph does not hold has no component. */
  function ComponentOf(g: Graph, id: int): (r: Option<int>)
    ensures r.None? <==> !HasNode(g, id)
  {
    match Lookup(g.nodes, id)
    case Some(n) => Some(n.component)
    case None => None
  }

  /** Graph::update(): a pure version bump. */
  function Updated(g: Graph): (r: Graph)
    ensures r.version > g.version
    ensures r.nodes == g.nodes && r.edges == g.edges && r.textureNodeMode == g.textureNodeMode
  {
    g.(version := g.version + 1)
  }

  /** A batch of position changes (randomizePositions, moveNodes): counted as one version bump. */
  function Moved(g: Graph, positions: seq<Point>): (r: Graph)
    requires |positions| == |g.nodes|
    ensures |r.nodes| == |g.nodes| && r.version == g.version + 1
    ensures forall i :: 0 <= i < |g.nodes| ==> r.nodes[i] == g.nodes[i].(position := positions[i])
    ensures r.edges == g.edges && r.textureNodeMode == g.textureNodeMode
  {
    Graph(seq(|g.nodes|, i requires 0 <= i < |g.nodes| => g.nodes[i].(position := positions[i])),
          g.edges, g.version + 1, g.textureNodeMode)
  }

  /** moveNodes(shift) with shift = -center: every position translated by -center. */
  function Recentered(g: Graph, center: Point): (r: Graph)
    ensures |r.nodes| == |g.nodes|
    ensures forall i :: 0 <= i < |g.nodes| ==> r.nodes[i].position == Sub(g.nodes[i].position, center)
    ensures forall i :: 0 <= i < |g.nodes| ==> r.nodes[i].id == g.nodes[i].id
  {
    Moved(g, seq(|g.nodes|, i requires 0 <= i < |g.nodes| => Sub(g.nodes[i].position, center)))
  }

  /** A well-formed graph never holds SELECTION_NONE as a node id. */
  lemma NoneIsNeverANode(g: Graph)
    requires WellFormed(g)
    ensures !HasNode(g, SELECTION_NONE)
  {
  }

  /** What one frame draws (geometry and GL state are not modelled). */
  datatype DrawItem =
    | ShapeNode(node: int)                    // drawShapeNode: a sphere
    | TextureNode(node: int, texture: int)    // drawTextureNode with a loaded texture name
    | EdgeLine(source: int, target: int, sourceOffset: real, targetOffset: real)  // drawEdge(const Edge&)
    | BundleSegment(edge: nat, segment: nat)  // one bundled segment of an edge
    | Logo                                    // drawLogo
    | SpanningTreeOverlay                     // drawSpanningTree
    | ShortestPathOverlay                     // drawShortestPath
}
