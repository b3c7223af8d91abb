/**
 * What the Mycelia draw passes draw from the graph snapshot: the component
 * filter, drawNode's texture-or-shape choice, drawNodes' type filter and
 * drawEdges' once-per-pair rule, together with the texture loads these
 * passes trigger in the data item's cache.
 */
module Drawing {
  import opened Types
  import opened TextureCache

  /** The side of drawEdges' drawn[][] table: node ids must be below it. */
  const DRAWN_SIDE: int := 1000

  /**
   * What the draw passes read from the application: the snapshot gCopy,
   * the component toggle and the selected node it compares against, the
   * bundle toggle and the bundler's segment count, and the node radius.
   */
  datatype View = View(graph: Graph, componentFilter: bool, selectedNode: int,
                       bundling: bool, segmentCount: nat, nodeRadius: real)

  /** isSelectedComponent: with the component toggle on, only nodes in the selected node's component pass. */
  predicate IsSelectedComponent(v: View, node: int)
  {
    !v.componentFilter || ComponentOf(v.graph, node) == ComponentOf(v.graph, v.selectedNode)
  }

  /**
   * With the toggle on, a node of the graph passes exactly when the
   * selected node is a node of the graph in the same component; so with no
   * node selected, no node passes.
   */
  lemma ComponentFilterMeaning(v: View, n: Node)
    requires v.componentFilter && n in v.graph.nodes && WellFormed(v.graph)
    ensures IsSelectedComponent(v, n.id) <==>
              exists s :: s in v.graph.nodes && s.id == v.selectedNode && s.component == n.component
    ensures v.selectedNode == SELECTION_NONE ==> !IsSelectedComponent(v, n.id)
  {
    LookupFindsTheNode(v.graph, n);
    if s :| s in v.graph.nodes && s.id == v.selectedNode {
      LookupFindsTheNode(v.graph, s);
    }
    NoneIsNeverANode(v.graph);
  }

  /** In a well-formed graph, looking up a node's id finds that node. */
  lemma LookupFindsTheNode(g: Graph, n: Node)
    requires WellFormed(g) && n in g.nodes
    ensures Lookup(g.nodes, n.id) == Some(n)
  {
    var r := Lookup(g.nodes, n.id);
    var i :| 0 <= i < |g.nodes| && g.nodes[i] == n;
    var j :| 0 <= j < |g.nodes| && g.nodes[j] == r.value;
    assert i == j;
  }

  /** drawNodes' test for one node: in the selected component and of a type other than the filter. */
  predicate Kept(v: View, n: Node, filter: string)
  {
    IsSelectedComponent(v, n.id) && n.nodeType != filter
  }

  /** The nodes of ns that drawNodes draws, in order. */
  function KeptNodes(v: View, ns: seq<Node>, filter: string): seq<Node>
  {
    if ns == [] then []
    else if Kept(v, ns[|ns| - 1], filter) then KeptNodes(v, ns[..|ns| - 1], filter) + [ns[|ns| - 1]]
    else KeptNodes(v, ns[..|ns| - 1], filter)
  }

  /** A node is drawn by drawNodes exactly when it is in the graph and passes the test. */
  lemma {:induction false} KeptNodesMembers(v: View, ns: seq<Node>, filter: string, n: Node)
    ensures n in KeptNodes(v, ns, filter) <==> n in ns && Kept(v, n, filter)
    decreases |ns|
  {
    if ns != [] {
      KeptNodesMembers(v, ns[..|ns| - 1], filter, n);
      assert ns == ns[..|ns| - 1] + [ns[|ns| - 1]];
    }
  }

  /**
   * The cache after drawNode or getNodeEdgeOffset has looked at node n: an
   * "image" node asks getTextureId for its image, any other node does not
   * touch the cache.
   */
  function TextureTouched(c: CacheState, n: Node, loader: Loader): (d: CacheState)
    requires Consistent(c)
    ensures Consistent(d)
    ensures n.nodeType != "image" ==> d == c
  {
    if n.nodeType == "image" then LoadStep(c, n.imagePath, loader).0 else c
  }

  /** Drawing a node keeps every cached texture and only caches its image if readable. */
  lemma TextureTouchedGrows(c: CacheState, n: Node, loader: Loader)
    requires Consistent(c)
    ensures Extends(c, TextureTouched(c, n, loader)) && GrowsWithin(c, TextureTouched(c, n, loader), loader)
  {
    LoadStepExtends(c, n.imagePath, loader);
    assert c.ids[..|c.ids|] == c.ids;
  }

  /**
   * drawNode: an "image" node is drawn as its texture when getTextureId
   * gives a name; every other node, and an image node without a texture,
   * falls back to a shape.
   */
  function NodeItem(c: CacheState, n: Node, loader: Loader): (item: DrawItem)
    requires Consistent(c)
    ensures (item.ShapeNode? || item.TextureNode?) && item.node == n.id
    ensures item.TextureNode? <==> n.nodeType == "image" && Loadable(c, n.imagePath, loader)
    ensures item.TextureNode? ==> item.texture != 0
  {
    if n.nodeType == "image" && LoadStep(c, n.imagePath, loader).1.name != 0
    then TextureNode(n.id, LoadStep(c, n.imagePath, loader).1.name)
    else ShapeNode(n.id)
  }

  /** drawNodes' state: the cache and the items drawn so far. */
  datatype NodeState = NodeState(cache: CacheState, items: seq<DrawItem>)

  /** The cache and the items after drawNodes has gone through ns. */
  function NodePass(c: CacheState, v: View, ns: seq<Node>, filter: string, loader: Loader): (r: NodeState)
    requires Consistent(c)
    ensures Consistent(r.cache)
  {
    if ns == [] then NodeState(c, [])
    else
      var prev := NodePass(c, v, ns[..|ns| - 1], filter, loader);
      var n := ns[|ns| - 1];
      if Kept(v, n, filter) then
        NodeState(TextureTouched(prev.cache, n, loader), prev.items + [NodeItem(prev.cache, n, loader)])
      else prev
  }

  /**
   * drawNodes draws one item per kept node, in order: the node's texture
   * when it is an "image" node whose image is cached or readable, its shape
   * otherwise. The cache only gains readable images.
   */
  lemma {:induction false} NodePassDraws(c: CacheState, v: View, ns: seq<Node>, filter: string, loader: Loader)
    requires Consistent(c)
    ensures var r := NodePass(c, v, ns, filter, loader);
            var d := r.cache;
            var items := r.items;
            var kept := KeptNodes(v, ns, filter);
            && Extends(c, d) && GrowsWithin(c, d, loader)
            && |items| == |kept|
            && (forall k :: 0 <= k < |items| ==> items[k].ShapeNode? || items[k].TextureNode?)
            && (forall k :: 0 <= k < |items| ==> items[k].node == kept[k].id)
            && (forall k :: 0 <= k < |items| ==>
                  (items[k].TextureNode? <==> kept[k].nodeType == "image" && Loadable(c, kept[k].imagePath, loader)))
    decreases |ns|
  {
    if ns != [] {
      var n := ns[|ns| - 1];
      var c1 := NodePass(c, v, ns[..|ns| - 1], filter, loader).cache;
      NodePassDraws(c, v, ns[..|ns| - 1], filter, loader);
      if Kept(v, n, filter) {
        var c2 := TextureTouched(c1, n, loader);
        TextureTouchedGrows(c1, n, loader);
        ExtendsTransitive(c, c1, c2);
        GrowsWithinTransitive(c, c1, c2, loader);
        LoadableIsStable(c, c1, n.imagePath, loader);
      }
    }
  }

  /**
   * Align mode splits the nodes of the selected component between the
   * compiled list (filter "image") and the per-frame pass (filter "shape"):
   * an image node only in the second, a shape node only in the first, and a
   * node of any other type in both.
   */
  lemma AlignModeSplit(v: View, n: Node)
    requires n in v.graph.nodes && IsSelectedComponent(v, n.id)
    ensures n.nodeType == "image" ==> n !in KeptNodes(v, v.graph.nodes, "image") && n in KeptNodes(v, v.graph.nodes, "shape")
    ensures n.nodeType == "shape" ==> n in KeptNodes(v, v.graph.nodes, "image") && n !in KeptNodes(v, v.graph.nodes, "shape")
    ensures n.nodeType != "image" && n.nodeType != "shape" ==>
              n in KeptNodes(v, v.graph.nodes, "image") && n in KeptNodes(v, v.graph.nodes, "shape")
  {
    KeptNodesMembers(v, v.graph.nodes, "image", n);
    KeptNodesMembers(v, v.graph.nodes, "shape", n);
  }

  /** The default filter "none" keeps every node of the selected component whose type is not literally "none". */
  lemma DefaultFilterKeeps(v: View, n: Node)
    ensures n in KeptNodes(v, v.graph.nodes, "none") <==>
              n in v.graph.nodes && IsSelectedComponent(v, n.id) && n.nodeType != "none"
  {
    KeptNodesMembers(v, v.graph.nodes, "none", n);
  }

  /** The node with the given id. */
  function NodeOf(g: Graph, id: int): (n: Node)
    requires HasNode(g, id)
    ensures n in g.nodes && n.id == id
  {
    Lookup(g.nodes, id).value
  }

  /**
   * getNodeEdgeOffset: how far an edge stays away from a node's centre,
   * nodeRadius times the image scale for an image node with a texture and
   * nodeRadius times the node size otherwise. Asking for the texture
   * changes the cache as TextureTouched says.
   */
  function EdgeOffset(c: CacheState, n: Node, nodeRadius: real, loader: Loader): (offset: real)
    requires Consistent(c)
    ensures offset == if n.nodeType == "image" && Loadable(c, n.imagePath, loader)
                      then nodeRadius * n.imageScale else nodeRadius * n.size
  {
    if n.nodeType == "image" && LoadStep(c, n.imagePath, loader).1.name != 0
    then nodeRadius * n.imageScale
    else nodeRadius * n.size
  }

  /**
   * Every edge whose source passes the component filter joins nodes of the
   * graph with ids that fit drawEdges' table; drawEdges skips any other
   * edge before it reads the table.
   */
  predicate EdgesFit(v: View)
  {
    forall e :: e in v.graph.edges && IsSelectedComponent(v, e.source) ==>
      && HasNode(v.graph, e.source) && HasNode(v.graph, e.target)
      && 0 <= e.source < DRAWN_SIDE && 0 <= e.target < DRAWN_SIDE
  }

  /** The segments 0 .. segmentCount of a bundled edge. */
  function Segments(edge: nat, segmentCount: nat): (r: seq<DrawItem>)
    ensures |r| == segmentCount + 1
    ensures forall k :: 0 <= k < |r| ==> r[k] == BundleSegment(edge, k)
  {
    seq(segmentCount + 1, k requires 0 <= k => BundleSegment(edge, k))
  }

  /** The cache after drawEdge(const Edge&) has asked for the source's and then the target's offset. */
  function LineCache(c: CacheState, v: View, e: Edge, loader: Loader): (d: CacheState)
    requires Consistent(c) && HasNode(v.graph, e.source) && HasNode(v.graph, e.target)
    ensures Consistent(d)
  {
    TextureTouched(TextureTouched(c, NodeOf(v.graph, e.source), loader), NodeOf(v.graph, e.target), loader)
  }

  /** The line drawEdge(const Edge&) draws: from source to target, with the two nodes' edge offsets. */
  function LineItem(c: CacheState, v: View, e: Edge, loader: Loader): (item: DrawItem)
    requires Consistent(c) && HasNode(v.graph, e.source) && HasNode(v.graph, e.target)
    ensures item.EdgeLine? && item.source == e.source && item.target == e.target
  {
    var source := NodeOf(v.graph, e.source);
    EdgeLine(e.source, e.target, EdgeOffset(c, source, v.nodeRadius, loader),
             EdgeOffset(TextureTouched(c, source, loader), NodeOf(v.graph, e.target), v.nodeRadius, loader))
  }

  /**
   * The pairs drawEdges has marked in drawn[][] after the first j edges:
   * the pair of every edge whose source is in the selected component,
   * none when bundling (a bundled edge is never marked).
   */
  function MarkedPairs(v: View, j: nat): (m: set<(int, int)>)
    requires j <= |v.graph.edges|
    ensures v.bundling ==> m == {}
  {
    if j == 0 || v.bundling then {}
    else
      var e := v.graph.edges[j - 1];
      if IsSelectedComponent(v, e.source) then MarkedPairs(v, j - 1) + {(e.source, e.target)}
      else MarkedPairs(v, j - 1)
  }

  /** Whether drawEdges draws edge j: its source is in the selected component and its pair is not marked yet. */
  predicate DrawsEdge(v: View, j: nat)
    requires j < |v.graph.edges|
  {
    var e := v.graph.edges[j];
    IsSelectedComponent(v, e.source) && (e.source, e.target) !in MarkedPairs(v, j)
  }

  /** The cache after the draw code has asked for the textures of the nodes ns, in order. */
  function TouchAll(c: CacheState, ns: seq<Node>, loader: Loader): (d: CacheState)
    requires Consistent(c)
    ensures Consistent(d)
  {
    if ns == [] then c else TextureTouched(TouchAll(c, ns[..|ns| - 1], loader), ns[|ns| - 1], loader)
  }

  /** Asking for any run of node textures keeps everything cached and only adds readable images. */
  lemma {:induction false} TouchAllGrows(c: CacheState, ns: seq<Node>, loader: Loader)
    requires Consistent(c)
    ensures Grows(c, TouchAll(c, ns, loader), loader)
    decreases |ns|
  {
    if ns == [] {
      assert c.ids[..|c.ids|] == c.ids;
    } else {
      var prev := TouchAll(c, ns[..|ns| - 1], loader);
      TouchAllGrows(c, ns[..|ns| - 1], loader);
      TextureTouchedGrows(prev, ns[|ns| - 1], loader);
      ExtendsTransitive(c, prev, TouchAll(c, ns, loader));
      GrowsWithinTransitive(c, prev, TouchAll(c, ns, loader), loader);
    }
  }

  /** Asking for two more node textures is touching the first, then the second. */
  lemma TouchAllTwoMore(c: CacheState, ns: seq<Node>, s: Node, t: Node, loader: Loader)
    requires Consistent(c)
    ensures TouchAll(c, ns + [s, t], loader) == TextureTouched(TextureTouched(TouchAll(c, ns, loader), s, loader), t, loader)
  {
    assert (ns + [s, t])[..|ns| + 1] == ns + [s];
    assert (ns + [s])[..|ns|] == ns;
  }

  /**
   * The nodes drawEdges asks getNodeEdgeOffset about for the first j edges:
   * the source and then the target of every edge it draws as a line.
   */
  function OffsetNodes(v: View, j: nat): (ns: seq<Node>)
    requires EdgesFit(v) && j <= |v.graph.edges|
  {
    if j == 0 then []
    else
      var e := v.graph.edges[j - 1];
      assert e in v.graph.edges;
      if DrawsEdge(v, j - 1) && !v.bundling
      then OffsetNodes(v, j - 1) + [NodeOf(v.graph, e.source), NodeOf(v.graph, e.target)]
      else OffsetNodes(v, j - 1)
  }

  /** The cache after drawEdges has handled the first j edges. */
  function EdgeCache(c: CacheState, v: View, loader: Loader, j: nat): (d: CacheState)
    requires Consistent(c) && EdgesFit(v) && j <= |v.graph.edges|
    ensures Consistent(d)
  {
    TouchAll(c, OffsetNodes(v, j), loader)
  }

  /** The items drawEdges has drawn for the first j edges, in order. */
  function EdgeItems(c: CacheState, v: View, loader: Loader, j: nat): (items: seq<DrawItem>)
    requires Consistent(c) && EdgesFit(v) && j <= |v.graph.edges|
  {
    if j == 0 then []
    else
      var prev := EdgeItems(c, v, loader, j - 1);
      if !DrawsEdge(v, j - 1) then prev
      else if v.bundling then prev + Segments(j - 1, v.segmentCount)
      else prev + [LineItem(EdgeCache(c, v, loader, j - 1), v, v.graph.edges[j - 1], loader)]
  }

  /**
   * Without bundling a (source, target) pair is marked exactly when some
   * edge among the first j has it and a source in the selected component;
   * with bundling nothing is marked.
   */
  lemma {:induction false} MarkedPairsMeaning(v: View, j: nat, s: int, t: int)
    requires j <= |v.graph.edges|
    ensures (s, t) in MarkedPairs(v, j) <==>
              !v.bundling && exists i :: 0 <= i < j && v.graph.edges[i] == Edge(s, t) && IsSelectedComponent(v, s)
    decreases j
  {
    if j > 0 && !v.bundling {
      var j': nat := j - 1;
      MarkedPairsMeaning(v, j', s, t);
      var e := v.graph.edges[j'];
      if e == Edge(s, t) && IsSelectedComponent(v, s) {
        assert (s, t) in MarkedPairs(v, j);
      } else if (s, t) in MarkedPairs(v, j) {
        assert (s, t) in MarkedPairs(v, j');
      }
    }
  }

  /** The (source, target) pairs of the lines among items, in drawing order. */
  function Lines(items: seq<DrawItem>): (r: seq<(int, int)>)
    ensures |r| <= |items|
  {
    if items == [] then []
    else
      var last := items[|items| - 1];
      Lines(items[..|items| - 1]) + (if last.EdgeLine? then [(last.source, last.target)] else [])
  }

  /** Lines holds the pair of every line item and nothing else. */
  lemma {:induction false} LinesAreTheLineItems(items: seq<DrawItem>)
    ensures forall k :: 0 <= k < |items| && items[k].EdgeLine? ==> (items[k].source, items[k].target) in Lines(items)
    ensures forall p :: p in Lines(items) ==>
              exists k :: 0 <= k < |items| && items[k].EdgeLine? && (items[k].source, items[k].target) == p
    decreases |items|
  {
    if items != [] {
      var init := items[..|items| - 1];
      var last := items[|items| - 1];
      LinesAreTheLineItems(init);
      forall p | p in Lines(items)
        ensures exists k :: 0 <= k < |items| && items[k].EdgeLine? && (items[k].source, items[k].target) == p
      {
        if p in Lines(init) {
          var k :| 0 <= k < |init| && init[k].EdgeLine? && (init[k].source, init[k].target) == p;
          assert items[k] == init[k];
        } else {
          assert last.EdgeLine? && p == (last.source, last.target);
        }
      }
      forall k | 0 <= k < |items| && items[k].EdgeLine?
        ensures (items[k].source, items[k].target) in Lines(items)
      {
        if k < |init| {
          assert items[k] == init[k];
        }
      }
    }
  }

  /** A line item adds its pair at the end of Lines. */
  lemma LinesAddLine(items: seq<DrawItem>, item: DrawItem)
    requires item.EdgeLine?
    ensures Lines(items + [item]) == Lines(items) + [(item.source, item.target)]
  {
    assert (items + [item])[..|items|] == items;
  }

  /** Items without a line add nothing to Lines. */
  lemma {:induction false} LinesSkipNonLines(items: seq<DrawItem>, more: seq<DrawItem>)
    requires forall k :: 0 <= k < |more| ==> !more[k].EdgeLine?
    ensures Lines(items + more) == Lines(items)
    decreases |more|
  {
    if more == [] {
      assert items + more == items;
    } else {
      var more' := more[..|more| - 1];
      assert (items + more)[..|items + more| - 1] == items + more';
      LinesSkipNonLines(items, more');
    }
  }

  /** No pair occurs twice in s. */
  ghost predicate NoDuplicates(s: seq<(int, int)>)
  {
    forall a, b :: 0 <= a < b < |s| ==> s[a] != s[b]
  }

  lemma NoDuplicatesAppend(s: seq<(int, int)>, x: (int, int))
    requires NoDuplicates(s) && x !in s
    ensures NoDuplicates(s + [x])
  {
    forall a, b | 0 <= a < b < |s + [x]| ensures (s + [x])[a] != (s + [x])[b] {
      if b == |s| {
        assert (s + [x])[a] == s[a];
      }
    }
  }

  /** The (source, target) pairs drawEdges draws as lines for the first j edges, in order. */
  function LinePairs(v: View, j: nat): (r: seq<(int, int)>)
    requires j <= |v.graph.edges|
  {
    if j == 0 then []
    else
      var e := v.graph.edges[j - 1];
      if DrawsEdge(v, j - 1) && !v.bundling then LinePairs(v, j - 1) + [(e.source, e.target)]
      else LinePairs(v, j - 1)
  }

  /**
   * drawEdges draws each (source, target) pair as a line at most once, and
   * the lines drawn for the first j edges are exactly the marked pairs.
   */
  lemma {:induction false} LinePairsOncePerPair(v: View, j: nat)
    requires j <= |v.graph.edges|
    ensures NoDuplicates(LinePairs(v, j)) && forall p :: p in LinePairs(v, j) <==> p in MarkedPairs(v, j)
    decreases j
  {
    if j > 0 {
      var j': nat := j - 1;
      LinePairsOncePerPair(v, j');
      var e := v.graph.edges[j'];
      if !DrawsEdge(v, j') {
        assert MarkedPairs(v, j) == MarkedPairs(v, j');
      } else if !v.bundling {
        NoDuplicatesAppend(LinePairs(v, j'), (e.source, e.target));
      }
    }
  }

  /** drawEdges never forgets a cached texture and only caches readable images. */
  lemma EdgeCacheGrows(c: CacheState, v: View, loader: Loader, j: nat)
    requires Consistent(c) && EdgesFit(v) && j <= |v.graph.edges|
    ensures Grows(c, EdgeCache(c, v, loader, j), loader)
  {
    TouchAllGrows(c, OffsetNodes(v, j), loader);
  }

  /**
   * drawNode(node): draws one node, loading its texture through the data
   * item when it is an image node.
   */
  method DrawNode(d: MyceliaDataItem, n: Node, loader: Loader) returns (item: DrawItem)
    requires d.Valid()
    modifies d`textureIndexMap, d`textureSizeMap, d`textureIds
    ensures d.Valid()
    ensures d.Cache() == TextureTouched(old(d.Cache()), n, loader)
    ensures item == NodeItem(old(d.Cache()), n, loader)
  {
    var success := false;
    if n.nodeType == "image" {
      var texture := d.GetTextureId(n.imagePath, loader);
      if texture.name != 0 {
        item := TextureNode(n.id, texture.name);
        success := true;
      }
    }
    if n.nodeType == "shape" || !success {
      item := ShapeNode(n.id);
    }
  }

  /** drawNodes(filter): every node of the snapshot passing the component filter whose type is not filter. */
  method DrawNodes(d: MyceliaDataItem, v: View, filter: string, loader: Loader) returns (items: seq<DrawItem>)
    requires d.Valid()
    modifies d`textureIndexMap, d`textureSizeMap, d`textureIds
    ensures d.Valid()
    ensures d.Cache() == NodePass(old(d.Cache()), v, v.graph.nodes, filter, loader).cache
    ensures items == NodePass(old(d.Cache()), v, v.graph.nodes, filter, loader).items
  {
    var ns := v.graph.nodes;
    items := [];
    var i := 0;
    while i < |ns|
      invariant 0 <= i <= |ns|
      invariant d.Valid()
      invariant d.Cache() == NodePass(old(d.Cache()), v, ns[..i], filter, loader).cache
      invariant items == NodePass(old(d.Cache()), v, ns[..i], filter, loader).items
    {
      assert ns[..i + 1][..i] == ns[..i];
      if IsSelectedComponent(v, ns[i].id) && ns[i].nodeType != filter {
        var item := DrawNode(d, ns[i], loader);
        items := items + [item];
      }
      i := i + 1;
    }
    assert ns[..i] == ns;
  }

  /** getNodeEdgeOffset(node), for the node n the id names in the snapshot. */
  method NodeEdgeOffset(d: MyceliaDataItem, n: Node, nodeRadius: real, loader: Loader) returns (offset: real)
    requires d.Valid()
    modifies d`textureIndexMap, d`textureSizeMap, d`textureIds
    ensures d.Valid()
    ensures d.Cache() == TextureTouched(old(d.Cache()), n, loader)
    ensures offset == EdgeOffset(old(d.Cache()), n, nodeRadius, loader)
  {
    var success := false;
    if n.nodeType == "image" {
      var texture := d.GetTextureId(n.imagePath, loader);
      success := texture.name != 0;
    }
    offset := if success then nodeRadius * n.imageScale else nodeRadius * n.size;
  }

  /** drawEdge(const Edge&): one line, offset at each end by getNodeEdgeOffset, source first. */
  method DrawEdge(d: MyceliaDataItem, v: View, e: Edge, loader: Loader) returns (item: DrawItem)
    requires d.Valid() && HasNode(v.graph, e.source) && HasNode(v.graph, e.target)
    modifies d`textureIndexMap, d`textureSizeMap, d`textureIds
    ensures d.Valid()
    ensures d.Cache() == LineCache(old(d.Cache()), v, e, loader)
    ensures item == LineItem(old(d.Cache()), v, e, loader)
  {
    var sourceOffset := NodeEdgeOffset(d, NodeOf(v.graph, e.source), v.nodeRadius, loader);
    var targetOffset := NodeEdgeOffset(d, NodeOf(v.graph, e.target), v.nodeRadius, loader);
    item := EdgeLine(e.source, e.target, sourceOffset, targetOffset);
  }

  /** The inner loop of drawEdges for a bundled edge: its segments 0 .. segmentCount in order. */
  method DrawBundledEdge(edge: nat, segmentCount: nat) returns (segments: seq<DrawItem>)
    ensures segments == Segments(edge, segmentCount)
  {
    var segment := 0;
    segments := [];
    while segment <= segmentCount
      invariant 0 <= segment <= segmentCount + 1
      invariant segments == Segments(edge, segmentCount)[..segment]
    {
      segments := segments + [BundleSegment(edge, segment)];
      segment := segment + 1;
    }
  }

  /** drawn[][] marks exactly the pairs of marked. */
  ghost predicate MarksAgree(drawn: array2<bool>, marked: set<(int, int)>)
    reads drawn
  {
    && drawn.Length0 == DRAWN_SIDE && drawn.Length1 == DRAWN_SIDE
    && forall s, t :: 0 <= s < DRAWN_SIDE && 0 <= t < DRAWN_SIDE ==> (drawn[s, t] <==> (s, t) in marked)
  }

  /** One iteration of drawEdges' loop, for edge number edge. */
  method DrawEdgeStep(d: MyceliaDataItem, v: View, loader: Loader, drawn: array2<bool>, edge: nat,
                      ghost c0: CacheState, items: seq<DrawItem>)
    returns (items': seq<DrawItem>)
    requires d.Valid() && Consistent(c0) && EdgesFit(v) && edge < |v.graph.edges|
    requires d.Cache() == EdgeCache(c0, v, loader, edge) && items == EdgeItems(c0, v, loader, edge)
    requires MarksAgree(drawn, MarkedPairs(v, edge)) && Lines(items) == LinePairs(v, edge)
    modifies d`textureIndexMap, d`textureSizeMap, d`textureIds, drawn
    ensures d.Valid() && MarksAgree(drawn, MarkedPairs(v, edge + 1)) && Lines(items') == LinePairs(v, edge + 1)
    ensures d.Cache() == EdgeCache(c0, v, loader, edge + 1) && items' == EdgeItems(c0, v, loader, edge + 1)
  {
    var e := v.graph.edges[edge];
    assert e in v.graph.edges;
    items' := items;
    if !IsSelectedComponent(v, e.source) || drawn[e.source, e.target] {
      assert MarkedPairs(v, edge + 1) == MarkedPairs(v, edge);
    } else if v.bundling {
      var segments := DrawBundledEdge(edge, v.segmentCount);
      items' := items + segments;
      LinesSkipNonLines(items, segments);
    } else {
      TouchAllTwoMore(c0, OffsetNodes(v, edge), NodeOf(v.graph, e.source), NodeOf(v.graph, e.target), loader);
      var item := DrawEdge(d, v, e, loader);
      items' := items + [item];
      LinesAddLine(items, item);
      drawn[e.source, e.target] := true;
    }
  }

  /**
   * drawEdges: the edges of the snapshot in order, skipping an edge whose
   * source is outside the selected component or whose pair drawn[][]
   * already marks; a bundled edge is drawn segment by segment and not
   * marked, any other edge is drawn as one line and marked.
   */
  method DrawEdges(d: MyceliaDataItem, v: View, loader: Loader) returns (items: seq<DrawItem>)
    requires d.Valid() && EdgesFit(v)
    modifies d`textureIndexMap, d`textureSizeMap, d`textureIds
    ensures d.Valid()
    ensures d.Cache() == EdgeCache(old(d.Cache()), v, loader, |v.graph.edges|)
    ensures items == EdgeItems(old(d.Cache()), v, loader, |v.graph.edges|)
    ensures Lines(items) == LinePairs(v, |v.graph.edges|)
  {
    var drawn := new bool[DRAWN_SIDE, DRAWN_SIDE];
    forall s, t | 0 <= s < DRAWN_SIDE && 0 <= t < DRAWN_SIDE { drawn[s, t] := false; }
    ghost var c0 := d.Cache();
    items := [];
    var edge := 0;
    while edge < |v.graph.edges|
      invariant 0 <= edge <= |v.graph.edges|
      invariant d.Valid() && MarksAgree(drawn, MarkedPairs(v, edge)) && Lines(items) == LinePairs(v, edge)
      invariant d.Cache() == EdgeCache(c0, v, loader, edge) && items == EdgeItems(c0, v, loader, edge)
    {
      items := DrawEdgeStep(d, v, loader, drawn, edge, c0, items);
      edge := edge + 1;
    }
  }
}
