/**
 * The Mycelia application object: the layout/bundler lifecycle, node
 * selection with graph-version bumps, the per-frame snapshot of the graph,
 * and display() with its version-checked compiled list.
 *
 * The layouts and the edge bundler are abstract threads: only whether each
 * one runs is kept. The GUI toggles are plain booleans. The graph's
 * locate() result, its random positions and its shortest path are inputs.
 */
module Application {
  import opened Types
  import opened TextureCache
  import opened Drawing
  import opened Picking

  /** Which of the two layouts the `layout` field refers to. */
  datatype LayoutKind = StaticLayout | DynamicLayout

  /**
   * The lifecycle part of the application state: the active layout, the
   * running flags of staticLayout, dynamicLayout and edgeBundler, the
   * skipLayout switch, the bundle toggle and the static radio button.
   */
  datatype Lifecycle = Lifecycle(layout: LayoutKind, staticRunning: bool, dynamicRunning: bool,
                                 bundlerRunning: bool, skipLayout: bool, bundleToggle: bool,
                                 staticToggle: bool)

  predicate NothingRunning(s: Lifecycle)
  {
    !s.staticRunning && !s.dynamicRunning && !s.bundlerRunning
  }

  /** !layout->isStopped(): the active layout runs. */
  predicate ActiveRunning(s: Lifecycle)
  {
    if s.layout == StaticLayout then s.staticRunning else s.dynamicRunning
  }

  /** The bundler never runs together with a layout. */
  predicate BundlerExclusive(s: Lifecycle)
  {
    s.bundlerRunning ==> !s.staticRunning && !s.dynamicRunning
  }

  /** stopLayout. */
  function Stop(s: Lifecycle): Lifecycle
  {
    s.(staticRunning := false, dynamicRunning := false, bundlerRunning := false)
  }

  /** startLayout: layout->start(). */
  function Start(s: Lifecycle): Lifecycle
  {
    if s.layout == StaticLayout then s.(staticRunning := true) else s.(dynamicRunning := true)
  }

  /** resumeLayout: start only a dynamic layout, and only when not skipping. */
  function Resume(s: Lifecycle): Lifecycle
  {
    if s.layout == DynamicLayout && !s.skipLayout then Start(s) else s
  }

  /** setLayoutType(t). */
  function WithLayoutType(s: Lifecycle, t: int): Lifecycle
  {
    if t == LAYOUT_DYNAMIC then
      var s1 := s.(bundlerRunning := false, bundleToggle := false, staticToggle := false);
      var s2 := if s.layout != DynamicLayout then Stop(s1) else s1;
      s2.(layout := DynamicLayout)
    else if t == LAYOUT_STATIC then
      var s1 := s.(staticToggle := true);
      var s2 := if s.layout != StaticLayout then Stop(s1) else s1;
      s2.(layout := StaticLayout)
    else s
  }

  /** bundleCallback on a non-empty graph, with the toggle's new value. */
  function BundleStep(s: Lifecycle, toggled: bool): Lifecycle
  {
    if toggled then Stop(s).(bundlerRunning := true)
    else Resume(s.(bundlerRunning := false))
  }

  /** The running/resume part of resetNavigationCallback. */
  function Renavigate(s: Lifecycle): Lifecycle
  {
    if ActiveRunning(s) then Resume(Stop(s)) else Stop(s)
  }

  /** resetLayout(watch) on a graph of nodeCount nodes. */
  function Reset(s: Lifecycle, watch: bool, nodeCount: nat): Lifecycle
  {
    var s1 := Stop(s).(bundleToggle := false);
    var s2 := WithLayoutType(s1, if s1.staticToggle then LAYOUT_STATIC else LAYOUT_DYNAMIC);
    if s2.skipLayout || nodeCount == 0 then s2
    else Start(if watch then Renavigate(s2) else s2)
  }

  /** The switches that no running flag changes: kind, skipLayout and the two toggles. */
  predicate SameSwitches(s: Lifecycle, t: Lifecycle)
  {
    s.layout == t.layout && s.skipLayout == t.skipLayout &&
    s.bundleToggle == t.bundleToggle && s.staticToggle == t.staticToggle
  }

  /** After stopLayout the bundler and both layouts are stopped, and no switch moved. */
  lemma StopStopsEverything(s: Lifecycle)
    ensures NothingRunning(Stop(s)) && SameSwitches(s, Stop(s))
    ensures !ActiveRunning(Stop(s))
  {
  }

  /**
   * resumeLayout starts the dynamic layout when it is active and not
   * skipped, and changes nothing otherwise; a static layout is never
   * resumed.
   */
  lemma ResumeOnlyDynamic(s: Lifecycle)
    ensures s.layout == DynamicLayout && !s.skipLayout ==>
              Resume(s) == s.(dynamicRunning := true) && ActiveRunning(Resume(s))
    ensures s.layout == StaticLayout || s.skipLayout ==> Resume(s) == s
    ensures Resume(s).staticRunning == s.staticRunning && Resume(s).bundlerRunning == s.bundlerRunning
  {
  }

  /**
   * setLayoutType: a type other than LAYOUT_STATIC and LAYOUT_DYNAMIC is a
   * no-op; otherwise the active kind becomes the requested one, everything
   * stops when the kind changes and no running flag of a layout moves when
   * it does not; the dynamic type always stops the bundler and clears the
   * bundle toggle, the static type leaves both alone.
   */
  lemma LayoutTypeCases(s: Lifecycle, t: int)
    ensures t != LAYOUT_STATIC && t != LAYOUT_DYNAMIC ==> WithLayoutType(s, t) == s
    ensures t == LAYOUT_DYNAMIC ==>
              var r := WithLayoutType(s, t);
              r.layout == DynamicLayout && !r.bundlerRunning && !r.bundleToggle && !r.staticToggle
    ensures t == LAYOUT_STATIC ==>
              var r := WithLayoutType(s, t);
              r.layout == StaticLayout && r.staticToggle && r.bundleToggle == s.bundleToggle &&
              (s.layout == StaticLayout ==> r.bundlerRunning == s.bundlerRunning)
    ensures t == LAYOUT_STATIC || t == LAYOUT_DYNAMIC ==>
              var r := WithLayoutType(s, t);
              var kind := if t == LAYOUT_STATIC then StaticLayout else DynamicLayout;
              && r.skipLayout == s.skipLayout
              && (s.layout != kind ==> NothingRunning(r))
              && (s.layout == kind ==> r.staticRunning == s.staticRunning && r.dynamicRunning == s.dynamicRunning)
  {
  }

  /**
   * setLayoutType never starts anything, so it keeps the bundler exclusive.
   */
  lemma LayoutTypeStartsNothing(s: Lifecycle, t: int)
    ensures WithLayoutType(s, t).staticRunning ==> s.staticRunning
    ensures WithLayoutType(s, t).dynamicRunning ==> s.dynamicRunning
    ensures WithLayoutType(s, t).bundlerRunning ==> s.bundlerRunning
    ensures BundlerExclusive(s) ==> BundlerExclusive(WithLayoutType(s, t))
  {
  }

  /**
   * bundleCallback on a non-empty graph: setting the toggle runs the
   * bundler alone; clearing it stops the bundler and resumes at most the
   * dynamic layout. Either way the bundler and a layout never both run.
   */
  lemma BundleStepExclusive(s: Lifecycle, toggled: bool)
    ensures BundlerExclusive(BundleStep(s, toggled))
    ensures var r := BundleStep(s, toggled);
            toggled ==> r.bundlerRunning && !r.staticRunning && !r.dynamicRunning
    ensures var r := BundleStep(s, toggled);
            !toggled ==>
              && !r.bundlerRunning
              && r.staticRunning == s.staticRunning
              && (r.dynamicRunning <==> s.dynamicRunning || (s.layout == DynamicLayout && !s.skipLayout))
    ensures SameSwitches(s, BundleStep(s, toggled))
  {
  }

  /**
   * The running part of resetNavigationCallback: the bundler and a static
   * layout end stopped, and the dynamic layout runs afterwards exactly when
   * it was the running active layout and is not skipped.
   */
  lemma RenavigateResumesOnlyDynamic(s: Lifecycle)
    ensures var r := Renavigate(s);
            && !r.bundlerRunning && !r.staticRunning && SameSwitches(s, r)
            && (r.dynamicRunning <==> s.layout == DynamicLayout && s.dynamicRunning && !s.skipLayout)
  {
  }

  /**
   * resetLayout returns with nothing running when skipLayout is set or the
   * graph has no node; otherwise exactly the layout chosen by the static
   * radio button runs, and the bundler and its toggle are off.
   */
  lemma ResetRunsChosenLayout(s: Lifecycle, watch: bool, nodeCount: nat)
    ensures var r := Reset(s, watch, nodeCount);
            && !r.bundleToggle && !r.bundlerRunning && r.skipLayout == s.skipLayout
            && r.layout == (if s.staticToggle then StaticLayout else DynamicLayout)
            && (s.skipLayout || nodeCount == 0 ==> NothingRunning(r))
            && (!s.skipLayout && nodeCount > 0 ==>
                  r.staticRunning == s.staticToggle && r.dynamicRunning == !s.staticToggle)
  {
    var s1 := Stop(s).(bundleToggle := false);
    var s2 := WithLayoutType(s1, if s1.staticToggle then LAYOUT_STATIC else LAYOUT_DYNAMIC);
    assert NothingRunning(s2);
    assert Renavigate(s2) == s2;
  }

  /**
   * The comment in resetLayout says the watch path resumes the dynamic
   * layout inside resetNavigationCallback; every layout has just been
   * stopped there, so watch makes no difference to what runs.
   */
  lemma ResetIgnoresWatch(s: Lifecycle, nodeCount: nat)
    ensures Reset(s, true, nodeCount) == Reset(s, false, nodeCount)
  {
    var s1 := Stop(s).(bundleToggle := false);
    var s2 := WithLayoutType(s1, if s1.staticToggle then LAYOUT_STATIC else LAYOUT_DYNAMIC);
    assert !ActiveRunning(s2);
  }

  /** randomizePositions: every node gets the position the random source gives its index. */
  function Randomized(g: Graph, random: nat -> Point): Graph
  {
    Moved(g, seq(|g.nodes|, i requires 0 <= i => random(i)))
  }

  /** Moving nodes keeps the set of node ids. */
  lemma {:induction false} MovedKeepsNodes(g: Graph, positions: seq<Point>, id: int)
    requires |positions| == |g.nodes|
    ensures HasNode(Moved(g, positions), id) <==> HasNode(g, id)
  {
    var r := Moved(g, positions);
    if HasNode(g, id) {
      var n :| n in g.nodes && n.id == id;
      var i :| 0 <= i < |g.nodes| && g.nodes[i] == n;
      assert r.nodes[i] in r.nodes && r.nodes[i].id == id;
    }
    if HasNode(r, id) {
      var n :| n in r.nodes && n.id == id;
      var i :| 0 <= i < |r.nodes| && r.nodes[i] == n;
      assert g.nodes[i] in g.nodes && g.nodes[i].id == id;
    }
  }

  /** Randomising positions keeps the set of node ids. */
  lemma RandomizedKeepsNodes(g: Graph, random: nat -> Point, id: int)
    ensures HasNode(Randomized(g, random), id) <==> HasNode(g, id)
  {
    MovedKeepsNodes(g, seq(|g.nodes|, i requires 0 <= i => random(i)), id);
  }

  /** Recentring, followed by a version bump, keeps the set of node ids. */
  lemma RecenteredKeepsNodes(g: Graph, center: Point, id: int)
    ensures HasNode(Updated(Recentered(g, center)), id) <==> HasNode(g, id)
  {
    MovedKeepsNodes(g, seq(|g.nodes|, i requires 0 <= i < |g.nodes| => Sub(g.nodes[i].position, center)), id);
  }

  /** display() rebuilds the compiled list when no logo is shown and its version is stale. */
  predicate Rebuilds(showingLogo: bool, listVersion: int, snapshotVersion: int)
  {
    !showingLogo && listVersion != snapshotVersion
  }

  /** graphListVersion after display(). */
  function ListVersionAfter(showingLogo: bool, listVersion: int, snapshotVersion: int): int
  {
    if Rebuilds(showingLogo, listVersion, snapshotVersion) then snapshotVersion else listVersion
  }

  /**
   * A second display() of an unchanged snapshot does not rebuild, and a
   * display() that shows the graph leaves the list at the snapshot's version.
   */
  lemma SecondDisplayDoesNotRebuild(showingLogo: bool, listVersion: int, snapshotVersion: int)
    ensures !Rebuilds(showingLogo, ListVersionAfter(showingLogo, listVersion, snapshotVersion), snapshotVersion)
    ensures !showingLogo ==> ListVersionAfter(showingLogo, listVersion, snapshotVersion) == snapshotVersion
  {
  }

  /** buildGraphList's node filter: image nodes stay out of the list in "align" mode. */
  function ListFilter(g: Graph): string
  {
    if g.textureNodeMode == "align" then "image" else "none"
  }

  /** The cache after and the contents of a compiled list: drawNodes then drawEdges. */
  function CompiledList(c: CacheState, v: View, loader: Loader): (r: NodeState)
    requires Consistent(c) && EdgesFit(v)
  {
    var np := NodePass(c, v, v.graph.nodes, ListFilter(v.graph), loader);
    NodeState(EdgeCache(np.cache, v, loader, |v.graph.edges|),
              np.items + EdgeItems(np.cache, v, loader, |v.graph.edges|))
  }

  /** display's per-frame pass: in "align" mode the nodes the list left out. */
  function AlignPass(c: CacheState, v: View, loader: Loader): NodeState
    requires Consistent(c)
  {
    if v.graph.textureNodeMode == "align" then NodePass(c, v, v.graph.nodes, "shape", loader)
    else NodeState(c, [])
  }

  /**
   * In "align" mode the node part of the compiled list draws, in order, the
   * nodes of the graph in the selected component whose type is not
   * "image", and the cache only gains readable images.
   */
  lemma {:induction false} AlignListOmitsImages(c: CacheState, v: View, loader: Loader)
    requires Consistent(c) && v.graph.textureNodeMode == "align"
    ensures var r := NodePass(c, v, v.graph.nodes, ListFilter(v.graph), loader);
            var kept := KeptNodes(v, v.graph.nodes, "image");
            && |r.items| == |kept|
            && Extends(c, r.cache)
            && forall k :: 0 <= k < |r.items| ==>
                 && (r.items[k].ShapeNode? || r.items[k].TextureNode?)
                 && r.items[k].node == kept[k].id
                 && kept[k] in v.graph.nodes
                 && kept[k].nodeType != "image"
                 && IsSelectedComponent(v, kept[k].id)
  {
    var kept := KeptNodes(v, v.graph.nodes, "image");
    NodePassDraws(c, v, v.graph.nodes, "image", loader);
    forall k | 0 <= k < |kept|
      ensures kept[k] in v.graph.nodes && kept[k].nodeType != "image" && IsSelectedComponent(v, kept[k].id)
    {
      KeptNodesMembers(v, v.graph.nodes, "image", kept[k]);
    }
  }

  /**
   * The Mycelia application: the live graph g and its per-frame snapshot
   * gCopy, the node radius, the lifecycle flags, the GUI toggles, the
   * predecessor vector of the path overlays, the logo flag and the three
   * selection ids.
   */
  class Mycelia {
    var g: Graph
    var gCopy: Graph
    var nodeRadius: real
    var segmentCount: nat

    var layout: LayoutKind
    var staticRunning: bool
    var dynamicRunning: bool
    var bundlerRunning: bool
    var skipLayout: bool
    var bundleToggle: bool
    var staticToggle: bool

    var componentToggle: bool
    var spanningTreeToggle: bool
    var shortestPathToggle: bool
    var predecessorVector: seq<int>

    var showingLogo: bool
    var selectedNode: int
    var previousNode: int
    var highlightedNode: int

    function Flags(): Lifecycle
      reads this
    {
      Lifecycle(layout, staticRunning, dynamicRunning, bundlerRunning, skipLayout, bundleToggle, staticToggle)
    }

    /** Both selection ids are SELECTION_NONE or a node of the live graph. */
    ghost predicate SelectionValid()
      reads this
    {
      (selectedNode == SELECTION_NONE || HasNode(g, selectedNode)) &&
      (previousNode == SELECTION_NONE || HasNode(g, previousNode))
    }

    /** What drawNodes and drawEdges see: the snapshot, the toggles and the selection. */
    function SnapshotView(): View
      reads this
    {
      View(gCopy, componentToggle, selectedNode, bundleToggle, segmentCount, nodeRadius)
    }

    /**
     * The constructor: nothing selected, skipLayout off, the static layout
     * active (the first button of the radio box), no layout running, and
     * then resetNavigationCallback on the new graph g0. highlightedNode is
     * given the value the uninitialised field happens to hold.
     */
    constructor(g0: Graph, segments: nat, center: Point, radius: real, initialHighlight: int)
      ensures selectedNode == SELECTION_NONE && previousNode == SELECTION_NONE
      ensures highlightedNode == initialHighlight && !showingLogo
      ensures Flags() == Lifecycle(StaticLayout, false, false, false, false, false, true)
      ensures g == Updated(Recentered(g0, center)) && gCopy == g0
      ensures nodeRadius == radius / 80.0 && segmentCount == segments
      ensures SelectionValid()
    {
      g := g0;
      gCopy := g0;
      segmentCount := segments;
      nodeRadius := 0.0;
      layout := StaticLayout;
      staticRunning := false;
      dynamicRunning := false;
      bundlerRunning := false;
      skipLayout := false;
      bundleToggle := false;
      staticToggle := true;
      componentToggle := false;
      spanningTreeToggle := false;
      shortestPathToggle := false;
      predecessorVector := [];
      showingLogo := false;
      selectedNode := SELECTION_NONE;
      previousNode := SELECTION_NONE;
      highlightedNode := initialHighlight;
      new;
      ResetNavigationCallback(center, radius);
    }

    /** stopLayout. */
    method StopLayout()
      modifies this`staticRunning, this`dynamicRunning, this`bundlerRunning
      ensures Flags() == Stop(old(Flags()))
    {
      bundlerRunning := false;
      staticRunning := false;
      dynamicRunning := false;
    }

    /** startLayout. */
    method StartLayout()
      modifies this`staticRunning, this`dynamicRunning
      ensures Flags() == Start(old(Flags()))
    {
      if layout == StaticLayout {
        staticRunning := true;
      } else {
        dynamicRunning := true;
      }
    }

    /** resumeLayout. */
    method ResumeLayout()
      modifies this`staticRunning, this`dynamicRunning
      ensures Flags() == Resume(old(Flags()))
    {
      if layout == DynamicLayout && !skipLayout {
        StartLayout();
      }
    }

    /** setLayoutType. */
    method SetLayoutType(t: int)
      modifies this`layout, this`staticRunning, this`dynamicRunning, this`bundlerRunning
      modifies this`bundleToggle, this`staticToggle
      ensures Flags() == WithLayoutType(old(Flags()), t)
    {
      if t == LAYOUT_DYNAMIC {
        bundlerRunning := false;
        bundleToggle := false;
        staticToggle := false;
        if layout != DynamicLayout {
          StopLayout();
        }
        layout := DynamicLayout;
      } else if t == LAYOUT_STATIC {
        staticToggle := true;
        if layout != StaticLayout {
          StopLayout();
        }
        layout := StaticLayout;
      }
    }

    /** setSkipLayout. */
    method SetSkipLayout(skip: bool)
      modifies this`skipLayout
      ensures Flags() == old(Flags()).(skipLayout := skip)
    {
      skipLayout := skip;
    }

    /**
     * bundleCallback with the toggle's new value: nothing on an empty graph;
     * otherwise set runs the bundler alone, and unset stops it, bumps the
     * graph version and resumes the layout.
     */
    method BundleCallback(toggled: bool)
      modifies this`staticRunning, this`dynamicRunning, this`bundlerRunning, this`g
      ensures |old(g.nodes)| == 0 ==> Flags() == old(Flags()) && g == old(g)
      ensures |old(g.nodes)| > 0 ==> Flags() == BundleStep(old(Flags()), toggled)
      ensures |old(g.nodes)| > 0 ==> g == if toggled then old(g) else Updated(old(g))
      ensures |old(g.nodes)| > 0 ==> BundlerExclusive(Flags())
      ensures SelectionValid() == old(SelectionValid())
    {
      if |g.nodes| == 0 {
        return;
      }
      BundleStepExclusive(Flags(), toggled);
      if toggled {
        StopLayout();
        bundlerRunning := true;
      } else {
        bundlerRunning := false;
        g := Updated(g);
        ResumeLayout();
      }
    }

    /**
     * resetNavigationCallback with the graph's locate() result: recentre
     * the graph, derive the node radius, bump the version, and resume the
     * layout if it was running.
     */
    method ResetNavigationCallback(center: Point, radius: real)
      modifies this`staticRunning, this`dynamicRunning, this`bundlerRunning, this`g, this`nodeRadius
      ensures Flags() == Renavigate(old(Flags()))
      ensures g == Updated(Recentered(old(g), center))
      ensures nodeRadius == radius / 80.0
      ensures old(SelectionValid()) ==> SelectionValid()
    {
      var layoutWasRunning := if layout == StaticLayout then staticRunning else dynamicRunning;
      StopLayout();
      ghost var g0 := g;
      g := Recentered(g, center);
      nodeRadius := radius / 80.0;
      g := Updated(g);
      if layoutWasRunning {
        ResumeLayout();
      }
      RecenteredKeepsNodes(g0, center, selectedNode);
      RecenteredKeepsNodes(g0, center, previousNode);
    }

    /**
     * resetLayout(watch): stop everything, clear the bundle toggle, apply
     * the radio button's layout type, and unless skipping or the graph is
     * empty randomise the positions, recentre when watching, and start the
     * layout. watch defaults to true, as in the header.
     */
    method ResetLayout(random: nat -> Point, center: Point, radius: real, watch: bool := true)
      modifies this`layout, this`staticRunning, this`dynamicRunning, this`bundlerRunning
      modifies this`bundleToggle, this`staticToggle, this`g, this`nodeRadius
      ensures Flags() == Reset(old(Flags()), watch, |old(g.nodes)|)
      ensures old(skipLayout) || |old(g.nodes)| == 0 ==> g == old(g) && nodeRadius == old(nodeRadius)
      ensures !old(skipLayout) && |old(g.nodes)| > 0 ==>
                var g1 := Randomized(old(g), random);
                && g == (if watch then Updated(Recentered(g1, center)) else g1)
                && nodeRadius == (if watch then radius / 80.0 else old(nodeRadius))
      ensures old(SelectionValid()) ==> SelectionValid()
    {
      StopLayout();
      bundleToggle := false;
      if staticToggle {
        SetLayoutType(LAYOUT_STATIC);
      } else {
        SetLayoutType(LAYOUT_DYNAMIC);
      }
      if skipLayout || |g.nodes| == 0 {
        return;
      }
      ghost var g0 := g;
      g := Randomized(g, random);
      RandomizedKeepsNodes(g0, random, selectedNode);
      RandomizedKeepsNodes(g0, random, previousNode);
      if watch {
        ResetNavigationCallback(center, radius);
      }
      StartLayout();
    }

    /**
     * shortestPathCallback with the path g would compute: with the toggle on
     * it takes the path when both selections are set and turns the toggle
     * off otherwise.
     */
    method ShortestPathCallback(shortestPath: seq<int>)
      modifies this`predecessorVector, this`shortestPathToggle
      ensures shortestPathToggle ==> previousNode != SELECTION_NONE && selectedNode != SELECTION_NONE
      ensures old(shortestPathToggle) && previousNode != SELECTION_NONE && selectedNode != SELECTION_NONE ==>
                shortestPathToggle && predecessorVector == shortestPath
      ensures !old(shortestPathToggle) || previousNode == SELECTION_NONE || selectedNode == SELECTION_NONE ==>
                predecessorVector == old(predecessorVector)
      ensures shortestPathToggle ==> old(shortestPathToggle)
    {
      if shortestPathToggle {
        if previousNode != SELECTION_NONE && selectedNode != SELECTION_NONE {
          predecessorVector := shortestPath;
        } else {
          shortestPathToggle := false;
        }
      }
    }

    /** clearSelections. */
    method ClearSelections()
      modifies this`selectedNode, this`previousNode, this`g
      ensures selectedNode == SELECTION_NONE && previousNode == SELECTION_NONE
      ensures g == Updated(old(g))
      ensures SelectionValid()
    {
      previousNode, selectedNode := SELECTION_NONE, SELECTION_NONE;
      g := Updated(g);
    }

    /**
     * setSelectedNode: an id that is not a node of g changes nothing;
     * otherwise the old selection becomes the previous one, the node is
     * selected, the shortest path is refreshed and the version bumped.
     */
    method SetSelectedNode(node: int, shortestPath: seq<int>)
      modifies this`selectedNode, this`previousNode, this`g, this`predecessorVector, this`shortestPathToggle
      ensures !HasNode(old(g), node) ==>
                && selectedNode == old(selectedNode) && previousNode == old(previousNode) && g == old(g)
                && predecessorVector == old(predecessorVector) && shortestPathToggle == old(shortestPathToggle)
      ensures HasNode(old(g), node) ==>
                && previousNode == old(selectedNode) && selectedNode == node && g == Updated(old(g))
                && (shortestPathToggle <==> old(shortestPathToggle) && previousNode != SELECTION_NONE && node != SELECTION_NONE)
                && (shortestPathToggle ==> predecessorVector == shortestPath)
                && (!shortestPathToggle ==> predecessorVector == old(predecessorVector))
      ensures old(SelectionValid()) ==> SelectionValid()
    {
      if !HasNode(g, node) {
        return;
      }
      previousNode := selectedNode;
      selectedNode := node;
      ShortestPathCallback(shortestPath);
      g := Updated(g);
    }

    /** setHighlightedNode: the version is bumped only when the highlighted node changes. */
    method SetHighlightedNode(node: int)
      modifies this`highlightedNode, this`g
      ensures highlightedNode == node
      ensures g == if node == old(highlightedNode) then old(g) else Updated(old(g))
    {
      if node != highlightedNode {
        highlightedNode := node;
        g := Updated(g);
      }
    }

    /** The snapshot copy of frame(): gCopy takes g, and the logo shows exactly for an empty graph. */
    method Frame()
      modifies this`gCopy, this`showingLogo
      ensures gCopy == g
      ensures showingLogo <==> |g.nodes| == 0
    {
      gCopy := g;
      if |gCopy.nodes| == 0 {
        showingLogo := true;
      } else {
        showingLogo := false;
      }
    }

    /** selectNode(InputDevice*), run on the live graph g with the current node radius. */
    method SelectNode(device: Device, coneAngle2: real) returns (nearest: int)
      ensures device.SixDof? ==> nearest == SelectNodeAtPoint(g, device.position, nodeRadius)
      ensures device.RayCaster? ==> nearest == RunningMin(RayCandidates(g, device.ray, coneAngle2)).node
    {
      nearest := SelectNodeForDevice(g, device, nodeRadius, coneAngle2);
    }

    /**
     * buildGraphList: record the snapshot's version first, then compile the
     * nodes (without image nodes in "align" mode) and the edges.
     */
    method BuildGraphList(d: MyceliaDataItem, loader: Loader)
      requires d.Valid() && EdgesFit(SnapshotView())
      modifies d`textureIndexMap, d`textureSizeMap, d`textureIds, d`graphListVersion, d`graphList
      ensures d.Valid()
      ensures d.graphListVersion == gCopy.version
      ensures d.Cache() == CompiledList(old(d.Cache()), SnapshotView(), loader).cache
      ensures d.graphList == CompiledList(old(d.Cache()), SnapshotView(), loader).items
    {
      d.graphListVersion := gCopy.version;
      var v := SnapshotView();
      var nodeItems := DrawNodes(d, v, ListFilter(gCopy), loader);
      var edgeItems := DrawEdges(d, v, loader);
      d.graphList := nodeItems + edgeItems;
    }

    /**
     * display: the logo alone while it shows; otherwise rebuild a stale
     * compiled list, then draw either the spanning tree or the list, the
     * "align" pass and the shortest path overlay.
     */
    method Display(d: MyceliaDataItem, loader: Loader) returns (rebuilt: bool, items: seq<DrawItem>)
      requires d.Valid()
      requires Rebuilds(showingLogo, d.graphListVersion, gCopy.version) ==> EdgesFit(SnapshotView())
      modifies d`textureIndexMap, d`textureSizeMap, d`textureIds, d`graphListVersion, d`graphList
      ensures d.Valid()
      ensures rebuilt == Rebuilds(showingLogo, old(d.graphListVersion), gCopy.version)
      ensures d.graphListVersion == ListVersionAfter(showingLogo, old(d.graphListVersion), gCopy.version)
      ensures d.graphList == if rebuilt then CompiledList(old(d.Cache()), SnapshotView(), loader).items
                             else old(d.graphList)
      ensures showingLogo ==> items == [Logo] && d.Cache() == old(d.Cache())
      ensures !showingLogo ==>
                var c1 := if rebuilt then CompiledList(old(d.Cache()), SnapshotView(), loader).cache
                          else old(d.Cache());
                if spanningTreeToggle then items == [SpanningTreeOverlay] && d.Cache() == c1
                else
                  var pass := AlignPass(c1, SnapshotView(), loader);
                  && d.Cache() == pass.cache
                  && items == d.graphList + pass.items + (if shortestPathToggle then [ShortestPathOverlay] else [])
    {
      if showingLogo {
        return false, [Logo];
      }
      rebuilt := d.graphListVersion != gCopy.version;
      if rebuilt {
        BuildGraphList(d, loader);
      }
      if spanningTreeToggle {
        items := [SpanningTreeOverlay];
        return;
      }
      items := d.graphList;
      if gCopy.textureNodeMode == "align" {
        var aligned := DrawNodes(d, SnapshotView(), "shape", loader);
        items := items + aligned;
      }
      if shortestPathToggle {
        items := items + [ShortestPathOverlay];
      }
    }
  }
}
