/** The document graph of the web front end, src/web/js/graph.js: node radii
    by node type, the tooltip filled from the documents map on hover and
    placed beside the pointer, click-to-open, and the drag pins. DOM writes
    are recorded as fields; `window.open` as the sequence of opened paths. */
module DocumentGraph {
  import opened Wrappers
  import Drag

  /** A node of `data.nodes`; `nodeLabel` and `nodeType` are its "label" and "type". */
  datatype DocNode = DocNode(id: string, nodeLabel: string, nodeType: string)

  /** An entry of the documents map; the file name, keywords and path may be
      absent, the title and abstract are always present. */
  datatype DocumentMeta = DocumentMeta(
    title: string, filename: Option<string>, abstractText: string,
    keywords: Option<seq<string>>, path: Option<string>)

  const DocumentType := "document"
  const ConceptType := "concept"

  // ---------------------------------------------------------------------------
  // Radii
  // ---------------------------------------------------------------------------

  /** The collision force's radius for a node. */
  function CollisionRadius(nodeType: string): int {
    if nodeType == DocumentType then 25
    else if nodeType == ConceptType then 20
    else 20
  }

  /** The drawn circle's radius for a node. */
  function CircleRadius(nodeType: string): int {
    if nodeType == DocumentType then 18 else 14
  }

  /** Both radii depend only on whether the node is a document: 25 and 18
      for documents, 20 and 14 for every other type; so each collision disc
      leaves at least 6 of padding around its circle, and documents are the
      larger nodes. */
  lemma RadiusRules(nodeType: string, other: string)
    ensures nodeType == DocumentType ==> CollisionRadius(nodeType) == 25 && CircleRadius(nodeType) == 18
    ensures nodeType != DocumentType ==> CollisionRadius(nodeType) == 20 && CircleRadius(nodeType) == 14
    ensures CollisionRadius(nodeType) - CircleRadius(nodeType) >= 6
    ensures nodeType == DocumentType && other != DocumentType ==>
      CircleRadius(nodeType) > CircleRadius(other) && CollisionRadius(nodeType) > CollisionRadius(other)
  {
  }

  // ---------------------------------------------------------------------------
  // Tooltip content and placement
  // ---------------------------------------------------------------------------

  /** The text shown for the file name: "N/A" when it is missing or empty. */
  function FilenameText(m: DocumentMeta): string {
    if IsTruthy(m.filename) then m.filename.value else "N/A"
  }

  /** The text shown for the keywords: their ", "-join, or "无" when there are none. */
  function KeywordsText(m: DocumentMeta): string {
    if m.keywords.Some? && |m.keywords.value| > 0 then Join(m.keywords.value, ", ") else "无"
  }

  /** Whether the tooltip's document link is shown. */
  datatype LinkDisplay = DisplayUnset | DisplayBlock | DisplayNone

  /** Gap between the pointer and the tooltip, in pixels. */
  const PointerGap: real := 20.0

  /** One axis of the placement: after the pointer, unless the tooltip would
      then overflow `limit`, in which case before it. */
  function AxisPosition(pointer: real, size: real, limit: real): real {
    if pointer + PointerGap + size > limit then pointer - size - PointerGap else pointer + PointerGap
  }

  /** The placement rule: the tooltip goes after the pointer exactly when it
      fits there, and before it otherwise; it never covers the pointer; and
      while the pointer is inside the window its far edge is too. */
  lemma AxisPositionRules(pointer: real, size: real, limit: real)
    requires size >= 0.0
    ensures var r := AxisPosition(pointer, size, limit);
      && (r == pointer + PointerGap <==> pointer + PointerGap + size <= limit)
      && (r != pointer + PointerGap ==> r + size == pointer - PointerGap)
      && (r > pointer || r + size < pointer)
      && (pointer <= limit ==> r + size <= limit)
  {
  }

  /** The near edge is not clamped: in a window narrower than twice the
      tooltip plus the gaps, flipping can push the tooltip past the left edge. */
  lemma FlipCanLeaveWindow()
    ensures AxisPosition(150.0, 200.0, 300.0) < 0.0
  {
  }

  /** The tooltip position computed in the "mouseover" handler. */
  method PlaceTooltip(pageX: real, pageY: real, width: real, height: real, innerWidth: real, innerHeight: real)
    returns (x: real, y: real)
    ensures x == AxisPosition(pageX, width, innerWidth)
    ensures y == AxisPosition(pageY, height, innerHeight)
  {
    x := pageX + 20.0;
    y := pageY + 20.0;
    if x + width > innerWidth {
      x := pageX - width - 20.0;
    }
    if y + height > innerHeight {
      y := pageY - height - 20.0;
    }
  }

  /** The path a click on the node with id `id` opens, if any. */
  function ClickTarget(documents: map<string, DocumentMeta>, id: string): (r: Option<string>)
    ensures r.Some? <==> id in documents && IsTruthy(documents[id].path)
    ensures r.Some? ==> r.value == documents[id].path.value && r.value != ""
  {
    if id in documents && IsTruthy(documents[id].path) then Some(documents[id].path.value) else None
  }

  // ---------------------------------------------------------------------------
  // The rendered graph
  // ---------------------------------------------------------------------------

  /** What `renderKnowledgeGraph` sets up: the nodes, the documents map, the
      tooltip element's fields, and the recorded effects. */
  class GraphView {
    const nodes: seq<DocNode>
    const documents: map<string, DocumentMeta>
    /** Simulation position and drag pin of each node. */
    var positions: seq<Drag.SimNode>
    var titleText: string
    var filenameText: string
    var abstractText: string
    var keywordsText: string
    var linkHref: string
    var linkDisplay: LinkDisplay
    var tooltipLeft: real
    var tooltipTop: real
    /** Whether the tooltip container has the class "active". */
    var tooltipActive: bool
    /** Every path passed to `window.open`, in order. */
    var openedPaths: seq<string>
    var simulation: Drag.Simulation

    ghost predicate Valid()
      reads this
    {
      |positions| == |nodes|
    }

    /** The graph as first rendered; `start` is where the simulation first
        places the nodes. The handlers only add and remove the tooltip's
        `active` class and set the link's display, so that the tooltip starts
        inactive with the link's display unset is an assumption about the
        page's HTML, which is not part of this model. */
    constructor (dataNodes: seq<DocNode>, documentsMap: map<string, DocumentMeta>, start: seq<Drag.SimNode>)
      requires |start| == |dataNodes|
      ensures Valid() && nodes == dataNodes && documents == documentsMap && positions == start
      ensures !tooltipActive && linkDisplay == DisplayUnset
      ensures openedPaths == [] && simulation == Drag.Simulation(0.0, 0)
    {
      nodes, documents, positions := dataNodes, documentsMap, start;
      titleText, filenameText, abstractText, keywordsText, linkHref := "", "", "", "", "";
      linkDisplay := DisplayUnset;
      tooltipLeft, tooltipTop, tooltipActive := 0.0, 0.0, false;
      openedPaths := [];
      simulation := Drag.Simulation(0.0, 0);
    }

    /** The "mouseover" handler on node `k`: the pointer is at (`pageX`,
        `pageY`), the tooltip measures `width` by `height`, the window
        `innerWidth` by `innerHeight`. A node absent from the documents map
        changes nothing. */
    method MouseOver(k: nat, pageX: real, pageY: real, width: real, height: real,
                     innerWidth: real, innerHeight: real)
      requires Valid() && k < |nodes|
      modifies this`titleText, this`filenameText, this`abstractText, this`keywordsText
      modifies this`linkHref, this`linkDisplay, this`tooltipLeft, this`tooltipTop, this`tooltipActive
      ensures Valid()
      ensures nodes[k].id !in documents ==> unchanged(this)
      ensures nodes[k].id in documents ==>
        var m := documents[nodes[k].id];
        && titleText == m.title && filenameText == FilenameText(m)
        && abstractText == m.abstractText && keywordsText == KeywordsText(m)
      ensures nodes[k].id in documents ==>
        var m := documents[nodes[k].id];
        && (IsTruthy(m.path) ==> linkHref == m.path.value && linkDisplay == DisplayBlock)
        && (!IsTruthy(m.path) ==> linkHref == old(linkHref) && linkDisplay == DisplayNone)
      ensures nodes[k].id in documents ==>
        && tooltipLeft == AxisPosition(pageX, width, innerWidth)
        && tooltipTop == AxisPosition(pageY, height, innerHeight)
        && tooltipActive
    {
      var x, y := PlaceTooltip(pageX, pageY, width, height, innerWidth, innerHeight);
      var id := nodes[k].id;
      if id in documents {
        var docInfo := documents[id];
        var hasPath := IsTruthy(docInfo.path);
        var href := if hasPath then docInfo.path.value else linkHref;
        var display := if hasPath then DisplayBlock else DisplayNone;
        titleText, filenameText, abstractText, keywordsText :=
          docInfo.title, FilenameText(docInfo), docInfo.abstractText, KeywordsText(docInfo);
        linkHref, linkDisplay := href, display;
        tooltipLeft, tooltipTop, tooltipActive := x, y, true;
      }
    }

    /** The "mouseout" handler: the tooltip is deactivated, whatever its state. */
    method MouseOut()
      modifies this`tooltipActive
      ensures !tooltipActive
    {
      tooltipActive := false;
    }

    /** The "click" handler on node `k`: opens the document's path exactly when
        the map has the node and its entry has a path. */
    method Click(k: nat)
      requires Valid() && k < |nodes|
      modifies this`openedPaths
      ensures ClickTarget(documents, nodes[k].id).Some? ==>
        openedPaths == old(openedPaths) + [ClickTarget(documents, nodes[k].id).value]
      ensures ClickTarget(documents, nodes[k].id).None? ==> openedPaths == old(openedPaths)
    {
      var id := nodes[k].id;
      if id in documents && IsTruthy(documents[id].path) {
        openedPaths := openedPaths + [documents[id].path.value];
      }
    }

    /** `dragstarted` on node `k`. */
    method DragStarted(k: nat, active: nat)
      requires Valid() && k < |nodes|
      modifies this`positions, this`simulation
      ensures Valid()
      ensures positions == old(positions)[k := Drag.Step(old(positions)[k], Drag.DragStart(active))]
      ensures simulation == Drag.Control(old(simulation), Drag.DragStart(active))
      ensures Drag.IsPinned(positions[k])
    {
      if active == 0 {
        simulation := Drag.Simulation(Drag.ReheatTarget, simulation.restarts + 1);
      }
      var d := positions[k];
      positions := positions[k := d.(fx := Some(d.x), fy := Some(d.y))];
    }

    /** `dragged` on node `k`, the pointer at (`px`, `py`). */
    method Dragged(k: nat, px: real, py: real, active: nat)
      requires Valid() && k < |nodes|
      modifies this`positions
      ensures Valid()
      ensures positions == old(positions)[k := Drag.Step(old(positions)[k], Drag.Dragged(px, py, active))]
      ensures positions[k].fx == Some(px) && positions[k].fy == Some(py)
    {
      positions := positions[k := positions[k].(fx := Some(px), fy := Some(py))];
    }

    /** `dragended` on node `k`. */
    method DragEnded(k: nat, active: nat)
      requires Valid() && k < |nodes|
      modifies this`positions, this`simulation
      ensures Valid()
      ensures positions == old(positions)[k := Drag.Step(old(positions)[k], Drag.DragEnd(active))]
      ensures simulation == Drag.Control(old(simulation), Drag.DragEnd(active))
      ensures Drag.IsFree(positions[k])
    {
      if active == 0 {
        simulation := simulation.(alphaTarget := 0.0);
      }
      positions := positions[k := positions[k].(fx := None, fy := None)];
    }
  }
}
