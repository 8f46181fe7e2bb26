/** The interactive state of the standalone graph page, js/main.js: the
    styles the hover and mouse-out handlers write on every link and node, the
    tooltip, the documents opened by clicks, and the drag pins. DOM writes are
    recorded as fields; `window.open` as the sequence of opened paths. */
module KnowledgeGraphView {
  import opened Wrappers
  import opened KnowledgeGraph
  import Drag

  const FullOpacity: real := 1.0
  const DimLinkOpacity: real := 0.05
  const DimNodeOpacity: real := 0.2
  const BaseStrokeWidth: int := 3
  const HighlightStrokeWidth: int := 5

  /** The hint appended to the tooltip of a node that has a document. */
  const DocumentHint := "<br><span style=\"color:#66B3FF;\">点击查看相关文档</span>"

  /** The link has the node with id `id` at one of its ends. */
  predicate Touches(l: Link, id: string) {
    l.source == id || l.target == id
  }

  // ---------------------------------------------------------------------------
  // The styles written on hover, as functions of the hovered node's id
  // ---------------------------------------------------------------------------

  function HoverLinkOpacity(links: seq<Link>, id: string): (r: seq<real>)
    ensures |r| == |links|
  {
    seq(|links|, i requires 0 <= i < |links| => if Touches(links[i], id) then FullOpacity else DimLinkOpacity)
  }

  function HoverLinkWidth(links: seq<Link>, id: string): (r: seq<int>)
    ensures |r| == |links|
  {
    seq(|links|, i requires 0 <= i < |links| =>
      if Touches(links[i], id) then HighlightStrokeWidth else BaseStrokeWidth)
  }

  /** Whether each link keeps its glow filter (`url(#glow)`) or loses it (`none`). */
  function HoverLinkGlow(links: seq<Link>, id: string): (r: seq<bool>)
    ensures |r| == |links|
  {
    seq(|links|, i requires 0 <= i < |links| => Touches(links[i], id))
  }

  function HoverNodeOpacity(links: seq<Link>, nodes: seq<NodeDatum>, id: string): (r: seq<real>)
    ensures |r| == |nodes|
  {
    seq(|nodes|, j requires 0 <= j < |nodes| =>
      if IsConnected(links, id, nodes[j].id) || nodes[j].id == id then FullOpacity else DimNodeOpacity)
  }

  /** The tooltip's HTML for a hovered node. */
  function TooltipHtml(d: NodeDatum): string {
    "<strong>" + d.name + "</strong><br>" + d.info + (if IsTruthy(d.pdfPath) then DocumentHint else "")
  }

  /** Hovering partitions the nodes: the hovered node and its neighbours stay
      at full opacity, every other node is dimmed to 0.2. */
  lemma HoverNodePartition(links: seq<Link>, nodes: seq<NodeDatum>, id: string)
    ensures var r := HoverNodeOpacity(links, nodes, id);
      forall j :: 0 <= j < |nodes| ==>
        && (r[j] == FullOpacity <==> nodes[j].id == id || nodes[j].id in Neighbours(links, id))
        && (r[j] != FullOpacity ==> r[j] == DimNodeOpacity)
  {
    forall j | 0 <= j < |nodes| {
      ConnectedIffNeighbour(links, id, nodes[j].id);
    }
  }

  /** Hovering partitions the links: those at the hovered node are at full
      opacity and width 5, all others at opacity 0.05 and width 3. */
  lemma HoverLinkPartition(links: seq<Link>, id: string)
    ensures forall i :: 0 <= i < |links| ==>
      && (HoverLinkOpacity(links, id)[i] == FullOpacity <==> Touches(links[i], id))
      && (HoverLinkWidth(links, id)[i] == HighlightStrokeWidth <==> Touches(links[i], id))
      && (!Touches(links[i], id) ==>
            HoverLinkOpacity(links, id)[i] == DimLinkOpacity && HoverLinkWidth(links, id)[i] == BaseStrokeWidth)
  {
  }

  /** The two partitions agree: a node other than the hovered one is at full
      opacity exactly when a highlighted link joins it to the hovered node. */
  lemma HoverStylesAgree(links: seq<Link>, nodes: seq<NodeDatum>, id: string)
    ensures var lo, no := HoverLinkOpacity(links, id), HoverNodeOpacity(links, nodes, id);
      forall j :: 0 <= j < |nodes| && nodes[j].id != id ==>
        (no[j] == FullOpacity <==>
           exists i :: 0 <= i < |links| && lo[i] == FullOpacity && Joins(links[i], id, nodes[j].id))
  {
  }

  /** Hovering a node whose only link goes to `b` leaves exactly the nodes
      with ids `id` and `b` at full opacity. */
  lemma HoverSingleLink(links: seq<Link>, nodes: seq<NodeDatum>, id: string, b: string, k: nat)
    requires k < |links| && Joins(links[k], id, b)
    requires forall i :: 0 <= i < |links| && i != k ==> !Touches(links[i], id)
    ensures forall j :: 0 <= j < |nodes| ==>
      (HoverNodeOpacity(links, nodes, id)[j] == FullOpacity <==> nodes[j].id == id || nodes[j].id == b)
  {
    forall j, i | 0 <= j < |nodes| && nodes[j].id != id && nodes[j].id != b && 0 <= i < |links|
      ensures !Joins(links[i], id, nodes[j].id)
    {
      if i != k {
        assert !Touches(links[i], id);
      }
    }
  }

  // ---------------------------------------------------------------------------
  // The page
  // ---------------------------------------------------------------------------

  /** The rendered graph: its nodes (`nodesData`) and links, the styles the
      handlers write on them, the tooltip, and the recorded effects. */
  class GraphPage {
    const nodes: seq<NodeDatum>
    const links: seq<Link>
    /** Simulation position and drag pin of each node. */
    var positions: seq<Drag.SimNode>
    var linkOpacity: seq<real>
    var linkWidth: seq<int>
    var linkGlow: seq<bool>
    var nodeOpacity: seq<real>
    /** Stroke width of each node's shape (5 while it is the hovered one). */
    var nodeStrokeWidth: seq<int>
    var tooltipHtml: string
    var tooltipLeft: real
    var tooltipTop: real
    var tooltipHidden: bool
    /** Every path passed to `window.open`, in order. */
    var openedPaths: seq<string>
    var simulation: Drag.Simulation

    ghost predicate Valid()
      reads this
    {
      && |positions| == |nodes| && |nodeOpacity| == |nodes| && |nodeStrokeWidth| == |nodes|
      && |linkOpacity| == |links| && |linkWidth| == |links| && |linkGlow| == |links|
    }

    /** The styles when nothing is hovered. */
    ghost predicate AtRest()
      reads this
      requires Valid()
    {
      && (forall i :: 0 <= i < |links| ==>
            linkOpacity[i] == FullOpacity && linkWidth[i] == BaseStrokeWidth && linkGlow[i])
      && (forall j :: 0 <= j < |nodes| ==> nodeOpacity[j] == FullOpacity)
    }

    /** The page as first drawn from `graphData`; `start` is where the
        simulation first places the nodes. The handlers only toggle the
        tooltip's `hidden` class, so that the tooltip starts hidden is an
        assumption about the page's HTML, which is not part of this model. */
    constructor (rawNodes: seq<RawNode>, graphLinks: seq<Link>, start: seq<Drag.SimNode>)
      requires |start| == |rawNodes|
      ensures Valid() && AtRest() && tooltipHidden
      ensures nodes == NormalizeNodes(rawNodes) && links == graphLinks && positions == start
      ensures forall j :: 0 <= j < |nodes| ==> nodeStrokeWidth[j] == BaseStrokeWidth
      ensures openedPaths == [] && simulation == Drag.Simulation(0.0, 0)
    {
      nodes := NormalizeNodes(rawNodes);
      links := graphLinks;
      positions := start;
      linkOpacity := seq(|graphLinks|, _ => FullOpacity);
      linkWidth := seq(|graphLinks|, _ => BaseStrokeWidth);
      linkGlow := seq(|graphLinks|, _ => true);
      nodeOpacity := seq(|rawNodes|, _ => FullOpacity);
      nodeStrokeWidth := seq(|rawNodes|, _ => BaseStrokeWidth);
      tooltipHtml, tooltipLeft, tooltipTop, tooltipHidden := "", 0.0, 0.0, true;
      openedPaths := [];
      simulation := Drag.Simulation(0.0, 0);
    }

    /** The "mouseover" handler on node `k`, the pointer at (`pageX`, `pageY`). */
    method MouseOver(k: nat, pageX: real, pageY: real)
      requires Valid() && k < |nodes|
      modifies this
      ensures Valid()
      ensures tooltipHtml == TooltipHtml(nodes[k]) && !tooltipHidden
      ensures tooltipLeft == pageX + 10.0 && tooltipTop == pageY - 20.0
      ensures nodeStrokeWidth == old(nodeStrokeWidth)[k := HighlightStrokeWidth]
      ensures linkOpacity == HoverLinkOpacity(links, nodes[k].id)
      ensures linkWidth == HoverLinkWidth(links, nodes[k].id)
      ensures linkGlow == HoverLinkGlow(links, nodes[k].id)
      ensures nodeOpacity == HoverNodeOpacity(links, nodes, nodes[k].id)
      ensures forall j :: 0 <= j < |nodes| ==>
        (nodeOpacity[j] == FullOpacity <==> nodes[j].id == nodes[k].id || nodes[j].id in Neighbours(links, nodes[k].id))
      ensures positions == old(positions) && openedPaths == old(openedPaths) && simulation == old(simulation)
    {
      var d := nodes[k];
      HoverNodePartition(links, nodes, d.id);
      tooltipHtml, tooltipLeft, tooltipTop, tooltipHidden := TooltipHtml(d), pageX + 10.0, pageY - 20.0, false;
      nodeStrokeWidth, nodeOpacity :=
        nodeStrokeWidth[k := HighlightStrokeWidth], HoverNodeOpacity(links, nodes, d.id);
      linkOpacity, linkWidth, linkGlow :=
        HoverLinkOpacity(links, d.id), HoverLinkWidth(links, d.id), HoverLinkGlow(links, d.id);
    }

    /** The "mouseout" handler on node `k`: whatever was highlighted before,
        every link and node is back at its resting style. */
    method MouseOut(k: nat)
      requires Valid() && k < |nodes|
      modifies this
      ensures Valid() && AtRest() && tooltipHidden
      ensures nodeStrokeWidth == old(nodeStrokeWidth)[k := BaseStrokeWidth]
      ensures tooltipHtml == old(tooltipHtml) && tooltipLeft == old(tooltipLeft) && tooltipTop == old(tooltipTop)
      ensures positions == old(positions) && openedPaths == old(openedPaths) && simulation == old(simulation)
    {
      tooltipHidden := true;
      nodeStrokeWidth := nodeStrokeWidth[k := BaseStrokeWidth];
      linkOpacity := seq(|links|, _ => FullOpacity);
      linkWidth := seq(|links|, _ => BaseStrokeWidth);
      linkGlow := seq(|links|, _ => true);
      nodeOpacity := seq(|nodes|, _ => FullOpacity);
    }

    /** The "click" handler on node `k`: opens the node's document, if it has one. */
    method Click(k: nat)
      requires Valid() && k < |nodes|
      modifies this`openedPaths
      ensures IsTruthy(nodes[k].pdfPath) ==> openedPaths == old(openedPaths) + [nodes[k].pdfPath.value]
      ensures !IsTruthy(nodes[k].pdfPath) ==> openedPaths == old(openedPaths)
    {
      var d := nodes[k];
      if IsTruthy(d.pdfPath) {
        openedPaths := openedPaths + [d.pdfPath.value];
      }
    }

    /** `dragstarted` on node `k`. */
    method DragStarted(k: nat, active: nat)
      requires Valid() && k < |nodes|
      modifies this`positions, this`simulation
      ensures Valid()
      ensures positions == old(positions)[k := Drag.Step(old(positions)[k], Drag.DragStart(active))]
      ensures simulation == Drag.Control(old(simulation), Drag.DragStart(active))
      ensures Drag.IsPinned(positions[k])
    {
      if active == 0 {
        simulation := Drag.Simulation(Drag.ReheatTarget, simulation.restarts + 1);
      }
      var d := positions[k];
      positions := positions[k := d.(fx := Some(d.x), fy := Some(d.y))];
    }

    /** `dragged` on node `k`, the pointer at (`px`, `py`). */
    method Dragged(k: nat, px: real, py: real, active: nat)
      requires Valid() && k < |nodes|
      modifies this`positions
      ensures Valid()
      ensures positions == old(positions)[k := Drag.Step(old(positions)[k], Drag.Dragged(px, py, active))]
      ensures positions[k].fx == Some(px) && positions[k].fy == Some(py)
    {
      positions := positions[k := positions[k].(fx := Some(px), fy := Some(py))];
    }

    /** `dragended` on node `k`. */
    method DragEnded(k: nat, active: nat)
      requires Valid() && k < |nodes|
      modifies this`positions, this`simulation
      ensures Valid()
      ensures positions == old(positions)[k := Drag.Step(old(positions)[k], Drag.DragEnd(active))]
      ensures simulation == Drag.Control(old(simulation), Drag.DragEnd(active))
      ensures Drag.IsFree(positions[k])
    {
      if active == 0 {
        simulation := simulation.(alphaTarget := 0.0);
      }
      positions := positions[k := positions[k].(fx := None, fy := None)];
    }
  }
}
