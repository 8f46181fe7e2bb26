/** The decision rules of the standalone graph page, js/main.js: default shape
    and radius of every node, the per-link distance and strength handed to the
    force simulation, which links get a colour gradient, and adjacency between
    nodes. The page's interactive state lives in module KnowledgeGraphView. */
module KnowledgeGraph {
  import opened Wrappers

  // ---------------------------------------------------------------------------
  // Nodes: the `nodesData` normalisation
  // ---------------------------------------------------------------------------

  /** A node as written in the input data (`graphData.nodes`); `shape`,
      `radius` and `pdfPath` may be absent. */
  datatype RawNode = RawNode(
    id: string, name: string, category: int, info: string,
    pdfPath: Option<string>, shape: Option<string>, radius: Option<real>)

  /** The D3 symbol types the page draws. */
  datatype Symbol = SymbolCircle | SymbolSquare | SymbolTriangle | SymbolDiamond | SymbolStar

  /** A node after normalisation: the input node with `shape` replaced by a
      symbol type and `radius` always set. */
  datatype NodeDatum = NodeDatum(
    id: string, name: string, category: int, info: string,
    pdfPath: Option<string>, shape: Symbol, radius: real)

  const DefaultRadius: real := 15.0

  /** JavaScript truthiness of an optional number: present and non-zero. */
  predicate IsTruthyNumber(r: Option<real>) {
    r.Some? && r.value != 0.0
  }

  /** The shape name a category gets when its node names none. */
  function DefaultShapeName(category: int): string {
    match category
    case 1 => "circle"
    case 2 => "square"
    case 3 => "triangle"
    case 4 => "diamond"
    case 5 => "star"
    case _ => "circle"
  }

  /** The symbol type for a shape name; unknown names draw as a circle. */
  function SymbolNamed(name: string): Symbol {
    match name
    case "circle" => SymbolCircle
    case "square" => SymbolSquare
    case "triangle" => SymbolTriangle
    case "diamond" => SymbolDiamond
    case "star" => SymbolStar
    case _ => SymbolCircle
  }

  /** The name under which each symbol type is written in the data. */
  function SymbolName(s: Symbol): string {
    match s
    case SymbolCircle => "circle"
    case SymbolSquare => "square"
    case SymbolTriangle => "triangle"
    case SymbolDiamond => "diamond"
    case SymbolStar => "star"
  }

  /** One element of `graphData.nodes.map(...)`: `{ ...d, shape, radius }`. */
  function NormalizeNode(d: RawNode): NodeDatum {
    var shapeName := if IsTruthy(d.shape) then d.shape.value else DefaultShapeName(d.category);
    var radius := if IsTruthyNumber(d.radius) then d.radius.value else DefaultRadius;
    NodeDatum(d.id, d.name, d.category, d.info, d.pdfPath, SymbolNamed(shapeName), radius)
  }

  /** `nodesData`: the input nodes, normalised one by one, in order. */
  function NormalizeNodes(nodes: seq<RawNode>): (r: seq<NodeDatum>)
    ensures |r| == |nodes|
    ensures forall i :: 0 <= i < |r| ==> r[i] == NormalizeNode(nodes[i])
  {
    seq(|nodes|, i requires 0 <= i < |nodes| => NormalizeNode(nodes[i]))
  }

  /** The symbols for categories 1 to 5, in category order. */
  const CategorySymbols: seq<Symbol> :=
    [SymbolCircle, SymbolSquare, SymbolTriangle, SymbolDiamond, SymbolStar]

  /** Normalisation keeps every field except `shape` and `radius`; a node
      without a shape gets the symbol of its category, circle outside 1..5;
      a named shape keeps its symbol when the name is known and becomes a
      circle otherwise; a missing or zero radius becomes 15. */
  lemma NormalizeNodeRules(d: RawNode)
    ensures var r := NormalizeNode(d);
      && r.id == d.id && r.name == d.name && r.category == d.category
      && r.info == d.info && r.pdfPath == d.pdfPath
      && (!IsTruthy(d.shape) && 1 <= d.category <= 5 ==> r.shape == CategorySymbols[d.category - 1])
      && (!IsTruthy(d.shape) && !(1 <= d.category <= 5) ==> r.shape == SymbolCircle)
      && (IsTruthy(d.shape) && IsShapeName(d.shape.value) ==> SymbolName(r.shape) == d.shape.value)
      && (IsTruthy(d.shape) && !IsShapeName(d.shape.value) ==> r.shape == SymbolCircle)
      && (r.radius == if IsTruthyNumber(d.radius) then d.radius.value else DefaultRadius)
  {
    if IsTruthy(d.shape) && IsShapeName(d.shape.value) {
      SymbolNameRoundTrip(d.shape.value);
    }
  }

  /** The five shape names the data may use. */
  predicate IsShapeName(name: string) {
    name == "circle" || name == "square" || name == "triangle" || name == "diamond" || name == "star"
  }

  /** Shape names and symbol types are in one-to-one correspondence. */
  lemma SymbolNameRoundTrip(name: string)
    ensures IsShapeName(name) ==> SymbolName(SymbolNamed(name)) == name
    ensures IsShapeName(SymbolName(SymbolNamed(name)))
  {
  }

  lemma SymbolNamedRoundTrip(s: Symbol)
    ensures SymbolNamed(SymbolName(s)) == s
  {
  }

  /** A normalised node written back as input data: its symbol by name, its
      radius as given. */
  function AsRawNode(n: NodeDatum): RawNode {
    RawNode(n.id, n.name, n.category, n.info, n.pdfPath, Some(SymbolName(n.shape)), Some(n.radius))
  }

  /** Normalising a normalised node again changes nothing: normalisation is
      idempotent. */
  lemma NormalizeIdempotent(d: RawNode)
    ensures NormalizeNode(AsRawNode(NormalizeNode(d))) == NormalizeNode(d)
  {
    SymbolNamedRoundTrip(NormalizeNode(d).shape);
  }

  // ---------------------------------------------------------------------------
  // Links: lookup, distance and strength
  // ---------------------------------------------------------------------------

  /** A link by the ids of its endpoints (`l.source.id`, `l.target.id`). */
  datatype Link = Link(source: string, target: string)

  /** Node `i` is the first node with id `id`. */
  predicate FirstWithId(nodes: seq<NodeDatum>, id: string, i: int) {
    0 <= i < |nodes| && nodes[i].id == id && forall j :: 0 <= j < i ==> nodes[j].id != id
  }

  /** `nodesData.find(n => n.id === id)`: the first node with that id. */
  function Find(nodes: seq<NodeDatum>, id: string): (r: Option<NodeDatum>)
    ensures r.Some? <==> exists i :: 0 <= i < |nodes| && nodes[i].id == id
    ensures r.Some? ==> r.value in nodes && r.value.id == id
    ensures r.Some? ==> exists i :: FirstWithId(nodes, id, i) && nodes[i] == r.value
  {
    if nodes == [] then None
    else if nodes[0].id == id then Some(nodes[0])
    else Find(nodes[1..], id)
  }

  /** Both endpoints of the link are among the nodes. */
  predicate Resolves(nodes: seq<NodeDatum>, l: Link) {
    Find(nodes, l.source).Some? && Find(nodes, l.target).Some?
  }

  /** The `distance` callback: 70 plus both radii between nodes of one
      category, 180 between categories. d3's link force calls it only on links
      whose endpoints it resolved, so both lookups succeed. */
  function LinkDistance(nodes: seq<NodeDatum>, l: Link): real
    requires Resolves(nodes, l)
  {
    var s, t := Find(nodes, l.source).value, Find(nodes, l.target).value;
    if s.category == t.category then 70.0 + (s.radius + t.radius) else 180.0
  }

  /** The `strength` callback, on the categories of the two endpoints. */
  function CategoryStrength(sourceCategory: int, targetCategory: int): real {
    if (sourceCategory <= 2 && targetCategory <= 2) || sourceCategory == targetCategory then 1.0
    else if sourceCategory >= 4 || targetCategory >= 4 then 0.4
    else 0.7
  }

  function LinkStrength(nodes: seq<NodeDatum>, l: Link): real
    requires Resolves(nodes, l)
  {
    CategoryStrength(Find(nodes, l.source).value.category, Find(nodes, l.target).value.category)
  }

  function Max(a: int, b: int): int {
    if a >= b then a else b
  }

  /** The strength depends only on whether the categories agree and on the
      larger of the two: 1 for equal categories or when both are at most 2,
      0.7 when the larger is 3, 0.4 when it is 4 or more. */
  lemma StrengthByLargerCategory(sc: int, tc: int)
    ensures sc == tc ==> CategoryStrength(sc, tc) == 1.0
    ensures sc != tc ==>
      CategoryStrength(sc, tc) == if Max(sc, tc) <= 2 then 1.0 else if Max(sc, tc) == 3 then 0.7 else 0.4
  {
  }

  /** Link distance and strength do not depend on the link's direction. */
  lemma LinkForcesSymmetric(nodes: seq<NodeDatum>, l: Link)
    requires Resolves(nodes, l)
    ensures Resolves(nodes, Link(l.target, l.source))
    ensures LinkDistance(nodes, Link(l.target, l.source)) == LinkDistance(nodes, l)
    ensures LinkStrength(nodes, Link(l.target, l.source)) == LinkStrength(nodes, l)
  {
  }

  /** Between two nodes of one category the distance is 70 plus both radii,
      so it is shorter than between categories exactly when the radii sum to
      less than 110; two nodes with the default radius sit 100 apart. */
  lemma SameCategoryDistance(nodes: seq<NodeDatum>, l: Link)
    requires Resolves(nodes, l)
    ensures var s, t := Find(nodes, l.source).value, Find(nodes, l.target).value;
      && (s.category != t.category ==> LinkDistance(nodes, l) == 180.0)
      && (s.category == t.category ==>
            LinkDistance(nodes, l) == 70.0 + (s.radius + t.radius)
            && (LinkDistance(nodes, l) < 180.0 <==> s.radius + t.radius < 110.0)
            && (s.radius == DefaultRadius && t.radius == DefaultRadius ==> LinkDistance(nodes, l) == 100.0))
  {
  }

  // ---------------------------------------------------------------------------
  // Link gradients
  // ---------------------------------------------------------------------------

  /** The gradient `link-gradient-<index>`, coloured by the categories of the
      link's endpoints (the colour scale itself is d3's and is left out). */
  datatype Gradient = Gradient(index: nat, sourceCategory: int, targetCategory: int)

  /** The gradient made for link `i`, when both its endpoints are found. */
  function GradientFor(nodes: seq<NodeDatum>, l: Link, i: nat): Gradient
    requires Resolves(nodes, l)
  {
    Gradient(i, Find(nodes, l.source).value.category, Find(nodes, l.target).value.category)
  }

  /** The gradients made for the links, in link order, as a reference
      definition built link by link. */
  function GradientsOf(nodes: seq<NodeDatum>, links: seq<Link>): seq<Gradient>
    decreases |links|
  {
    if links == [] then []
    else
      var i := |links| - 1;
      var before := GradientsOf(nodes, links[..i]);
      if Resolves(nodes, links[i]) then before + [GradientFor(nodes, links[i], i)] else before
  }

  /** The `graphData.links.forEach` that defines one gradient per link,
      skipping (with a warning) a link whose endpoint node is not found. */
  method LinkGradients(nodes: seq<NodeDatum>, links: seq<Link>) returns (gradients: seq<Gradient>)
    ensures gradients == GradientsOf(nodes, links)
  {
    gradients := [];
    for i := 0 to |links|
      invariant gradients == GradientsOf(nodes, links[..i])
    {
      assert links[..i + 1][..i] == links[..i];
      var sourceNode := Find(nodes, links[i].source);
      var targetNode := Find(nodes, links[i].target);
      if sourceNode.None? || targetNode.None? {
        continue;
      }
      gradients := gradients + [Gradient(i, sourceNode.value.category, targetNode.value.category)];
    }
    assert links[..|links|] == links;
  }

  /** The gradients follow the link order. */
  predicate Ordered(gs: seq<Gradient>) {
    forall p, q :: 0 <= p < q < |gs| ==> gs[p].index < gs[q].index
  }

  /** Every gradient belongs to a link whose endpoints resolve and carries
      its endpoints' categories. */
  predicate Belong(nodes: seq<NodeDatum>, links: seq<Link>, gs: seq<Gradient>) {
    forall p :: 0 <= p < |gs| ==>
      gs[p].index < |links| && Resolves(nodes, links[gs[p].index])
      && gs[p] == GradientFor(nodes, links[gs[p].index], gs[p].index)
  }

  lemma {:induction false} GradientsSound(nodes: seq<NodeDatum>, links: seq<Link>)
    ensures Ordered(GradientsOf(nodes, links)) && Belong(nodes, links, GradientsOf(nodes, links))
    decreases |links|
  {
    if links != [] {
      var i := |links| - 1;
      var before := GradientsOf(nodes, links[..i]);
      GradientsSound(nodes, links[..i]);
      BelongWiden(nodes, links, i, before);
      if Resolves(nodes, links[i]) {
        OrderedAppend(before, GradientFor(nodes, links[i], i));
        BelongAppend(nodes, links, before, i);
      }
    }
  }

  /** Gradients of the first `n` links belong to the whole list too. */
  lemma BelongWiden(nodes: seq<NodeDatum>, links: seq<Link>, n: nat, gs: seq<Gradient>)
    requires n <= |links| && Belong(nodes, links[..n], gs)
    ensures Belong(nodes, links, gs)
    ensures forall p :: 0 <= p < |gs| ==> gs[p].index < n
  {
    forall p | 0 <= p < |gs|
      ensures gs[p].index < |links| && Resolves(nodes, links[gs[p].index])
      ensures gs[p] == GradientFor(nodes, links[gs[p].index], gs[p].index)
    {
      assert links[..n][gs[p].index] == links[gs[p].index];
    }
  }

  lemma BelongAppend(nodes: seq<NodeDatum>, links: seq<Link>, gs: seq<Gradient>, i: nat)
    requires Belong(nodes, links, gs) && i < |links| && Resolves(nodes, links[i])
    ensures Belong(nodes, links, gs + [GradientFor(nodes, links[i], i)])
  {
  }

  lemma OrderedAppend(gs: seq<Gradient>, g: Gradient)
    requires Ordered(gs) && forall p :: 0 <= p < |gs| ==> gs[p].index < g.index
    ensures Ordered(gs + [g])
  {
  }


  /** Link `i` has a gradient. */
  predicate HasGradient(gs: seq<Gradient>, i: nat) {
    exists p :: 0 <= p < |gs| && gs[p].index == i
  }

  /** A link gets a gradient exactly when both its endpoints resolve. */
  lemma {:induction false} GradientsComplete(nodes: seq<NodeDatum>, links: seq<Link>)
    ensures forall i :: 0 <= i < |links| ==>
      (Resolves(nodes, links[i]) <==> HasGradient(GradientsOf(nodes, links), i))
    decreases |links|
  {
    if links != [] {
      var n := |links| - 1;
      var gs, before := GradientsOf(nodes, links), GradientsOf(nodes, links[..n]);
      GradientsComplete(nodes, links[..n]);
      GradientsSound(nodes, links[..n]);
      forall i | 0 <= i < |links|
        ensures Resolves(nodes, links[i]) <==> HasGradient(gs, i)
      {
        if i < n {
          assert links[..n][i] == links[i];
          assert Resolves(nodes, links[i]) <==> HasGradient(before, i);
          HasGradientOfExtension(before, gs, i, n);
        } else if Resolves(nodes, links[i]) {
          assert gs[|before|].index == i;
        } else {
          assert gs == before;
          assert forall p :: 0 <= p < |before| ==> before[p].index < n;
        }
      }
    }
  }

  /** Appending gradients with index `n` does not change which links below
      `n` have one. */
  lemma HasGradientOfExtension(before: seq<Gradient>, gs: seq<Gradient>, i: nat, n: nat)
    requires |before| <= |gs| && gs[..|before|] == before
    requires forall p :: |before| <= p < |gs| ==> gs[p].index == n
    requires i < n
    ensures HasGradient(gs, i) <==> HasGradient(before, i)
  {
    if HasGradient(gs, i) {
      var p :| 0 <= p < |gs| && gs[p].index == i;
      assert gs[..|before|][p] == gs[p];
    }
    if HasGradient(before, i) {
      var p :| 0 <= p < |before| && before[p].index == i;
      assert gs[..|before|][p] == gs[p];
    }
  }

  /** When every link resolves, as d3's link force guarantees, link `i` gets
      gradient `link-gradient-i`: one per link, in order. */
  lemma {:induction false} GradientsWhenAllResolve(nodes: seq<NodeDatum>, links: seq<Link>)
    requires AllResolve(nodes, links)
    ensures var gs := GradientsOf(nodes, links);
      |gs| == |links| && forall p :: 0 <= p < |gs| ==> gs[p].index == p
    decreases |links|
  {
    if links != [] {
      var n := |links| - 1;
      var init := links[..n];
      assert AllResolve(nodes, init) by {
        forall j | 0 <= j < n ensures Resolves(nodes, init[j]) {
          assert init[j] == links[j];
        }
      }
      GradientsWhenAllResolve(nodes, init);
      var before := GradientsOf(nodes, init);
      assert GradientsOf(nodes, links) == before + [GradientFor(nodes, links[n], n)];
    }
  }

  /** Every endpoint id is a node id: the situation d3's link force guarantees
      (it refuses a link to an unknown id before any gradient is made). */
  ghost predicate AllResolve(nodes: seq<NodeDatum>, links: seq<Link>) {
    forall i :: 0 <= i < |links| ==> Resolves(nodes, links[i])
  }

  // ---------------------------------------------------------------------------
  // Adjacency: isConnected
  // ---------------------------------------------------------------------------

  /** The link joins the nodes with ids `a` and `b`, in either direction. */
  predicate Joins(l: Link, a: string, b: string) {
    (l.source == a && l.target == b) || (l.source == b && l.target == a)
  }

  /** `isConnected(a, b)`: some link joins the two nodes. */
  predicate IsConnected(links: seq<Link>, a: string, b: string) {
    exists i :: 0 <= i < |links| && Joins(links[i], a, b)
  }

  /** The ids at the other end of every link at `a`: a reference definition
      of adjacency built link by link. */
  function Neighbours(links: seq<Link>, a: string): set<string>
    decreases |links|
  {
    if links == [] then {}
    else
      var l := links[|links| - 1];
      var here := (if l.source == a then {l.target} else {}) + (if l.target == a then {l.source} else {});
      Neighbours(links[..|links| - 1], a) + here
  }

  /** `isConnected(a, b)` holds exactly when `b` is a neighbour of `a`. */
  lemma {:induction false} ConnectedIffNeighbour(links: seq<Link>, a: string, b: string)
    ensures IsConnected(links, a, b) <==> b in Neighbours(links, a)
    decreases |links|
  {
    if links != [] {
      var init := links[..|links| - 1];
      ConnectedIffNeighbour(init, a, b);
      if IsConnected(links, a, b) {
        var i :| 0 <= i < |links| && Joins(links[i], a, b);
        if i < |links| - 1 {
          assert init[i] == links[i];
        }
      }
      if IsConnected(init, a, b) {
        var i :| 0 <= i < |init| && Joins(init[i], a, b);
        assert links[i] == init[i];
      }
    }
  }

  /** Adjacency is symmetric. */
  lemma ConnectedSymmetric(links: seq<Link>, a: string, b: string)
    ensures IsConnected(links, a, b) <==> IsConnected(links, b, a)
  {
  }

  /** So is the neighbour relation: `b` is a neighbour of `a` exactly when `a`
      is one of `b`. */
  lemma NeighbourSymmetric(links: seq<Link>, a: string, b: string)
    ensures b in Neighbours(links, a) <==> a in Neighbours(links, b)
  {
    ConnectedIffNeighbour(links, a, b);
    ConnectedIffNeighbour(links, b, a);
    ConnectedSymmetric(links, a, b);
  }
}
