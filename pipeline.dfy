/** What the web front end does with the data the builder writes: the
    documents become the documents map (src/web/js/main.js) and the nodes
    the graph that src/web/js/graph.js renders. */
module Pipeline {
  import opened Wrappers
  import PdfProcessor
  import DocumentGraph

  /** A built document as the front end reads it back from the JSON file. */
  function MetaOf(d: PdfProcessor.Document): DocumentGraph.DocumentMeta {
    DocumentGraph.DocumentMeta(d.title, Some(d.filename), d.abstractText, Some(d.keywords), Some(d.path))
  }

  /** A built node as the front end reads it back. */
  function DocNodeOf(n: PdfProcessor.Node): DocumentGraph.DocNode {
    DocumentGraph.DocNode(n.id, n.nodeLabel, n.nodeType)
  }

  /** `new Map(data.documents.map(doc => [doc.id, doc]))`: documents keyed by
      id, a later document replacing an earlier one with the same id. */
  function DocumentsMap(docs: seq<PdfProcessor.Document>): (m: map<string, DocumentGraph.DocumentMeta>)
    ensures forall i :: 0 <= i < |docs| ==> docs[i].id in m
    ensures forall id :: id in m ==> exists i :: 0 <= i < |docs| && docs[i].id == id
  {
    if docs == [] then map[]
    else
      var last := docs[|docs| - 1];
      DocumentsMap(docs[..|docs| - 1])[last.id := MetaOf(last)]
  }

  /** With distinct ids the map holds every document under its own id. */
  lemma {:induction false} DocumentsMapLookup(docs: seq<PdfProcessor.Document>, i: nat)
    requires i < |docs|
    requires forall p, q :: 0 <= p < q < |docs| ==> docs[p].id != docs[q].id
    ensures docs[i].id in DocumentsMap(docs) && DocumentsMap(docs)[docs[i].id] == MetaOf(docs[i])
    decreases |docs|
  {
    if i < |docs| - 1 {
      var init := docs[..|docs| - 1];
      assert docs[|docs| - 1].id != docs[i].id;
      DocumentsMapLookup(init, i);
    }
  }

  /** Every node of the built graph shows a tooltip and, when clicked, opens
      its PDF under ../data/pdfs/; it is drawn as a document node. */
  lemma BuiltNodeOpensItsPdf(data: PdfProcessor.KnowledgeGraphData, i: nat)
    requires PdfProcessor.NodesMatchDocuments(data)
    requires forall j :: 0 <= j < |data.documents| ==>
      data.documents[j].path == PdfProcessor.PdfPathPrefix + data.documents[j].filename
    requires i < |data.graph.nodes|
    ensures var node, docs := DocNodeOf(data.graph.nodes[i]), DocumentsMap(data.documents);
      && node.id in docs
      && DocumentGraph.ClickTarget(docs, node.id)
           == Some(PdfProcessor.PdfPathPrefix + data.documents[i].filename)
      && DocumentGraph.CollisionRadius(node.nodeType) == 25
      && DocumentGraph.CircleRadius(node.nodeType) == 18
  {
    DocumentsMapLookup(data.documents, i);
  }

  /** The keywords line of a built document's tooltip is one of the two
      fixed pairs, joined by ", ". */
  lemma BuiltKeywordsText(d: PdfProcessor.Document)
    requires d.keywords == PdfProcessor.Keywords(d.filename)
    ensures DocumentGraph.KeywordsText(MetaOf(d)) in {"机器学习, 强化学习", "知识图谱, AI"}
  {
    var pair := d.keywords;
    assert pair[1..] == [pair[1]];
    assert Join(pair, ", ") == pair[0] + ", " + pair[1];
    if pair[0] == "机器学习" {
      assert pair[0] + ", " + pair[1] == "机器学习, 强化学习";
    } else {
      assert pair[0] + ", " + pair[1] == "知识图谱, AI";
    }
  }
}
