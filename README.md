# Knowledge-graph viewer: a Dafny model

This project models the logic of a small system that builds a knowledge graph
from a folder of PDF files and shows it in the browser. The Dafny files cover
three parts of that system.

- **The Python data builder** (`src/python/pdf_processor.py`), module
  `PdfProcessor`.
  - `clean_text` is `re.sub(r'\s+', ' ', text).strip()`. It is modelled
    character by character over Python's exact `\s` set, which is also the set
    `strip()` removes.
  - `build_knowledge_graph_data` is a loop over the file names. It skips files
    whose extraction fails and numbers the rest `doc_000`, `doc_001`, …
  - Each kept file gives one document record (abstract, keywords, path) and one
    graph node. No links are created.
  - Reading a PDF is a function parameter, `extract`, which returns `None` when
    extraction fails.
- **The standalone graph page** (`js/main.js`), modules `KnowledgeGraph` (pure
  rules) and `KnowledgeGraphView` (the page as a class whose fields the event
  handlers update).
  - Node normalisation: default shape by category, default radius 15, and
    shape names mapped to symbol types.
  - The per-link distance and strength handed to the force simulation.
  - Which links get a colour gradient.
  - `isConnected`.
  - The hover, mouse-out and click handlers: link and node opacity and width,
    the tooltip, and `window.open`.
- **The document graph of the web front end** (`src/web/js/graph.js`), module
  `DocumentGraph`.
  - Collision and circle radii by node type.
  - The tooltip, filled from the documents map and placed beside the pointer.
  - Click-to-open, and mouse-out.

Other shared pieces:

- **Drag handlers.** Both pages use the same three handlers. Module `Drag`
  models them as a pure step function over one node's `fx`/`fy` pins and the
  simulation's alpha target. Each page's drag methods are stated through that
  function.
- **`Pipeline`.** This module joins the builder's output to the front end. The
  documents become the documents map (`src/web/js/main.js:68`), and every node
  the builder makes opens its own PDF when clicked.

How the model represents the browser:

- DOM writes are fields of the two page classes.
- `window.open` appends to the `openedPaths` sequence.
- The force simulation appears only as the node positions and pins, and the
  alpha-target and restart requests the handlers send it.
- JavaScript truthiness is modelled exactly for the values involved. A string
  is truthy when present and non-empty, a number when present and non-zero.

Tooltip placement in graph.js flips the tooltip to the left of or above the
pointer when it would overflow the window. The other edge is not checked. A
flipped tooltip can therefore start left of or above the window, when the
window is narrower than twice the tooltip plus the 20-pixel gaps.
`DocumentGraph.FlipCanLeaveWindow` gives such an input. The model follows the
code, not a clamped placement.

## Model

| member | source | states |
|---|---|---|
| PdfProcessor.CleanText | src/python/pdf_processor.py:30-37 | `None` gives `""`. Otherwise the result has no whitespace at either end, only single plain blanks inside, and the same non-whitespace characters in the same order as the input. |
| PdfProcessor.DropSpaces | src/python/pdf_processor.py:36 | The result is a suffix of the input. It does not start with whitespace, and everything removed was whitespace (the left half of `strip()`). |
| PdfProcessor.StripRight | src/python/pdf_processor.py:36 | The result is a prefix of the input. It does not end with whitespace, and everything removed was whitespace (the right half of `strip()`). |
| PdfProcessor.CleanTextIsJoinedWords | src/python/pdf_processor.py:36 | Substituting whitespace runs by one blank and then stripping equals the input's words joined by single blanks. |
| PdfProcessor.WordsOfJoin | src/python/pdf_processor.py:36 | Splitting a blank-joined list of words gives that list back (round trip). |
| PdfProcessor.JoinedWordsAreClean | src/python/pdf_processor.py:36 | A blank-joined list of words is a cleaned string. |
| PdfProcessor.CleanTextIdempotent | src/python/pdf_processor.py:30-37 | Cleaning a cleaned string changes nothing. |
| PdfProcessor.CleanTextKeepsWords | src/python/pdf_processor.py:30-37 | Cleaning keeps exactly the words of the input, in order. |
| PdfProcessor.CleanTextNoLonger | src/python/pdf_processor.py:30-37 | Cleaning never lengthens a string. |
| PdfProcessor.Prefix | src/python/pdf_processor.py:65 | `s[:500]`: the prefix of `s` of length `min(len(s), 500)`. |
| PdfProcessor.ZeroPad | src/python/pdf_processor.py:57 | `03d` padding: width `max(3, len)`, zeros in front, the numeral at the end. |
| PdfProcessor.ParseFormatId | src/python/pdf_processor.py:57 | Reading back the id formatted from counter `n` gives `n` (round trip). |
| PdfProcessor.FormatIdInjective | src/python/pdf_processor.py:57-58 | Different counter values give different ids. |
| PdfProcessor.FormatIdWidth | src/python/pdf_processor.py:57 | Ids are at least 7 characters, and exactly 7 (`doc_` plus three digits) below 1000. |
| PdfProcessor.BuildKnowledgeGraphData | src/python/pdf_processor.py:39-96 | No links. One document and one node per file whose extraction succeeded, in input order. Document i has id `FormatId(i)`, the file name, the extracted title, the abstract, the keywords and `../data/pdfs/<file>`. Node i has document i's id, its title as label and type `document`. Ids are distinct. |
| PdfProcessor.IdsDistinct | src/python/pdf_processor.py:57-58 | Documents numbered in order from 0, with matching nodes, have pairwise distinct ids. |
| PdfProcessor.FailedFileSkipped | src/python/pdf_processor.py:52-55 | A file whose extraction fails contributes nothing. The documents and ids of the other files are as if it were absent. |
| PdfProcessor.SuccessIndex | src/python/pdf_processor.py:48-58 | A file that extracts gets the counter value equal to the number of successes before it. |
| PdfProcessor.SuccessesFromInput | src/python/pdf_processor.py:50-55 | Every document comes from an input file and carries what extraction returned for it. |
| PdfProcessor.SuccessesAllOk | src/python/pdf_processor.py:50-58 | When nothing fails, document i is file i. |
| PdfProcessor.SuccessesAppend | src/python/pdf_processor.py:50-55 | Processing two lists in sequence gives the documents of each, concatenated. |
| PdfProcessor.AbstractShape | src/python/pdf_processor.py:65 | Empty text gives `暂无摘要`. Otherwise the abstract is a cleaned string of at most 500 characters, holding the words of the first 500 characters, followed by `...`. |
| PdfProcessor.KeywordsIgnoreCase | src/python/pdf_processor.py:66 | The keyword choice does not depend on letter case. |
| Wrappers.Join | src/web/js/graph.js:87 | A one-element join is that element. Any join starts with its first part. |
| Wrappers.JoinLength | src/web/js/graph.js:87 | A join's length is the parts' total length plus one separator between each two parts. |
| Drag.Step | js/main.js:304-319 | A handler never moves the node. The node is left unpinned exactly on drag end. |
| Drag.Control | js/main.js:304-319 | Only a drag start with no other gesture active restarts the simulation, and it sets the alpha target to 0.3. A drag end with no other gesture active sets it to 0. A drag move, or any event while another gesture is active, leaves the alpha target alone. |
| Drag.RunAppend | js/main.js:304-319 | Handling two event sequences in turn equals handling their concatenation. |
| Drag.RunControlAppend | js/main.js:304-319 | The same, for the simulation. |
| Drag.EndReleases | js/main.js:315-319 | Whatever came before, a drag end leaves the node free, at its position. |
| Drag.RunKeepsPosition | js/main.js:304-319 | Any event sequence leaves x and y unchanged. |
| Drag.PinnedUntilEnd | js/main.js:304-319 | A pinned node stays pinned through any sequence without a drag end. |
| Drag.GesturePinsAtPointer | js/main.js:304-313 | Drag start plus moves pins the node at the last pointer position, or where it was if no move came. |
| Drag.LoneGestureCools | js/main.js:304-319 | A lone gesture restarts the simulation once and ends with alpha target 0. |
| Drag.MovesKeepControl | js/main.js:310-313 | Drag moves do not touch the simulation. |
| KnowledgeGraph.NormalizeNodes | js/main.js:29-60 | One normalised node per input node, in order. |
| KnowledgeGraph.NormalizeNodeRules | js/main.js:29-60 | All fields but shape and radius are kept. A missing shape takes its category's symbol (circle outside 1..5). A known name keeps its symbol, and an unknown name becomes a circle. A missing or zero radius becomes 15. |
| KnowledgeGraph.SymbolNameRoundTrip | js/main.js:50-57 | The five shape names map to symbols and back unchanged. |
| KnowledgeGraph.SymbolNamedRoundTrip | js/main.js:50-57 | Every symbol maps to its name and back. |
| KnowledgeGraph.NormalizeIdempotent | js/main.js:29-60 | Normalising a normalised node, written back as data, changes nothing. |
| KnowledgeGraph.Find | js/main.js:69-70 | `find` succeeds exactly when some node has the id. It returns the first node with that id. |
| KnowledgeGraph.StrengthByLargerCategory | js/main.js:78-89 | Strength 1 for equal categories. Otherwise it depends only on the larger category: 1 up to 2, 0.7 at 3, 0.4 from 4. |
| KnowledgeGraph.LinkForcesSymmetric | js/main.js:67-89 | Distance and strength do not depend on the link's direction. |
| KnowledgeGraph.SameCategoryDistance | js/main.js:67-77 | Across categories the distance is 180. Within one it is 70 plus both radii, so shorter exactly when the radii sum below 110, and 100 for default radii. |
| KnowledgeGraph.LinkGradients | js/main.js:119-144 | The loop builds exactly the gradients of the reference definition `GradientsOf`. |
| KnowledgeGraph.GradientsSound | js/main.js:119-130 | Gradients follow link order. Each belongs to a link whose endpoints resolve and carries those endpoints' categories. |
| KnowledgeGraph.GradientsComplete | js/main.js:119-127 | A link gets a gradient exactly when both its endpoints are found. |
| KnowledgeGraph.GradientsWhenAllResolve | js/main.js:119-127 | When every endpoint resolves, link i gets gradient i: one per link. |
| KnowledgeGraph.ConnectedIffNeighbour | js/main.js:274-276 | `isConnected(a, b)` holds exactly when b is in the neighbour set built link by link. |
| KnowledgeGraph.ConnectedSymmetric | js/main.js:274-276 | `isConnected` is symmetric. |
| KnowledgeGraph.NeighbourSymmetric | js/main.js:274-276 | So is the neighbour relation. |
| KnowledgeGraphView.HoverNodePartition | js/main.js:239-240 | On hover, a node is at opacity 1 exactly when it is the hovered node or a neighbour of it. Every other node is at 0.2. |
| KnowledgeGraphView.HoverLinkPartition | js/main.js:235-237 | On hover, links at the hovered node have opacity 1 and width 5. All others have 0.05 and 3. |
| KnowledgeGraphView.HoverStylesAgree | js/main.js:235-240 | Another node stays bright exactly when a highlighted link joins it to the hovered node. |
| KnowledgeGraphView.HoverSingleLink | js/main.js:235-240 | Hovering a node whose only link goes to b leaves exactly that node and b bright. |
| KnowledgeGraphView.GraphPage.constructor | js/main.js:147-198 | Nodes are normalised. Everything starts at rest: opacity 1, stroke width 3, glow on. The tooltip is hidden and nothing has been opened. |
| KnowledgeGraphView.GraphPage.MouseOver | js/main.js:216-241 | The tooltip shows name, info and the document hint when there is a path, at (pageX+10, pageY-20). The hovered shape gets stroke 5. Link and node styles follow the hover partitions. Nothing else changes. |
| KnowledgeGraphView.GraphPage.MouseOut | js/main.js:242-257 | The tooltip is hidden and the shape is back to stroke 3. Every link and node is at rest, whatever came before. |
| KnowledgeGraphView.GraphPage.Click | js/main.js:259-271 | A node with a truthy `pdfPath` opens it. Otherwise nothing opens. |
| KnowledgeGraphView.GraphPage.DragStarted | js/main.js:304-308 | The node is pinned where it is, and the simulation is reheated when no other gesture is active. |
| KnowledgeGraphView.GraphPage.Dragged | js/main.js:310-313 | The node is pinned at the pointer. |
| KnowledgeGraphView.GraphPage.DragEnded | js/main.js:315-319 | The node is released, and the simulation cools when no other gesture is active. |
| DocumentGraph.RadiusRules | src/web/js/graph.js:26-54 | Documents have collision radius 25 and circle 18. Every other type has 20 and 14. The collision disc always exceeds the circle by at least 6. |
| DocumentGraph.AxisPositionRules | src/web/js/graph.js:101-110 | The tooltip goes after the pointer exactly when it fits there, and otherwise before it. It never covers the pointer. While the pointer is inside the window, so is the tooltip's far edge. |
| DocumentGraph.FlipCanLeaveWindow | src/web/js/graph.js:105-110 | The near edge is not clamped. A flipped tooltip can start at a negative coordinate. |
| DocumentGraph.PlaceTooltip | src/web/js/graph.js:98-110 | Each coordinate is the one-axis placement rule applied to the pointer, tooltip size and window size. |
| DocumentGraph.ClickTarget | src/web/js/graph.js:124-129 | There is a target exactly when the map has the id and its entry has a non-empty path, and the target is that path. |
| DocumentGraph.GraphView.constructor | src/web/js/graph.js:4-54 | The nodes and documents map as given. The tooltip is inactive and nothing has been opened. |
| DocumentGraph.GraphView.MouseOver | src/web/js/graph.js:81-116 | Only the tooltip fields may change. A node absent from the map changes nothing. Otherwise it sets the title, the file name or `N/A`, the abstract, and the keywords joined by `, ` or `无`. With a path, the link gets that href and is shown; without one it is hidden. The tooltip is placed and activated. |
| DocumentGraph.GraphView.MouseOut | src/web/js/graph.js:119-121 | The tooltip is deactivated. |
| DocumentGraph.GraphView.Click | src/web/js/graph.js:124-129 | It opens the click target when there is one, and nothing otherwise. |
| DocumentGraph.GraphView.DragStarted | src/web/js/graph.js:132-136 | The node is pinned where it is, and the simulation is reheated when no other gesture is active. |
| DocumentGraph.GraphView.Dragged | src/web/js/graph.js:138-141 | The node is pinned at the pointer. |
| DocumentGraph.GraphView.DragEnded | src/web/js/graph.js:143-147 | The node is released, and the simulation cools when no other gesture is active. |
| Pipeline.DocumentsMap | src/web/js/main.js:68 | The map's keys are exactly the documents' ids. |
| Pipeline.DocumentsMapLookup | src/web/js/main.js:68 | With distinct ids, each document is found under its own id. |
| Pipeline.BuiltNodeOpensItsPdf | src/web/js/graph.js:124-129 | Every node the builder makes is in the documents map. Clicking it opens `../data/pdfs/<its file>`, and it is drawn with the document radii. |
| Pipeline.BuiltKeywordsText | src/web/js/graph.js:87 | A built document's tooltip keywords read `机器学习, 强化学习` or `知识图谱, AI`. |

## Left out

- Input nodes of js/main.js are assumed to carry a `name` and an `info` string, as every node of js/data.js does. A node without `info` would show the text `undefined` in the tooltip; that case is not modelled.
- Both tooltips are assumed to start closed: hidden on the standalone page, inactive with the link's display unset in the web front end. The handlers only toggle the `hidden` or `active` class, and the initial classes come from the pages' HTML, which is not part of this model.
- `extract_metadata_from_pdf` and `main` of `src/python/pdf_processor.py` are not modelled: PDF parsing, directory listing, JSON output and console output. Extraction is the `extract` parameter.
- PdfProcessor.Lower: models `str.lower()` on ASCII letters only. For the keyword test this is exact: the only non-ASCII characters that lower-case into ASCII are U+212A (to `k`, which is in neither needle) and U+0130 (to `i` followed by a combining dot, while every `i` in the needles is followed by `n`).
- PdfProcessor.BuildKnowledgeGraphData: the empty `for i … for j … pass` loops are not modelled, since they do nothing. The result only states that there are no links.
- The D3 force simulation is not modelled: forces, ticks and positions over time, zoom, and resizing. Handlers only record the alpha-target and restart requests.
- SVG drawing is not modelled: the glow filter, colour scale, stroke colours, symbol sizes, labels, the dash animation and transitions.
- KnowledgeGraph.LinkGradients: records each gradient's endpoint categories, not its colours. D3's ordinal colour scale is not modelled.
- Gradient skipping: d3's link force rejects a link to an unknown id before the gradients are made, so the skip branch in js/main.js is defensive. `GradientsWhenAllResolve` covers the case that always holds in practice. `GradientsComplete` covers the branch as written.
- KnowledgeGraph.LinkDistance, KnowledgeGraph.LinkStrength: require both endpoints to resolve, because d3 only calls them on resolved links. A missing node there would throw in JavaScript.
- JavaScript numbers (pointer coordinates, tooltip and window sizes, radii, opacities, link distances) are exact reals: floating-point rounding is not modelled.
- NaN and non-integer categories are not modelled. Categories are integers, radii are reals, and a radius is truthy when present and non-zero.
- `console.log`/`console.warn` and `event.stopPropagation()` are not modelled.
- js/data.js, js/galaxy-background.js and js/cosmic-phenomena.js are not part of this model: data, background animation and decoration.
- `src/web/js/main.js` is not modelled beyond building the documents map (line 68), which is in `Pipeline`: fetching, error display and wiring the tooltip elements.
- The code computes no node degree and does not check links for ids missing from the nodes. A link whose id is missing makes d3's `forceLink` throw, before any handler runs.
