# Stemic to Gephi, modelled in Dafny

This project models `stemic_to_data` from `StemicToGephi.py`. The function turns a Stemic graph document into two tables that Gephi imports as CSV files:

- **The node table** has one row per entity other than the root (id 0). A row has the fixed columns `id`, `label`, `category`, `note` and `highlight`, then one column per property name. A property name's column is the name followed by the labels of the categories declaring it, in parentheses.
- **The edge table** has one row per edge. A bidirectional edge adds a reversed copy. Then comes one containment edge per grouped placement.

The conversion has four stages. Each is a module, with the Python loop as an imperative method proved equal to a front-recursive specification function:

| module | file | source | form |
|---|---|---|---|
| `Resolver` | resolver.dfy | lines 49-64 | category table, property loop (`GroupProperties`), column rewrite (`RewriteColumns`), header |
| `NodeBuilder` | node_builder.dfy | lines 68-82 | node rows (a comprehension, so a function), row index, attribute loop on an `array<Row>` (`MergeAttributes`) |
| `EdgeBuilder` | edge_builder.dfy | lines 86-103 | placement index, weight table, edge loop (`BuildEdges`) |
| `GroupPass` | group_pass.dfy | lines 107-114 | placement loop: highlights written onto the node array in place, containment edges appended (`ApplyPlacements`) |
| `Conversion` | conversion.dfy | lines 49-135 | the whole pipeline (`Convert`, `StemicToData`) and the properties of the finished tables |

`Document` (document.dfy) holds the input records, the output row type `map<string, Value>` and the errors. It also holds `Assign`, the model of a dict filled in order, where a later key wins. `Wrappers` holds `Option` and `Result`.

Every Python exception the conversion can raise is a `Result` failure. A `KeyError` on a lookup table is `UnknownCategory`, `UnknownEntity`, `UnknownProperty`, `UnknownPlacement` or `UnknownThickness`. The `IndexError` of an empty label is `EmptyLabel`. The `ValueError` of `max` over no edges is `NoEdges`. Errors are raised in Python's evaluation order: dict displays left to right, and a subscript's container before its key.

The central property is `Conversion.EdgeIdsDistinct`. Assume edge ids are distinct and at least 1, and placement ids are distinct and non-negative. Then no two rows of the edge table share an id:

- own rows take ids in `1..m`;
- reversed copies take ids in `2m+1..3m`;
- containment edges take ids above `3m`.

Here `m` is the largest edge id.

### Behaviour of the code worth knowing (the model follows the code)

- **Column names.** A column is always suffixed with its categories, `"name (cat)"`, even when only one category declares the name (line 61). It is never the bare name.
- **Root in containment edges.** The source of a containment edge is the placement's raw `entityId`, and the target is the entity of the group's placement (line 114). Nothing stops either from being the root entity.
- **Highlights on the root.** A highlighted placement of the root entity raises `KeyError`, because the root has no node row. The model reports this as `UnknownEntity(0)`.
- **One placement loop.** Highlights and containment edges are produced in the same loop, placement by placement (lines 107-114). So an error in a later placement stops the pass after earlier highlights were written.
- **Id bands.** The id bands cannot collide under the assumptions above. A placement id larger than the largest edge id only moves its containment id higher.

## Model

| member | source | states |
|---|---|---|
| Resolver.CategoryLabels | StemicToGephi.py:49 | Every declared category id is in the table, only declared ids are, and each maps to the label of its last declaration, as a dict comprehension keeps the later value. |
| Resolver.GroupProperties | StemicToGephi.py:53-60 | The property loop computes the specification fold `GroupFrom`, failing on the first unknown category. On success, the name dict, the id dict and their key orders agree. |
| Resolver.GroupFromValid | StemicToGephi.py:53-60 | Each turn of the property loop keeps both dicts' keys equal to their duplicate-free key orders, and every id's name is a key of the name dict. |
| Resolver.GroupFromFailure | StemicToGephi.py:57-59 | The property loop fails exactly when some property's category is unknown; the error names the first such category. |
| Resolver.GroupFromOrder | StemicToGephi.py:56-59 | The name dict's key order is the names in order of first declaration. |
| Resolver.GroupFromGroups | StemicToGephi.py:56-59 | Each name's list is the labels of the categories of every property declaring it, in declaration order. |
| Resolver.GroupFromNames | StemicToGephi.py:60 | The id-to-name dict is the ids assigned in order, so a redeclared id keeps its last name. |
| Resolver.NewNamesFacts | StemicToGephi.py:56-59 | The first-appearance list of names has no duplicates, contains every new name and nothing else. |
| Resolver.RewriteColumns | StemicToGephi.py:62-63 | The in-place rewrite over the key order maps every property id to the column of its name, and keeps the same keys. |
| Resolver.ResolveProperties | StemicToGephi.py:53-64 | Resolution as the converter runs it computes `Resolve`. |
| Resolver.ResolveFailure | StemicToGephi.py:57-59 | Resolution fails exactly when a property's category is unknown, with `UnknownCategory` of the first such property. |
| Resolver.ResolvedColumns | StemicToGephi.py:55-63 | Exactly the declared property ids resolve. Each resolves to its last declared name followed, in parentheses, by the labels of all categories declaring that name, in order. Same-named properties share one column. |
| Resolver.NodeHeaderColumns | StemicToGephi.py:61-64 | The node header is the five fixed columns, then one column per distinct property name (each once, in order of first declaration), each being that name's column. |
| Resolver.ColumnsInHeader | StemicToGephi.py:61-64 | Every resolved column is one of the header's property columns and never a fixed column. |
| Resolver.ColumnNameEnds | StemicToGephi.py:61 | A property column always ends with the closing parenthesis of its category list. |
| NodeBuilder.EntityRowFacts | StemicToGephi.py:68-74 | An entity's row fails with `EmptyLabel` when its label has no block, else with `UnknownCategory` when its category is unknown. Otherwise: the row holds the id and the first block's text; it holds the category label exactly when the entity has a category, and the note's text exactly when it has a note; it holds no other cell. |
| NodeBuilder.NonRootMembers | StemicToGephi.py:75 | The kept entities are exactly the entities whose id is not 0. |
| NodeBuilder.NonRootAppend | StemicToGephi.py:75 | Filtering out the root distributes over concatenation, so document order is kept. |
| NodeBuilder.NodeRowsSuccess | StemicToGephi.py:68-75 | The node rows are built exactly when every non-root entity's row is. |
| NodeBuilder.NodeRowsValues | StemicToGephi.py:68-75 | On success there is one row per non-root entity, in order, and row `k` is the row of the `k`-th non-root entity. |
| NodeBuilder.NodeRowsError | StemicToGephi.py:68-75 | Otherwise the error is that of the first non-root entity whose row fails. |
| NodeBuilder.IdRank | StemicToGephi.py:76 | Every row id is in the index, and maps to a position holding that id with no later row holding it. |
| NodeBuilder.MergeAttributes | StemicToGephi.py:80-82 | The in-place attribute loop on the node array computes the fold `ApplyAttributes`: the same failure and error, and on success the same rows. |
| NodeBuilder.ApplyAttributesFailure | StemicToGephi.py:81-82 | The attribute pass fails exactly when an attribute with a value names an unknown entity or property. The first such attribute's error is reported, with the entity looked up first. Attributes without a value are skipped. |
| NodeBuilder.ApplyAttributesUntouched | StemicToGephi.py:80-82 | A cell that no attribute with a value writes keeps its value, or stays blank. |
| NodeBuilder.ApplyAttributesLast | StemicToGephi.py:80-82 | The last attribute writing a cell of a row gives the cell its value: a later write wins. |
| NodeBuilder.ApplyAttributesOtherRows | StemicToGephi.py:80-82 | A row that no attribute with a value targets is left unchanged, so only the target row is written. |
| NodeBuilder.ApplyAttributesKeys | StemicToGephi.py:82 | Writing only columns of a header keeps every row's cells within that header. |
| EdgeBuilder.PlacementEntitiesFacts | StemicToGephi.py:86 | The placement index has exactly the placement ids as keys, and each maps to the entity of its last placement, as a dict comprehension keeps the later value. |
| EdgeBuilder.WeightEncoding | StemicToGephi.py:90 | Weights: dashed 1, medium 3, large 4, no thickness 2. Any other thickness fails with `UnknownThickness`. An edge is hypothetic (1) exactly when its weight is 1, and 0 otherwise. |
| EdgeBuilder.EdgeRowFacts | StemicToGephi.py:90-99 | An edge's row fails exactly when its source placement, target placement or thickness is unknown, with the first failing lookup's error (in that order). Otherwise: source and target are the entities of its endpoints; type is "directed"; weight and hypothetic encode the thickness; the row holds a label, note or highlight exactly when the edge has one, and no other cells. The highlight is passed through the colour themes. |
| EdgeBuilder.MaxEdgeId | StemicToGephi.py:103 | The largest edge id is absent exactly when there are no edges. Otherwise it bounds every edge id and is some edge's id. |
| EdgeBuilder.PatchLast | StemicToGephi.py:91-99 | Patching the label, note and highlight onto the last row changes nothing else. |
| EdgeBuilder.AppendReversed | StemicToGephi.py:100-103 | The copy of the last row, with source and target swapped and a new id, is appended after it. |
| EdgeBuilder.AppendEdge | StemicToGephi.py:90-103 | One turn of the edge loop appends exactly the rows of that edge, or fails with its row's error. |
| EdgeBuilder.BuildEdges | StemicToGephi.py:88-103 | The edge loop computes `EdgeRows`: an empty table for no edges, else the fold over the edges with the largest edge id. |
| EdgeBuilder.EdgeRowsOfFacts | StemicToGephi.py:100-103 | An edge gives its own row, then, when it is bidirectional, a copy of it. The copy has the same cells except that source and target are swapped and the id is `2m + id`. |
| EdgeBuilder.EdgeRowsFromSuccess | StemicToGephi.py:89-103 | The edge loop succeeds exactly when every edge's row does. |
| EdgeBuilder.EdgeRowsFromError | StemicToGephi.py:89-103 | Otherwise it fails with the error of the first edge whose row fails. |
| EdgeBuilder.EdgeRowsFromLength | StemicToGephi.py:89-103 | The loop keeps the rows already there and adds one row per edge plus one per bidirectional edge. |
| EdgeBuilder.EdgeRowsFromAt | StemicToGephi.py:89-103 | The rows of edge `i` sit together, after the rows of the edges before it, so a reversed copy immediately follows its edge's row. |
| EdgeBuilder.EdgeRowsFromIds | StemicToGephi.py:90-103 | The id column of the edge rows is each edge's id, followed for a bidirectional edge by `2m + id`. |
| EdgeBuilder.ExpandedIdsDistinct | StemicToGephi.py:90-103 | If edge ids are distinct and lie in `1..m`, those ids are distinct and all lie in `1..3m`. |
| EdgeBuilder.EdgeRowsFromKeys | StemicToGephi.py:87-103 | Every edge row's cells are among the nine edge columns. |
| GroupPass.ApplyPlacements | StemicToGephi.py:107-114 | The placement loop computes the fold `PlacementsFrom`: the same failure and error. On success, the node array holds the highlighted rows and the returned edge table has the containment edges appended. |
| GroupPass.PlacementStepFailure | StemicToGephi.py:108-114 | A placement fails exactly when it is blocked, with the matching error. It is blocked when it is highlighted but its entity has no row (`UnknownEntity`), or it is grouped and there are no edges (`NoEdges`) or its group's placement is unknown (`UnknownPlacement`). |
| GroupPass.PlacementsFromSuccess | StemicToGephi.py:107-114 | The placement loop succeeds exactly when no placement is blocked. |
| GroupPass.PlacementsFromError | StemicToGephi.py:107-114 | Otherwise it fails with the error of the first blocked placement. |
| GroupPass.GroupedMembers | StemicToGephi.py:113 | The grouped placements are exactly those with a non-zero id and a non-zero group id. |
| GroupPass.PlacementsFromEdges | StemicToGephi.py:113-114 | The edge rows already there are kept, then one containment edge per grouped placement follows, in placement order. Each goes from the placement's entity to the entity of its group's placement. It has id `3m + id`, the group label, type "directed", weight 2 and hypothetic 0. Grouped placements need at least one edge. |
| GroupPass.PlacementsFromIds | StemicToGephi.py:114 | The id column after the pass is the earlier ids followed by `3m + id` for each grouped placement, in order. |
| GroupPass.ContainmentIdsDistinct | StemicToGephi.py:114 | If placement ids are distinct and non-negative, the containment ids are distinct and all above `3m`. |
| GroupPass.PlacementsFromUntouched | StemicToGephi.py:108-112 | The pass changes only "highlight" cells, and only those of rows some highlighted placement targets. Every other cell keeps its value or stays blank. |
| GroupPass.PlacementsFromHighlight | StemicToGephi.py:108-112 | A highlighted row's "highlight" cell holds the colour of the last placement highlighting it, passed through the colour themes. |
| GroupPass.PlacementsFromKeys | StemicToGephi.py:110-114 | Given a node header with "highlight" and an edge header with the containment columns, the pass keeps every row within its header. |
| Conversion.OutputPath | StemicToGephi.py:121 | An output path is the destination, a "/", then the title and the file's suffix. |
| Conversion.StemicToData | StemicToGephi.py:49-114 | The converter, with its node rows in an array updated in place by both passes, computes `Convert`. |
| Conversion.ConvertStages | StemicToGephi.py:49-114 | A successful conversion ran every stage in order: resolution, node rows, attributes, edge rows, then the placement pass. The edges file is named `<destination>/<title>_edges.csv` and holds the pass's edge rows. The nodes file is named `<destination>/<title>_nodes.csv` and holds the resolved header and the pass's node rows. |
| Conversion.ConvertHeaders | StemicToGephi.py:64-87 | The edge header is the nine edge columns in their fixed order. The node header is the five fixed columns, then one column per distinct property name in declaration order. |
| Conversion.ConvertNodeRows | StemicToGephi.py:68-112 | The node table has one row per non-root entity, in order. Each row holds the entity's id and label, its category label exactly when it has a category, and its note exactly when it has one. Neither pass overwrites these cells. |
| Conversion.ConvertPropertyCell | StemicToGephi.py:80-82 | In the final node table, each property cell holds the value of the last attribute writing it, and is blank when no attribute writes it. |
| Conversion.ConvertHighlight | StemicToGephi.py:107-112 | In the final node table, the "highlight" cell holds the themed colour of the last placement highlighting the row, and is blank when no placement highlights it. |
| Conversion.ConvertEdgeRows | StemicToGephi.py:88-114 | The edge table is the edge rows, then one containment edge per grouped placement, in placement order, with their exact cells. |
| Conversion.ConvertRowsWithinHeaders | StemicToGephi.py:121-135 | Every node row's cells are node-header columns and every edge row's cells are edge-header columns, so the CSV writers accept every row. |
| Conversion.EdgeIdsDistinct | StemicToGephi.py:90-114 | If edge ids are distinct and at least 1 and placement ids are distinct and non-negative, every edge row has an integer id and no two edge rows share one. |
| Conversion.IdBands | StemicToGephi.py:103-114 | Two duplicate-free id columns, one in `1..3m` and one above `3m`, concatenate without duplicates. |

## Left out

- Reading the JSON file (lines 44-45) is left out; the model starts from the parsed document, `Document.Graph`.
- Writing the CSV files (lines 121-135) is left out, including the writer's quoting and its blank `restval`. The model stops at the file paths, the headers and the rows. `Conversion.ConvertRowsWithinHeaders` shows that the writer's check for unknown columns never fails.
- The `os.getcwd()` default of the destination is left out: the destination is a parameter.
- The defaults of `color_themes` (`{}`) and `group_label` (`"included_in"`) at line 13 are not applied: `themes` and `groupLabel` are required parameters of `Conversion.Convert` and `Conversion.StemicToData`. The default values are the constants `Conversion.DefaultThemes` and `Conversion.DefaultGroupLabel`, which a caller passes to get the default behaviour.
- `copy.deepcopy` of an edge row (line 101) is left out. Rows are values, so the copy cannot alias its original.
- JSON values other than integers and strings are left out: floats, booleans, lists, and a `null` attribute value.
- A document missing a required key (an id, a label, the text of a block, a property's category) cannot be represented. The `KeyError` it would raise is not modelled.
- Rich text is reduced to the text of its blocks.
- The failure paths return only the error. The partly filled tables that Python discards when it raises are not described.
- The row index (line 76) is keyed by the rows' `id` cells. The model builds it from the kept entities' ids, which are the same values (`NodeBuilder.EntityRowFacts`).
- Python recomputes `max` over the edge ids at every use (lines 103 and 114). The model computes it once as `EdgeBuilder.MaxEdgeId`; the edge list does not change in between.
- Python integers are unbounded, as Dafny's are, so there is no wrap-around to model.
