/**
 * The whole conversion of a Stemic graph into the node and edge tables that
 * are written as Gephi CSV files, and the properties of the finished tables.
 */
module Conversion {
  import opened Wrappers
  import opened Document
  import opened Resolver
  import opened NodeBuilder
  import opened EdgeBuilder
  import opened GroupPass

  /** The two CSV files to write: their paths, their headers and their rows, edges first. */
  datatype Tables = Tables(
    edgesFile: string,
    edgeHeader: seq<string>,
    edgeRows: seq<Row>,
    nodesFile: string,
    nodeHeader: seq<string>,
    nodeRows: seq<Row>)

  /** The converter's default colour themes: none, so every colour passes through. */
  const DefaultThemes: map<string, string> := map[]

  /** The converter's default label of containment edges. */
  const DefaultGroupLabel: string := "included_in"

  /** The path of an output file: `<destination>/<title><suffix>`. */
  function OutputPath(destination: string, title: string, suffix: string): (path: string)
    ensures |path| == |destination| + 1 + |title| + |suffix|
    ensures path[..|destination|] == destination && path[|destination|] == '/'
    ensures path[|destination| + 1..] == title + suffix
  {
    destination + "/" + title + suffix
  }

  /** The row index of the node table: node row id to position. */
  function RowIndex(g: Graph): map<int, nat> {
    IdRank(EntityIds(NonRoot(g.entities)))
  }

  /** Every position in the row index is a row of the node table. */
  lemma RowIndexWithin(g: Graph, catLabels: map<int, string>)
    requires NodeRows(g.entities, catLabels).Success?
    ensures RanksWithin(RowIndex(g), |NodeRows(g.entities, catLabels).value|)
  {
    NodeRowsValues(g.entities, catLabels);
  }

  /**
   * The conversion, stage by stage in the order the converter runs them: the
   * property columns, the node rows, the attribute values, the edge rows, then
   * the placement pass with the largest edge id.
   */
  function Convert(g: Graph, destination: string, themes: map<string, string>, groupLabel: string)
    : Result<Tables, Error>
  {
    var catLabels := CategoryLabels(g.categories);
    match Resolve(g.properties, catLabels)
    case Failure(err) => Failure(err)
    case Success(res) =>
      match NodeRows(g.entities, catLabels)
      case Failure(err) => Failure(err)
      case Success(rows) =>
        RowIndexWithin(g, catLabels);
        match ApplyAttributes(rows, g.attributes, RowIndex(g), res.columns)
        case Failure(err) => Failure(err)
        case Success(filled) =>
          var p2e := PlacementEntities(g.nodes);
          match EdgeRows(g.edges, p2e, themes)
          case Failure(err) => Failure(err)
          case Success(edgeRows) =>
            match PlacementsFrom(PassState(filled, edgeRows), g.nodes, RowIndex(g), p2e, themes,
                                 MaxEdgeId(g.edges), groupLabel)
            case Failure(err) => Failure(err)
            case Success(out) =>
              Success(Tables(
                OutputPath(destination, g.title, "_edges.csv"), EdgeColumns, out.edges,
                OutputPath(destination, g.title, "_nodes.csv"), res.header, out.nodes))
  }

  /** The converter: node rows live in an array that the attribute and placement passes update in place. */
  method StemicToData(g: Graph, destination: string, themes: map<string, string>, groupLabel: string)
    returns (r: Result<Tables, Error>)
    ensures r == Convert(g, destination, themes, groupLabel)
  {
    var catLabels := CategoryLabels(g.categories);
    var res := ResolveProperties(g.properties, catLabels);
    if res.Failure? {
      return Failure(res.error);
    }
    var built := NodeRows(g.entities, catLabels);
    if built.Failure? {
      return Failure(built.error);
    }
    var rows := built.value;
    var nodes := new Row[|rows|](k requires 0 <= k < |rows| => rows[k]);
    assert nodes[..] == rows;
    var idRank := RowIndex(g);
    RowIndexWithin(g, catLabels);
    var err := MergeAttributes(nodes, g.attributes, idRank, res.value.columns);
    if err.Some? {
      return Failure(err.value);
    }
    var filled := nodes[..];
    var p2e := PlacementEntities(g.nodes);
    var edges := BuildEdges(g.edges, p2e, themes);
    if edges.Failure? {
      return Failure(edges.error);
    }
    var placed := ApplyPlacements(nodes, edges.value, g.nodes, idRank, p2e, themes, MaxEdgeId(g.edges), groupLabel);
    if placed.Failure? {
      return Failure(placed.error);
    }
    assert PassState(filled, edges.value).nodes == filled;
    r := Success(Tables(
      OutputPath(destination, g.title, "_edges.csv"), EdgeColumns, placed.value,
      OutputPath(destination, g.title, "_nodes.csv"), res.value.header, nodes[..]));
  }

  /** The intermediate results of a successful conversion. */
  ghost predicate Stages(g: Graph, themes: map<string, string>, groupLabel: string,
                         res: Resolution, rows: seq<Row>, filled: seq<Row>, edgeRows: seq<Row>, out: PassState)
  {
    var catLabels := CategoryLabels(g.categories);
    && Resolve(g.properties, catLabels) == Success(res)
    && NodeRows(g.entities, catLabels) == Success(rows)
    && RanksWithin(RowIndex(g), |rows|)
    && ApplyAttributes(rows, g.attributes, RowIndex(g), res.columns) == Success(filled)
    && EdgeRows(g.edges, PlacementEntities(g.nodes), themes) == Success(edgeRows)
    && RanksWithin(RowIndex(g), |filled|)
    && PlacementsFrom(PassState(filled, edgeRows), g.nodes, RowIndex(g), PlacementEntities(g.nodes), themes,
                      MaxEdgeId(g.edges), groupLabel) == Success(out)
  }

  /** A successful conversion went through every stage, and its tables are the last stage's. */
  lemma ConvertStages(g: Graph, destination: string, themes: map<string, string>, groupLabel: string)
    requires Convert(g, destination, themes, groupLabel).Success?
    ensures exists res, rows, filled, edgeRows, out :: (Stages(g, themes, groupLabel, res, rows, filled, edgeRows, out)
      && Convert(g, destination, themes, groupLabel).value ==
           Tables(OutputPath(destination, g.title, "_edges.csv"), EdgeColumns, out.edges,
                  OutputPath(destination, g.title, "_nodes.csv"), res.header, out.nodes))
  {
    var catLabels := CategoryLabels(g.categories);
    var res := Resolve(g.properties, catLabels).value;
    var rows := NodeRows(g.entities, catLabels).value;
    RowIndexWithin(g, catLabels);
    var filled := ApplyAttributes(rows, g.attributes, RowIndex(g), res.columns).value;
    var edgeRows := EdgeRows(g.edges, PlacementEntities(g.nodes), themes).value;
    var out := PlacementsFrom(PassState(filled, edgeRows), g.nodes, RowIndex(g), PlacementEntities(g.nodes), themes,
                              MaxEdgeId(g.edges), groupLabel).value;
    assert Stages(g, themes, groupLabel, res, rows, filled, edgeRows, out);
  }

  /**
   * The headers: the edge file has the nine edge columns; the node file has the
   * five fixed columns, then one column per distinct property name, in order of
   * first declaration, suffixed with the labels of the categories declaring it.
   */
  lemma ConvertHeaders(g: Graph, destination: string, themes: map<string, string>, groupLabel: string)
    requires Convert(g, destination, themes, groupLabel).Success?
    ensures var t, names := Convert(g, destination, themes, groupLabel).value, NewNames(g.properties, {});
      && t.edgeHeader == ["id", "source", "target", "type", "label", "weight", "note", "highlight", "hypothetic"]
      && CategoriesKnown(g.properties, CategoryLabels(g.categories))
      && |t.nodeHeader| == 5 + |names|
      && t.nodeHeader[..5] == ["id", "label", "category", "note", "highlight"]
      && forall k :: 0 <= k < |names| ==>
           t.nodeHeader[5 + k] == ColumnName(names[k], DeclaringCategories(g.properties, CategoryLabels(g.categories), names[k]))
  {
    ConvertStages(g, destination, themes, groupLabel);
    var catLabels := CategoryLabels(g.categories);
    ResolveFailure(g.properties, catLabels);
    NodeHeaderColumns(g.properties, catLabels);
  }

  /** The cells of a node row that come from its entity. */
  ghost predicate EntityCells(row: Row, e: Entity, catLabels: map<int, string>) {
    && Cell(row, "id") == Some(IntVal(e.id))
    && |e.caption.blocks| > 0 && Cell(row, "label") == Some(StrVal(e.caption.blocks[0]))
    && (e.categoryId.Some? ==> e.categoryId.value in catLabels && Cell(row, "category") == Some(StrVal(catLabels[e.categoryId.value])))
    && (e.categoryId.None? ==> Cell(row, "category") == None)
    && (e.note.Some? ==> Cell(row, "note") == Some(StrVal(BlockText(e.note.value))))
    && (e.note.None? ==> Cell(row, "note") == None)
  }

  /** A property column is never one of the fixed columns. */
  lemma PropertyColumnsNotFixed(res: Resolution, props: seq<Property>, catLabels: map<int, string>)
    requires Resolve(props, catLabels) == Success(res)
    ensures forall pid :: pid in res.columns ==> res.columns[pid] !in FixedNodeColumns && res.columns[pid] in res.header
  {
    ColumnsInHeader(props, catLabels);
    forall pid | pid in res.columns ensures res.columns[pid] in res.header {
      var c := res.columns[pid];
      assert c in res.header[|FixedNodeColumns|..];
    }
  }

  /**
   * One node row per entity other than the root, in document order, each
   * holding the entity's id and label, its category's label exactly when it
   * has a category and its note exactly when it has a note: neither the
   * attribute values nor the highlights overwrite these cells.
   */
  lemma ConvertNodeRows(g: Graph, destination: string, themes: map<string, string>, groupLabel: string)
    requires Convert(g, destination, themes, groupLabel).Success?
    ensures var t, kept := Convert(g, destination, themes, groupLabel).value, NonRoot(g.entities);
      && |t.nodeRows| == |kept|
      && forall k :: 0 <= k < |kept| ==> EntityCells(t.nodeRows[k], kept[k], CategoryLabels(g.categories))
  {
    ConvertStages(g, destination, themes, groupLabel);
    var res, rows, filled, edgeRows, out :| Stages(g, themes, groupLabel, res, rows, filled, edgeRows, out)
      && Convert(g, destination, themes, groupLabel).value ==
           Tables(OutputPath(destination, g.title, "_edges.csv"), EdgeColumns, out.edges,
                  OutputPath(destination, g.title, "_nodes.csv"), res.header, out.nodes);
    var catLabels, kept := CategoryLabels(g.categories), NonRoot(g.entities);
    var idRank, p2e := RowIndex(g), PlacementEntities(g.nodes);
    NodeRowsValues(g.entities, catLabels);
    PropertyColumnsNotFixed(res, g.properties, catLabels);
    forall k | 0 <= k < |kept| ensures EntityCells(out.nodes[k], kept[k], catLabels) {
      EntityRowFacts(kept[k], catLabels);
      FixedCell(g, themes, groupLabel, res, rows, filled, edgeRows, out, k, "id");
      FixedCell(g, themes, groupLabel, res, rows, filled, edgeRows, out, k, "label");
      FixedCell(g, themes, groupLabel, res, rows, filled, edgeRows, out, k, "category");
      FixedCell(g, themes, groupLabel, res, rows, filled, edgeRows, out, k, "note");
    }
  }

  /** A fixed cell other than "highlight" of a node row keeps its value from the entity row through both passes. */
  lemma FixedCell(g: Graph, themes: map<string, string>, groupLabel: string,
                  res: Resolution, rows: seq<Row>, filled: seq<Row>, edgeRows: seq<Row>, out: PassState, k: int, c: string)
    requires Stages(g, themes, groupLabel, res, rows, filled, edgeRows, out)
    requires 0 <= k < |rows| && c in FixedNodeColumns && c != "highlight"
    ensures Cell(out.nodes[k], c) == Cell(rows[k], c)
  {
    var idRank, p2e := RowIndex(g), PlacementEntities(g.nodes);
    PropertyColumnsNotFixed(res, g.properties, CategoryLabels(g.categories));
    ApplyAttributesUntouched(rows, g.attributes, idRank, res.columns, k, c);
    PlacementsFromUntouched(PassState(filled, edgeRows), g.nodes, idRank, p2e, themes, MaxEdgeId(g.edges), groupLabel, k, c);
  }

  /**
   * A CSV writer on the two headers accepts every row: each cell of a node row
   * is a node column and each cell of an edge row an edge column.
   */
  lemma ConvertRowsWithinHeaders(g: Graph, destination: string, themes: map<string, string>, groupLabel: string)
    requires Convert(g, destination, themes, groupLabel).Success?
    ensures var t := Convert(g, destination, themes, groupLabel).value;
      KeysWithin(t.nodeRows, t.nodeHeader) && KeysWithin(t.edgeRows, t.edgeHeader)
  {
    ConvertStages(g, destination, themes, groupLabel);
    var res, rows, filled, edgeRows, out :| Stages(g, themes, groupLabel, res, rows, filled, edgeRows, out)
      && Convert(g, destination, themes, groupLabel).value ==
           Tables(OutputPath(destination, g.title, "_edges.csv"), EdgeColumns, out.edges,
                  OutputPath(destination, g.title, "_nodes.csv"), res.header, out.nodes);
    var catLabels, kept := CategoryLabels(g.categories), NonRoot(g.entities);
    var idRank, p2e := RowIndex(g), PlacementEntities(g.nodes);
    ResolveFailure(g.properties, catLabels);
    NodeHeaderColumns(g.properties, catLabels);
    assert res.header[..5] == FixedNodeColumns;
    forall c | c in FixedNodeColumns ensures c in res.header {
      assert c in res.header[..5];
    }
    NodeRowsValues(g.entities, catLabels);
    forall k, c | 0 <= k < |rows| && c in rows[k] ensures c in res.header {
      EntityRowFacts(kept[k], catLabels);
      assert c in FixedNodeColumns;
    }
    PropertyColumnsNotFixed(res, g.properties, catLabels);
    ApplyAttributesKeys(rows, g.attributes, idRank, res.columns, res.header);
    if |g.edges| > 0 {
      EdgeRowsFromKeys([], g.edges, p2e, themes, MaxEdgeId(g.edges).value);
    }
    assert "highlight" in FixedNodeColumns;
    PlacementsFromKeys(PassState(filled, edgeRows), g.nodes, idRank, p2e, themes, MaxEdgeId(g.edges), groupLabel,
                       res.header, EdgeColumns);
  }

  /** Every edge id is at least 1 and no two edges share one. */
  ghost predicate WellNumberedEdges(edges: seq<Edge>) {
    (forall i :: 0 <= i < |edges| ==> edges[i].id >= 1) && DistinctEdgeIds(edges)
  }

  /**
   * The id bands never collide: with distinct edge ids of at least 1 and
   * distinct non-negative placement ids, every edge row has an id and no two
   * edge rows share one. Own rows take ids in `1..m`, reversed copies
   * `2m+1..3m` and containment edges lie above `3m`, `m` being the largest
   * edge id.
   */
  lemma EdgeIdsDistinct(g: Graph, destination: string, themes: map<string, string>, groupLabel: string)
    requires Convert(g, destination, themes, groupLabel).Success?
    requires WellNumberedEdges(g.edges) && DistinctPlacementIds(g.nodes)
    ensures var ids := IdColumn(Convert(g, destination, themes, groupLabel).value.edgeRows);
      NoDuplicates(ids) && forall k :: 0 <= k < |ids| ==> ids[k].Some? && ids[k].value.IntVal?
  {
    ConvertStages(g, destination, themes, groupLabel);
    var res, rows, filled, edgeRows, out :| Stages(g, themes, groupLabel, res, rows, filled, edgeRows, out)
      && Convert(g, destination, themes, groupLabel).value ==
           Tables(OutputPath(destination, g.title, "_edges.csv"), EdgeColumns, out.edges,
                  OutputPath(destination, g.title, "_nodes.csv"), res.header, out.nodes);
    var idRank, p2e := RowIndex(g), PlacementEntities(g.nodes);
    var s := PassState(filled, edgeRows);
    if |g.edges| == 0 {
      PlacementsFromEdges(s, g.nodes, idRank, p2e, themes, None, groupLabel);
      assert |out.edges| == 0;
    } else {
      var m := MaxEdgeId(g.edges).value;
      assert IdsWithin(g.edges, m);
      EdgeRowsFromIds([], g.edges, p2e, themes, m);
      assert IdColumn(edgeRows) == ExpandedIds(g.edges, m);
      PlacementsFromIds(s, g.nodes, idRank, p2e, themes, m, groupLabel);
      ExpandedIdsDistinct(g.edges, m);
      ContainmentIdsDistinct(g.nodes, m);
      IdBands(ExpandedIds(g.edges, m), ContainmentIds(g.nodes, m), m);
    }
  }

  /** Two duplicate-free id columns in separate bands, `1..3m` and above `3m`, concatenate without duplicates. */
  lemma IdBands(own: seq<Option<Value>>, grouped: seq<Option<Value>>, m: int)
    requires NoDuplicates(own) && NoDuplicates(grouped)
    requires forall x :: x in own ==> x.Some? && x.value.IntVal? && 1 <= x.value.i <= 3 * m
    requires forall x :: x in grouped ==> x.Some? && x.value.IntVal? && x.value.i > 3 * m
    ensures var ids := own + grouped; NoDuplicates(ids) && forall k :: 0 <= k < |ids| ==> ids[k].Some? && ids[k].value.IntVal?
  {
    NoDuplicatesAppend(own, grouped);
    var ids := own + grouped;
    forall k | 0 <= k < |ids| ensures ids[k].Some? && ids[k].value.IntVal? {
      var x := ids[k];
      if k < |own| { assert x == own[k]; assert x in own; } else { assert x == grouped[k - |own|]; assert x in grouped; }
    }
  }

  /**
   * The edge table: the rows of the edges, then one containment edge per
   * grouped placement, in placement order; containment edges need at least one
   * edge, whose largest id numbers them.
   */
  lemma ConvertEdgeRows(g: Graph, destination: string, themes: map<string, string>, groupLabel: string)
    requires Convert(g, destination, themes, groupLabel).Success?
    ensures var t, p2e, gs := Convert(g, destination, themes, groupLabel).value, PlacementEntities(g.nodes), Grouped(g.nodes);
      && EdgeRows(g.edges, p2e, themes).Success?
      && var e := EdgeRows(g.edges, p2e, themes).value;
      && |t.edgeRows| == |e| + |gs|
      && t.edgeRows[..|e|] == e
      && (|gs| > 0 ==> |g.edges| > 0)
      && forall r :: 0 <= r < |gs| ==> (gs[r].groupId in p2e
           && t.edgeRows[|e| + r] == ContainmentRow(gs[r], p2e[gs[r].groupId], MaxEdgeId(g.edges).value, groupLabel))
  {
    ConvertStages(g, destination, themes, groupLabel);
    var res, rows, filled, edgeRows, out :| Stages(g, themes, groupLabel, res, rows, filled, edgeRows, out)
      && Convert(g, destination, themes, groupLabel).value ==
           Tables(OutputPath(destination, g.title, "_edges.csv"), EdgeColumns, out.edges,
                  OutputPath(destination, g.title, "_nodes.csv"), res.header, out.nodes);
    PlacementsFromEdges(PassState(filled, edgeRows), g.nodes, RowIndex(g), PlacementEntities(g.nodes), themes,
                        MaxEdgeId(g.edges), groupLabel);
  }

  /** Attribute `i` is the last attribute writing cell `c` of node row `k`. */
  ghost predicate LastWrite(g: Graph, i: int, k: int, c: string) {
    var r := Resolve(g.properties, CategoryLabels(g.categories));
    && r.Success? && 0 <= i < |g.attributes|
    && WritesCell(g.attributes[i], RowIndex(g), r.value.columns, k, c)
    && forall j :: i < j < |g.attributes| ==> !WritesCell(g.attributes[j], RowIndex(g), r.value.columns, k, c)
  }

  /** No attribute writes cell `c` of node row `k`. */
  ghost predicate NeverWritten(g: Graph, k: int, c: string) {
    var r := Resolve(g.properties, CategoryLabels(g.categories));
    r.Success? && forall j :: 0 <= j < |g.attributes| ==> !WritesCell(g.attributes[j], RowIndex(g), r.value.columns, k, c)
  }

  /**
   * A property cell of the node table holds the value of the last attribute
   * that writes it, and is blank when no attribute writes it.
   */
  lemma ConvertPropertyCell(g: Graph, destination: string, themes: map<string, string>, groupLabel: string, k: int, c: string)
    requires Convert(g, destination, themes, groupLabel).Success?
    requires 0 <= k < |NonRoot(g.entities)| && c !in FixedNodeColumns
    ensures var t := Convert(g, destination, themes, groupLabel).value;
      && |t.nodeRows| == |NonRoot(g.entities)|
      && (forall i :: LastWrite(g, i, k, c) ==> Cell(t.nodeRows[k], c) == g.attributes[i].value)
      && (NeverWritten(g, k, c) ==> Cell(t.nodeRows[k], c) == None)
  {
    ConvertStages(g, destination, themes, groupLabel);
    var res, rows, filled, edgeRows, out :| Stages(g, themes, groupLabel, res, rows, filled, edgeRows, out)
      && Convert(g, destination, themes, groupLabel).value ==
           Tables(OutputPath(destination, g.title, "_edges.csv"), EdgeColumns, out.edges,
                  OutputPath(destination, g.title, "_nodes.csv"), res.header, out.nodes);
    var catLabels, kept := CategoryLabels(g.categories), NonRoot(g.entities);
    var idRank, p2e := RowIndex(g), PlacementEntities(g.nodes);
    NodeRowsValues(g.entities, catLabels);
    assert c != "highlight";
    PlacementsFromUntouched(PassState(filled, edgeRows), g.nodes, idRank, p2e, themes, MaxEdgeId(g.edges), groupLabel, k, c);
    forall i | LastWrite(g, i, k, c) ensures Cell(out.nodes[k], c) == g.attributes[i].value {
      ApplyAttributesLast(rows, g.attributes, idRank, res.columns, i, k, c);
    }
    if NeverWritten(g, k, c) {
      EntityRowFacts(kept[k], catLabels);
      ApplyAttributesUntouched(rows, g.attributes, idRank, res.columns, k, c);
    }
  }

  /** Placement `i` is the last placement highlighting node row `k`. */
  ghost predicate LastHighlight(g: Graph, i: int, k: int) {
    0 <= i < |g.nodes| && Highlights(g.nodes[i], RowIndex(g), k)
    && forall j :: i < j < |g.nodes| ==> !Highlights(g.nodes[j], RowIndex(g), k)
  }

  /**
   * The "highlight" cell of a node row holds the colour of the last placement
   * highlighting its entity, through the colour themes, and is blank when no
   * placement highlights it.
   */
  lemma ConvertHighlight(g: Graph, destination: string, themes: map<string, string>, groupLabel: string, k: int)
    requires Convert(g, destination, themes, groupLabel).Success?
    requires 0 <= k < |NonRoot(g.entities)|
    ensures var t := Convert(g, destination, themes, groupLabel).value;
      && |t.nodeRows| == |NonRoot(g.entities)|
      && (forall i :: LastHighlight(g, i, k) ==>
            Cell(t.nodeRows[k], "highlight") == Some(StrVal(ThemeColor(g.nodes[i].highlightColor.value, themes))))
      && ((forall j :: 0 <= j < |g.nodes| ==> !Highlights(g.nodes[j], RowIndex(g), k)) ==>
            Cell(t.nodeRows[k], "highlight") == None)
  {
    ConvertStages(g, destination, themes, groupLabel);
    var res, rows, filled, edgeRows, out :| Stages(g, themes, groupLabel, res, rows, filled, edgeRows, out)
      && Convert(g, destination, themes, groupLabel).value ==
           Tables(OutputPath(destination, g.title, "_edges.csv"), EdgeColumns, out.edges,
                  OutputPath(destination, g.title, "_nodes.csv"), res.header, out.nodes);
    var catLabels, kept := CategoryLabels(g.categories), NonRoot(g.entities);
    var idRank, p2e := RowIndex(g), PlacementEntities(g.nodes);
    var s := PassState(filled, edgeRows);
    NodeRowsValues(g.entities, catLabels);
    forall i | LastHighlight(g, i, k)
      ensures Cell(out.nodes[k], "highlight") == Some(StrVal(ThemeColor(g.nodes[i].highlightColor.value, themes)))
    {
      PlacementsFromHighlight(s, g.nodes, idRank, p2e, themes, MaxEdgeId(g.edges), groupLabel, i, k);
    }
    if forall j :: 0 <= j < |g.nodes| ==> !Highlights(g.nodes[j], idRank, k) {
      PlacementsFromUntouched(s, g.nodes, idRank, p2e, themes, MaxEdgeId(g.edges), groupLabel, k, "highlight");
      EntityRowFacts(kept[k], catLabels);
      PropertyColumnsNotFixed(res, g.properties, catLabels);
      ApplyAttributesUntouched(rows, g.attributes, idRank, res.columns, k, "highlight");
    }
  }
}
