/**
 * The edge table: the placement-to-entity index, the weight encoding of
 * thicknesses, one row per source edge and a reversed copy after each
 * bidirectional one.
 */
module EdgeBuilder {
  import opened Wrappers
  import opened Document

  /** The columns of the edge table. */
  const EdgeColumns: seq<string> := ["id", "source", "target", "type", "label", "weight", "note", "highlight", "hypothetic"]

  /** The weight of each named thickness. */
  const Weights: map<string, int> := map["dashed" := 1, "medium" := 3, "large" := 4]

  function PlacementPairs(ps: seq<Placement>): (pairs: seq<(int, int)>)
    ensures |pairs| == |ps| && forall i :: 0 <= i < |ps| ==> pairs[i] == (ps[i].id, ps[i].entityId)
  {
    seq(|ps|, i requires 0 <= i < |ps| => (ps[i].id, ps[i].entityId))
  }

  /** The index from a placement id to the entity it places. */
  function PlacementEntities(ps: seq<Placement>): map<int, int> {
    Assign(map[], PlacementPairs(ps))
  }

  /**
   * Every placement id is a key exactly when some placement has it, and maps
   * to the entity of the last placement with that id.
   */
  lemma PlacementEntitiesFacts(ps: seq<Placement>)
    ensures var p2e := PlacementEntities(ps);
      && (forall pid :: pid in p2e <==> exists i :: 0 <= i < |ps| && ps[i].id == pid)
      && (forall i :: 0 <= i < |ps| && (forall j :: i < j < |ps| ==> ps[j].id != ps[i].id) ==>
            p2e[ps[i].id] == ps[i].entityId)
  {
    var pairs := PlacementPairs(ps);
    AssignFacts(map[], pairs);
    assert forall i :: 0 <= i < |ps| && (forall j :: i < j < |ps| ==> ps[j].id != ps[i].id) ==> LastOfKey(pairs, i);
    forall pid | pid in PlacementEntities(ps) ensures exists i :: 0 <= i < |ps| && ps[i].id == pid {
      var i :| 0 <= i < |pairs| && pairs[i] == (pid, PlacementEntities(ps)[pid]);
      assert ps[i].id == pid;
    }
  }

  /** The weight of an edge: 2 without a thickness, the table's weight for a named one. */
  function Weight(thickness: Option<string>): Result<int, Error> {
    match thickness
    case None => Success(2)
    case Some(t) => if t in Weights then Success(Weights[t]) else Failure(UnknownThickness(t))
  }

  /** 1 for a dashed edge, 0 otherwise. */
  function Hypothetic(thickness: Option<string>): int {
    if thickness.Some? && thickness.value == "dashed" then 1 else 0
  }

  /**
   * The weight encoding: dashed is 1, medium 3, large 4, no thickness 2, and any
   * other thickness fails; an edge is hypothetic exactly when its weight is 1.
   */
  lemma WeightEncoding(thickness: Option<string>)
    ensures thickness.None? ==> Weight(thickness) == Success(2)
    ensures thickness == Some("dashed") ==> Weight(thickness) == Success(1)
    ensures thickness == Some("medium") ==> Weight(thickness) == Success(3)
    ensures thickness == Some("large") ==> Weight(thickness) == Success(4)
    ensures Weight(thickness).Failure? <==>
      thickness.Some? && thickness.value != "dashed" && thickness.value != "medium" && thickness.value != "large"
    ensures Weight(thickness).Failure? ==> Weight(thickness).error == UnknownThickness(thickness.value)
    ensures Weight(thickness).Success? ==>
      (Hypothetic(thickness) == 1 <==> Weight(thickness).value == 1) && 0 <= Hypothetic(thickness) <= 1
  {
  }

  /** The optional label, note and highlight of an edge, patched onto its row in that order. */
  function Annotate(row: Row, e: Edge, themes: map<string, string>): Row {
    var labelled := if e.caption.Some? then row["label" := StrVal(e.caption.value)] else row;
    var noted := if e.note.Some? then labelled["note" := StrVal(BlockText(e.note.value))] else labelled;
    if e.highlightColor.Some? then noted["highlight" := StrVal(ThemeColor(e.highlightColor.value, themes))] else noted
  }

  /**
   * The row of one edge. The source placement is looked up first, then the
   * target placement, then the thickness.
   */
  function EdgeRow(e: Edge, p2e: map<int, int>, themes: map<string, string>): Result<Row, Error> {
    if e.source !in p2e then Failure(UnknownPlacement(e.source))
    else if e.target !in p2e then Failure(UnknownPlacement(e.target))
    else
      match Weight(e.thickness)
      case Failure(err) => Failure(err)
      case Success(w) =>
        var row: Row := map[
          "id" := IntVal(e.id),
          "source" := IntVal(p2e[e.source]),
          "target" := IntVal(p2e[e.target]),
          "type" := StrVal("directed"),
          "weight" := IntVal(w),
          "hypothetic" := IntVal(Hypothetic(e.thickness))];
        Success(Annotate(row, e, themes))
  }

  /**
   * An edge's row fails exactly when a placement endpoint or the thickness is
   * unknown, with the first failing lookup's error. Otherwise its source and
   * target are the entities of its endpoints, its type is "directed", its
   * weight and hypothetic flag encode its thickness, and it has a label, a note
   * and a highlight exactly when the edge has them.
   */
  lemma EdgeRowFacts(e: Edge, p2e: map<int, int>, themes: map<string, string>)
    ensures var r := EdgeRow(e, p2e, themes);
      && (r.Success? <==> e.source in p2e && e.target in p2e && Weight(e.thickness).Success?)
      && (r.Failure? ==> (r.error ==
            if e.source !in p2e then UnknownPlacement(e.source)
            else if e.target !in p2e then UnknownPlacement(e.target)
            else Weight(e.thickness).error))
      && (r.Success? ==>
            && (forall c :: c in r.value <==>
                  c in ["id", "source", "target", "type", "weight", "hypothetic"]
                  || (c == "label" && e.caption.Some?) || (c == "note" && e.note.Some?)
                  || (c == "highlight" && e.highlightColor.Some?))
            && r.value["id"] == IntVal(e.id)
            && r.value["source"] == IntVal(p2e[e.source])
            && r.value["target"] == IntVal(p2e[e.target])
            && r.value["type"] == StrVal("directed")
            && r.value["weight"] == IntVal(Weight(e.thickness).value)
            && r.value["hypothetic"] == IntVal(Hypothetic(e.thickness))
            && (e.caption.Some? ==> r.value["label"] == StrVal(e.caption.value))
            && (e.note.Some? ==> r.value["note"] == StrVal(BlockText(e.note.value)))
            && (e.highlightColor.Some? ==> r.value["highlight"] == StrVal(ThemeColor(e.highlightColor.value, themes))))
  {
  }

  /** The reversed copy of a row: source and target swapped, a new id, every other cell the same. */
  function Reversed(row: Row, id: int): Row
    requires "source" in row && "target" in row
  {
    row["source" := row["target"]]["target" := row["source"]]["id" := IntVal(id)]
  }

  /** The largest edge id, `None` when there are no edges. */
  function MaxEdgeId(edges: seq<Edge>): (m: Option<int>)
    ensures m.None? <==> |edges| == 0
    ensures m.Some? ==>
      (forall i :: 0 <= i < |edges| ==> edges[i].id <= m.value) && exists i :: 0 <= i < |edges| && edges[i].id == m.value
    decreases |edges|
  {
    if |edges| == 0 then None
    else
      match MaxEdgeId(edges[1..])
      case None => Some(edges[0].id)
      case Some(rest) =>
        assert forall i :: 1 <= i < |edges| ==> edges[i] == edges[1..][i - 1];
        Some(if edges[0].id >= rest then edges[0].id else rest)
  }

  /** The rows of one edge: its own row, then the reversed copy if it is bidirectional. */
  function EdgeRowsOf(e: Edge, p2e: map<int, int>, themes: map<string, string>, maxId: int): Result<seq<Row>, Error> {
    match EdgeRow(e, p2e, themes)
    case Failure(err) => Failure(err)
    case Success(row) =>
      EdgeRowFacts(e, p2e, themes);
      if e.isBidirectional then Success([row, Reversed(row, 2 * maxId + e.id)]) else Success([row])
  }

  /** The edge loop from the rows `acc` already emitted. */
  function EdgeRowsFrom(acc: seq<Row>, edges: seq<Edge>, p2e: map<int, int>, themes: map<string, string>, maxId: int)
    : Result<seq<Row>, Error>
    decreases |edges|
  {
    if |edges| == 0 then Success(acc)
    else
      match EdgeRowsOf(edges[0], p2e, themes, maxId)
      case Failure(err) => Failure(err)
      case Success(rows) => EdgeRowsFrom(acc + rows, edges[1..], p2e, themes, maxId)
  }

  /** The edge table before the containment edges. */
  function EdgeRows(edges: seq<Edge>, p2e: map<int, int>, themes: map<string, string>): Result<seq<Row>, Error> {
    match MaxEdgeId(edges)
    case None => Success([])
    case Some(m) => EdgeRowsFrom([], edges, p2e, themes, m)
  }

  /** Patch the optional label, note and highlight of an edge onto the last row. */
  method PatchLast(rows: seq<Row>, e: Edge, themes: map<string, string>) returns (r: seq<Row>)
    requires |rows| > 0
    ensures r == rows[..|rows| - 1] + [Annotate(rows[|rows| - 1], e, themes)]
  {
    r := rows;
    var last := |r| - 1;
    if e.caption.Some? {
      r := r[last := r[last]["label" := StrVal(e.caption.value)]];
    }
    if e.note.Some? {
      r := r[last := r[last]["note" := StrVal(BlockText(e.note.value))]];
    }
    if e.highlightColor.Some? {
      if e.highlightColor.value in themes {
        r := r[last := r[last]["highlight" := StrVal(themes[e.highlightColor.value])]];
      } else {
        r := r[last := r[last]["highlight" := StrVal(e.highlightColor.value)]];
      }
    }
    assert r == rows[..last] + [r[last]];
  }

  /** Append a copy of the last row, then swap its source and target and give it the id `id`. */
  method AppendReversed(rows: seq<Row>, id: int) returns (r: seq<Row>)
    requires |rows| > 0 && "source" in rows[|rows| - 1] && "target" in rows[|rows| - 1]
    ensures r == rows + [Reversed(rows[|rows| - 1], id)]
  {
    r := rows + [rows[|rows| - 1]];
    var copy := |r| - 1;
    var source, target := r[copy]["target"], r[copy]["source"];
    r := r[copy := r[copy]["source" := source]["target" := target]];
    r := r[copy := r[copy]["id" := IntVal(id)]];
    assert r == rows + [r[copy]];
  }

  /** One turn of the edge loop. */
  method AppendEdge(rows: seq<Row>, e: Edge, p2e: map<int, int>, themes: map<string, string>, maxId: int)
    returns (r: Result<seq<Row>, Error>)
    ensures r == match EdgeRowsOf(e, p2e, themes, maxId)
      case Failure(err) => Failure(err)
      case Success(added) => Success(rows + added)
  {
    if e.source !in p2e {
      return Failure(UnknownPlacement(e.source));
    }
    if e.target !in p2e {
      return Failure(UnknownPlacement(e.target));
    }
    var weight := 2;
    if e.thickness.Some? {
      if e.thickness.value !in Weights {
        return Failure(UnknownThickness(e.thickness.value));
      }
      weight := Weights[e.thickness.value];
    }
    var hypothetic := if e.thickness.Some? && e.thickness.value == "dashed" then 1 else 0;
    var row: Row := map[
      "id" := IntVal(e.id),
      "source" := IntVal(p2e[e.source]),
      "target" := IntVal(p2e[e.target]),
      "type" := StrVal("directed"),
      "weight" := IntVal(weight),
      "hypothetic" := IntVal(hypothetic)];
    assert Weight(e.thickness) == Success(weight);
    assert EdgeRow(e, p2e, themes) == Success(Annotate(row, e, themes));
    var emitted := PatchLast(rows + [row], e, themes);
    assert (rows + [row])[..|rows|] == rows;
    assert emitted == rows + [Annotate(row, e, themes)];
    var annotated := Annotate(row, e, themes);
    assert EdgeRowsOf(e, p2e, themes, maxId)
      == Success(if e.isBidirectional then [annotated, Reversed(annotated, 2 * maxId + e.id)] else [annotated]);
    if e.isBidirectional {
      emitted := AppendReversed(emitted, maxId * 2 + e.id);
      assert emitted == rows + [annotated, Reversed(annotated, 2 * maxId + e.id)];
    }
    return Success(emitted);
  }

  /** The edge loop, appending each edge's rows. */
  method BuildEdges(edges: seq<Edge>, p2e: map<int, int>, themes: map<string, string>)
    returns (r: Result<seq<Row>, Error>)
    ensures r == EdgeRows(edges, p2e, themes)
  {
    var rows: seq<Row> := [];
    for i := 0 to |edges|
      invariant |edges| == 0 ==> rows == []
      invariant |edges| > 0 ==>
        EdgeRows(edges, p2e, themes) == EdgeRowsFrom(rows, edges[i..], p2e, themes, MaxEdgeId(edges).value)
    {
      assert edges[i..][1..] == edges[i + 1..];
      var appended := AppendEdge(rows, edges[i], p2e, themes, MaxEdgeId(edges).value);
      if appended.Failure? {
        return Failure(appended.error);
      }
      rows := appended.value;
    }
    assert edges[|edges|..] == [];
    return Success(rows);
  }

  /**
   * An edge yields its own row, then, when it is bidirectional, a copy with the
   * same cells except that source and target are swapped and the id is
   * `2 * maxId + id`. It fails exactly when its own row does.
   */
  lemma EdgeRowsOfFacts(e: Edge, p2e: map<int, int>, themes: map<string, string>, maxId: int)
    ensures EdgeRowsOf(e, p2e, themes, maxId).Success? <==> EdgeRow(e, p2e, themes).Success?
    ensures EdgeRowsOf(e, p2e, themes, maxId).Failure? ==>
      EdgeRowsOf(e, p2e, themes, maxId).error == EdgeRow(e, p2e, themes).error
    ensures EdgeRowsOf(e, p2e, themes, maxId).Success? ==>
      var rows, row := EdgeRowsOf(e, p2e, themes, maxId).value, EdgeRow(e, p2e, themes).value;
      && |rows| == (if e.isBidirectional then 2 else 1)
      && rows[0] == row
      && (e.isBidirectional ==>
            && (forall c :: c in rows[1] <==> c in row)
            && "source" in row && "target" in row
            && rows[1]["source"] == row["target"]
            && rows[1]["target"] == row["source"]
            && rows[1]["id"] == IntVal(2 * maxId + e.id)
            && forall c :: c in row && c != "source" && c != "target" && c != "id" ==> rows[1][c] == row[c])
  {
    EdgeRowFacts(e, p2e, themes);
  }

  /** The number of rows the edges `edges` emit. */
  function RowCount(edges: seq<Edge>): nat
    decreases |edges|
  {
    if |edges| == 0 then 0 else (if edges[0].isBidirectional then 2 else 1) + RowCount(edges[1..])
  }

  /** The row of edge `i` is the first of `edges` to fail. */
  ghost predicate FirstFailingEdge(edges: seq<Edge>, p2e: map<int, int>, themes: map<string, string>, i: int)
    requires 0 <= i < |edges|
  {
    EdgeRow(edges[i], p2e, themes).Failure? && forall j :: 0 <= j < i ==> EdgeRow(edges[j], p2e, themes).Success?
  }

  /** The edge loop from `acc`, unrolled once. */
  lemma EdgeRowsFromCons(acc: seq<Row>, edges: seq<Edge>, p2e: map<int, int>, themes: map<string, string>, maxId: int)
    requires |edges| > 0
    ensures var head := EdgeRowsOf(edges[0], p2e, themes, maxId);
      EdgeRowsFrom(acc, edges, p2e, themes, maxId) ==
        if head.Failure? then Failure(head.error)
        else EdgeRowsFrom(acc + head.value, edges[1..], p2e, themes, maxId)
  {
  }

  /** The edge loop succeeds exactly when the row of every edge does. */
  lemma {:induction false} EdgeRowsFromSuccess(acc: seq<Row>, edges: seq<Edge>, p2e: map<int, int>,
                                               themes: map<string, string>, maxId: int)
    ensures EdgeRowsFrom(acc, edges, p2e, themes, maxId).Success?
      <==> forall i :: 0 <= i < |edges| ==> EdgeRow(edges[i], p2e, themes).Success?
    decreases |edges|
  {
    if |edges| > 0 {
      var e, rest := edges[0], edges[1..];
      assert forall i :: 1 <= i < |edges| ==> edges[i] == rest[i - 1];
      EdgeRowsFromCons(acc, edges, p2e, themes, maxId);
      EdgeRowsOfFacts(e, p2e, themes, maxId);
      if EdgeRow(e, p2e, themes).Success? {
        var acc' := acc + EdgeRowsOf(e, p2e, themes, maxId).value;
        EdgeRowsFromSuccess(acc', rest, p2e, themes, maxId);
        if forall i :: 0 <= i < |rest| ==> EdgeRow(rest[i], p2e, themes).Success? {
          forall i | 0 <= i < |edges| ensures EdgeRow(edges[i], p2e, themes).Success? {
            if i > 0 { assert edges[i] == rest[i - 1]; }
          }
        } else {
          var i :| 0 <= i < |rest| && !EdgeRow(rest[i], p2e, themes).Success?;
          assert edges[i + 1] == rest[i];
          EdgeRowsFromSuccess(acc', rest, p2e, themes, maxId);
        }
      }
    }
  }

  /** Otherwise it fails with the error of the first edge whose row fails. */
  lemma {:induction false} EdgeRowsFromError(acc: seq<Row>, edges: seq<Edge>, p2e: map<int, int>,
                                             themes: map<string, string>, maxId: int)
    requires EdgeRowsFrom(acc, edges, p2e, themes, maxId).Failure?
    ensures exists i :: (0 <= i < |edges| && FirstFailingEdge(edges, p2e, themes, i)
      && EdgeRow(edges[i], p2e, themes) == Failure(EdgeRowsFrom(acc, edges, p2e, themes, maxId).error))
    decreases |edges|
  {
    var e, rest := edges[0], edges[1..];
    assert forall i :: 1 <= i < |edges| ==> edges[i] == rest[i - 1];
    EdgeRowsFromCons(acc, edges, p2e, themes, maxId);
    EdgeRowsOfFacts(e, p2e, themes, maxId);
    if EdgeRow(e, p2e, themes).Success? {
      var acc' := acc + EdgeRowsOf(e, p2e, themes, maxId).value;
      EdgeRowsFromError(acc', rest, p2e, themes, maxId);
      var i :| 0 <= i < |rest| && FirstFailingEdge(rest, p2e, themes, i)
        && EdgeRow(rest[i], p2e, themes) == Failure(EdgeRowsFrom(acc', rest, p2e, themes, maxId).error);
      var w := i + 1;
      assert edges[w] == rest[i];
      forall j | 0 <= j < w ensures EdgeRow(edges[j], p2e, themes).Success? {
        if j > 0 { assert edges[j] == rest[j - 1]; }
      }
      assert FirstFailingEdge(edges, p2e, themes, w);
    } else {
      assert FirstFailingEdge(edges, p2e, themes, 0);
    }
  }

  /** The loop keeps the rows already emitted and emits `RowCount` more. */
  lemma {:induction false} EdgeRowsFromLength(acc: seq<Row>, edges: seq<Edge>, p2e: map<int, int>,
                                              themes: map<string, string>, maxId: int)
    requires EdgeRowsFrom(acc, edges, p2e, themes, maxId).Success?
    ensures var out := EdgeRowsFrom(acc, edges, p2e, themes, maxId).value;
      |out| == |acc| + RowCount(edges) && out[..|acc|] == acc
    decreases |edges|
  {
    if |edges| > 0 {
      var e, rest := edges[0], edges[1..];
      EdgeRowsFromCons(acc, edges, p2e, themes, maxId);
      EdgeRowsOfFacts(e, p2e, themes, maxId);
      var added := EdgeRowsOf(e, p2e, themes, maxId).value;
      EdgeRowsFromLength(acc + added, rest, p2e, themes, maxId);
      var out := EdgeRowsFrom(acc, edges, p2e, themes, maxId).value;
      assert out[..|acc|] == out[..|acc + added|][..|acc|];
    } else {
      assert acc[..|acc|] == acc;
    }
  }

  /**
   * The rows of edge `i` sit at offset `RowCount(edges[..i])` past the rows
   * already emitted: the edges keep their order, and a reversed copy
   * immediately follows its edge's row.
   */
  lemma {:induction false} EdgeRowsFromAt(acc: seq<Row>, edges: seq<Edge>, p2e: map<int, int>,
                                          themes: map<string, string>, maxId: int, i: int)
    requires EdgeRowsFrom(acc, edges, p2e, themes, maxId).Success?
    requires 0 <= i < |edges|
    ensures EdgeRowsOf(edges[i], p2e, themes, maxId).Success?
    ensures var out, o, rows :=
        EdgeRowsFrom(acc, edges, p2e, themes, maxId).value,
        |acc| + RowCount(edges[..i]),
        EdgeRowsOf(edges[i], p2e, themes, maxId).value;
      o + |rows| <= |out| && out[o..o + |rows|] == rows
    decreases |edges|
  {
    var e, rest := edges[0], edges[1..];
    EdgeRowsFromCons(acc, edges, p2e, themes, maxId);
    EdgeRowsOfFacts(e, p2e, themes, maxId);
    var added := EdgeRowsOf(e, p2e, themes, maxId).value;
    var out := EdgeRowsFrom(acc, edges, p2e, themes, maxId).value;
    if i == 0 {
      EdgeRowsFromLength(acc + added, rest, p2e, themes, maxId);
      assert edges[..0] == [];
      assert out[|acc|..|acc| + |added|] == out[..|acc + added|][|acc|..];
    } else {
      EdgeRowsFromAt(acc + added, rest, p2e, themes, maxId, i - 1);
      assert edges[i] == rest[i - 1];
      assert edges[..i][1..] == rest[..i - 1];
      assert RowCount(edges[..i]) == |added| + RowCount(rest[..i - 1]);
    }
  }

  /** The ids the edges' rows carry: each edge's id, then `2 * maxId + id` for a bidirectional one. */
  function ExpandedIds(edges: seq<Edge>, maxId: int): seq<Option<Value>>
    decreases |edges|
  {
    if |edges| == 0 then []
    else
      [Some(IntVal(edges[0].id))]
      + (if edges[0].isBidirectional then [Some(IntVal(2 * maxId + edges[0].id))] else [])
      + ExpandedIds(edges[1..], maxId)
  }

  /** The ids of one edge's rows. */
  lemma EdgeRowsOfIds(e: Edge, p2e: map<int, int>, themes: map<string, string>, maxId: int)
    requires EdgeRowsOf(e, p2e, themes, maxId).Success?
    ensures IdColumn(EdgeRowsOf(e, p2e, themes, maxId).value)
      == [Some(IntVal(e.id))] + (if e.isBidirectional then [Some(IntVal(2 * maxId + e.id))] else [])
  {
    var row := EdgeRow(e, p2e, themes).value;
    assert row["id"] == IntVal(e.id);
  }

  /** The "id" column of the loop's rows is that of `acc` followed by `ExpandedIds`. */
  lemma {:induction false} EdgeRowsFromIds(acc: seq<Row>, edges: seq<Edge>, p2e: map<int, int>,
                                           themes: map<string, string>, maxId: int)
    requires EdgeRowsFrom(acc, edges, p2e, themes, maxId).Success?
    ensures IdColumn(EdgeRowsFrom(acc, edges, p2e, themes, maxId).value) == IdColumn(acc) + ExpandedIds(edges, maxId)
    decreases |edges|
  {
    if |edges| == 0 {
      assert IdColumn(acc) + [] == IdColumn(acc);
    } else {
      var e, rest := edges[0], edges[1..];
      EdgeRowsFromCons(acc, edges, p2e, themes, maxId);
      EdgeRowsOfIds(e, p2e, themes, maxId);
      var added := EdgeRowsOf(e, p2e, themes, maxId).value;
      EdgeRowsFromIds(acc + added, rest, p2e, themes, maxId);
      IdColumnAppend(acc, added);
      var own := [Some(IntVal(e.id))] + (if e.isBidirectional then [Some(IntVal(2 * maxId + e.id))] else []);
      assert ExpandedIds(edges, maxId) == own + ExpandedIds(rest, maxId);
    }
  }

  /** Every edge id lies in `1..maxId`. */
  ghost predicate IdsWithin(edges: seq<Edge>, maxId: int) {
    forall i :: 0 <= i < |edges| ==> 1 <= edges[i].id <= maxId
  }

  /** No two edges share an id. */
  ghost predicate DistinctEdgeIds(edges: seq<Edge>) {
    forall i, j :: 0 <= i < j < |edges| ==> edges[i].id != edges[j].id
  }

  /** Every expanded id is an edge's id or the reversed id of a bidirectional edge. */
  lemma {:induction false} ExpandedIdsOrigin(edges: seq<Edge>, maxId: int)
    ensures forall x :: x in ExpandedIds(edges, maxId) ==> exists i :: (0 <= i < |edges| &&
      (x == Some(IntVal(edges[i].id)) || (edges[i].isBidirectional && x == Some(IntVal(2 * maxId + edges[i].id)))))
    decreases |edges|
  {
    if |edges| > 0 {
      var e, rest := edges[0], edges[1..];
      ExpandedIdsOrigin(rest, maxId);
      forall x | x in ExpandedIds(edges, maxId) ensures exists i :: (0 <= i < |edges| &&
        (x == Some(IntVal(edges[i].id)) || (edges[i].isBidirectional && x == Some(IntVal(2 * maxId + edges[i].id)))))
      {
        if x != Some(IntVal(e.id)) && !(e.isBidirectional && x == Some(IntVal(2 * maxId + e.id))) {
          assert x in ExpandedIds(rest, maxId);
          var i :| 0 <= i < |rest| &&
            (x == Some(IntVal(rest[i].id)) || (rest[i].isBidirectional && x == Some(IntVal(2 * maxId + rest[i].id))));
          assert edges[i + 1] == rest[i];
        }
      }
    }
  }

  /**
   * With distinct edge ids in `1..maxId`, own ids fall in `1..maxId` and
   * reversed ids in `2 * maxId + 1..3 * maxId`, so no two expanded ids collide.
   */
  lemma {:induction false} ExpandedIdsDistinct(edges: seq<Edge>, maxId: int)
    requires IdsWithin(edges, maxId) && DistinctEdgeIds(edges)
    ensures NoDuplicates(ExpandedIds(edges, maxId))
    ensures forall x :: x in ExpandedIds(edges, maxId) ==> x.Some? && x.value.IntVal? && 1 <= x.value.i <= 3 * maxId
    decreases |edges|
  {
    ExpandedIdsOrigin(edges, maxId);
    if |edges| > 0 {
      var e, rest := edges[0], edges[1..];
      assert forall i :: 1 <= i < |edges| ==> edges[i] == rest[i - 1];
      ExpandedIdsDistinct(rest, maxId);
      ExpandedIdsOrigin(rest, maxId);
      var own := [Some(IntVal(e.id))] + (if e.isBidirectional then [Some(IntVal(2 * maxId + e.id))] else []);
      var tail := ExpandedIds(rest, maxId);
      assert ExpandedIds(edges, maxId) == own + tail;
      forall x | x in own ensures x !in tail {
        forall i | 0 <= i < |rest|
          ensures x != Some(IntVal(rest[i].id)) && x != Some(IntVal(2 * maxId + rest[i].id))
        {
          assert edges[i + 1] == rest[i];
        }
      }
      NoDuplicatesAppend(own, tail);
    }
  }

  /** Every row the edge loop emits has its cells in the edge columns. */
  lemma {:induction false} EdgeRowsFromKeys(acc: seq<Row>, edges: seq<Edge>, p2e: map<int, int>,
                                            themes: map<string, string>, maxId: int)
    requires EdgeRowsFrom(acc, edges, p2e, themes, maxId).Success?
    requires KeysWithin(acc, EdgeColumns)
    ensures KeysWithin(EdgeRowsFrom(acc, edges, p2e, themes, maxId).value, EdgeColumns)
    decreases |edges|
  {
    if |edges| > 0 {
      var e := edges[0];
      EdgeRowsOfFacts(e, p2e, themes, maxId);
      EdgeRowFacts(e, p2e, themes);
      var rows := EdgeRowsOf(e, p2e, themes, maxId).value;
      assert KeysWithin(rows, EdgeColumns);
      forall k, c | 0 <= k < |acc + rows| && c in (acc + rows)[k] ensures c in EdgeColumns {
        if k >= |acc| { assert (acc + rows)[k] == rows[k - |acc|]; }
      }
      EdgeRowsFromKeys(acc + rows, edges[1..], p2e, themes, maxId);
    }
  }
}
