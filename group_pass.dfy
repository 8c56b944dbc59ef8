/**
 * The placement pass: a placement's highlight colour is written onto its
 * entity's node row, and every grouped placement adds a containment edge from
 * its entity to the entity of its group's placement.
 */
module GroupPass {
  import opened Wrappers
  import opened Document
  import opened NodeBuilder

  /** The node rows and the edge rows, as the placement loop updates them. */
  datatype PassState = PassState(nodes: seq<Row>, edges: seq<Row>)

  /** A placement that is not the root placement and sits in a group. */
  predicate IsGrouped(p: Placement) {
    p.id != 0 && p.groupId != 0
  }

  /** The containment edge of a grouped placement whose group is placed on entity `target`. */
  function ContainmentRow(p: Placement, target: int, maxId: int, groupLabel: string): Row {
    map[
      "id" := IntVal(3 * maxId + p.id),
      "source" := IntVal(p.entityId),
      "target" := IntVal(target),
      "label" := StrVal(groupLabel),
      "type" := StrVal("directed"),
      "weight" := IntVal(2),
      "hypothetic" := IntVal(0)]
  }

  /**
   * One turn of the placement loop: the highlight first (the entity's row is
   * looked up), then the containment edge (the largest edge id is taken before
   * the group's placement is looked up).
   */
  function PlacementStep(s: PassState, p: Placement, idRank: map<int, nat>, p2e: map<int, int>,
                         themes: map<string, string>, maxId: Option<int>, groupLabel: string)
    : (r: Result<PassState, Error>)
    requires RanksWithin(idRank, |s.nodes|)
    ensures r.Success? ==> |r.value.nodes| == |s.nodes|
  {
    var highlighted :=
      if p.highlightColor.None? then Success(s.nodes)
      else if p.entityId !in idRank then Failure(UnknownEntity(p.entityId))
      else
        var k := idRank[p.entityId];
        Success(s.nodes[k := s.nodes[k]["highlight" := StrVal(ThemeColor(p.highlightColor.value, themes))]]);
    match highlighted
    case Failure(err) => Failure(err)
    case Success(nodes) =>
      if !IsGrouped(p) then Success(PassState(nodes, s.edges))
      else if maxId.None? then Failure(NoEdges)
      else if p.groupId !in p2e then Failure(UnknownPlacement(p.groupId))
      else Success(PassState(nodes, s.edges + [ContainmentRow(p, p2e[p.groupId], maxId.value, groupLabel)]))
  }

  /** The placement loop over `ps`, from state `s`. */
  function PlacementsFrom(s: PassState, ps: seq<Placement>, idRank: map<int, nat>, p2e: map<int, int>,
                          themes: map<string, string>, maxId: Option<int>, groupLabel: string)
    : (r: Result<PassState, Error>)
    requires RanksWithin(idRank, |s.nodes|)
    ensures r.Success? ==> |r.value.nodes| == |s.nodes|
    decreases |ps|
  {
    if |ps| == 0 then Success(s)
    else
      match PlacementStep(s, ps[0], idRank, p2e, themes, maxId, groupLabel)
      case Failure(err) => Failure(err)
      case Success(s') => PlacementsFrom(s', ps[1..], idRank, p2e, themes, maxId, groupLabel)
  }

  /**
   * The placement loop: highlight node rows in place and append containment
   * edges to `edges`, returning the edge table.
   */
  method ApplyPlacements(nodes: array<Row>, edges: seq<Row>, ps: seq<Placement>, idRank: map<int, nat>,
                         p2e: map<int, int>, themes: map<string, string>, maxId: Option<int>, groupLabel: string)
    returns (r: Result<seq<Row>, Error>)
    requires RanksWithin(idRank, nodes.Length)
    modifies nodes
    ensures var spec := PlacementsFrom(PassState(old(nodes[..]), edges), ps, idRank, p2e, themes, maxId, groupLabel);
      && (r.Success? <==> spec.Success?)
      && (r.Failure? ==> r.error == spec.error)
      && (r.Success? ==> nodes[..] == spec.value.nodes && r.value == spec.value.edges)
  {
    var rows := edges;
    for i := 0 to |ps|
      invariant PlacementsFrom(PassState(old(nodes[..]), edges), ps, idRank, p2e, themes, maxId, groupLabel)
        == PlacementsFrom(PassState(nodes[..], rows), ps[i..], idRank, p2e, themes, maxId, groupLabel)
    {
      var p := ps[i];
      assert ps[i..][1..] == ps[i + 1..];
      if p.highlightColor.Some? {
        if p.entityId !in idRank {
          return Failure(UnknownEntity(p.entityId));
        }
        var k := idRank[p.entityId];
        if p.highlightColor.value in themes {
          nodes[k] := nodes[k]["highlight" := StrVal(themes[p.highlightColor.value])];
        } else {
          nodes[k] := nodes[k]["highlight" := StrVal(p.highlightColor.value)];
        }
      }
      if p.id != 0 && p.groupId != 0 {
        if maxId.None? {
          return Failure(NoEdges);
        }
        if p.groupId !in p2e {
          return Failure(UnknownPlacement(p.groupId));
        }
        rows := rows + [map[
          "id" := IntVal(maxId.value * 3 + p.id),
          "source" := IntVal(p.entityId),
          "target" := IntVal(p2e[p.groupId]),
          "label" := StrVal(groupLabel),
          "type" := StrVal("directed"),
          "weight" := IntVal(2),
          "hypothetic" := IntVal(0)]];
      }
    }
    assert ps[|ps|..] == [];
    return Success(rows);
  }

  /** Placement `p` cannot be processed: its highlighted entity has no row, or its containment edge cannot be built. */
  ghost predicate Blocked(p: Placement, idRank: map<int, nat>, p2e: map<int, int>, maxId: Option<int>) {
    || (p.highlightColor.Some? && p.entityId !in idRank)
    || (IsGrouped(p) && (maxId.None? || p.groupId !in p2e))
  }

  /** The error of a blocked placement: the row lookup, then the largest edge id, then the group lookup. */
  function StepError(p: Placement, idRank: map<int, nat>, maxId: Option<int>): Error {
    if p.highlightColor.Some? && p.entityId !in idRank then UnknownEntity(p.entityId)
    else if maxId.None? then NoEdges
    else UnknownPlacement(p.groupId)
  }

  /** A turn of the placement loop fails exactly when the placement is blocked, with its error. */
  lemma PlacementStepFailure(s: PassState, p: Placement, idRank: map<int, nat>, p2e: map<int, int>,
                             themes: map<string, string>, maxId: Option<int>, groupLabel: string)
    requires RanksWithin(idRank, |s.nodes|)
    ensures var r := PlacementStep(s, p, idRank, p2e, themes, maxId, groupLabel);
      (r.Failure? <==> Blocked(p, idRank, p2e, maxId)) && (r.Failure? ==> r.error == StepError(p, idRank, maxId))
  {
  }

  /** The placement loop, unrolled once. */
  lemma PlacementsFromCons(s: PassState, ps: seq<Placement>, idRank: map<int, nat>, p2e: map<int, int>,
                           themes: map<string, string>, maxId: Option<int>, groupLabel: string)
    requires RanksWithin(idRank, |s.nodes|) && |ps| > 0
    ensures var head := PlacementStep(s, ps[0], idRank, p2e, themes, maxId, groupLabel);
      && (head.Success? ==> RanksWithin(idRank, |head.value.nodes|))
      && PlacementsFrom(s, ps, idRank, p2e, themes, maxId, groupLabel) ==
           if head.Failure? then Failure(head.error)
           else PlacementsFrom(head.value, ps[1..], idRank, p2e, themes, maxId, groupLabel)
  {
  }

  /** The placement loop succeeds exactly when no placement is blocked. */
  lemma {:induction false} PlacementsFromSuccess(s: PassState, ps: seq<Placement>, idRank: map<int, nat>,
                                                 p2e: map<int, int>, themes: map<string, string>,
                                                 maxId: Option<int>, groupLabel: string)
    requires RanksWithin(idRank, |s.nodes|)
    ensures PlacementsFrom(s, ps, idRank, p2e, themes, maxId, groupLabel).Success?
      <==> forall i :: 0 <= i < |ps| ==> !Blocked(ps[i], idRank, p2e, maxId)
    decreases |ps|
  {
    if |ps| > 0 {
      var p, rest := ps[0], ps[1..];
      assert forall i :: 1 <= i < |ps| ==> ps[i] == rest[i - 1];
      PlacementsFromCons(s, ps, idRank, p2e, themes, maxId, groupLabel);
      PlacementStepFailure(s, p, idRank, p2e, themes, maxId, groupLabel);
      if !Blocked(p, idRank, p2e, maxId) {
        var s' := PlacementStep(s, p, idRank, p2e, themes, maxId, groupLabel).value;
        PlacementsFromSuccess(s', rest, idRank, p2e, themes, maxId, groupLabel);
        if forall i :: 0 <= i < |rest| ==> !Blocked(rest[i], idRank, p2e, maxId) {
          forall i | 0 <= i < |ps| ensures !Blocked(ps[i], idRank, p2e, maxId) {
            if i > 0 { assert ps[i] == rest[i - 1]; }
          }
        } else {
          var i :| 0 <= i < |rest| && Blocked(rest[i], idRank, p2e, maxId);
          assert ps[i + 1] == rest[i];
          PlacementsFromSuccess(s', rest, idRank, p2e, themes, maxId, groupLabel);
        }
      }
    }
  }

  /** Placement `i` is the first blocked one. */
  ghost predicate FirstBlocked(ps: seq<Placement>, idRank: map<int, nat>, p2e: map<int, int>, maxId: Option<int>, i: int)
    requires 0 <= i < |ps|
  {
    Blocked(ps[i], idRank, p2e, maxId) && forall j :: 0 <= j < i ==> !Blocked(ps[j], idRank, p2e, maxId)
  }

  /** Otherwise the loop fails with the error of the first blocked placement. */
  lemma {:induction false} PlacementsFromError(s: PassState, ps: seq<Placement>, idRank: map<int, nat>,
                                               p2e: map<int, int>, themes: map<string, string>,
                                               maxId: Option<int>, groupLabel: string)
    requires RanksWithin(idRank, |s.nodes|)
    requires PlacementsFrom(s, ps, idRank, p2e, themes, maxId, groupLabel).Failure?
    ensures exists i :: (0 <= i < |ps| && FirstBlocked(ps, idRank, p2e, maxId, i)
      && PlacementsFrom(s, ps, idRank, p2e, themes, maxId, groupLabel).error == StepError(ps[i], idRank, maxId))
    decreases |ps|
  {
    var p, rest := ps[0], ps[1..];
    assert forall i :: 1 <= i < |ps| ==> ps[i] == rest[i - 1];
    PlacementsFromCons(s, ps, idRank, p2e, themes, maxId, groupLabel);
    PlacementStepFailure(s, p, idRank, p2e, themes, maxId, groupLabel);
    if !Blocked(p, idRank, p2e, maxId) {
      var s' := PlacementStep(s, p, idRank, p2e, themes, maxId, groupLabel).value;
      PlacementsFromError(s', rest, idRank, p2e, themes, maxId, groupLabel);
      var i :| 0 <= i < |rest| && FirstBlocked(rest, idRank, p2e, maxId, i)
        && PlacementsFrom(s', rest, idRank, p2e, themes, maxId, groupLabel).error == StepError(rest[i], idRank, maxId);
      var w := i + 1;
      assert ps[w] == rest[i];
      forall j | 0 <= j < w ensures !Blocked(ps[j], idRank, p2e, maxId) {
        if j > 0 { assert ps[j] == rest[j - 1]; }
      }
      assert FirstBlocked(ps, idRank, p2e, maxId, w);
    } else {
      assert FirstBlocked(ps, idRank, p2e, maxId, 0);
    }
  }

  /** The grouped placements, in order. */
  function Grouped(ps: seq<Placement>): seq<Placement>
    decreases |ps|
  {
    if |ps| == 0 then [] else (if IsGrouped(ps[0]) then [ps[0]] else []) + Grouped(ps[1..])
  }

  /** The filter keeps exactly the grouped placements. */
  lemma {:induction false} GroupedMembers(ps: seq<Placement>)
    ensures forall p :: p in Grouped(ps) <==> p in ps && IsGrouped(p)
    decreases |ps|
  {
    if |ps| > 0 {
      GroupedMembers(ps[1..]);
      assert ps == [ps[0]] + ps[1..];
    }
  }

  /**
   * The loop appends one containment edge per grouped placement, in placement
   * order, after the edges already there: from the placement's entity to the
   * entity of its group's placement, with id `3 * maxId + id`, the group label,
   * weight 2 and hypothetic 0.
   */
  lemma {:induction false} PlacementsFromEdges(s: PassState, ps: seq<Placement>, idRank: map<int, nat>,
                                               p2e: map<int, int>, themes: map<string, string>,
                                               maxId: Option<int>, groupLabel: string)
    requires RanksWithin(idRank, |s.nodes|)
    requires PlacementsFrom(s, ps, idRank, p2e, themes, maxId, groupLabel).Success?
    ensures var out, g := PlacementsFrom(s, ps, idRank, p2e, themes, maxId, groupLabel).value, Grouped(ps);
      && |out.edges| == |s.edges| + |g|
      && out.edges[..|s.edges|] == s.edges
      && (|g| > 0 ==> maxId.Some?)
      && forall r :: 0 <= r < |g| ==>
           g[r].groupId in p2e && out.edges[|s.edges| + r] == ContainmentRow(g[r], p2e[g[r].groupId], maxId.value, groupLabel)
    decreases |ps|
  {
    if |ps| == 0 {
      assert s.edges[..|s.edges|] == s.edges;
    } else {
      var p, rest := ps[0], ps[1..];
      PlacementsFromCons(s, ps, idRank, p2e, themes, maxId, groupLabel);
      var s' := PlacementStep(s, p, idRank, p2e, themes, maxId, groupLabel).value;
      PlacementsFromEdges(s', rest, idRank, p2e, themes, maxId, groupLabel);
      var out := PlacementsFrom(s, ps, idRank, p2e, themes, maxId, groupLabel).value;
      var g, g' := Grouped(ps), Grouped(rest);
      if IsGrouped(p) {
        assert g == [p] + g';
        assert s'.edges == s.edges + [ContainmentRow(p, p2e[p.groupId], maxId.value, groupLabel)];
        assert out.edges[..|s.edges|] == out.edges[..|s'.edges|][..|s.edges|];
        assert out.edges[|s.edges|] == s'.edges[|s.edges|];
        forall r | 0 <= r < |g| ensures
          g[r].groupId in p2e && out.edges[|s.edges| + r] == ContainmentRow(g[r], p2e[g[r].groupId], maxId.value, groupLabel)
        {
          if r > 0 { assert g[r] == g'[r - 1]; }
        }
      } else {
        assert g == [] + g' == g';
        assert s'.edges == s.edges;
      }
    }
  }

  /** The ids of the containment edges of the grouped placements. */
  function ContainmentIds(ps: seq<Placement>, maxId: int): seq<Option<Value>>
    decreases |ps|
  {
    if |ps| == 0 then []
    else (if IsGrouped(ps[0]) then [Some(IntVal(3 * maxId + ps[0].id))] else []) + ContainmentIds(ps[1..], maxId)
  }

  /** The "id" column after the loop: the ids already there, then the containment ids. */
  lemma {:induction false} PlacementsFromIds(s: PassState, ps: seq<Placement>, idRank: map<int, nat>,
                                             p2e: map<int, int>, themes: map<string, string>,
                                             maxId: int, groupLabel: string)
    requires RanksWithin(idRank, |s.nodes|)
    requires PlacementsFrom(s, ps, idRank, p2e, themes, Some(maxId), groupLabel).Success?
    ensures IdColumn(PlacementsFrom(s, ps, idRank, p2e, themes, Some(maxId), groupLabel).value.edges)
      == IdColumn(s.edges) + ContainmentIds(ps, maxId)
    decreases |ps|
  {
    if |ps| == 0 {
      assert IdColumn(s.edges) + [] == IdColumn(s.edges);
    } else {
      var p, rest := ps[0], ps[1..];
      PlacementsFromCons(s, ps, idRank, p2e, themes, Some(maxId), groupLabel);
      var s' := PlacementStep(s, p, idRank, p2e, themes, Some(maxId), groupLabel).value;
      PlacementsFromIds(s', rest, idRank, p2e, themes, maxId, groupLabel);
      var own := if IsGrouped(p) then [Some(IntVal(3 * maxId + p.id))] else [];
      if IsGrouped(p) {
        var row := ContainmentRow(p, p2e[p.groupId], maxId, groupLabel);
        assert s'.edges == s.edges + [row];
        IdColumnAppend(s.edges, [row]);
        assert IdColumn([row]) == own;
      } else {
        assert s'.edges == s.edges;
        assert IdColumn(s.edges) + own == IdColumn(s.edges);
      }
      assert ContainmentIds(ps, maxId) == own + ContainmentIds(rest, maxId);
    }
  }

  /** Every containment id is `3 * maxId` plus the id of a grouped placement. */
  lemma {:induction false} ContainmentIdsOrigin(ps: seq<Placement>, maxId: int)
    ensures forall x :: x in ContainmentIds(ps, maxId) ==>
      exists i :: 0 <= i < |ps| && IsGrouped(ps[i]) && x == Some(IntVal(3 * maxId + ps[i].id))
    decreases |ps|
  {
    if |ps| > 0 {
      var rest := ps[1..];
      ContainmentIdsOrigin(rest, maxId);
      forall x | x in ContainmentIds(ps, maxId)
        ensures exists i :: 0 <= i < |ps| && IsGrouped(ps[i]) && x == Some(IntVal(3 * maxId + ps[i].id))
      {
        if !(IsGrouped(ps[0]) && x == Some(IntVal(3 * maxId + ps[0].id))) {
          assert x in ContainmentIds(rest, maxId);
          var i :| 0 <= i < |rest| && IsGrouped(rest[i]) && x == Some(IntVal(3 * maxId + rest[i].id));
          assert ps[i + 1] == rest[i];
        }
      }
    }
  }

  /** No two placements share an id, and no id is negative. */
  ghost predicate DistinctPlacementIds(ps: seq<Placement>) {
    (forall i :: 0 <= i < |ps| ==> ps[i].id >= 0) && forall i, j :: 0 <= i < j < |ps| ==> ps[i].id != ps[j].id
  }

  /**
   * With distinct non-negative placement ids the containment ids are distinct
   * and all above `3 * maxId`, a grouped placement's id being non-zero.
   */
  lemma {:induction false} ContainmentIdsDistinct(ps: seq<Placement>, maxId: int)
    requires DistinctPlacementIds(ps)
    ensures NoDuplicates(ContainmentIds(ps, maxId))
    ensures forall x :: x in ContainmentIds(ps, maxId) ==> x.Some? && x.value.IntVal? && x.value.i > 3 * maxId
    decreases |ps|
  {
    ContainmentIdsOrigin(ps, maxId);
    if |ps| > 0 {
      var p, rest := ps[0], ps[1..];
      assert forall i :: 1 <= i < |ps| ==> ps[i] == rest[i - 1];
      ContainmentIdsDistinct(rest, maxId);
      ContainmentIdsOrigin(rest, maxId);
      var own := if IsGrouped(p) then [Some(IntVal(3 * maxId + p.id))] else [];
      var tail := ContainmentIds(rest, maxId);
      assert ContainmentIds(ps, maxId) == own + tail;
      forall x | x in own ensures x !in tail {
        forall i | 0 <= i < |rest| ensures x != Some(IntVal(3 * maxId + rest[i].id)) {
          assert ps[i + 1] == rest[i];
        }
      }
      NoDuplicatesAppend(own, tail);
    }
  }

  /** Placement `p` highlights row `k`. */
  ghost predicate Highlights(p: Placement, idRank: map<int, nat>, k: int) {
    p.highlightColor.Some? && p.entityId in idRank && idRank[p.entityId] == k
  }

  /**
   * The loop changes only "highlight" cells, and only of rows some placement
   * highlights: every other cell keeps its value or stays blank.
   */
  lemma {:induction false} PlacementsFromUntouched(s: PassState, ps: seq<Placement>, idRank: map<int, nat>,
                                                   p2e: map<int, int>, themes: map<string, string>,
                                                   maxId: Option<int>, groupLabel: string, k: int, c: string)
    requires RanksWithin(idRank, |s.nodes|) && 0 <= k < |s.nodes|
    requires PlacementsFrom(s, ps, idRank, p2e, themes, maxId, groupLabel).Success?
    requires c != "highlight" || forall i :: 0 <= i < |ps| ==> !Highlights(ps[i], idRank, k)
    ensures Cell(PlacementsFrom(s, ps, idRank, p2e, themes, maxId, groupLabel).value.nodes[k], c) == Cell(s.nodes[k], c)
    decreases |ps|
  {
    if |ps| > 0 {
      var p, rest := ps[0], ps[1..];
      assert forall i :: 0 <= i < |rest| ==> rest[i] == ps[i + 1];
      PlacementsFromCons(s, ps, idRank, p2e, themes, maxId, groupLabel);
      var s' := PlacementStep(s, p, idRank, p2e, themes, maxId, groupLabel).value;
      assert Cell(s'.nodes[k], c) == Cell(s.nodes[k], c);
      PlacementsFromUntouched(s', rest, idRank, p2e, themes, maxId, groupLabel, k, c);
    }
  }

  /** The last placement highlighting a row sets its "highlight" cell, through the colour themes. */
  lemma {:induction false} PlacementsFromHighlight(s: PassState, ps: seq<Placement>, idRank: map<int, nat>,
                                                   p2e: map<int, int>, themes: map<string, string>,
                                                   maxId: Option<int>, groupLabel: string, i: int, k: int)
    requires RanksWithin(idRank, |s.nodes|) && 0 <= k < |s.nodes|
    requires PlacementsFrom(s, ps, idRank, p2e, themes, maxId, groupLabel).Success?
    requires 0 <= i < |ps| && Highlights(ps[i], idRank, k)
    requires forall j :: i < j < |ps| ==> !Highlights(ps[j], idRank, k)
    ensures Cell(PlacementsFrom(s, ps, idRank, p2e, themes, maxId, groupLabel).value.nodes[k], "highlight")
      == Some(StrVal(ThemeColor(ps[i].highlightColor.value, themes)))
    decreases |ps|
  {
    var p, rest := ps[0], ps[1..];
    assert forall j :: 0 <= j < |rest| ==> rest[j] == ps[j + 1];
    PlacementsFromCons(s, ps, idRank, p2e, themes, maxId, groupLabel);
    var s' := PlacementStep(s, p, idRank, p2e, themes, maxId, groupLabel).value;
    if i == 0 {
      assert Cell(s'.nodes[k], "highlight") == Some(StrVal(ThemeColor(p.highlightColor.value, themes)));
      PlacementsFromUntouched(s', rest, idRank, p2e, themes, maxId, groupLabel, k, "highlight");
    } else {
      PlacementsFromHighlight(s', rest, idRank, p2e, themes, maxId, groupLabel, i - 1, k);
    }
  }

  /**
   * With the "highlight" column in the node header and the containment
   * columns in the edge header, the loop keeps every row within its header.
   */
  lemma {:induction false} PlacementsFromKeys(s: PassState, ps: seq<Placement>, idRank: map<int, nat>,
                                              p2e: map<int, int>, themes: map<string, string>, maxId: Option<int>,
                                              groupLabel: string, nodeHeader: seq<string>, edgeHeader: seq<string>)
    requires RanksWithin(idRank, |s.nodes|)
    requires PlacementsFrom(s, ps, idRank, p2e, themes, maxId, groupLabel).Success?
    requires "highlight" in nodeHeader
    requires forall c :: c in ["id", "source", "target", "label", "type", "weight", "hypothetic"] ==> c in edgeHeader
    requires KeysWithin(s.nodes, nodeHeader) && KeysWithin(s.edges, edgeHeader)
    ensures var out := PlacementsFrom(s, ps, idRank, p2e, themes, maxId, groupLabel).value;
      KeysWithin(out.nodes, nodeHeader) && KeysWithin(out.edges, edgeHeader)
    decreases |ps|
  {
    if |ps| > 0 {
      PlacementsFromCons(s, ps, idRank, p2e, themes, maxId, groupLabel);
      var s' := PlacementStep(s, ps[0], idRank, p2e, themes, maxId, groupLabel).value;
      forall k, c | 0 <= k < |s'.edges| && c in s'.edges[k] ensures c in edgeHeader {
        if k >= |s.edges| {
          assert c in ["id", "source", "target", "label", "type", "weight", "hypothetic"];
        }
      }
      PlacementsFromKeys(s', ps[1..], idRank, p2e, themes, maxId, groupLabel, nodeHeader, edgeHeader);
    }
  }
}
