/**
 * The node table: one row per non-root entity, the index from an entity id to
 * its row, and the attribute pass that writes property values into the rows.
 */
module NodeBuilder {
  import opened Wrappers
  import opened Document

  /** The row of one entity, built as the four-way conditional of the node comprehension. */
  function EntityRow(e: Entity, catLabels: map<int, string>): Result<Row, Error>
  {
    if |e.caption.blocks| == 0 then Failure(EmptyLabel(e.id))
    else if e.categoryId.Some? && e.categoryId.value !in catLabels then Failure(UnknownCategory(e.categoryId.value))
    else
      var base: Row := map["id" := IntVal(e.id), "label" := StrVal(e.caption.blocks[0])];
      if e.categoryId.Some? && e.note.Some? then
        Success(base["category" := StrVal(catLabels[e.categoryId.value])]["note" := StrVal(BlockText(e.note.value))])
      else if e.categoryId.Some? then
        Success(base["category" := StrVal(catLabels[e.categoryId.value])])
      else if e.note.Some? then
        Success(base["note" := StrVal(BlockText(e.note.value))])
      else
        Success(base)
  }

  /**
   * An entity's row holds its id, the text of its label's first block, its
   * category's label exactly when it has a category and its note's text
   * exactly when it has a note. It fails when the label has no block or the
   * category is unknown; the label is read first, so an empty label is the
   * error reported when both lookups would fail.
   */
  lemma EntityRowFacts(e: Entity, catLabels: map<int, string>)
    ensures var r := EntityRow(e, catLabels);
      && (r.Success? <==> |e.caption.blocks| > 0 && (e.categoryId.Some? ==> e.categoryId.value in catLabels))
      && (r.Failure? ==>
            r.error == if |e.caption.blocks| == 0 then EmptyLabel(e.id) else UnknownCategory(e.categoryId.value))
      && (r.Success? ==>
            && (forall c :: c in r.value <==>
                  c == "id" || c == "label" || (c == "category" && e.categoryId.Some?) || (c == "note" && e.note.Some?))
            && r.value["id"] == IntVal(e.id)
            && r.value["label"] == StrVal(e.caption.blocks[0])
            && (e.categoryId.Some? ==> r.value["category"] == StrVal(catLabels[e.categoryId.value]))
            && (e.note.Some? ==> r.value["note"] == StrVal(BlockText(e.note.value))))
  {
  }

  /** The entities other than the root (id 0), in order. */
  function NonRoot(es: seq<Entity>): seq<Entity>
    decreases |es|
  {
    if |es| == 0 then []
    else (if es[0].id != 0 then [es[0]] else []) + NonRoot(es[1..])
  }

  /** Filtering keeps order: it maps a concatenation to the concatenation of the filtered parts. */
  lemma {:induction false} NonRootAppend(a: seq<Entity>, b: seq<Entity>)
    ensures NonRoot(a + b) == NonRoot(a) + NonRoot(b)
    decreases |a|
  {
    if |a| == 0 {
      assert a + b == b;
    } else {
      assert (a + b)[1..] == a[1..] + b;
      NonRootAppend(a[1..], b);
    }
  }

  /** The filter keeps exactly the non-root entities. */
  lemma {:induction false} NonRootMembers(es: seq<Entity>)
    ensures forall e :: e in NonRoot(es) <==> e in es && e.id != 0
    decreases |es|
  {
    if |es| > 0 {
      NonRootMembers(es[1..]);
      assert es == [es[0]] + es[1..];
    }
  }

  /** The node rows, one per non-root entity in order, or the first failing entity's error. */
  function NodeRows(es: seq<Entity>, catLabels: map<int, string>): Result<seq<Row>, Error>
    decreases |es|
  {
    if |es| == 0 then Success([])
    else if es[0].id == 0 then NodeRows(es[1..], catLabels)
    else
      match EntityRow(es[0], catLabels)
      case Failure(err) => Failure(err)
      case Success(row) =>
        match NodeRows(es[1..], catLabels)
        case Failure(err) => Failure(err)
        case Success(rows) => Success([row] + rows)
  }

  /** The node rows of a list starting with a non-root entity. */
  lemma NodeRowsCons(es: seq<Entity>, catLabels: map<int, string>)
    requires |es| > 0 && es[0].id != 0
    ensures var head, tail := EntityRow(es[0], catLabels), NodeRows(es[1..], catLabels);
      NodeRows(es, catLabels) ==
        if head.Failure? then Failure(head.error)
        else if tail.Failure? then Failure(tail.error)
        else Success([head.value] + tail.value)
  {
  }

  /** The root entity contributes no row. */
  lemma NodeRowsRoot(es: seq<Entity>, catLabels: map<int, string>)
    requires |es| > 0 && es[0].id == 0
    ensures NodeRows(es, catLabels) == NodeRows(es[1..], catLabels)
    ensures NonRoot(es) == NonRoot(es[1..])
  {
    assert NonRoot(es) == [] + NonRoot(es[1..]);
  }

  /** The node rows succeed exactly when the row of every non-root entity does. */
  lemma {:induction false} NodeRowsSuccess(es: seq<Entity>, catLabels: map<int, string>)
    ensures NodeRows(es, catLabels).Success?
      <==> forall k :: 0 <= k < |NonRoot(es)| ==> EntityRow(NonRoot(es)[k], catLabels).Success?
    decreases |es|
  {
    if |es| > 0 {
      NodeRowsSuccess(es[1..], catLabels);
      var tail, kept := NonRoot(es[1..]), NonRoot(es);
      if es[0].id != 0 {
        assert kept == [es[0]] + tail;
        assert forall k :: 1 <= k < |kept| ==> kept[k] == tail[k - 1];
        assert kept[0] == es[0];
        NodeRowsCons(es, catLabels);
        if EntityRow(es[0], catLabels).Success? {
          if forall k :: 0 <= k < |tail| ==> EntityRow(tail[k], catLabels).Success? {
            forall k | 0 <= k < |kept| ensures EntityRow(kept[k], catLabels).Success? {
              if k > 0 { assert kept[k] == tail[k - 1]; }
            }
          } else {
            var k :| 0 <= k < |tail| && !EntityRow(tail[k], catLabels).Success?;
            assert kept[k + 1] == tail[k];
            NodeRowsSuccess(es[1..], catLabels);
          }
        }
      } else {
        NodeRowsRoot(es, catLabels);
      }
    }
  }

  /** Then row `k` is the row of the `k`-th non-root entity. */
  lemma {:induction false} NodeRowsValues(es: seq<Entity>, catLabels: map<int, string>)
    requires NodeRows(es, catLabels).Success?
    ensures var rows, kept := NodeRows(es, catLabels).value, NonRoot(es);
      |rows| == |kept| && forall k :: 0 <= k < |kept| ==> EntityRow(kept[k], catLabels) == Success(rows[k])
    decreases |es|
  {
    if |es| > 0 {
      NodeRowsValues(es[1..], catLabels);
      var tail, kept := NonRoot(es[1..]), NonRoot(es);
      if es[0].id != 0 {
        assert kept == [es[0]] + tail;
        assert forall k :: 1 <= k < |kept| ==> kept[k] == tail[k - 1];
        NodeRowsCons(es, catLabels);
      } else {
        NodeRowsRoot(es, catLabels);
      }
    }
  }

  /** The row of entity `k` is the first of `es` to fail. */
  ghost predicate FirstFailing(es: seq<Entity>, catLabels: map<int, string>, k: int)
    requires 0 <= k < |es|
  {
    EntityRow(es[k], catLabels).Failure? && forall j :: 0 <= j < k ==> EntityRow(es[j], catLabels).Success?
  }

  /** Otherwise the error is that of the first non-root entity whose row fails. */
  lemma {:induction false} NodeRowsError(es: seq<Entity>, catLabels: map<int, string>)
    requires NodeRows(es, catLabels).Failure?
    ensures exists k :: (0 <= k < |NonRoot(es)| && FirstFailing(NonRoot(es), catLabels, k)
      && EntityRow(NonRoot(es)[k], catLabels) == Failure(NodeRows(es, catLabels).error))
    decreases |es|
  {
    var tail, kept := NonRoot(es[1..]), NonRoot(es);
    if es[0].id != 0 {
      assert kept == [es[0]] + tail;
      assert forall k :: 1 <= k < |kept| ==> kept[k] == tail[k - 1];
      assert kept[0] == es[0];
      NodeRowsCons(es, catLabels);
      if EntityRow(es[0], catLabels).Success? {
        NodeRowsError(es[1..], catLabels);
        var k :| 0 <= k < |tail| && FirstFailing(tail, catLabels, k)
          && EntityRow(tail[k], catLabels) == Failure(NodeRows(es[1..], catLabels).error);
        var w := k + 1;
        assert kept[w] == tail[k];
        forall j | 0 <= j < w ensures EntityRow(kept[j], catLabels).Success? {
          if j > 0 { assert kept[j] == tail[j - 1]; }
        }
        assert FirstFailing(kept, catLabels, w);
      } else {
        assert FirstFailing(kept, catLabels, 0);
      }
    } else {
      NodeRowsRoot(es, catLabels);
      NodeRowsError(es[1..], catLabels);
    }
  }

  /** The ids of a sequence of entities. */
  function EntityIds(es: seq<Entity>): (ids: seq<int>)
    ensures |ids| == |es| && forall k :: 0 <= k < |es| ==> ids[k] == es[k].id
  {
    seq(|es|, k requires 0 <= k < |es| => es[k].id)
  }

  function RankPairs(ids: seq<int>): (pairs: seq<(int, nat)>)
    ensures |pairs| == |ids| && forall i :: 0 <= i < |ids| ==> pairs[i] == (ids[i], i)
  {
    seq(|ids|, i requires 0 <= i < |ids| => (ids[i], i))
  }

  /** The positions of `ids` of the index built from `RankPairs`, as `RankFacts` states them. */
  lemma RankFacts(ids: seq<int>)
    ensures var r := Assign<int, nat>(map[], RankPairs(ids));
      && (forall i :: 0 <= i < |ids| ==> ids[i] in r)
      && (forall x :: x in r ==> r[x] < |ids| && ids[r[x]] == x && forall j :: r[x] < j < |ids| ==> ids[j] != x)
  {
    var pairs := RankPairs(ids);
    var r := Assign<int, nat>(map[], pairs);
    AssignKeys(map[], pairs);
    forall x | x in r
      ensures r[x] < |ids| && ids[r[x]] == x && forall j :: r[x] < j < |ids| ==> ids[j] != x
    {
      AssignOrigin(map[], pairs, x);
      var i :| 0 <= i < |pairs| && pairs[i] == (x, r[x]);
      var l := LastIndexFrom(pairs, i);
      AssignLast(map[], pairs, l);
    }
  }

  /**
   * The index from a row id to its position: every id is a key, and a key maps
   * to the last position holding it.
   */
  function IdRank(ids: seq<int>): (r: map<int, nat>)
    ensures forall i :: 0 <= i < |ids| ==> ids[i] in r
    ensures forall x :: x in r ==> r[x] < |ids| && ids[r[x]] == x && forall j :: r[x] < j < |ids| ==> ids[j] != x
  {
    RankFacts(ids);
    Assign<int, nat>(map[], RankPairs(ids))
  }

  /** Every position in the index is a row of a table of `n` rows. */
  ghost predicate RanksWithin(idRank: map<int, nat>, n: int) {
    forall x :: x in idRank ==> idRank[x] < n
  }

  /** Attribute `a` writes cell `c` of row `k`. */
  ghost predicate WritesCell(a: Attribute, idRank: map<int, nat>, columns: map<int, string>, k: int, c: string) {
    a.value.Some? && a.entityId in idRank && idRank[a.entityId] == k && a.propertyId in columns && columns[a.propertyId] == c
  }

  /** Attribute `a` has a value but its entity or its property cannot be looked up. */
  ghost predicate Unresolved(a: Attribute, idRank: map<int, nat>, columns: map<int, string>) {
    a.value.Some? && (a.entityId !in idRank || a.propertyId !in columns)
  }

  /** One turn of the attribute loop; the row is looked up before the column. */
  function AttributeStep(rows: seq<Row>, a: Attribute, idRank: map<int, nat>, columns: map<int, string>)
    : (r: Result<seq<Row>, Error>)
    requires RanksWithin(idRank, |rows|)
    ensures r.Success? ==> |r.value| == |rows|
  {
    if a.value.None? then Success(rows)
    else if a.entityId !in idRank then Failure(UnknownEntity(a.entityId))
    else if a.propertyId !in columns then Failure(UnknownProperty(a.propertyId))
    else
      var k := idRank[a.entityId];
      Success(rows[k := rows[k][columns[a.propertyId] := a.value.value]])
  }

  /** The attribute loop over `attrs`, on the rows `rows`. */
  function ApplyAttributes(rows: seq<Row>, attrs: seq<Attribute>, idRank: map<int, nat>, columns: map<int, string>)
    : (r: Result<seq<Row>, Error>)
    requires RanksWithin(idRank, |rows|)
    ensures r.Success? ==> |r.value| == |rows|
    decreases |attrs|
  {
    if |attrs| == 0 then Success(rows)
    else
      match AttributeStep(rows, attrs[0], idRank, columns)
      case Failure(err) => Failure(err)
      case Success(rows') => ApplyAttributes(rows', attrs[1..], idRank, columns)
  }

  /** The attribute loop, writing each value into its node row in place. */
  method MergeAttributes(nodes: array<Row>, attrs: seq<Attribute>, idRank: map<int, nat>, columns: map<int, string>)
    returns (err: Option<Error>)
    requires RanksWithin(idRank, nodes.Length)
    modifies nodes
    ensures var r := ApplyAttributes(old(nodes[..]), attrs, idRank, columns);
      && (err.None? <==> r.Success?)
      && (r.Failure? ==> err == Some(r.error))
      && (r.Success? ==> nodes[..] == r.value)
  {
    for i := 0 to |attrs|
      invariant ApplyAttributes(old(nodes[..]), attrs, idRank, columns)
        == ApplyAttributes(nodes[..], attrs[i..], idRank, columns)
    {
      var a := attrs[i];
      assert attrs[i..][1..] == attrs[i + 1..];
      if a.value.Some? {
        if a.entityId !in idRank {
          return Some(UnknownEntity(a.entityId));
        }
        var k := idRank[a.entityId];
        if a.propertyId !in columns {
          return Some(UnknownProperty(a.propertyId));
        }
        nodes[k] := nodes[k][columns[a.propertyId] := a.value.value];
      }
    }
    assert attrs[|attrs|..] == [];
    return None;
  }

  /**
   * The attribute loop fails exactly when an attribute with a value names an
   * unknown entity or property, and then with the first such attribute's lookup
   * error, the entity being looked up first.
   */
  lemma {:induction false} ApplyAttributesFailure(rows: seq<Row>, attrs: seq<Attribute>, idRank: map<int, nat>, columns: map<int, string>)
    requires RanksWithin(idRank, |rows|)
    ensures var r := ApplyAttributes(rows, attrs, idRank, columns);
      && (r.Failure? <==> exists i :: 0 <= i < |attrs| && Unresolved(attrs[i], idRank, columns))
      && (r.Failure? ==> exists i :: (0 <= i < |attrs| && Unresolved(attrs[i], idRank, columns)
            && (forall j :: 0 <= j < i ==> !Unresolved(attrs[j], idRank, columns))
            && r.error == if attrs[i].entityId !in idRank then UnknownEntity(attrs[i].entityId) else UnknownProperty(attrs[i].propertyId)))
    decreases |attrs|
  {
    if |attrs| > 0 {
      var a, rest := attrs[0], attrs[1..];
      assert forall i :: 0 <= i < |rest| ==> rest[i] == attrs[i + 1];
      if !Unresolved(a, idRank, columns) {
        var rows' := AttributeStep(rows, a, idRank, columns).value;
        ApplyAttributesFailure(rows', rest, idRank, columns);
        var r := ApplyAttributes(rows, attrs, idRank, columns);
        if r.Failure? {
          var i :| 0 <= i < |rest| && Unresolved(rest[i], idRank, columns)
            && (forall j :: 0 <= j < i ==> !Unresolved(rest[j], idRank, columns))
            && r.error == if rest[i].entityId !in idRank then UnknownEntity(rest[i].entityId) else UnknownProperty(rest[i].propertyId);
          assert attrs[i + 1] == rest[i];
        }
        forall i | 0 <= i < |attrs| && Unresolved(attrs[i], idRank, columns) ensures r.Failure? {
          assert i > 0 && Unresolved(rest[i - 1], idRank, columns);
        }
      }
    }
  }

  /** A cell that no attribute writes keeps its value, or stays blank. */
  lemma {:induction false} ApplyAttributesUntouched(rows: seq<Row>, attrs: seq<Attribute>, idRank: map<int, nat>,
                                                   columns: map<int, string>, k: int, c: string)
    requires RanksWithin(idRank, |rows|) && 0 <= k < |rows|
    requires ApplyAttributes(rows, attrs, idRank, columns).Success?
    requires forall i :: 0 <= i < |attrs| ==> !WritesCell(attrs[i], idRank, columns, k, c)
    ensures var out := ApplyAttributes(rows, attrs, idRank, columns).value;
      (c in out[k] <==> c in rows[k]) && (c in rows[k] ==> out[k][c] == rows[k][c])
    decreases |attrs|
  {
    if |attrs| > 0 {
      var a, rest := attrs[0], attrs[1..];
      assert forall i :: 0 <= i < |rest| ==> rest[i] == attrs[i + 1];
      assert !WritesCell(a, idRank, columns, k, c);
      var rows' := AttributeStep(rows, a, idRank, columns).value;
      assert (c in rows'[k] <==> c in rows[k]) && (c in rows[k] ==> rows'[k][c] == rows[k][c]);
      ApplyAttributesUntouched(rows', rest, idRank, columns, k, c);
    }
  }

  /** The last attribute writing a cell gives the cell its value: a later write wins. */
  lemma {:induction false} ApplyAttributesLast(rows: seq<Row>, attrs: seq<Attribute>, idRank: map<int, nat>,
                                              columns: map<int, string>, i: int, k: int, c: string)
    requires RanksWithin(idRank, |rows|) && 0 <= k < |rows|
    requires ApplyAttributes(rows, attrs, idRank, columns).Success?
    requires 0 <= i < |attrs| && WritesCell(attrs[i], idRank, columns, k, c)
    requires forall j :: i < j < |attrs| ==> !WritesCell(attrs[j], idRank, columns, k, c)
    ensures var out := ApplyAttributes(rows, attrs, idRank, columns).value;
      c in out[k] && out[k][c] == attrs[i].value.value
    decreases |attrs|
  {
    var a, rest := attrs[0], attrs[1..];
    assert forall j :: 0 <= j < |rest| ==> rest[j] == attrs[j + 1];
    var rows' := AttributeStep(rows, a, idRank, columns).value;
    if i == 0 {
      assert c in rows'[k] && rows'[k][c] == a.value.value;
      ApplyAttributesUntouched(rows', rest, idRank, columns, k, c);
    } else {
      ApplyAttributesLast(rows', rest, idRank, columns, i - 1, k, c);
    }
  }

  /** Rows that no attribute targets are left as they were, and every row keeps its position. */
  lemma {:induction false} ApplyAttributesOtherRows(rows: seq<Row>, attrs: seq<Attribute>, idRank: map<int, nat>,
                                                   columns: map<int, string>, k: int)
    requires RanksWithin(idRank, |rows|) && 0 <= k < |rows|
    requires ApplyAttributes(rows, attrs, idRank, columns).Success?
    requires forall i :: 0 <= i < |attrs| && attrs[i].value.Some? && attrs[i].entityId in idRank ==> idRank[attrs[i].entityId] != k
    ensures ApplyAttributes(rows, attrs, idRank, columns).value[k] == rows[k]
    decreases |attrs|
  {
    if |attrs| > 0 {
      var a, rest := attrs[0], attrs[1..];
      assert forall i :: 0 <= i < |rest| ==> rest[i] == attrs[i + 1];
      var rows' := AttributeStep(rows, a, idRank, columns).value;
      assert rows'[k] == rows[k];
      ApplyAttributesOtherRows(rows', rest, idRank, columns, k);
    }
  }

  /** Writing only columns of `header` keeps every row within `header`. */
  lemma {:induction false} ApplyAttributesKeys(rows: seq<Row>, attrs: seq<Attribute>, idRank: map<int, nat>,
                                               columns: map<int, string>, header: seq<string>)
    requires RanksWithin(idRank, |rows|)
    requires ApplyAttributes(rows, attrs, idRank, columns).Success?
    requires KeysWithin(rows, header)
    requires forall pid :: pid in columns ==> columns[pid] in header
    ensures KeysWithin(ApplyAttributes(rows, attrs, idRank, columns).value, header)
    decreases |attrs|
  {
    if |attrs| > 0 {
      var rows' := AttributeStep(rows, attrs[0], idRank, columns).value;
      ApplyAttributesKeys(rows', attrs[1..], idRank, columns, header);
    }
  }
}
