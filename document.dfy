/**
 * The parsed Stemic graph document, the flat output rows and the errors the
 * conversion can raise. Required JSON keys are datatype fields; optional keys
 * (the ones the converter tests with `in entity.keys()`) are `Option`s.
 */
module Document {
  import opened Wrappers

  // `label` is a Dafny keyword: a Stemic "label" is called `name` (categories,
  // properties) or `caption` (entities, edges) here.

  /** Stemic rich text, reduced to the text of each of its blocks. */
  datatype RichText = RichText(blocks: seq<string>)

  datatype Category = Category(id: int, name: string)

  /** A property slot declared for one category. */
  datatype Property = Property(id: int, name: string, categoryId: int)

  /** A conceptual node; the entity with id 0 is the root. */
  datatype Entity = Entity(id: int, caption: RichText, categoryId: Option<int>, note: Option<RichText>)

  /** A JSON scalar as it lands in a cell of an output row. */
  datatype Value = IntVal(i: int) | StrVal(s: string)

  datatype Attribute = Attribute(entityId: int, propertyId: int, value: Option<Value>)

  /** A placement of an entity on the canvas ("nodes" in the document). */
  datatype Placement = Placement(id: int, entityId: int, groupId: int, highlightColor: Option<string>)

  /** A relation between two placements. */
  datatype Edge = Edge(
    id: int,
    source: int,
    target: int,
    caption: Option<string>,
    thickness: Option<string>,
    note: Option<RichText>,
    highlightColor: Option<string>,
    isBidirectional: bool)

  datatype Graph = Graph(
    title: string,
    categories: seq<Category>,
    properties: seq<Property>,
    entities: seq<Entity>,
    attributes: seq<Attribute>,
    nodes: seq<Placement>,
    edges: seq<Edge>)

  /** An output row: column name to cell; a column missing from the map is a blank cell. */
  type Row = map<string, Value>

  /** The exceptions that abort the conversion. */
  datatype Error =
    | UnknownCategory(categoryId: int)     // KeyError on the category table
    | EmptyLabel(entityId: int)            // IndexError on `label["blocks"][0]`
    | UnknownEntity(entityId: int)         // KeyError on the entity-id-to-row index
    | UnknownProperty(propertyId: int)     // KeyError on the resolved-column table
    | UnknownPlacement(placementId: int)   // KeyError on the placement-to-entity table
    | UnknownThickness(thickness: string)  // KeyError on the thickness-to-weight table
    | NoEdges                              // ValueError: `max` of an empty edge list

  /** Python's `sep.join(parts)`. */
  function Join(sep: string, parts: seq<string>): string
    decreases |parts|
  {
    if |parts| == 0 then ""
    else if |parts| == 1 then parts[0]
    else parts[0] + sep + Join(sep, parts[1..])
  }

  /** The text of a rich-text field: its block texts joined by newlines. */
  function BlockText(t: RichText): string {
    Join("\n", t.blocks)
  }

  /** The cell of column `c` of a row, `None` when the cell is blank. */
  function Cell(row: Row, c: string): Option<Value> {
    if c in row then Some(row[c]) else None
  }

  /** The "id" cells of a sequence of rows. */
  function IdColumn(rows: seq<Row>): (ids: seq<Option<Value>>)
    ensures |ids| == |rows| && forall k :: 0 <= k < |rows| ==> ids[k] == Cell(rows[k], "id")
  {
    seq(|rows|, k requires 0 <= k < |rows| => Cell(rows[k], "id"))
  }

  /** The "id" column of concatenated tables is the concatenation of their "id" columns. */
  lemma IdColumnAppend(a: seq<Row>, b: seq<Row>)
    ensures IdColumn(a + b) == IdColumn(a) + IdColumn(b)
  {
    assert forall k :: 0 <= k < |a + b| ==>
      IdColumn(a + b)[k] == (if k < |a| then IdColumn(a)[k] else IdColumn(b)[k - |a|]);
  }

  /** Every cell of every row is in a column of `header`, so a CSV writer on `header` accepts the rows. */
  ghost predicate KeysWithin(rows: seq<Row>, header: seq<string>) {
    forall k, c :: 0 <= k < |rows| && c in rows[k] ==> c in header
  }

  /** A highlight colour: its theme's colour when `color` names a theme, `color` itself otherwise. */
  function ThemeColor(color: string, themes: map<string, string>): string {
    if color in themes then themes[color] else color
  }

  /** No element occurs twice. */
  ghost predicate NoDuplicates<T>(s: seq<T>) {
    forall i, j :: 0 <= i < j < |s| ==> s[i] != s[j]
  }

  /** Two duplicate-free sequences with no common element concatenate to a duplicate-free sequence. */
  lemma NoDuplicatesAppend<T>(a: seq<T>, b: seq<T>)
    requires NoDuplicates(a) && NoDuplicates(b)
    requires forall x :: x in a ==> x !in b
    ensures NoDuplicates(a + b)
  {
    forall i, j | 0 <= i < j < |a + b| ensures (a + b)[i] != (a + b)[j] {
      if i < |a| && j >= |a| {
        assert (a + b)[i] == a[i] && (a + b)[j] == b[j - |a|];
        assert a[i] in a && b[j - |a|] in b;
      }
    }
  }

  /** No pair after position `i` has the key of pair `i`. */
  ghost predicate LastOfKey<K, V>(pairs: seq<(K, V)>, i: int)
    requires 0 <= i < |pairs|
  {
    forall j :: i < j < |pairs| ==> pairs[j].0 != pairs[i].0
  }

  /**
   * The dictionary `m` after `m[k] = v` for every pair in order, which is also
   * what a dict comprehension builds: every key present, the last value wins
   * (the lemmas below).
   */
  function Assign<K, V>(m: map<K, V>, pairs: seq<(K, V)>): map<K, V>
    decreases |pairs|
  {
    if |pairs| == 0 then m else Assign(m[pairs[0].0 := pairs[0].1], pairs[1..])
  }

  /** Every key already present and every assigned key is in the result. */
  lemma {:induction false} AssignKeys<K, V>(m: map<K, V>, pairs: seq<(K, V)>)
    ensures forall k :: k in m ==> k in Assign(m, pairs)
    ensures forall i :: 0 <= i < |pairs| ==> pairs[i].0 in Assign(m, pairs)
    decreases |pairs|
  {
    if |pairs| > 0 {
      var m', rest := m[pairs[0].0 := pairs[0].1], pairs[1..];
      AssignKeys(m', rest);
      forall i | 0 <= i < |pairs| ensures pairs[i].0 in Assign(m, pairs) {
        if i > 0 { assert pairs[i] == rest[i - 1]; }
      }
    }
  }

  /** A key that no pair assigns keeps its old value. */
  lemma {:induction false} AssignUntouched<K, V>(m: map<K, V>, pairs: seq<(K, V)>, k: K)
    requires k in m
    requires forall i :: 0 <= i < |pairs| ==> pairs[i].0 != k
    ensures k in Assign(m, pairs) && Assign(m, pairs)[k] == m[k]
    decreases |pairs|
  {
    if |pairs| > 0 {
      var m', rest := m[pairs[0].0 := pairs[0].1], pairs[1..];
      assert forall i :: 0 <= i < |rest| ==> rest[i] == pairs[i + 1];
      AssignUntouched(m', rest, k);
    }
  }

  /** The last assignment to a key is the value it ends with. */
  lemma {:induction false} AssignLast<K, V>(m: map<K, V>, pairs: seq<(K, V)>, i: int)
    requires 0 <= i < |pairs| && LastOfKey(pairs, i)
    ensures pairs[i].0 in Assign(m, pairs) && Assign(m, pairs)[pairs[i].0] == pairs[i].1
    decreases |pairs|
  {
    var m', rest := m[pairs[0].0 := pairs[0].1], pairs[1..];
    assert forall j :: 0 <= j < |rest| ==> rest[j] == pairs[j + 1];
    if i > 0 {
      AssignLast(m', rest, i - 1);
    } else {
      AssignUntouched(m', rest, pairs[0].0);
    }
  }

  /** A key that was not there before comes, with its value, from one of the pairs. */
  lemma {:induction false} AssignOrigin<K, V>(m: map<K, V>, pairs: seq<(K, V)>, k: K)
    requires k in Assign(m, pairs) && k !in m
    ensures exists i :: 0 <= i < |pairs| && pairs[i] == (k, Assign(m, pairs)[k])
    decreases |pairs|
  {
    if |pairs| == 0 {
    } else {
      var m', rest := m[pairs[0].0 := pairs[0].1], pairs[1..];
      assert forall j :: 0 <= j < |rest| ==> rest[j] == pairs[j + 1];
      if k in m' {
        assert k == pairs[0].0;
        if forall j :: 0 <= j < |rest| ==> rest[j].0 != k {
          AssignUntouched(m', rest, k);
          assert pairs[0] == (k, Assign(m, pairs)[k]);
        } else {
          var j :| 0 <= j < |rest| && rest[j].0 == k;
          var jl := LastIndexFrom(rest, j);
          AssignLast(m', rest, jl);
          assert pairs[jl + 1] == (k, Assign(m, pairs)[k]);
        }
      } else {
        AssignOrigin(m', rest, k);
        var j :| 0 <= j < |rest| && rest[j] == (k, Assign(m', rest)[k]);
        assert pairs[j + 1] == (k, Assign(m, pairs)[k]);
      }
    }
  }

  /** Every key occurring at or after `j` has a last occurrence. */
  lemma {:induction false} LastIndexFrom<K, V>(pairs: seq<(K, V)>, j: int) returns (l: int)
    requires 0 <= j < |pairs|
    ensures j <= l < |pairs| && pairs[l].0 == pairs[j].0 && LastOfKey(pairs, l)
    decreases |pairs| - j
  {
    if LastOfKey(pairs, j) {
      l := j;
    } else {
      var j' :| j < j' < |pairs| && pairs[j'].0 == pairs[j].0;
      l := LastIndexFrom(pairs, j');
    }
  }

  /** The four lemmas above, for every key at once. */
  lemma AssignFacts<K, V>(m: map<K, V>, pairs: seq<(K, V)>)
    ensures forall k :: k in m ==> k in Assign(m, pairs)
    ensures forall i :: 0 <= i < |pairs| ==> pairs[i].0 in Assign(m, pairs)
    ensures forall i :: 0 <= i < |pairs| && LastOfKey(pairs, i) ==> Assign(m, pairs)[pairs[i].0] == pairs[i].1
    ensures forall k :: k in m && (forall i :: 0 <= i < |pairs| ==> pairs[i].0 != k) ==> Assign(m, pairs)[k] == m[k]
    ensures forall k :: k in Assign(m, pairs) && k !in m ==> exists i :: 0 <= i < |pairs| && pairs[i] == (k, Assign(m, pairs)[k])
  {
    AssignKeys(m, pairs);
    forall i | 0 <= i < |pairs| && LastOfKey(pairs, i) ensures Assign(m, pairs)[pairs[i].0] == pairs[i].1 {
      AssignLast(m, pairs, i);
    }
    forall k | k in m && (forall i :: 0 <= i < |pairs| ==> pairs[i].0 != k) ensures Assign(m, pairs)[k] == m[k] {
      AssignUntouched(m, pairs, k);
    }
    forall k | k in Assign(m, pairs) && k !in m ensures exists i :: 0 <= i < |pairs| && pairs[i] == (k, Assign(m, pairs)[k]) {
      AssignOrigin(m, pairs, k);
    }
  }
}
