/**
 * Category and property resolution: the category table, the grouping of
 * property names by the categories that declare them, the column every
 * property id resolves to, and the node table's header.
 */
module Resolver {
  import opened Wrappers
  import opened Document

  /** The fixed leading columns of the node table. */
  const FixedNodeColumns: seq<string> := ["id", "label", "category", "note", "highlight"]

  function CategoryPairs(cats: seq<Category>): (pairs: seq<(int, string)>)
    ensures |pairs| == |cats| && forall i :: 0 <= i < |cats| ==> pairs[i] == (cats[i].id, cats[i].name)
  {
    seq(|cats|, i requires 0 <= i < |cats| => (cats[i].id, cats[i].name))
  }

  /** The category table: every declared id, mapped to the label of its last declaration. */
  function CategoryLabels(cats: seq<Category>): (r: map<int, string>)
    ensures forall i :: 0 <= i < |cats| ==> cats[i].id in r
    ensures forall k :: k in r ==> exists i :: 0 <= i < |cats| && cats[i].id == k && cats[i].name == r[k]
    ensures forall i :: 0 <= i < |cats| && (forall j :: i < j < |cats| ==> cats[j].id != cats[i].id) ==>
      r[cats[i].id] == cats[i].name
  {
    var pairs := CategoryPairs(cats);
    AssignFacts(map[], pairs);
    assert forall i :: 0 <= i < |cats| && (forall j :: i < j < |cats| ==> cats[j].id != cats[i].id) ==>
      LastOfKey(pairs, i);
    Assign(map[], pairs)
  }

  /** Every property's category is in the category table. */
  ghost predicate CategoriesKnown(props: seq<Property>, catLabels: map<int, string>) {
    forall i :: 0 <= i < |props| ==> props[i].categoryId in catLabels
  }

  /** The labels of the categories of the properties named `name`, in declaration order. */
  function DeclaringCategories(props: seq<Property>, catLabels: map<int, string>, name: string): seq<string>
    requires CategoriesKnown(props, catLabels)
    decreases |props|
  {
    if |props| == 0 then []
    else
      (if props[0].name == name then [catLabels[props[0].categoryId]] else [])
      + DeclaringCategories(props[1..], catLabels, name)
  }

  /** The names of `props` that are not in `seen`, each once, in order of first appearance. */
  function NewNames(props: seq<Property>, seen: set<string>): seq<string>
    decreases |props|
  {
    if |props| == 0 then []
    else if props[0].name in seen then NewNames(props[1..], seen)
    else [props[0].name] + NewNames(props[1..], seen + {props[0].name})
  }

  /** A property name's column: the name followed by its categories, always in parentheses. */
  function ColumnName(name: string, cats: seq<string>): string {
    name + " (" + Join(", ", cats) + ")"
  }

  /**
   * The state of the property loop. `groups` and its key order `order` are the
   * insertion-ordered dict from a property name to its category labels;
   * `idNames` and its key order `idOrder` are the dict from property id to name.
   */
  datatype Grouping = Grouping(
    groups: map<string, seq<string>>,
    order: seq<string>,
    idNames: map<int, string>,
    idOrder: seq<int>)
  {
    ghost predicate Valid() {
      && (forall l :: l in groups <==> l in order)
      && NoDuplicates(order)
      && (forall pid :: pid in idNames <==> pid in idOrder)
      && NoDuplicates(idOrder)
      && (forall pid :: pid in idNames ==> idNames[pid] in groups)
    }
  }

  const EmptyGrouping := Grouping(map[], [], map[], [])

  /** One turn of the property loop. */
  function GroupStep(g: Grouping, p: Property, catLabels: map<int, string>): Result<Grouping, Error> {
    if p.categoryId !in catLabels then Failure(UnknownCategory(p.categoryId))
    else
      var cat := catLabels[p.categoryId];
      var g' :=
        if p.name in g.groups then g.(groups := g.groups[p.name := g.groups[p.name] + [cat]])
        else g.(groups := g.groups[p.name := [cat]], order := g.order + [p.name]);
      var g'' := if p.id in g.idNames then g' else g'.(idOrder := g.idOrder + [p.id]);
      Success(g''.(idNames := g.idNames[p.id := p.name]))
  }

  /** The property loop, from state `g`, over `props`. */
  function GroupFrom(g: Grouping, props: seq<Property>, catLabels: map<int, string>): Result<Grouping, Error>
    decreases |props|
  {
    if |props| == 0 then Success(g)
    else
      match GroupStep(g, props[0], catLabels)
      case Failure(e) => Failure(e)
      case Success(g') => GroupFrom(g', props[1..], catLabels)
  }

  /** A turn of the property loop keeps the two dicts and their key orders in agreement. */
  lemma GroupStepValid(g: Grouping, p: Property, catLabels: map<int, string>)
    requires g.Valid() && GroupStep(g, p, catLabels).Success?
    ensures GroupStep(g, p, catLabels).value.Valid()
  {
  }

  /** The whole property loop keeps them in agreement. */
  lemma {:induction false} GroupFromValid(g: Grouping, props: seq<Property>, catLabels: map<int, string>)
    requires g.Valid() && GroupFrom(g, props, catLabels).Success?
    ensures GroupFrom(g, props, catLabels).value.Valid()
    decreases |props|
  {
    if |props| > 0 {
      GroupStepValid(g, props[0], catLabels);
      GroupFromValid(GroupStep(g, props[0], catLabels).value, props[1..], catLabels);
    }
  }

  /** The outcome of resolution: property id to column, and the node header. */
  datatype Resolution = Resolution(columns: map<int, string>, header: seq<string>)

  /** The column of every property name of a grouping. */
  function NameColumns(g: Grouping): map<string, string> {
    map l | l in g.groups :: ColumnName(l, g.groups[l])
  }

  /** The columns of a finished grouping, and the header listing them in name order. */
  function Finish(g: Grouping): Resolution
    requires g.Valid()
  {
    var properties := NameColumns(g);
    Resolution(
      map pid | pid in g.idNames :: properties[g.idNames[pid]],
      FixedNodeColumns + seq(|g.order|, k requires 0 <= k < |g.order| => properties[g.order[k]]))
  }

  /** Resolution of `props` against the category table. */
  function Resolve(props: seq<Property>, catLabels: map<int, string>): Result<Resolution, Error> {
    match GroupFrom(EmptyGrouping, props, catLabels)
    case Failure(e) => Failure(e)
    case Success(g) =>
      GroupFromValid(EmptyGrouping, props, catLabels);
      Success(Finish(g))
  }

  /** The property loop, filling the name-to-categories and id-to-name dictionaries. */
  method GroupProperties(props: seq<Property>, catLabels: map<int, string>) returns (r: Result<Grouping, Error>)
    ensures r == GroupFrom(EmptyGrouping, props, catLabels)
    ensures r.Success? ==> r.value.Valid()
  {
    var groups: map<string, seq<string>> := map[];
    var order: seq<string> := [];
    var idProperties: map<int, string> := map[];
    var idOrder: seq<int> := [];
    var i := 0;
    while i < |props|
      invariant 0 <= i <= |props|
      invariant Grouping(groups, order, idProperties, idOrder).Valid()
      invariant GroupFrom(EmptyGrouping, props, catLabels)
        == GroupFrom(Grouping(groups, order, idProperties, idOrder), props[i..], catLabels)
    {
      var p := props[i];
      assert props[i..][1..] == props[i + 1..];
      if p.categoryId !in catLabels {
        return Failure(UnknownCategory(p.categoryId));
      }
      GroupStepValid(Grouping(groups, order, idProperties, idOrder), p, catLabels);
      if p.name in groups {
        groups := groups[p.name := groups[p.name] + [catLabels[p.categoryId]]];
      } else {
        groups := groups[p.name := [catLabels[p.categoryId]]];
        order := order + [p.name];
      }
      if p.id !in idProperties {
        idOrder := idOrder + [p.id];
      }
      idProperties := idProperties[p.id := p.name];
      i := i + 1;
    }
    r := Success(Grouping(groups, order, idProperties, idOrder));
  }

  /**
   * The loop that replaces, in place and in the dict's key order `ids`, every
   * property id's name by that name's column.
   */
  method RewriteColumns(idProperties: map<int, string>, ids: seq<int>, properties: map<string, string>)
    returns (r: map<int, string>)
    requires forall pid :: pid in idProperties <==> pid in ids
    requires NoDuplicates(ids)
    requires forall pid :: pid in idProperties ==> idProperties[pid] in properties
    ensures r == map pid | pid in idProperties :: properties[idProperties[pid]]
  {
    r := idProperties;
    for k := 0 to |ids|
      invariant forall pid :: pid in r <==> pid in idProperties
      invariant forall pid :: pid in idProperties ==>
        r[pid] == if pid in ids[..k] then properties[idProperties[pid]] else idProperties[pid]
    {
      var pid := ids[k];
      assert ids[..k + 1] == ids[..k] + [pid];
      assert pid in ids && pid !in ids[..k];
      r := r[pid := properties[r[pid]]];
    }
    assert ids[..|ids|] == ids;
    var target := map pid | pid in idProperties :: properties[idProperties[pid]];
    assert forall pid :: pid in r <==> pid in target;
    assert forall pid :: pid in r ==> r[pid] == target[pid];
  }

  /** Resolution as the converter runs it: the property loop, the column rewrite, the header. */
  method ResolveProperties(props: seq<Property>, catLabels: map<int, string>) returns (r: Result<Resolution, Error>)
    ensures r == Resolve(props, catLabels)
  {
    var grouped := GroupProperties(props, catLabels);
    if grouped.Failure? {
      return Failure(grouped.error);
    }
    var g := grouped.value;
    var properties := map l | l in g.groups :: ColumnName(l, g.groups[l]);
    var columns := RewriteColumns(g.idNames, g.idOrder, properties);
    var header := FixedNodeColumns + seq(|g.order|, k requires 0 <= k < |g.order| => properties[g.order[k]]);
    return Success(Resolution(columns, header));
  }

  /** Property id to property name, in declaration order. */
  function NamePairs(props: seq<Property>): (pairs: seq<(int, string)>)
    ensures |pairs| == |props| && forall i :: 0 <= i < |props| ==> pairs[i] == (props[i].id, props[i].name)
  {
    seq(|props|, i requires 0 <= i < |props| => (props[i].id, props[i].name))
  }

  /** `NewNames` lists each unseen name once, and exactly the unseen names of `props`. */
  lemma {:induction false} NewNamesFacts(props: seq<Property>, seen: set<string>)
    ensures NoDuplicates(NewNames(props, seen))
    ensures forall l :: l in NewNames(props, seen) ==> l !in seen
    ensures forall i :: 0 <= i < |props| && props[i].name !in seen ==> props[i].name in NewNames(props, seen)
    ensures forall l :: l in NewNames(props, seen) ==> exists i :: 0 <= i < |props| && props[i].name == l
    decreases |props|
  {
    if |props| > 0 {
      var p, rest := props[0], props[1..];
      assert forall i :: 1 <= i < |props| ==> props[i] == rest[i - 1];
      if p.name in seen {
        NewNamesFacts(rest, seen);
      } else {
        NewNamesFacts(rest, seen + {p.name});
        var tail := NewNames(rest, seen + {p.name});
        assert NewNames(props, seen) == [p.name] + tail;
        forall l | l in NewNames(props, seen) ensures exists i :: 0 <= i < |props| && props[i].name == l {
          if l != p.name {
            assert l in tail;
            var i :| 0 <= i < |rest| && rest[i].name == l;
            assert props[i + 1].name == l;
          }
        }
      }
    }
  }

  /** The property loop succeeds exactly when every category is known, and then fails at the first unknown one. */
  lemma {:induction false} GroupFromFailure(g: Grouping, props: seq<Property>, catLabels: map<int, string>)
    ensures GroupFrom(g, props, catLabels).Failure? <==> !CategoriesKnown(props, catLabels)
    ensures GroupFrom(g, props, catLabels).Failure? ==>
      exists i :: 0 <= i < |props| && props[i].categoryId !in catLabels && CategoriesKnown(props[..i], catLabels)
        && GroupFrom(g, props, catLabels).error == UnknownCategory(props[i].categoryId)
    decreases |props|
  {
    if |props| > 0 {
      var p, rest := props[0], props[1..];
      assert forall i :: 1 <= i < |props| ==> props[i] == rest[i - 1];
      if p.categoryId in catLabels {
        var g' := GroupStep(g, p, catLabels).value;
        GroupFromFailure(g', rest, catLabels);
        if GroupFrom(g, props, catLabels).Failure? {
          var i :| 0 <= i < |rest| && rest[i].categoryId !in catLabels && CategoriesKnown(rest[..i], catLabels)
            && GroupFrom(g', rest, catLabels).error == UnknownCategory(rest[i].categoryId);
          assert props[..i + 1] == [p] + rest[..i];
          assert CategoriesKnown(props[..i + 1], catLabels);
        }
      } else {
        assert props[..0] == [];
      }
    }
  }

  /** A turn of the property loop adds the property's name to the keys, and to the key order when it is new. */
  lemma GroupStepOrder(g: Grouping, p: Property, catLabels: map<int, string>)
    requires p.categoryId in catLabels
    ensures GroupStep(g, p, catLabels).Success?
    ensures var g' := GroupStep(g, p, catLabels).value;
      && g'.groups.Keys == g.groups.Keys + {p.name}
      && g'.order == if p.name in g.groups then g.order else g.order + [p.name]
  {
  }

  /** New names join the key order at their first appearance. */
  lemma {:induction false} GroupFromOrder(g: Grouping, props: seq<Property>, catLabels: map<int, string>)
    requires CategoriesKnown(props, catLabels)
    ensures GroupFrom(g, props, catLabels).Success?
    ensures GroupFrom(g, props, catLabels).value.order == g.order + NewNames(props, g.groups.Keys)
    decreases |props|
  {
    if |props| == 0 {
      assert g.order + [] == g.order;
    } else {
      var p, rest := props[0], props[1..];
      assert forall i :: 0 <= i < |rest| ==> rest[i] == props[i + 1];
      var g' := GroupStep(g, p, catLabels).value;
      assert GroupFrom(g, props, catLabels) == GroupFrom(g', rest, catLabels);
      GroupFromOrder(g', rest, catLabels);
      var seen := g.groups.Keys;
      GroupStepOrder(g, p, catLabels);
      if p.name in g.groups {
        assert seen + {p.name} == seen;
        assert NewNames(props, seen) == NewNames(rest, seen);
      } else {
        var later := NewNames(rest, seen + {p.name});
        assert NewNames(props, seen) == [p.name] + later;
        assert (g.order + [p.name]) + later == g.order + ([p.name] + later);
      }
    }
  }

  /** A turn of the property loop appends the property's category label to its name's labels, and to no other. */
  lemma GroupStepGroups(g: Grouping, p: Property, catLabels: map<int, string>, l: string)
    requires p.categoryId in catLabels
    ensures GroupStep(g, p, catLabels).Success?
    ensures var g' := GroupStep(g, p, catLabels).value;
      && (l in g'.groups <==> l in g.groups || l == p.name)
      && (if l in g'.groups then g'.groups[l] else [])
           == (if l in g.groups then g.groups[l] else []) + (if p.name == l then [catLabels[p.categoryId]] else [])
  {
  }

  /** Each name ends with the labels of the categories declaring it, in declaration order. */
  lemma {:induction false} GroupFromGroups(g: Grouping, props: seq<Property>, catLabels: map<int, string>, l: string)
    requires CategoriesKnown(props, catLabels)
    ensures GroupFrom(g, props, catLabels).Success?
    ensures var h := GroupFrom(g, props, catLabels).value;
      l in h.groups ==> h.groups[l] == (if l in g.groups then g.groups[l] else []) + DeclaringCategories(props, catLabels, l)
    decreases |props|
  {
    if |props| == 0 {
      if l in g.groups {
        assert g.groups[l] + [] == g.groups[l];
      }
    } else {
      var p, rest := props[0], props[1..];
      assert forall i :: 0 <= i < |rest| ==> rest[i] == props[i + 1];
      var g' := GroupStep(g, p, catLabels).value;
      var cat := catLabels[p.categoryId];
      assert GroupFrom(g, props, catLabels) == GroupFrom(g', rest, catLabels);
      GroupFromGroups(g', rest, catLabels, l);
      var own := if p.name == l then [cat] else [];
      var before := if l in g.groups then g.groups[l] else [];
      var mid := if l in g'.groups then g'.groups[l] else [];
      GroupStepGroups(g, p, catLabels, l);
      assert mid == before + own;
      var later := DeclaringCategories(rest, catLabels, l);
      assert DeclaringCategories(props, catLabels, l) == own + later;
      assert mid + later == before + (own + later);
    }
  }

  /** Each property id ends with the name of its last declaration. */
  lemma {:induction false} GroupFromNames(g: Grouping, props: seq<Property>, catLabels: map<int, string>)
    requires CategoriesKnown(props, catLabels)
    ensures GroupFrom(g, props, catLabels).Success?
    ensures GroupFrom(g, props, catLabels).value.idNames == Assign(g.idNames, NamePairs(props))
    decreases |props|
  {
    if |props| > 0 {
      var p, rest := props[0], props[1..];
      assert forall i :: 0 <= i < |rest| ==> rest[i] == props[i + 1];
      var g' := GroupStep(g, p, catLabels).value;
      GroupFromNames(g', rest, catLabels);
      assert NamePairs(props)[1..] == NamePairs(rest);
    }
  }

  /** No later property redeclares the id of property `i`. */
  ghost predicate LastDeclaration(props: seq<Property>, i: int)
    requires 0 <= i < |props|
  {
    forall j :: i < j < |props| ==> props[j].id != props[i].id
  }

  /** Resolution fails exactly when a property's category is unknown, and reports the first such category. */
  lemma ResolveFailure(props: seq<Property>, catLabels: map<int, string>)
    ensures Resolve(props, catLabels).Failure? <==> exists i :: 0 <= i < |props| && props[i].categoryId !in catLabels
    ensures Resolve(props, catLabels).Failure? ==>
      exists i :: 0 <= i < |props| && props[i].categoryId !in catLabels
        && (forall j :: 0 <= j < i ==> props[j].categoryId in catLabels)
        && Resolve(props, catLabels).error == UnknownCategory(props[i].categoryId)
  {
    GroupFromFailure(EmptyGrouping, props, catLabels);
    if Resolve(props, catLabels).Failure? {
      var i :| 0 <= i < |props| && props[i].categoryId !in catLabels && CategoriesKnown(props[..i], catLabels)
        && GroupFrom(EmptyGrouping, props, catLabels).error == UnknownCategory(props[i].categoryId);
      assert forall j :: 0 <= j < i ==> props[j] == props[..i][j];
    }
  }

  /**
   * Every declared property id resolves to the name of its last declaration
   * followed, in parentheses, by the labels of the categories of every property
   * declaring that name, in declaration order; only declared ids resolve. So two
   * properties sharing a name share a column.
   */
  lemma ResolvedColumns(props: seq<Property>, catLabels: map<int, string>)
    requires CategoriesKnown(props, catLabels)
    ensures Resolve(props, catLabels).Success?
    ensures var columns := Resolve(props, catLabels).value.columns;
      && (forall i :: 0 <= i < |props| ==> props[i].id in columns)
      && (forall pid :: pid in columns ==> exists i :: 0 <= i < |props| && props[i].id == pid)
      && (forall i :: 0 <= i < |props| && LastDeclaration(props, i) ==>
            columns[props[i].id] == ColumnName(props[i].name, DeclaringCategories(props, catLabels, props[i].name)))
  {
    GroupFromFailure(EmptyGrouping, props, catLabels);
    GroupFromNames(EmptyGrouping, props, catLabels);
    GroupFromValid(EmptyGrouping, props, catLabels);
    var h := GroupFrom(EmptyGrouping, props, catLabels).value;
    var pairs := NamePairs(props);
    AssignFacts(map[], pairs);
    var columns := Resolve(props, catLabels).value.columns;
    assert columns == Finish(h).columns;
    forall i | 0 <= i < |props| ensures props[i].id in columns {
      assert pairs[i].0 == props[i].id;
    }
    forall pid | pid in columns ensures exists i :: 0 <= i < |props| && props[i].id == pid {
      var i :| 0 <= i < |pairs| && pairs[i] == (pid, h.idNames[pid]);
    }
    forall i | 0 <= i < |props| && LastDeclaration(props, i)
      ensures columns[props[i].id] == ColumnName(props[i].name, DeclaringCategories(props, catLabels, props[i].name))
    {
      ResolvedColumnAt(props, catLabels, i);
    }
  }

  /** `ResolvedColumns` for one property. */
  lemma ResolvedColumnAt(props: seq<Property>, catLabels: map<int, string>, i: int)
    requires CategoriesKnown(props, catLabels)
    requires 0 <= i < |props| && LastDeclaration(props, i)
    ensures Resolve(props, catLabels).Success?
    ensures var columns := Resolve(props, catLabels).value.columns;
      props[i].id in columns
      && columns[props[i].id] == ColumnName(props[i].name, DeclaringCategories(props, catLabels, props[i].name))
  {
    GroupFromFailure(EmptyGrouping, props, catLabels);
    GroupFromNames(EmptyGrouping, props, catLabels);
    GroupFromValid(EmptyGrouping, props, catLabels);
    var h := GroupFrom(EmptyGrouping, props, catLabels).value;
    var pairs := NamePairs(props);
    assert LastOfKey(pairs, i);
    AssignLast(map[], pairs, i);
    var pid, l := props[i].id, props[i].name;
    assert h.idNames[pid] == l;
    assert l in h.groups;
    GroupFromGroups(EmptyGrouping, props, catLabels, l);
    var cats := DeclaringCategories(props, catLabels, l);
    assert h.groups[l] == [] + cats;
    assert [] + cats == cats;
    var columns := Resolve(props, catLabels).value.columns;
    assert columns == Finish(h).columns;
    assert NameColumns(h)[l] == ColumnName(l, h.groups[l]);
    assert columns[pid] == NameColumns(h)[l];
  }

  /**
   * The node header is the five fixed columns followed by one column per distinct
   * property name, in order of first appearance, each being that name's column.
   */
  lemma NodeHeaderColumns(props: seq<Property>, catLabels: map<int, string>)
    requires CategoriesKnown(props, catLabels)
    ensures Resolve(props, catLabels).Success?
    ensures var header, names := Resolve(props, catLabels).value.header, NewNames(props, {});
      && |header| == |FixedNodeColumns| + |names|
      && header[..|FixedNodeColumns|] == FixedNodeColumns
      && (forall k :: 0 <= k < |names| ==>
            header[|FixedNodeColumns| + k] == ColumnName(names[k], DeclaringCategories(props, catLabels, names[k])))
      && NoDuplicates(names)
      && (forall i :: 0 <= i < |props| ==> props[i].name in names)
      && (forall l :: l in names ==> exists i :: 0 <= i < |props| && props[i].name == l)
  {
    GroupFromFailure(EmptyGrouping, props, catLabels);
    GroupFromOrder(EmptyGrouping, props, catLabels);
    GroupFromValid(EmptyGrouping, props, catLabels);
    NewNamesFacts(props, {});
    var h := GroupFrom(EmptyGrouping, props, catLabels).value;
    var names := NewNames(props, {});
    assert EmptyGrouping.groups.Keys == {};
    assert h.order == names;
    var header := Resolve(props, catLabels).value.header;
    assert header == Finish(h).header;
    forall k | 0 <= k < |names|
      ensures header[|FixedNodeColumns| + k] == ColumnName(names[k], DeclaringCategories(props, catLabels, names[k]))
    {
      HeaderColumnAt(props, catLabels, k);
    }
  }

  /** `NodeHeaderColumns` for one property column. */
  lemma HeaderColumnAt(props: seq<Property>, catLabels: map<int, string>, k: int)
    requires CategoriesKnown(props, catLabels)
    requires 0 <= k < |NewNames(props, {})|
    ensures Resolve(props, catLabels).Success?
    ensures var header, names := Resolve(props, catLabels).value.header, NewNames(props, {});
      |header| == |FixedNodeColumns| + |names|
      && header[|FixedNodeColumns| + k] == ColumnName(names[k], DeclaringCategories(props, catLabels, names[k]))
  {
    GroupFromOrder(EmptyGrouping, props, catLabels);
    GroupFromValid(EmptyGrouping, props, catLabels);
    var h := GroupFrom(EmptyGrouping, props, catLabels).value;
    assert EmptyGrouping.groups.Keys == {};
    assert h.order == NewNames(props, {});
    var l := h.order[k];
    FinishHeaderAt(h, k);
    GroupFromGroups(EmptyGrouping, props, catLabels, l);
    var cats := DeclaringCategories(props, catLabels, l);
    assert l !in EmptyGrouping.groups;
    assert h.groups[l] == [] + cats == cats;
    assert Resolve(props, catLabels) == Success(Finish(h));
  }

  /** The header of a finished grouping lists the column of each name, in key order. */
  lemma FinishHeaderAt(g: Grouping, k: int)
    requires g.Valid() && 0 <= k < |g.order|
    ensures var header := Finish(g).header;
      |header| == |FixedNodeColumns| + |g.order|
      && g.order[k] in g.groups
      && header[|FixedNodeColumns| + k] == ColumnName(g.order[k], g.groups[g.order[k]])
  {
    assert g.order[k] in g.order;
  }

  /** A column always ends with the closing parenthesis of its category list. */
  lemma ColumnNameEnds(name: string, cats: seq<string>)
    ensures var c := ColumnName(name, cats); |c| > 0 && c[|c| - 1] == ')'
  {
  }

  /**
   * Every resolved column is one of the header's property columns and none is a
   * fixed column, so attribute values never overwrite id, label, category, note
   * or highlight.
   */
  lemma ColumnsInHeader(props: seq<Property>, catLabels: map<int, string>)
    requires Resolve(props, catLabels).Success?
    ensures var r := Resolve(props, catLabels).value;
      forall pid :: pid in r.columns ==>
        r.columns[pid] !in FixedNodeColumns && r.columns[pid] in r.header[|FixedNodeColumns|..]
  {
    GroupFromValid(EmptyGrouping, props, catLabels);
    var h := GroupFrom(EmptyGrouping, props, catLabels).value;
    var r := Resolve(props, catLabels).value;
    assert r == Finish(h);
    forall pid | pid in r.columns
      ensures r.columns[pid] !in FixedNodeColumns && r.columns[pid] in r.header[|FixedNodeColumns|..]
    {
      var l := h.idNames[pid];
      var c := r.columns[pid];
      assert c == ColumnName(l, h.groups[l]);
      ColumnNameEnds(l, h.groups[l]);
      assert c != "id" && c != "label" && c != "category" && c != "note" && c != "highlight";
      assert l in h.order;
      var k :| 0 <= k < |h.order| && h.order[k] == l;
      assert r.header[|FixedNodeColumns|..][k] == c;
    }
  }
}
