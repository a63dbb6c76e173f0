/** Helper columns for GROUP BY and ORDER BY, and the in-place removal of the ones the statement already selects
    (`proxy/plan/plan_select.go`). */
module HelperColumns {
  import opened Options

  /** A select field: its alias ("" for none) and, when it is a plain column, the column's name. */
  datatype Field = Field(alias: string, column: Option<string>)

  /** The field answers to the name, as its alias or as its column. */
  predicate Carries(f: Field, name: string) { (f.alias != "" && f.alias == name) || f.column == Some(name) }

  /** Where handleExtraFieldList finds a name among the selected fields. */
  ghost predicate NamesOf(fields: seq<Field>, names: map<string, nat>) {
    && (forall name :: name in names ==> names[name] < |fields| && Carries(fields[names[name]], name))
    && (forall i, name :: 0 <= i < |fields| && Carries(fields[i], name) ==> name in names)
  }

  /** The helper repeats a selected field, which stands in for it. */
  predicate Redundant(h: Field, names: map<string, nat>) { h.column.Some? && h.column.value in names }

  /** The helpers that stay. */
  function Survivors(helpers: seq<Field>, names: map<string, nat>): seq<Field> {
    if helpers == [] then []
    else
      var n := |helpers| - 1;
      Survivors(helpers[..n], names) + if Redundant(helpers[n], names) then [] else [helpers[n]]
  }

  /** The column a helper ends up at, when `base` fields stand before the first helper of its list. */
  function Target(helpers: seq<Field>, names: map<string, nat>, base: nat, i: nat): nat
    requires i < |helpers|
  {
    if Redundant(helpers[i], names) then names[helpers[i].column.value]
    else base + |Survivors(helpers[..i], names)|
  }

  /** The columns of the first `n` helpers are their targets. */
  ghost predicate PlacedFirst(helpers: seq<Field>, names: map<string, nat>, base: nat, n: nat, columns: seq<int>) {
    n <= |helpers| && n <= |columns| && forall i :: 0 <= i < n ==> columns[i] == Target(helpers, names, base, i)
  }

  lemma SurvivorsStep(helpers: seq<Field>, names: map<string, nat>, i: nat)
    requires i < |helpers|
    ensures Survivors(helpers[..i + 1], names) ==
            Survivors(helpers[..i], names) + if Redundant(helpers[i], names) then [] else [helpers[i]]
    ensures |Survivors(helpers[..i], names)| <= i
  {
    assert helpers[..i + 1][..i] == helpers[..i];
    SurvivorsFew(helpers[..i], names);
  }

  lemma {:induction false} SurvivorsFew(helpers: seq<Field>, names: map<string, nat>)
    ensures |Survivors(helpers, names)| <= |helpers|
  {
    if helpers != [] { SurvivorsFew(helpers[..|helpers| - 1], names); }
  }

  /** A helper that stays is found behind the earlier ones that stay. */
  lemma {:induction false} SurvivorPlace(helpers: seq<Field>, names: map<string, nat>, i: nat)
    requires i < |helpers| && !Redundant(helpers[i], names)
    ensures var at := |Survivors(helpers[..i], names)|;
            at < |Survivors(helpers, names)| && Survivors(helpers, names)[at] == helpers[i]
  {
    var n := |helpers| - 1;
    if i < n {
      SurvivorPlace(helpers[..n], names, i);
      assert helpers[..n][..i] == helpers[..i];
    }
  }

  /** The item is served by its own helper column, or by a selected field that carries its name. */
  ghost predicate Serves(fields: seq<Field>, selected: nat, helper: Field, at: nat) {
    && at < |fields|
    && if at < selected then helper.column.Some? && Carries(fields[at], helper.column.value) else fields[at] == helper
  }

  ghost predicate ServesAll(fields: seq<Field>, selected: nat, helpers: seq<Field>, columns: seq<int>) {
    && |columns| == |helpers|
    && forall i :: 0 <= i < |helpers| ==> columns[i] >= 0 && Serves(fields, selected, helpers[i], columns[i])
  }

  lemma RedundantServed(selected: seq<Field>, names: map<string, nat>, fields: seq<Field>, h: Field)
    requires NamesOf(selected, names) && Redundant(h, names)
    requires |selected| <= |fields| && fields[..|selected|] == selected
    ensures Serves(fields, |selected|, h, names[h.column.value])
  {
    var at := names[h.column.value];
    assert fields[..|selected|][at] == fields[at];
  }

  lemma SurvivorServed(selected: nat, names: map<string, nat>, base: nat, helpers: seq<Field>, fields: seq<Field>,
                       i: nat)
    requires i < |helpers| && !Redundant(helpers[i], names) && selected <= base
    requires var kept := Survivors(helpers, names); base + |kept| <= |fields| && fields[base..base + |kept|] == kept
    ensures Serves(fields, selected, helpers[i], Target(helpers, names, base, i))
  {
    SurvivorPlace(helpers, names, i);
    var kept, at := Survivors(helpers, names), |Survivors(helpers[..i], names)|;
    assert fields[base..base + |kept|][at] == fields[base + at];
  }

  /** After the removal every item of a list is served, wherever the list stands among the fields. */
  lemma ListServed(selected: seq<Field>, names: map<string, nat>, base: nat, helpers: seq<Field>, fields: seq<Field>,
                   columns: seq<int>)
    requires NamesOf(selected, names) && |selected| <= base
    requires |selected| <= |fields| && fields[..|selected|] == selected
    requires var kept := Survivors(helpers, names); base + |kept| <= |fields| && fields[base..base + |kept|] == kept
    requires |columns| == |helpers| && PlacedFirst(helpers, names, base, |helpers|, columns)
    ensures ServesAll(fields, |selected|, helpers, columns)
  {
    forall i | 0 <= i < |helpers| ensures columns[i] >= 0 && Serves(fields, |selected|, helpers[i], columns[i]) {
      assert columns[i] == Target(helpers, names, base, i);
      if Redundant(helpers[i], names) {
        RedundantServed(selected, names, fields, helpers[i]);
      } else {
        SurvivorServed(|selected|, names, base, helpers, fields, i);
      }
    }
  }

  lemma Slices(a: seq<Field>, b: seq<Field>, c: seq<Field>, all: seq<Field>)
    requires all == a + b + c + []
    ensures all[..|a|] == a && all[|a|..|a| + |b|] == b && all[|a + b|..|a + b| + |c|] == c
  {
  }

  /** Every item is a plain column that a selected field carries. */
  ghost predicate AllSelected(selected: seq<Field>, items: seq<Field>) {
    forall h :: h in items ==>
      h.column.Some? && exists i :: 0 <= i < |selected| && Carries(selected[i], h.column.value)
  }

  lemma {:induction false} NoSurvivors(selected: seq<Field>, names: map<string, nat>, helpers: seq<Field>)
    requires NamesOf(selected, names)
    ensures Survivors(helpers, names) == [] <==> AllSelected(selected, helpers)
  {
    if helpers != [] {
      var n := |helpers| - 1;
      NoSurvivors(selected, names, helpers[..n]);
      assert helpers == helpers[..n] + [helpers[n]];
    }
  }

  lemma NoHelpers(selected: seq<Field>, names: map<string, nat>, group: seq<Field>, order: seq<Field>,
                  fields: seq<Field>)
    requires NamesOf(selected, names) && fields == selected + Survivors(group, names) + Survivors(order, names) + []
    ensures fields == selected <==> AllSelected(selected, group + order)
  {
    NoSurvivors(selected, names, group);
    NoSurvivors(selected, names, order);
    assert AllSelected(selected, group + order) <==> AllSelected(selected, group) && AllSelected(selected, order);
    assert |fields| == |selected| + |Survivors(group, names)| + |Survivors(order, names)|;
  }

  /** What stands before the i-th helper: everything before the list, and the earlier helpers that stay. */
  ghost predicate IsFront(head: seq<Field>, helpers: seq<Field>, names: map<string, nat>, i: nat, front: seq<Field>) {
    i <= |helpers| && |front| <= |head| + i && front == head + Survivors(helpers[..i], names)
  }

  lemma FrontStarts(head: seq<Field>, helpers: seq<Field>, names: map<string, nat>)
    ensures IsFront(head, helpers, names, 0, head)
  {
    assert helpers[..0] == [] && head + [] == head;
  }

  lemma FrontStep(head: seq<Field>, helpers: seq<Field>, names: map<string, nat>, i: nat, front: seq<Field>)
    requires i < |helpers| && IsFront(head, helpers, names, i, front)
    ensures if Redundant(helpers[i], names) then IsFront(head, helpers, names, i + 1, front)
            else IsFront(head, helpers, names, i + 1, front + [helpers[i]])
                 && Target(helpers, names, |head|, i) == |front|
  {
    SurvivorsStep(helpers, names, i);
    var kept := Survivors(helpers[..i], names);
    assert head + (kept + [helpers[i]]) == head + kept + [helpers[i]] && kept + [] == kept;
  }

  lemma PlacedStep(helpers: seq<Field>, names: map<string, nat>, base: nat, i: nat, columns: seq<int>)
    requires i < |helpers| && i < |columns| && PlacedFirst(helpers, names, base, i, columns)
    ensures PlacedFirst(helpers, names, base, i + 1, columns[i := Target(helpers, names, base, i)])
    ensures columns[i] == Target(helpers, names, base, i) ==> PlacedFirst(helpers, names, base, i + 1, columns)
  {
  }

  /** Deleting one field, or passing over it. */
  lemma RemoveStep(front: seq<Field>, h: Field, rest: seq<Field>, fields: seq<Field>)
    requires fields == front + ([h] + rest)
    ensures |front| < |fields| && fields[|front|] == h
    ensures fields[..|front|] + fields[|front| + 1..] == front + rest
    ensures fields == front + [h] + rest
  {
    assert fields[..|front|] == front && fields[|front| + 1..] == rest;
  }

  class SelectPlan {
    var fields: seq<Field>
    var originColumnCount: nat
    var groupByColumn: seq<int>
    var orderByColumn: seq<int>

    constructor (selected: seq<Field>)
      ensures fields == selected && originColumnCount == |selected| && groupByColumn == [] && orderByColumn == []
    {
      fields, originColumnCount, groupByColumn, orderByColumn := selected, |selected|, [], [];
    }

    /** handleGroupBy. */
    method HandleGroupBy(helpers: seq<Field>)
      requires groupByColumn == []
      modifies `fields, `groupByColumn
      ensures fields == old(fields) + helpers
      ensures groupByColumn == seq(|helpers|, i => |old(fields)| + i)
    {
      for i := 0 to |helpers|
        invariant fields == old(fields) && groupByColumn == seq(i, k => |old(fields)| + k)
      {
        groupByColumn := groupByColumn + [i + |fields|];
      }
      fields := fields + helpers;
    }

    /** handleOrderBy. */
    method HandleOrderBy(helpers: seq<Field>)
      requires orderByColumn == []
      modifies `fields, `orderByColumn
      ensures fields == old(fields) + helpers
      ensures orderByColumn == seq(|helpers|, i => |old(fields)| + i)
    {
      for i := 0 to |helpers|
        invariant fields == old(fields) && orderByColumn == seq(i, k => |old(fields)| + k)
      {
        orderByColumn := orderByColumn + [i + |fields|];
      }
      fields := fields + helpers;
    }

    /** The map of selected names; a name carried twice points at the last field that does. */
    method SelectFields() returns (names: map<string, nat>)
      requires originColumnCount <= |fields|
      ensures NamesOf(fields[..originColumnCount], names)
    {
      names := map[];
      for i := 0 to originColumnCount
        invariant NamesOf(fields[..i], names)
      {
        if fields[i].alias != "" { names := names[fields[i].alias := i]; }
        if fields[i].column.Some? { names := names[fields[i].column.value := i]; }
        assert fields[..i + 1] == fields[..i] + [fields[i]];
      }
    }

    /** The field at `at` is deleted if a selected field carries its name; then that field's index is returned. */
    method RemoveField(names: map<string, nat>, at: nat) returns (index: Option<nat>)
      requires at < |fields|
      modifies `fields
      ensures var h := old(fields[at]);
              if Redundant(h, names) then
                fields == old(fields[..at] + fields[at + 1..]) && index == Some(names[h.column.value])
              else fields == old(fields) && index.None?
    {
      var field := fields[at].column;
      if field.None? || field.value !in names { return None; }
      fields := fields[..at] + fields[at + 1..];
      return Some(names[field.value]);
    }

    /** One of the two loops of handleExtraFieldList: helpers that repeat a selected field are deleted from the field
        list, and `deleteNum` moves the later ones up. `base` is the first helper's place before any deletion. */
    method RemoveRedundant(names: map<string, nat>, base: nat, columns: seq<int>, deleted: nat,
                           ghost head: seq<Field>, ghost helpers: seq<Field>, ghost tail: seq<Field>)
      returns (placed: seq<int>, deleteNum: nat)
      requires fields == head + helpers + tail && |head| + deleted == base
      requires |columns| == |helpers| && forall i :: 0 <= i < |columns| ==> columns[i] == base + i
      modifies `fields
      ensures fields == head + Survivors(helpers, names) + tail
      ensures deleteNum == deleted + |helpers| - |Survivors(helpers, names)|
      ensures |placed| == |helpers| && PlacedFirst(helpers, names, |head|, |helpers|, placed)
    {
      placed, deleteNum := columns, deleted;
      ghost var front := head;
      assert fields == head + (helpers[0..] + tail);
      FrontStarts(head, helpers, names);
      for i := 0 to |columns|
        invariant IsFront(head, helpers, names, i, front)
        invariant fields == front + (helpers[i..] + tail)
        invariant deleteNum == deleted + |head| + i - |front|
        invariant |placed| == |columns| && forall k :: i <= k < |columns| ==> placed[k] == columns[k]
        invariant PlacedFirst(helpers, names, |head|, i, placed)
      {
        FrontStep(head, helpers, names, i, front);
        placed := placed[i := placed[i] - deleteNum];
        var currColumnIndex := base + i - deleteNum;
        ghost var h, rest := helpers[i], helpers[i + 1..] + tail;
        assert helpers[i..] + tail == [h] + rest;
        RemoveStep(front, h, rest, fields);
        PlacedStep(helpers, names, |head|, i, placed);
        var index := RemoveField(names, currColumnIndex);
        if index.None? {
          front := front + [h];
          continue;
        }
        placed := placed[i := index.value];
        deleteNum := deleteNum + 1;
      }
      assert helpers[..|helpers|] == helpers && helpers[|helpers|..] + tail == tail;
    }

    /** handleExtraFieldList. */
    method HandleExtraFieldList(ghost selected: seq<Field>, ghost group: seq<Field>, ghost order: seq<Field>)
      requires fields == selected + group + order && originColumnCount == |selected|
      requires groupByColumn == seq(|group|, i => |selected| + i)
      requires orderByColumn == seq(|order|, i => |selected + group| + i)
      modifies this
      ensures originColumnCount == old(originColumnCount) <= |fields| && fields[..originColumnCount] == selected
      ensures ServesAll(fields, |selected|, group, groupByColumn) && ServesAll(fields, |selected|, order, orderByColumn)
      ensures fields == selected <==> AllSelected(selected, group + order)
    {
      assert fields[..originColumnCount] == selected;
      var names := SelectFields();
      var deleteNum := 0;
      groupByColumn, deleteNum := RemoveRedundant(names, originColumnCount, groupByColumn, 0, selected, group, order);
      ghost var kept := Survivors(group, names);
      assert fields == selected + kept + order + [];
      orderByColumn, deleteNum :=
        RemoveRedundant(names, originColumnCount + |groupByColumn|, orderByColumn, deleteNum,
                        selected + kept, order, []);
      assert fields[..originColumnCount] == selected;
      ghost var left := Survivors(order, names);
      Slices(selected, kept, left, fields);
      ListServed(selected, names, |selected|, group, fields, groupByColumn);
      ListServed(selected, names, |selected + kept|, order, fields, orderByColumn);
      NoHelpers(selected, names, group, order, fields);
    }

    /** newEmptyResultset, for a statement no table is routed to: one header per field, written into a list as long as
        the selected fields. A write beyond its end panics. */
    method NewEmptyResultset() returns (r: Option<seq<Field>>)
      requires originColumnCount <= |fields|
      ensures r == if |fields| == originColumnCount then Some(fields) else None
    {
      var columnCount := |fields|;
      var fieldLen := |fields| - (columnCount - originColumnCount);
      var headers := [];
      for i := 0 to |fields|
        invariant i <= fieldLen && headers == fields[..i]
      {
        if i >= fieldLen { return None; }
        headers := headers + [fields[i]];
      }
      assert fields[..|fields|] == fields;
      return Some(headers);
    }
  }

  /** `SELECT id ... ORDER BY name`: a helper is left. */
  lemma HelperLeftExample()
    ensures !AllSelected([Field("", Some("id"))], [] + [Field("", Some("name"))])
  {
    var order := Field("", Some("name"));
    assert order in [] + [order];
  }

  /** Planning a statement and executing it on no table: the empty result has the selected fields, and there is one
      exactly when every GROUP BY and ORDER BY item is a selected column. */
  method EmptyRoute(selected: seq<Field>, group: seq<Field>, order: seq<Field>) returns (r: Option<seq<Field>>)
    ensures r == if AllSelected(selected, group + order) then Some(selected) else None
  {
    var p := new SelectPlan(selected);
    p.HandleGroupBy(group);
    p.HandleOrderBy(order);
    p.HandleExtraFieldList(selected, group, order);
    r := p.NewEmptyResultset();
  }
}
