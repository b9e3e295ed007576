/** The grouping loop of the characteristics handler: rows of the query
    result are folded into `grouped`, an object from trimmed specification
    name to { values: Set, suffix, specId }, and `specIdMap`, from name to
    specification id. The object's keys are kept as a sequence in insertion
    order, which is the order `Object.entries` gives them back in for names
    that are not array indices (`OrdinaryNames`). */
module Grouping {
  import opened Wrappers
  import Text
  import OrderedSet

  /** One row of the query result; every column may be NULL except the id. */
  datatype Row = Row(
    name: Option<string>,    // specification_name
    value: Option<string>,   // specification
    suffix: Option<string>,  // specification_suffix
    specId: int)             // specifications_id

  /** One entry of `grouped`. */
  datatype Group = Group(values: seq<string>, suffix: string, specId: int)

  /** `row.specification_name?.trim()` used as an object key: a NULL name
      becomes the key "undefined". */
  function NameKey(row: Row): string {
    match row.name
    case None => "undefined"
    case Some(n) => Text.Trim(n)
  }

  /** `row.specification?.trim()`. */
  function TrimmedValue(row: Row): Option<string> {
    match row.value
    case None => None
    case Some(v) => Some(Text.Trim(v))
  }

  /** `row.specification_suffix?.trim() || ""`. */
  function Suffix(row: Row): string {
    match row.suffix
    case None => ""
    case Some(s) => Text.Trim(s)
  }

  /** The placeholder some catalogue rows hold instead of a value. */
  const Placeholder: string := "Array"

  /** The row passes `if (!specValue || specValue === "Array") continue;`. */
  predicate Kept(row: Row) {
    var v := TrimmedValue(row);
    v.Some? && v.value != "" && v.value != Placeholder
  }

  /** `row` is a kept row named `name`. */
  predicate KeptRowOf(row: Row, name: string) {
    Kept(row) && NameKey(row) == name
  }

  /** `row` is a kept row named `name` whose trimmed value is `v`. */
  predicate KeptValueOf(row: Row, name: string, v: string) {
    KeptRowOf(row, name) && TrimmedValue(row) == Some(v)
  }

  // ---------------------------------------------------------------------
  // What the loop computes, stated over the whole row sequence

  /** The names of the kept rows, in row order, repetitions included. */
  function KeptNames(rows: seq<Row>): seq<string> {
    if rows == [] then []
    else
      var row := rows[|rows| - 1];
      KeptNames(rows[..|rows| - 1]) + if Kept(row) then [NameKey(row)] else []
  }

  /** The trimmed values of the kept rows named `name`, in row order. */
  function ValuesOf(rows: seq<Row>, name: string): seq<string> {
    if rows == [] then []
    else
      var row := rows[|rows| - 1];
      ValuesOf(rows[..|rows| - 1], name)
        + if KeptRowOf(row, name) then [TrimmedValue(row).value] else []
  }

  /** The first kept row named `name`. */
  function FirstKept(rows: seq<Row>, name: string): Option<Row> {
    if rows == [] then None
    else
      var row := rows[|rows| - 1];
      var earlier := FirstKept(rows[..|rows| - 1], name);
      if earlier.Some? then earlier
      else if KeptRowOf(row, name) then Some(row)
      else None
  }

  /** The specification names in first-seen order: the keys of `grouped`. */
  function Names(rows: seq<Row>): seq<string> {
    OrderedSet.Dedup(KeptNames(rows))
  }

  /** `grouped[name]` once every row has been seen: its values are the
      distinct kept values in first-seen order, its suffix and id those of
      the first kept row of that name. */
  function GroupOf(rows: seq<Row>, name: string): Option<Group> {
    match FirstKept(rows, name)
    case None => None
    case Some(first) => Some(Group(OrderedSet.Dedup(ValuesOf(rows, name)), Suffix(first), first.specId))
  }

  // ---------------------------------------------------------------------
  // Names whose object-key behaviour the map does not reproduce

  /** A canonical array index ("0", "17", no leading zero, below 2^32 - 1):
      `Object.entries` lists such keys first, in numeric order. */
  predicate IsArrayIndex(k: string) {
    k != [] && Text.AllDigits(k) && (k == "0" || k[0] != '0') && Text.DigitsValue(k) < 0xFFFF_FFFF
  }

  /** Properties every plain object inherits: `grouped[name]` is already
      truthy for them. */
  const InheritedNames: set<string> := {
    "__proto__", "constructor", "hasOwnProperty", "isPrototypeOf",
    "propertyIsEnumerable", "toLocaleString", "toString", "valueOf",
    "__defineGetter__", "__defineSetter__", "__lookupGetter__", "__lookupSetter__"}

  /** Every kept row's name behaves as a fresh key of an ordered map. */
  predicate OrdinaryNames(rows: seq<Row>) {
    forall i :: 0 <= i < |rows| && Kept(rows[i]) ==>
      !IsArrayIndex(NameKey(rows[i])) && NameKey(rows[i]) !in InheritedNames
  }

  // ---------------------------------------------------------------------
  // One row at a time

  lemma NamesStep(rows: seq<Row>, row: Row)
    ensures Names(rows + [row]) ==
              if Kept(row) then OrderedSet.Add(Names(rows), NameKey(row)) else Names(rows)
  {
    var p := rows + [row];
    assert p[..|p| - 1] == rows && p[|p| - 1] == row;
    var kn := KeptNames(rows);
    if Kept(row) {
      var s := kn + [NameKey(row)];
      assert KeptNames(p) == s;
      assert s[..|s| - 1] == kn && s[|s| - 1] == NameKey(row);
    } else {
      assert KeptNames(p) == kn;
    }
  }

  lemma ValuesOfStep(rows: seq<Row>, row: Row, name: string)
    ensures OrderedSet.Dedup(ValuesOf(rows + [row], name)) ==
              if KeptRowOf(row, name)
              then OrderedSet.Add(OrderedSet.Dedup(ValuesOf(rows, name)), TrimmedValue(row).value)
              else OrderedSet.Dedup(ValuesOf(rows, name))
  {
    var p := rows + [row];
    assert p[..|p| - 1] == rows && p[|p| - 1] == row;
    var vs := ValuesOf(rows, name);
    if KeptRowOf(row, name) {
      var s := vs + [TrimmedValue(row).value];
      assert ValuesOf(p, name) == s;
      assert s[..|s| - 1] == vs && s[|s| - 1] == TrimmedValue(row).value;
    } else {
      assert ValuesOf(p, name) == vs;
    }
  }

  lemma FirstKeptStep(rows: seq<Row>, row: Row, name: string)
    ensures FirstKept(rows + [row], name) ==
              if FirstKept(rows, name).None? && KeptRowOf(row, name)
              then Some(row) else FirstKept(rows, name)
  {
    var p := rows + [row];
    assert p[..|p| - 1] == rows && p[|p| - 1] == row;
  }

  /** A row that is not a kept row of `name` leaves `grouped[name]` as it was. */
  lemma GroupOfOtherRow(rows: seq<Row>, row: Row, name: string)
    requires !KeptRowOf(row, name)
    ensures GroupOf(rows + [row], name) == GroupOf(rows, name)
  {
    ValuesOfStep(rows, row, name);
    FirstKeptStep(rows, row, name);
  }

  /** A kept row of `name` creates `grouped[name]` if it is missing, taking
      the row's suffix and id, and adds its value to the entry's set. */
  lemma GroupOfOwnRow(rows: seq<Row>, row: Row, name: string)
    requires KeptRowOf(row, name)
    ensures GroupOf(rows, name).None? ==>
              GroupOf(rows + [row], name) == Some(Group([TrimmedValue(row).value], Suffix(row), row.specId))
    ensures GroupOf(rows, name).Some? ==>
              var g := GroupOf(rows, name).value;
              GroupOf(rows + [row], name) == Some(g.(values := OrderedSet.Add(g.values, TrimmedValue(row).value)))
  {
    ValuesOfStep(rows, row, name);
    FirstKeptStep(rows, row, name);
    if GroupOf(rows, name).None? {
      assert FirstKept(rows, name).None?;
      assert ValuesOf(rows, name) == [] by {
        NoFirstNoValues(rows, name);
      }
    }
  }

  /** A name without a kept row has no values. */
  lemma {:induction false} NoFirstNoValues(rows: seq<Row>, name: string)
    requires FirstKept(rows, name).None?
    ensures ValuesOf(rows, name) == []
  {
    if rows != [] {
      NoFirstNoValues(rows[..|rows| - 1], name);
    }
  }

  // ---------------------------------------------------------------------
  // The loop, one row at a time

  /** What one pass of the loop body does to `grouped`. */
  function AddRow(grouped: map<string, Group>, row: Row): map<string, Group> {
    if !Kept(row) then grouped
    else
      var name := NameKey(row);
      var present := if name in grouped then grouped else grouped[name := Group([], Suffix(row), row.specId)];
      present[name := present[name].(values := OrderedSet.Add(present[name].values, TrimmedValue(row).value))]
  }

  /** `grouped` after the loop has seen `rows`. */
  function Grouped(rows: seq<Row>): map<string, Group> {
    if rows == [] then map[] else AddRow(Grouped(rows[..|rows| - 1]), rows[|rows| - 1])
  }

  lemma GroupedStep(rows: seq<Row>, row: Row)
    ensures Grouped(rows + [row]) == AddRow(Grouped(rows), row)
  {
    var p := rows + [row];
    assert p[..|p| - 1] == rows && p[|p| - 1] == row;
  }

  /** The object built by the loop holds exactly the entries `GroupOf`
      describes: one per name of a kept row, with its distinct values in
      first-seen order and the suffix and id of the first such row. */
  lemma {:induction false} GroupedAgrees(rows: seq<Row>, name: string)
    ensures GroupOf(rows, name) == if name in Grouped(rows) then Some(Grouped(rows)[name]) else None
  {
    if rows != [] {
      var init, row := rows[..|rows| - 1], rows[|rows| - 1];
      assert rows == init + [row];
      GroupedAgrees(init, name);
      GroupedStep(init, row);
      if KeptRowOf(row, name) {
        GroupOfOwnRow(init, row, name);
      } else {
        GroupOfOtherRow(init, row, name);
      }
    }
  }

  /** The keys of the object are the names in `Names`. */
  lemma {:induction false} GroupedKeys(rows: seq<Row>)
    ensures forall name :: name in Grouped(rows) <==> name in Names(rows)
  {
    if rows != [] {
      var init, row := rows[..|rows| - 1], rows[|rows| - 1];
      assert rows == init + [row];
      GroupedKeys(init);
      GroupedStep(init, row);
      NamesStep(init, row);
    }
  }

  /** The body of the grouping loop for one row: a filtered row changes
      nothing; a kept row creates its entry if the name is new, taking the
      row's suffix and id, and adds its value to the entry's set. */
  method VisitRow(grouped: map<string, Group>, order: seq<string>, specIdMap: map<string, int>, row: Row)
    returns (grouped': map<string, Group>, order': seq<string>, specIdMap': map<string, int>)
    requires forall name :: name in grouped <==> name in order
    requires forall name :: name in specIdMap <==> name in grouped
    requires forall name :: name in specIdMap ==> specIdMap[name] == grouped[name].specId
    ensures grouped' == AddRow(grouped, row)
    ensures order' == if Kept(row) then OrderedSet.Add(order, NameKey(row)) else order
    ensures forall name :: name in specIdMap' <==> name in grouped'
    ensures forall name :: name in specIdMap' ==> specIdMap'[name] == grouped'[name].specId
  {
    grouped', order', specIdMap' := grouped, order, specIdMap;
    var specName := NameKey(row);
    var specValue := TrimmedValue(row);
    var suffix := Suffix(row);
    var specId := row.specId;
    if !Kept(row) {
      return;
    }
    if specName !in grouped' {
      grouped' := grouped'[specName := Group([], suffix, specId)];
      specIdMap' := specIdMap'[specName := specId];
      order' := order' + [specName];
    }
    grouped' := grouped'[specName := grouped'[specName].(values := OrderedSet.Add(grouped'[specName].values, specValue.value))];
  }

  /** The grouping loop: `grouped` is the object `Grouped` describes (see
      `GroupedAgrees`), `order` its key order, and `specIdMap` repeats each
      entry's id. */
  method GroupRows(rows: seq<Row>)
    returns (grouped: map<string, Group>, order: seq<string>, specIdMap: map<string, int>)
    requires OrdinaryNames(rows)
    ensures grouped == Grouped(rows)
    ensures order == Names(rows)
    ensures forall name :: GroupOf(rows, name) == if name in grouped then Some(grouped[name]) else None
    ensures forall name :: name in specIdMap <==> name in grouped
    ensures forall name :: name in specIdMap ==> specIdMap[name] == grouped[name].specId
  {
    grouped, order, specIdMap := map[], [], map[];
    for i := 0 to |rows|
      invariant grouped == Grouped(rows[..i])
      invariant order == Names(rows[..i])
      invariant forall name :: name in specIdMap <==> name in grouped
      invariant forall name :: name in specIdMap ==> specIdMap[name] == grouped[name].specId
    {
      GroupedKeys(rows[..i]);
      PrefixStep(rows, i);
      GroupedStep(rows[..i], rows[i]);
      NamesStep(rows[..i], rows[i]);
      grouped, order, specIdMap := VisitRow(grouped, order, specIdMap, rows[i]);
    }
    assert rows[..|rows|] == rows;
    forall name
      ensures GroupOf(rows, name) == if name in grouped then Some(grouped[name]) else None
    {
      GroupedAgrees(rows, name);
    }
  }

  lemma PrefixStep(rows: seq<Row>, i: nat)
    requires i < |rows|
    ensures rows[..i + 1] == rows[..i] + [rows[i]]
  {
  }

  // ---------------------------------------------------------------------
  // Properties of the grouping

  /** A row whose trimmed value is missing, empty or the placeholder adds
      nothing, wherever it stands. */
  lemma {:induction false} FilteredRowAddsNothing(before: seq<Row>, row: Row, after: seq<Row>)
    requires !Kept(row)
    ensures Grouped(before + [row] + after) == Grouped(before + after)
    ensures Names(before + [row] + after) == Names(before + after)
  {
    if after == [] {
      assert before + [row] + after == before + [row];
      assert before + after == before;
      GroupedStep(before, row);
      NamesStep(before, row);
    } else {
      var init, last := after[..|after| - 1], after[|after| - 1];
      FilteredRowAddsNothing(before, row, init);
      assert before + [row] + after == (before + [row] + init) + [last];
      assert before + after == (before + init) + [last];
      GroupedStep(before + [row] + init, last);
      GroupedStep(before + init, last);
      NamesStep(before + [row] + init, last);
      NamesStep(before + init, last);
    }
  }

  /** A name is among the kept names exactly when some kept row carries it. */
  lemma {:induction false} KeptNamesMembers(rows: seq<Row>, name: string)
    ensures name in KeptNames(rows) <==> exists i :: 0 <= i < |rows| && KeptRowOf(rows[i], name)
  {
    if rows != [] {
      var init := rows[..|rows| - 1];
      KeptNamesMembers(init, name);
      assert forall i :: 0 <= i < |init| ==> init[i] == rows[i];
      if name in KeptNames(rows) && name !in KeptNames(init) {
        assert KeptRowOf(rows[|rows| - 1], name);
      }
      forall i | 0 <= i < |rows| && KeptRowOf(rows[i], name)
        ensures name in KeptNames(rows)
      {
        if i < |init| {
          assert KeptRowOf(init[i], name);
        }
      }
    }
  }

  /** Every kept name becomes exactly one group, the groups are listed in
      order of each name's first kept row, and a name all of whose rows are
      filtered out never becomes a group. */
  lemma GroupNames(rows: seq<Row>)
    ensures forall name :: name in Grouped(rows) <==>
              exists i :: 0 <= i < |rows| && KeptRowOf(rows[i], name)
    ensures forall name :: name in Grouped(rows) <==> name in Names(rows)
    ensures forall i, j :: 0 <= i < j < |Names(rows)| ==> Names(rows)[i] != Names(rows)[j]
    ensures forall name :: name in Names(rows) ==> name in KeptNames(rows)
    ensures forall i, j :: 0 <= i < j < |Names(rows)| ==>
              OrderedSet.IndexOf(KeptNames(rows), Names(rows)[i]) < OrderedSet.IndexOf(KeptNames(rows), Names(rows)[j])
  {
    GroupedKeys(rows);
    OrderedSet.DedupElements(KeptNames(rows));
    OrderedSet.DedupDistinct(KeptNames(rows));
    OrderedSet.DedupFirstOccurrenceOrder(KeptNames(rows));
    forall name
      ensures name in Grouped(rows) <==>
                exists i :: 0 <= i < |rows| && KeptRowOf(rows[i], name)
    {
      KeptNamesMembers(rows, name);
    }
  }

  /** Without rows there are no groups. */
  lemma NoRowsNoGroups()
    ensures Grouped([]) == map[] && Names([]) == []
  {
  }

  /** The values collected for `name` are never empty or the placeholder. */
  lemma {:induction false} ValuesOfNotBlank(rows: seq<Row>, name: string)
    ensures forall v :: v in ValuesOf(rows, name) ==> v != "" && v != Placeholder
  {
    if rows != [] {
      ValuesOfNotBlank(rows[..|rows| - 1], name);
    }
  }

  /** The values collected for `name` are the trimmed values of its kept rows. */
  lemma {:induction false} ValuesOfKept(rows: seq<Row>, name: string)
    ensures forall v :: v in ValuesOf(rows, name) <==> exists i :: 0 <= i < |rows| && KeptValueOf(rows[i], name, v)
  {
    if rows != [] {
      var init, row := rows[..|rows| - 1], rows[|rows| - 1];
      ValuesOfKept(init, name);
      assert forall i :: 0 <= i < |init| ==> init[i] == rows[i];
      forall v | v in ValuesOf(rows, name)
        ensures exists i :: 0 <= i < |rows| && KeptValueOf(rows[i], name, v)
      {
        if v !in ValuesOf(init, name) {
          assert KeptValueOf(rows[|rows| - 1], name, v);
        }
      }
      forall v, i | 0 <= i < |rows| && KeptValueOf(rows[i], name, v)
        ensures v in ValuesOf(rows, name)
      {
        if i < |init| {
          assert KeptValueOf(init[i], name, v);
        }
      }
    }
  }

  /** A group's values are the set built from the kept values of its name. */
  lemma GroupValuesDedup(rows: seq<Row>, name: string)
    requires name in Grouped(rows)
    ensures Grouped(rows)[name].values == OrderedSet.Dedup(ValuesOf(rows, name))
  {
    GroupedAgrees(rows, name);
  }

  /** A group holds exactly the trimmed values of the kept rows of its
      name, so never an empty value or the placeholder. */
  lemma GroupValuesAreKeptValues(rows: seq<Row>, name: string)
    requires name in Grouped(rows)
    ensures forall v :: v in Grouped(rows)[name].values <==>
              exists i :: 0 <= i < |rows| && KeptValueOf(rows[i], name, v)
    ensures forall v :: v in Grouped(rows)[name].values ==> v != "" && v != Placeholder
  {
    GroupValuesDedup(rows, name);
    OrderedSet.DedupElements(ValuesOf(rows, name));
    ValuesOfKept(rows, name);
    ValuesOfNotBlank(rows, name);
  }

  /** Every group holds at least one value. */
  lemma GroupValuesNonEmpty(rows: seq<Row>, name: string)
    requires name in Grouped(rows)
    ensures Grouped(rows)[name].values != []
  {
    var all := ValuesOf(rows, name);
    GroupValuesDedup(rows, name);
    assert all != [] by {
      GroupedAgrees(rows, name);
      FirstKeptIsKept(rows, name);
      KeptRowHasValue(rows, name, FirstKept(rows, name).value);
    }
    OrderedSet.DedupElements(all);
    assert all[0] in Grouped(rows)[name].values;
  }

  /** A group holds each value once (`Set.prototype.add` of a present value
      changes nothing), in order of first occurrence among its rows. */
  lemma GroupValuesFirstSeen(rows: seq<Row>, name: string)
    requires name in Grouped(rows)
    ensures forall i, j :: 0 <= i < j < |Grouped(rows)[name].values| ==>
              Grouped(rows)[name].values[i] != Grouped(rows)[name].values[j]
    ensures forall v :: v in Grouped(rows)[name].values ==> v in ValuesOf(rows, name)
    ensures forall i, j :: 0 <= i < j < |Grouped(rows)[name].values| ==>
              OrderedSet.IndexOf(ValuesOf(rows, name), Grouped(rows)[name].values[i])
                < OrderedSet.IndexOf(ValuesOf(rows, name), Grouped(rows)[name].values[j])
  {
    var all := ValuesOf(rows, name);
    GroupValuesDedup(rows, name);
    OrderedSet.DedupDistinct(all);
    OrderedSet.DedupFirstOccurrenceOrder(all);
  }

  /** The first kept row of a name is a kept row of that name, and one of the rows. */
  lemma {:induction false} FirstKeptIsKept(rows: seq<Row>, name: string)
    requires FirstKept(rows, name).Some?
    ensures var r := FirstKept(rows, name).value;
      KeptRowOf(r, name) && r in rows
  {
    var init := rows[..|rows| - 1];
    if FirstKept(init, name).Some? {
      FirstKeptIsKept(init, name);
      assert FirstKept(init, name).value in rows by {
        assert forall k :: 0 <= k < |init| ==> init[k] == rows[k];
      }
    }
  }

  lemma KeptRowHasValue(rows: seq<Row>, name: string, row: Row)
    requires row in rows && KeptRowOf(row, name)
    ensures TrimmedValue(row).value in ValuesOf(rows, name)
  {
    ValuesOfKept(rows, name);
    var i :| 0 <= i < |rows| && rows[i] == row;
  }

  /** Once a name has a kept row, later rows never change its suffix or id. */
  lemma {:induction false} FirstKeptExtend(rows: seq<Row>, more: seq<Row>, name: string)
    requires FirstKept(rows, name).Some?
    ensures FirstKept(rows + more, name) == FirstKept(rows, name)
  {
    if more != [] {
      var init, last := more[..|more| - 1], more[|more| - 1];
      FirstKeptExtend(rows, init, name);
      assert rows + more == (rows + init) + [last];
      FirstKeptStep(rows + init, last, name);
      assert FirstKept((rows + init) + [last], name) == FirstKept(rows + init, name);
    } else {
      assert rows + more == rows;
    }
  }

  /** Rows without a kept row of `name` have no first kept row of `name`. */
  lemma {:induction false} NoKeptRowNoFirst(rows: seq<Row>, name: string)
    requires forall j :: 0 <= j < |rows| ==> !KeptRowOf(rows[j], name)
    ensures FirstKept(rows, name).None?
  {
    if rows != [] {
      NoKeptRowNoFirst(rows[..|rows| - 1], name);
    }
  }

  /** The first kept row of a name is the kept row of that name no earlier
      row precedes. */
  lemma {:induction false} FirstKeptAt(rows: seq<Row>, i: nat)
    requires i < |rows| && Kept(rows[i])
    requires forall j :: 0 <= j < i ==> !KeptRowOf(rows[j], NameKey(rows[i]))
    ensures FirstKept(rows, NameKey(rows[i])) == Some(rows[i])
  {
    var init := rows[..|rows| - 1];
    if i == |rows| - 1 {
      assert forall j :: 0 <= j < |init| ==> init[j] == rows[j];
      NoKeptRowNoFirst(init, NameKey(rows[i]));
    } else {
      assert init[i] == rows[i];
      assert forall j :: 0 <= j < i ==> init[j] == rows[j];
      FirstKeptAt(init, i);
    }
  }

  /** A group's suffix and id are those of the first kept row of its name,
      whatever rows follow it. */
  lemma FirstRowFixesSuffix(rows: seq<Row>, i: nat)
    requires i < |rows| && Kept(rows[i])
    requires forall j :: 0 <= j < i ==> !KeptRowOf(rows[j], NameKey(rows[i]))
    ensures NameKey(rows[i]) in Grouped(rows)
    ensures Grouped(rows)[NameKey(rows[i])].suffix == Suffix(rows[i])
    ensures Grouped(rows)[NameKey(rows[i])].specId == rows[i].specId
  {
    FirstKeptAt(rows, i);
    GroupedAgrees(rows, NameKey(rows[i]));
  }
}
