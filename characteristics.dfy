/** The second half of the characteristics handler: every group built by the
    grouping loop becomes one displayed row, a label and a value string. The
    values of a volume specification are formatted first; the values of a
    VESA specification are sorted by size, all others by code units; the
    sorted values are joined with ", " and the suffix is appended once. */
module Characteristics {
  import Text
  import Locale
  import Volume
  import Vesa
  import Sorting
  import Grouping

  /** `VOLUME_IDS`: specifications whose values are volumes. */
  const VolumeIds: set<int> := {763}

  /** `VESA_IDS`: specifications whose values are VESA mounting sizes. */
  const VesaIds: set<int> := {24}

  /** One row of the displayed table: the specification name and its values. */
  datatype RenderedRow = RenderedRow(name: string, valueString: string)

  // ---------------------------------------------------------------------
  // The value string

  /** `valuesArray.join(", ") + (data.suffix ? " " + data.suffix : "")`. */
  function ValueString(values: seq<string>, suffix: string): string {
    Text.Join(values, Text.ListSeparator) + (if suffix == "" then "" else " " + suffix)
  }

  /** The joined values of a value string with a known suffix: the trailing
      " " + suffix is removed when there is one. */
  function StripSuffix(s: string, suffix: string): (r: string)
    ensures |r| <= |s| && r == s[..|r|]
  {
    var n := |suffix| + 1;
    if suffix != "" && |s| >= n && s[|s| - n..] == " " + suffix then s[..|s| - n] else s
  }

  /** Reads a value string back into its values. */
  function ParseValueString(s: string, suffix: string): (values: seq<string>)
    ensures |values| >= 1
  {
    Text.SplitList(StripSuffix(s, suffix))
  }

  /** The suffix is appended once, after all the values, and only when it is
      not empty. */
  lemma ValueStringShape(values: seq<string>, suffix: string)
    ensures var s := ValueString(values, suffix);
      var j := Text.Join(values, Text.ListSeparator);
      && s[..|j|] == j
      && (suffix == "" ==> s == j)
      && (suffix != "" ==> |s| == |j| + 1 + |suffix| && s[|j|] == ' ' && s[|j| + 1..] == suffix)
  {
    var s := ValueString(values, suffix);
    var j := Text.Join(values, Text.ListSeparator);
    if suffix != "" {
      assert s == j + (" " + suffix);
      assert s[|j| + 1..] == suffix;
    }
  }

  /** The values can be read back from the value string, provided there is at
      least one value and none of them holds ", ". */
  lemma ValueStringRoundTrip(values: seq<string>, suffix: string)
    requires |values| >= 1
    requires forall i :: 0 <= i < |values| ==> !Text.HasListSeparator(values[i])
    ensures ParseValueString(ValueString(values, suffix), suffix) == values
  {
    var j := Text.Join(values, Text.ListSeparator);
    var s := ValueString(values, suffix);
    if suffix != "" {
      assert s == j + " " + suffix;
      var n := |suffix| + 1;
      assert s[|s| - n..] == " " + suffix;
      assert s[..|s| - n] == j;
    } else {
      assert s == j;
    }
    assert StripSuffix(s, suffix) == j;
    Text.SplitJoin(values);
  }

  // ---------------------------------------------------------------------
  // The values of one group as displayed

  /** `valuesArray.map((val) => formatVolume(val, locale))`. */
  function FormatAll(values: seq<string>, locale: string, localize: (string, string) -> string): seq<string> {
    seq(|values|, i requires 0 <= i < |values| => Volume.FormatVolume(values[i], locale, localize))
  }

  /** The values before sorting: formatted for a volume specification. */
  function Prepared(g: Grouping.Group, locale: string, localize: (string, string) -> string): seq<string> {
    if g.specId in VolumeIds then FormatAll(g.values, locale, localize) else g.values
  }

  /** The comparator the handler sorts a group's values with. */
  function ComparatorOf(g: Grouping.Group): (string, string) -> bool {
    Sorting.Comparator(g.specId in VesaIds)
  }

  /** The values of a group in display order. */
  function DisplayValues(g: Grouping.Group, locale: string, localize: (string, string) -> string): seq<string> {
    Sorting.StableSort(ComparatorOf(g), Prepared(g, locale, localize))
  }

  /** One displayed row. */
  function RenderEntry(name: string, g: Grouping.Group, locale: string, localize: (string, string) -> string): RenderedRow {
    RenderedRow(name, ValueString(DisplayValues(g, locale, localize), g.suffix))
  }

  /** The rows for `names`, in that order. */
  function RenderAll(grouped: map<string, Grouping.Group>, names: seq<string>, locale: string,
                     localize: (string, string) -> string): seq<RenderedRow>
    requires forall name :: name in names ==> name in grouped
  {
    seq(|names|, i requires 0 <= i < |names| => RenderEntry(names[i], grouped[names[i]], locale, localize))
  }

  /** The volume `.map` leaves in place every value `formatVolume` passes
      through (empty, or without a leading decimal numeral, such as "n/a"), and
      rewrites the others from their numeral text only. */
  lemma FormatAllPassthrough(values: seq<string>, locale: string, localize: (string, string) -> string, i: nat)
    requires i < |values|
    ensures |FormatAll(values, locale, localize)| == |values|
    ensures values[i] == "" || !Volume.StartsNumeral(Volume.KeepNumeral(values[i])) ==>
              FormatAll(values, locale, localize)[i] == values[i]
    ensures values[i] != "" && Volume.StartsNumeral(Volume.KeepNumeral(values[i])) ==>
              FormatAll(values, locale, localize)[i] == localize(locale, Volume.NumeralText(values[i]))
  {
    Volume.Passthrough(values[i], locale, localize);
  }

  /** The table the handler renders for `rows` in the language `country`,
      when every kept name is ordinary (`Grouping.OrdinaryNames`): an array
      index among the names would come first in `Object.entries`. */
  function Table(rows: seq<Grouping.Row>, country: string, localize: (string, string) -> string): seq<RenderedRow> {
    Grouping.GroupedKeys(rows);
    RenderAll(Grouping.Grouped(rows), Grouping.Names(rows), Locale.ResolveLocale(country), localize)
  }

  // ---------------------------------------------------------------------
  // The rendering loop

  /** The loop over `Object.entries(grouped)`: each group's values are
      formatted if it is a volume, copied into an array and sorted in place,
      then joined into the value string of its row. */
  method RenderGroups(grouped: map<string, Grouping.Group>, order: seq<string>, locale: string,
                      localize: (string, string) -> string)
    returns (table: seq<RenderedRow>)
    requires forall name :: name in order ==> name in grouped
    ensures table == RenderAll(grouped, order, locale, localize)
  {
    table := [];
    for i := 0 to |order|
      invariant |table| == i
      invariant forall k :: 0 <= k < i ==> table[k] == RenderEntry(order[k], grouped[order[k]], locale, localize)
    {
      var row := RenderGroup(order[i], grouped[order[i]], locale, localize);
      table := table + [row];
    }
  }

  /** The body of that loop for one entry. */
  method RenderGroup(name: string, data: Grouping.Group, locale: string, localize: (string, string) -> string)
    returns (row: RenderedRow)
    ensures row == RenderEntry(name, data, locale, localize)
  {
    var valuesArray := data.values;
    if data.specId in VolumeIds {
      valuesArray := FormatAll(valuesArray, locale, localize);
    }
    var a := new string[|valuesArray|](k requires 0 <= k < |valuesArray| => valuesArray[k]);
    assert a[..] == Prepared(data, locale, localize);
    Sorting.SortInPlace(a, ComparatorOf(data));
    var valueString := ValueString(a[..], data.suffix);
    row := RenderedRow(name, valueString);
  }

  /** The handler's aggregation: the locale is resolved, the rows are
      grouped, and every group is rendered in key order. */
  method BuildTable(rows: seq<Grouping.Row>, country: string, localize: (string, string) -> string)
    returns (table: seq<RenderedRow>)
    requires Grouping.OrdinaryNames(rows)
    ensures table == Table(rows, country, localize)
  {
    var locale := Locale.ResolveLocale(country);
    var grouped, order, specIdMap := Grouping.GroupRows(rows);
    Grouping.GroupedKeys(rows);
    table := RenderGroups(grouped, order, locale, localize);
  }

  // ---------------------------------------------------------------------
  // Properties of the table

  /** The names of the rows of a table, in order. */
  function Labels(table: seq<RenderedRow>): seq<string> {
    seq(|table|, i requires 0 <= i < |table| => table[i].name)
  }

  /** `RenderAll` renders one row per name, labelled with that name, in the
      order of the names. */
  lemma RenderAllLabels(grouped: map<string, Grouping.Group>, names: seq<string>, locale: string,
                        localize: (string, string) -> string)
    requires forall name :: name in names ==> name in grouped
    ensures Labels(RenderAll(grouped, names, locale, localize)) == names
  {
  }

  /** The table has one row per kept specification name, each name once, in
      order of its first kept row; a name without a kept row has no row. */
  lemma TableLabels(rows: seq<Grouping.Row>, country: string, localize: (string, string) -> string)
    ensures Labels(Table(rows, country, localize)) == Grouping.Names(rows)
    ensures var names := Labels(Table(rows, country, localize));
      forall i, j :: 0 <= i < j < |names| ==> names[i] != names[j]
    ensures forall name :: name in Labels(Table(rows, country, localize)) <==>
              exists k :: 0 <= k < |rows| && Grouping.KeptRowOf(rows[k], name)
  {
    var t := Table(rows, country, localize);
    assert Labels(t) == Grouping.Names(rows);
    Grouping.GroupNames(rows);
  }

  /** Each row shows its group's values in display order and the suffix of
      the group's first kept row. */
  lemma TableRow(rows: seq<Grouping.Row>, country: string, localize: (string, string) -> string, i: nat)
    requires i < |Table(rows, country, localize)|
    ensures var name := Table(rows, country, localize)[i].name;
      && Grouping.GroupOf(rows, name).Some?
      && Table(rows, country, localize)[i].valueString
           == ValueString(DisplayValues(Grouping.GroupOf(rows, name).value, Locale.ResolveLocale(country), localize),
                          Grouping.GroupOf(rows, name).value.suffix)
  {
    var name := Grouping.Names(rows)[i];
    Grouping.GroupedKeys(rows);
    Grouping.GroupedAgrees(rows, name);
  }

  /** The displayed values are the prepared values, each as often as before,
      in ascending order of the group's comparator. */
  lemma DisplayValuesSorted(g: Grouping.Group, locale: string, localize: (string, string) -> string)
    ensures multiset(DisplayValues(g, locale, localize)) == multiset(Prepared(g, locale, localize))
    ensures Sorting.Sorted(ComparatorOf(g), DisplayValues(g, locale, localize))
  {
    Sorting.ComparatorTotalPreorder(g.specId in VesaIds);
    Sorting.StableSortPermutation(ComparatorOf(g), Prepared(g, locale, localize));
    Sorting.StableSortSorted(ComparatorOf(g), Prepared(g, locale, localize));
  }

  /** A VESA group shows its own values, ascending by width and then by
      height; values of equal size keep their first-seen order. */
  lemma VesaValues(g: Grouping.Group, locale: string, localize: (string, string) -> string, y: string)
    requires g.specId in VesaIds
    ensures var r := DisplayValues(g, locale, localize);
      && multiset(r) == multiset(g.values)
      && (forall i, j :: 0 <= i < j < |r| ==> Vesa.SizeLe(Vesa.SizeOf(r[i]), Vesa.SizeOf(r[j])))
      && Sorting.TiedWith(ComparatorOf(g), r, y) == Sorting.TiedWith(ComparatorOf(g), g.values, y)
  {
    var r := DisplayValues(g, locale, localize);
    DisplayValuesSorted(g, locale, localize);
    Sorting.ComparatorTotalPreorder(true);
    Sorting.StableSortStable(ComparatorOf(g), g.values, y);
    forall i, j | 0 <= i < j < |r|
      ensures Vesa.SizeLe(Vesa.SizeOf(r[i]), Vesa.SizeOf(r[j]))
    {
      assert ComparatorOf(g)(r[i], r[j]);
    }
  }

  /** Any other group is shown ascending by UTF-16 code units, volume values
      after formatting. */
  lemma DefaultValues(g: Grouping.Group, locale: string, localize: (string, string) -> string)
    requires g.specId !in VesaIds
    ensures var r := DisplayValues(g, locale, localize);
      && multiset(r) == multiset(Prepared(g, locale, localize))
      && (forall i, j :: 0 <= i < j < |r| ==> Text.CodeUnitLe(r[i], r[j]))
  {
    var r := DisplayValues(g, locale, localize);
    DisplayValuesSorted(g, locale, localize);
    forall i, j | 0 <= i < j < |r|
      ensures Text.CodeUnitLe(r[i], r[j])
    {
      assert ComparatorOf(g)(r[i], r[j]);
    }
  }

  /** A group that is neither a volume nor a VESA size shows each of its
      values exactly once, strictly ascending by code units. */
  lemma PlainGroupValues(rows: seq<Grouping.Row>, name: string, locale: string, localize: (string, string) -> string)
    requires name in Grouping.Grouped(rows)
    requires Grouping.Grouped(rows)[name].specId !in VesaIds + VolumeIds
    ensures var g := Grouping.Grouped(rows)[name];
      var r := DisplayValues(g, locale, localize);
      && multiset(r) == multiset(g.values)
      && (forall i, j :: 0 <= i < j < |r| ==> Text.CodeUnitLe(r[i], r[j]) && r[i] != r[j])
  {
    var g := Grouping.Grouped(rows)[name];
    Grouping.GroupValuesFirstSeen(rows, name);
    DisplayValuesSorted(g, locale, localize);
    Sorting.DefaultSortStrict(g.values);
  }

  /** The values of a plain group can be read back from its row, provided no
      value holds ", ". */
  lemma PlainRowRecoverable(rows: seq<Grouping.Row>, name: string, locale: string, localize: (string, string) -> string)
    requires name in Grouping.Grouped(rows)
    requires Grouping.Grouped(rows)[name].specId !in VesaIds + VolumeIds
    requires forall v :: v in Grouping.Grouped(rows)[name].values ==> !Text.HasListSeparator(v)
    ensures var g := Grouping.Grouped(rows)[name];
      var row := RenderEntry(name, g, locale, localize);
      && ParseValueString(row.valueString, g.suffix) == DisplayValues(g, locale, localize)
      && multiset(ParseValueString(row.valueString, g.suffix)) == multiset(g.values)
  {
    var g := Grouping.Grouped(rows)[name];
    var r := DisplayValues(g, locale, localize);
    Grouping.GroupValuesNonEmpty(rows, name);
    DisplayValuesSorted(g, locale, localize);
    forall i | 0 <= i < |r|
      ensures !Text.HasListSeparator(r[i])
    {
      assert r[i] in multiset(g.values);
    }
    assert |r| >= 1 by {
      assert g.values[0] in multiset(r);
    }
    ValueStringRoundTrip(r, g.suffix);
  }
}
