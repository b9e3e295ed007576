# shopifyFeatures characteristics aggregation, in Dafny

This project models the specification aggregation behind the `/chars`
endpoint of shopifyFeatures. The handler receives the catalogue rows of one
product. Each row has a specification name, a value, an optional unit
suffix and a specification id. The handler turns the rows into the rows of
a characteristics table:

- rows with a missing, empty or `"Array"` value are skipped;
- the remaining rows are grouped by trimmed name into a plain object, and
  each group holds a `Set` of trimmed values plus the suffix and id of its
  first row;
- volume specifications (id 763) have their values re-rendered by
  `formatVolume`;
- VESA specifications (id 24) are sorted by parsed width and height;
- every other specification is sorted with the default `sort()`;
- the values are joined with `", "`, and the suffix is appended once;
- the locale comes from the `LANGUAGE_LOCALE_MAP` table, with an `en-US`
  fallback.

Modules, one file each:

| module | file | models |
|---|---|---|
| `Wrappers` | wrappers.dfy | `Option`, for NULL columns |
| `Text` | text.dfy | `trim`, ASCII digits, `join(", ")` and its inverse, UTF-16 code-unit order |
| `OrderedSet` | ordered_set.dfy | a JavaScript `Set` of strings: insertion-ordered, no repeats |
| `Locale` | locale.dfy | `LANGUAGE_LOCALE_MAP[country] \|\| "en-US"` |
| `Volume` | volume.dfy | `formatVolume`: the numeral extraction and the passthrough branches |
| `Vesa` | vesa.dfy | `parseSize` and the VESA comparator's order |
| `Sorting` | sorting.dfy | `Array.prototype.sort`: a stable sort, as a function and as an in-place array method |
| `Grouping` | grouping.dfy | the grouping loop over the rows |
| `Characteristics` | characteristics.dfy | the loop over `Object.entries(grouped)` and the value strings |

Modelling choices:

- **Grouping loop.** The loop is imperative. `Grouping.GroupRows` keeps the
  object as a `map` plus its key `seq`, in insertion order, and is proved
  equal to the fold `Grouping.Grouped`. `Grouping.GroupedAgrees` proves
  that fold equal to the declarative description `Grouping.GroupOf`: the
  first kept row and the deduplicated kept values of each name.
- **Sorting.** `Sorting.SortInPlace` sorts an `array` in place and is proved
  equal to `Sorting.StableSort`. The lemmas about `StableSort` prove that it
  gives a permutation, that the result is sorted, and that tied values keep
  their order.
- **Value strings.** `Characteristics.RenderGroups` is the rendering loop.
  It builds the rows in key order and is proved equal to
  `Characteristics.RenderAll`, and `Characteristics.BuildTable`, which runs
  it on the grouped rows, is proved equal to `Characteristics.Table`.

The model follows the code in these details:

- **Sort order.** The default sort compares UTF-16 code units, with no
  locale rules (`Text.CodeUnitLe`).
- **VESA separator.** Sizes are split on a lower-case `x` only; `×` is not
  a separator.
- **Suffix.** A group's suffix is that of its first kept row, even when that
  suffix is empty. It is not "the first non-empty suffix".
- **Duplicates in volume groups.** Values are deduplicated before volume
  formatting, so two different volume values can show the same text
  (`Volume.SameNumeralSameRendering`).
- **Ordering key.** There is no order-index tie-break. Ties in the VESA
  comparator keep their first-seen order, because the sort is stable.
- **Commas in volumes.** Only the first comma of a volume numeral becomes a
  decimal point.

## Model

| member | source | states |
|---|---|---|
| Text.Trim | index.js:138-140 | `trim` leaves no white space at either end and never lengthens the string |
| Text.TrimIsStartThenEnd | index.js:138-140 | trimming equals removing all leading, then all trailing, ECMAScript white space |
| Text.TrimIdempotent | index.js:138-140 | trimming a trimmed value changes nothing |
| Text.SplitJoin | index.js:185-186 | splitting `values.join(", ")` on `", "` gives back the values when no value holds `", "` |
| Text.CodeUnitLeTotal | index.js:182 | the default sort order compares any two strings |
| Text.CodeUnitLeTransitive | index.js:182 | the default sort order is transitive |
| Text.CodeUnitLeAntisymmetric | index.js:182 | two strings the default order cannot tell apart are equal, so the UTF-16 encoding is injective |
| OrderedSet.Add | index.js:154 | `set.add(v)` appends a new value, leaves a present value's set unchanged, keeps earlier elements in place and keeps the elements distinct |
| OrderedSet.DedupElements | index.js:147-154 | the set built by adding values holds exactly those values |
| OrderedSet.DedupDistinct | index.js:147-154 | the set holds each value once |
| OrderedSet.DedupFirstOccurrenceOrder | index.js:147-154 | the set iterates in order of first occurrence |
| OrderedSet.DedupIdempotent | index.js:147-154 | building a set from a set's elements gives the same set |
| Locale.ResolveLocale | index.js:90-100 | for an id that is not an `Object.prototype` member name, the lookup yields one of the seven supported, non-empty locale tags |
| Locale.KnownLocales | index.js:90-98 | ids "1" to "7" give ru-RU, en-US, fr-FR, it-IT, es-ES, de-DE, pl-PL |
| Locale.FallbackToEnglish | index.js:100 | for an id that is not an `Object.prototype` member name, the result is en-US exactly for id "2" and for every id the table lacks |
| Locale.LocaleIdsDistinct | index.js:90-98 | different ids of the table give different locales |
| Volume.KeepNumeral | index.js:110 | `replace(/[^\d.,]/g, "")` keeps a character exactly when it is a digit, point or comma of the value |
| Volume.KeepNumeralAppend | index.js:110 | the replace works character by character: the numeral of a concatenation is the concatenation of the numerals, so order and repetitions are kept |
| Volume.KeepNumeralOfNumeral | index.js:110 | a value made only of digits, points and commas is left as it is |
| Volume.ReplaceFirstComma | index.js:110 | `replace(",", ".")` changes only the first comma, into a point, and keeps the length and every digit |
| Volume.ParsesIffStartsNumeral | index.js:111-113 | `parseFloat` finds a number exactly when the kept characters start with a digit, or with a point or comma followed by a digit |
| Volume.Passthrough | index.js:107-113 | an empty value, or one whose numeral does not parse, is returned unchanged; any other value is rendered from its numeral text alone |
| Volume.NoDigitPassesThrough | index.js:107-113 | a value without an ASCII digit, such as "n/a", is returned unchanged |
| Volume.SameNumeralSameRendering | index.js:110-123 | two non-empty values with the same numeral characters, where that numeral parses, render identically |
| Vesa.SizeOfShowSize | index.js:171-175 | `parseSize` reads back width and height from "WxHmm" |
| Vesa.NoSeparatorZeroHeight | index.js:173-174 | without a lower-case `x` after removing "mm", the height is 0 |
| Vesa.StripMmNoM | index.js:172 | removing "mm" leaves a prefix without `m` or `M` untouched |
| Vesa.SplitXPrefix | index.js:173 | `split("x")` cuts at the first `x` |
| Vesa.SizeLeTransitive | index.js:176-179 | the size comparator's order is transitive |
| Vesa.SizeLeAntisymmetric | index.js:176-179 | the size comparator returns 0 only for equal sizes |
| Sorting.StableSortPermutation | index.js:170-182 | sorting keeps every value, each as often as before |
| Sorting.StableSortSorted | index.js:170-182 | under a total preorder, the sorted values ascend |
| Sorting.StableSortStable | index.js:170-182 | values the comparator ties keep their input order |
| Sorting.InsertLast | index.js:170-182 | one insertion step moves the value at `i` to its place among the first `i` values and leaves the rest of the array alone |
| Sorting.SortInPlace | index.js:170-182 | sorting the array in place leaves exactly the stable sorted order of its old contents |
| Sorting.ComparatorTotalPreorder | index.js:170-183 | both the VESA comparator and the default order are total preorders |
| Sorting.DefaultSortStrict | index.js:182 | distinct values come out strictly ascending by code units |
| Grouping.NamesStep | index.js:145-152 | a kept row adds its name at the end of the key order if it is new; a skipped row changes nothing |
| Grouping.GroupOfOtherRow | index.js:143-154 | a row that is not a kept row of `name` leaves that group unchanged |
| Grouping.GroupOfOwnRow | index.js:145-154 | a kept row creates its group with its own suffix and id if the group is missing, then adds its value |
| Grouping.GroupedAgrees | index.js:134-155 | after the loop, each name's entry is present exactly when a kept row has that name; it holds the deduplicated kept values and the first kept row's suffix and id |
| Grouping.GroupedKeys | index.js:134-155 | the object's keys are exactly the names in first-seen order |
| Grouping.VisitRow | index.js:137-155 | one loop pass updates `grouped` as `AddRow` does and extends the key order; `specIdMap` keeps the same keys and ids as `grouped` |
| Grouping.GroupRows | index.js:134-155 | the loop builds the object and key order the grouping describes; `specIdMap` repeats every entry's id |
| Grouping.FilteredRowAddsNothing | index.js:139-143 | a row whose trimmed value is missing, empty or "Array" changes neither groups nor order, wherever it stands |
| Grouping.GroupNames | index.js:134-159 | a name has a group exactly when some kept row carries it; names are distinct and in order of first kept row |
| Grouping.NoRowsNoGroups | index.js:134-135 | no rows give no groups |
| Grouping.GroupValuesAreKeptValues | index.js:139-154 | a group holds exactly the trimmed values of its kept rows, never "" or "Array" |
| Grouping.GroupValuesNonEmpty | index.js:145-154 | every group holds at least one value |
| Grouping.GroupValuesFirstSeen | index.js:147-154 | a group holds each value once, in order of first occurrence |
| Grouping.FirstKeptExtend | index.js:145-152 | once a name has a kept row, later rows never change which row is first |
| Grouping.FirstRowFixesSuffix | index.js:140-152 | a group's suffix and id are those of the first kept row of its name |
| Characteristics.ValueStringShape | index.js:185-186 | the value string is the joined values, then `" " + suffix` once when the suffix is non-empty |
| Characteristics.ValueStringRoundTrip | index.js:185-186 | the values can be read back from the value string when none holds `", "` |
| Characteristics.FormatAllPassthrough | index.js:164-166 | the volume `.map` keeps the length, leaves an empty or unparsable value in place and rewrites any other value from its numeral text |
| Characteristics.RenderAllLabels | index.js:159-195 | one row per name, labelled with that name, in the given order |
| Characteristics.RenderGroup | index.js:160-186 | one pass copies a group's values into an array, formats them for a volume group, sorts the array in place with the group's comparator and joins them; the row equals `RenderEntry` |
| Characteristics.RenderGroups | index.js:159-195 | the loop over the entries formats, sorts in place and joins each group, and yields exactly `RenderAll` |
| Characteristics.BuildTable | index.js:100-195 | the whole aggregation yields `Table` |
| Characteristics.TableLabels | index.js:134-159 | the table's names are the kept names, each once, in first-seen order |
| Characteristics.TableRow | index.js:159-195 | each table row shows its group's values in display order and its group's suffix |
| Characteristics.DisplayValuesSorted | index.js:164-183 | the displayed values are a permutation of the (formatted) values, sorted by the group's comparator |
| Characteristics.VesaValues | index.js:169-180 | a VESA group shows its own values ascending by width then height; equal sizes keep first-seen order |
| Characteristics.DefaultValues | index.js:164-183 | any other group, volume groups after formatting, is a permutation ascending by code units |
| Characteristics.PlainGroupValues | index.js:147-183 | a group that is neither volume nor VESA shows each value once, strictly ascending by code units |
| Characteristics.PlainRowRecoverable | index.js:154-186 | a plain group's row parses back into exactly its displayed values, a permutation of its values, when none holds `", "` |

## Left out

- HTTP plumbing is not modelled (index.js:1-11, 207-209): Express routing, CORS, dotenv and `app.listen`.
- The `/short` endpoint (index.js:24-57) is not modelled. It is a single-row lookup with no logic.
- The MySQL pool and the SQL query (index.js:13-22, 68-85, 127) are not modelled. The rows are an input sequence, already filtered and ordered by the query.
- The 400, 404 and 500 responses (index.js:62-64, 129-131, 201-204) are not modelled. They belong to the HTTP handler, not to the aggregation.
- The HTML template and the JSON envelope (index.js:157, 188-199) are not modelled. The model produces the `(name, valueString)` pairs that the markup wraps, unescaped, around each row.
- Volume.FormatVolume does not model the numeric branch: `parseFloat`, the division by 1,000,000 above 1000, and `toLocaleString` with six fraction digits. This is floating-point and Intl formatting. It is the parameter `localize`, which receives the locale and the numeral text.
- Vesa.NumberOrZero models `Number(part) || 0` only for parts that, once trimmed, are empty or decimal digits. Signs, fractions, exponents, hex literals and `Infinity` read as 0, and precision above 2^53 is not modelled.
- Text.CodeUnitLe assumes strings of Unicode scalar values. Lone surrogates, which a JavaScript string can hold, are not modelled.
- Locale.ResolveLocale: the model ignores names inherited from `Object.prototype`. These are `constructor`, `toString`, `valueOf`, `hasOwnProperty`, `isPrototypeOf`, `propertyIsEnumerable`, `toLocaleString`, `__proto__`, `__defineGetter__`, `__defineSetter__`, `__lookupGetter__` and `__lookupSetter__`. For such a `country`, `LANGUAGE_LOCALE_MAP[country]` is a truthy non-string, so the code does not fall back to en-US. `toLocaleString` reads such a value as an empty locale list and uses the host's default locale. The model returns en-US. The locale only reaches the abstracted `localize`.
- Locale.FallbackToEnglish: for the same inherited names the code does not choose en-US, while the lemma says it does.
- Grouping.GroupRows requires `OrdinaryNames`, as does Characteristics.BuildTable: no kept name is a canonical array index, which `Object.entries` would list first in numeric order, and no kept name is an `Object.prototype` member, for which `grouped[specName]` is already truthy and `.values.add` throws.
- `country` given as an array (repeated query parameter) is not modelled. The locale lookup takes a single string.
- `specIdMap` is built (Grouping.GroupRows) but never read by the handler, so nothing depends on it.
