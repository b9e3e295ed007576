/** `formatVolume` of the characteristics handler: the values of a volume
    specification are reduced to their numeral and re-rendered as a locale
    decimal with six fraction digits. The rendering itself (`parseFloat`, the
    division by 1,000,000 above 1000, `toLocaleString`) is floating point and
    locale data; it is the parameter `localize`, which receives the locale
    and the numeral text that `parseFloat` reads. What is modelled exactly is
    how the numeral text is extracted and when the raw value is passed
    through unchanged. */
module Volume {
  import Text

  /** The characters `/[^\d.,]/g` keeps. */
  predicate IsNumeralChar(c: char) {
    Text.IsDigit(c) || c == '.' || c == ','
  }

  /** `raw.replace(/[^\d.,]/g, "")`: the numeral characters of `raw`, in order. */
  function KeepNumeral(raw: string): (r: string)
    ensures |r| <= |raw|
    ensures forall c :: c in r <==> c in raw && IsNumeralChar(c)
  {
    if raw == [] then []
    else (if IsNumeralChar(raw[0]) then [raw[0]] else []) + KeepNumeral(raw[1..])
  }

  /** The replace works character by character: the numeral of a concatenation
      is the concatenation of the numerals, so order and repetitions are kept. */
  lemma {:induction false} KeepNumeralAppend(a: string, b: string)
    ensures KeepNumeral(a + b) == KeepNumeral(a) + KeepNumeral(b)
  {
    if a != [] {
      assert (a + b)[0] == a[0];
      assert (a + b)[1..] == a[1..] + b;
      KeepNumeralAppend(a[1..], b);
    } else {
      assert a + b == b;
    }
  }

  /** A value made only of digits, points and commas is its own numeral. */
  lemma {:induction false} KeepNumeralOfNumeral(raw: string)
    requires forall i :: 0 <= i < |raw| ==> IsNumeralChar(raw[i])
    ensures KeepNumeral(raw) == raw
  {
    if raw != [] {
      KeepNumeralOfNumeral(raw[1..]);
    }
  }

  /** `s.replace(",", ".")`: a string pattern replaces its first occurrence
      only, so a second comma stays a comma. */
  function ReplaceFirstComma(s: string): (r: string)
    ensures |r| == |s|
    ensures forall i :: 0 <= i < |s| && r[i] != s[i] ==>
              s[i] == ',' && r[i] == '.' && forall j :: 0 <= j < i ==> s[j] != ','
    ensures ',' in s ==> r[IndexOfComma(s)] == '.'
    ensures forall i :: 0 <= i < |s| ==> (Text.IsDigit(r[i]) <==> Text.IsDigit(s[i]))
  {
    if s == [] then []
    else if s[0] == ',' then ['.'] + s[1..]
    else [s[0]] + ReplaceFirstComma(s[1..])
  }

  /** Position of the first comma. */
  function IndexOfComma(s: string): (k: nat)
    requires ',' in s
    ensures k < |s| && s[k] == ',' && forall j :: 0 <= j < k ==> s[j] != ','
  {
    if s[0] == ',' then 0 else 1 + IndexOfComma(s[1..])
  }

  /** The text handed to `parseFloat`. */
  function NumeralText(raw: string): string {
    ReplaceFirstComma(KeepNumeral(raw))
  }

  /** `!isNaN(parseFloat(t))` for a text made only of digits, `.` and `,`:
      it starts with a decimal literal, a digit or a point followed by a digit. */
  predicate ParsesAsNumber(t: string) {
    (|t| >= 1 && Text.IsDigit(t[0])) || (|t| >= 2 && t[0] == '.' && Text.IsDigit(t[1]))
  }

  /** `formatVolume(raw, locale)`. */
  function FormatVolume(raw: string, locale: string, localize: (string, string) -> string): string {
    if raw == "" then raw
    else
      var t := NumeralText(raw);
      if !ParsesAsNumber(t) then raw else localize(locale, t)
  }

  /** Whether the numeral text parses, read off the kept characters before the
      comma is replaced: a leading digit, or a leading point or comma followed
      by a digit. */
  predicate StartsNumeral(k: string) {
    (|k| >= 1 && Text.IsDigit(k[0])) || (|k| >= 2 && (k[0] == '.' || k[0] == ',') && Text.IsDigit(k[1]))
  }

  lemma ParsesIffStartsNumeral(raw: string)
    ensures ParsesAsNumber(NumeralText(raw)) <==> StartsNumeral(KeepNumeral(raw))
  {
    var k := KeepNumeral(raw);
    var t := NumeralText(raw);
    if |k| >= 1 && (k[0] == '.' || k[0] == ',') {
      assert k[0] == ',' ==> IndexOfComma(k) == 0;
      assert t[0] == '.';
    }
    if |k| >= 1 && t[0] == '.' {
      assert k[0] == '.' || k[0] == ',';
    }
  }

  /** The passthrough branches: an empty value, or one whose numeral text does
      not start with a decimal literal, is returned unchanged; every other
      value is rendered from its numeral text alone. */
  lemma Passthrough(raw: string, locale: string, localize: (string, string) -> string)
    ensures raw == "" || !StartsNumeral(KeepNumeral(raw)) ==>
              FormatVolume(raw, locale, localize) == raw
    ensures raw != "" && StartsNumeral(KeepNumeral(raw)) ==>
              FormatVolume(raw, locale, localize) == localize(locale, NumeralText(raw))
  {
    ParsesIffStartsNumeral(raw);
  }

  /** A value without an ASCII digit ("n/a") is passed through unchanged. */
  lemma NoDigitPassesThrough(raw: string, locale: string, localize: (string, string) -> string)
    requires forall i :: 0 <= i < |raw| ==> !Text.IsDigit(raw[i])
    ensures FormatVolume(raw, locale, localize) == raw
  {
    var k := KeepNumeral(raw);
    if |k| >= 1 {
      assert k[0] in raw;
    }
    if |k| >= 2 {
      assert k[1] in raw;
    }
    Passthrough(raw, locale, localize);
  }

  /** Values that differ only outside their numeral are rendered alike, so two
      distinct values of one specification can become one displayed value. */
  lemma SameNumeralSameRendering(a: string, b: string, locale: string, localize: (string, string) -> string)
    requires a != "" && b != ""
    requires KeepNumeral(a) == KeepNumeral(b) && StartsNumeral(KeepNumeral(a))
    ensures FormatVolume(a, locale, localize) == FormatVolume(b, locale, localize)
  {
    Passthrough(a, locale, localize);
    Passthrough(b, locale, localize);
  }
}
