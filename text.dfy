/** The JavaScript string primitives the characteristics handler relies on:
    `String.prototype.trim`, ASCII digits, `Array.prototype.join`, and the
    UTF-16 code-unit comparison that `Array.prototype.sort()` uses when it is
    given no comparator. */
module Text {

  /** WhiteSpace or LineTerminator in ECMAScript: what `trim` removes and what
      `Number(...)` skips around a numeral. */
  predicate IsJsSpace(c: char) {
    || c == '\t' || c == '\n' || c == '\U{000B}' || c == '\U{000C}' || c == '\r'
    || c == ' ' || c == '\U{00A0}' || c == '\U{1680}' || ('\U{2000}' <= c <= '\U{200A}')
    || c == '\U{2028}' || c == '\U{2029}' || c == '\U{202F}' || c == '\U{205F}'
    || c == '\U{3000}' || c == '\U{FEFF}'
  }

  /** The regular-expression class `\d` without the `u` flag: ASCII digits only. */
  predicate IsDigit(c: char) {
    '0' <= c <= '9'
  }

  predicate AllDigits(s: string) {
    forall i :: 0 <= i < |s| ==> IsDigit(s[i])
  }

  /** The value of a string of decimal digits. */
  function DigitsValue(s: string): nat
    requires AllDigits(s)
  {
    if s == [] then 0
    else 10 * DigitsValue(s[..|s| - 1]) + (s[|s| - 1] as int - '0' as int)
  }

  /** Leading white space removed; everything removed was white space. */
  function TrimStart(s: string): (r: string)
    ensures |r| <= |s| && r == s[|s| - |r|..]
    ensures r == [] || !IsJsSpace(r[0])
    ensures forall i :: 0 <= i < |s| - |r| ==> IsJsSpace(s[i])
  {
    if s != [] && IsJsSpace(s[0]) then TrimStart(s[1..]) else s
  }

  /** Trailing white space removed; everything removed was white space. */
  function TrimEnd(s: string): (r: string)
    ensures |r| <= |s| && r == s[..|r|]
    ensures r == [] || !IsJsSpace(r[|r| - 1])
    ensures forall i :: |r| <= i < |s| ==> IsJsSpace(s[i])
  {
    if s != [] && IsJsSpace(s[|s| - 1]) then TrimEnd(s[..|s| - 1]) else s
  }

  /** `String.prototype.trim`: white space is peeled off either end until
      neither end has any; `TrimIsStartThenEnd` shows this is `TrimStart`
      followed by `TrimEnd`. */
  function Trim(s: string): (r: string)
    ensures |r| <= |s|
    ensures r == [] || (!IsJsSpace(r[0]) && !IsJsSpace(r[|r| - 1]))
  {
    if s != [] && IsJsSpace(s[0]) then Trim(s[1..])
    else if s != [] && IsJsSpace(s[|s| - 1]) then Trim(s[..|s| - 1])
    else s
  }

  /** Trimming removes exactly the leading white space and then exactly the
      trailing white space. */
  lemma {:induction false} TrimIsStartThenEnd(s: string)
    ensures Trim(s) == TrimEnd(TrimStart(s))
  {
    if s != [] && IsJsSpace(s[0]) {
      TrimIsStartThenEnd(s[1..]);
    } else if s != [] && IsJsSpace(s[|s| - 1]) {
      var init := s[..|s| - 1];
      TrimIsStartThenEnd(init);
      assert init[0] == s[0];
    }
  }

  /** A string that neither starts nor ends with white space is its own trim. */
  lemma TrimOfTrimmed(s: string)
    requires s == [] || (!IsJsSpace(s[0]) && !IsJsSpace(s[|s| - 1]))
    ensures Trim(s) == s
  {
  }

  /** Trimming twice is trimming once. */
  lemma TrimIdempotent(s: string)
    ensures Trim(Trim(s)) == Trim(s)
  {
    TrimOfTrimmed(Trim(s));
  }

  // ---------------------------------------------------------------------
  // UTF-16 code units and the default sort order

  /** The UTF-16 encoding of one code point: one unit below U+10000, a
      surrogate pair above. */
  function Utf16Char(c: char): (u: seq<int>)
    ensures 1 <= |u| <= 2
    ensures forall i :: 0 <= i < |u| ==> 0 <= u[i] < 0x10000
    ensures |u| == 2 <==> 0xD800 <= u[0] < 0xDC00
  {
    var n := c as int;
    if n < 0x10000 then [n]
    else [0xD800 + (n - 0x10000) / 0x400, 0xDC00 + (n - 0x10000) % 0x400]
  }

  /** The code-unit sequence of a string, as a JavaScript engine stores it. */
  function Utf16(s: string): (u: seq<int>)
    ensures |u| >= |s|
  {
    if s == [] then [] else Utf16Char(s[0]) + Utf16(s[1..])
  }

  /** Lexicographic order on code-unit sequences, a proper prefix coming first
      (the IsLessThan rule for strings, read as "less than or equal"). */
  predicate UnitsLe(u: seq<int>, v: seq<int>) {
    u == [] || (v != [] && (u[0] < v[0] || (u[0] == v[0] && UnitsLe(u[1..], v[1..]))))
  }

  /** `a` is placed no later than `b` by `Array.prototype.sort()` without a
      comparator: comparison by UTF-16 code units, with no locale rules. */
  predicate CodeUnitLe(a: string, b: string) {
    UnitsLe(Utf16(a), Utf16(b))
  }

  lemma {:induction false} UnitsLeTotal(u: seq<int>, v: seq<int>)
    ensures UnitsLe(u, v) || UnitsLe(v, u)
  {
    if u != [] && v != [] && u[0] == v[0] {
      UnitsLeTotal(u[1..], v[1..]);
    }
  }

  lemma {:induction false} UnitsLeTransitive(u: seq<int>, v: seq<int>, w: seq<int>)
    requires UnitsLe(u, v) && UnitsLe(v, w)
    ensures UnitsLe(u, w)
  {
    if u != [] && u[0] == v[0] && v[0] == w[0] {
      UnitsLeTransitive(u[1..], v[1..], w[1..]);
    }
  }

  lemma {:induction false} UnitsLeAntisymmetric(u: seq<int>, v: seq<int>)
    requires UnitsLe(u, v) && UnitsLe(v, u)
    ensures u == v
  {
    if u != [] {
      UnitsLeAntisymmetric(u[1..], v[1..]);
      assert u == [u[0]] + u[1..] && v == [v[0]] + v[1..];
    }
  }

  /** Equal encodings of single code points come from the same code point. */
  lemma Utf16CharInjective(c: char, d: char)
    requires Utf16Char(c) == Utf16Char(d)
    ensures c == d
  {
    var n, m := c as int, d as int;
    if n >= 0x10000 {
      assert m >= 0x10000;
      assert (n - 0x10000) / 0x400 == (m - 0x10000) / 0x400;
      assert (n - 0x10000) % 0x400 == (m - 0x10000) % 0x400;
      assert n == 0x10000 + 0x400 * ((n - 0x10000) / 0x400) + (n - 0x10000) % 0x400;
      assert m == 0x10000 + 0x400 * ((m - 0x10000) / 0x400) + (m - 0x10000) % 0x400;
    }
  }

  /** Different strings have different code-unit sequences. */
  lemma {:induction false} Utf16Injective(a: string, b: string)
    requires Utf16(a) == Utf16(b)
    ensures a == b
  {
    if a != [] {
      assert b != [];
      var ua, ub := Utf16Char(a[0]), Utf16Char(b[0]);
      assert Utf16(a) == ua + Utf16(a[1..]) && Utf16(b) == ub + Utf16(b[1..]);
      assert ua[0] == Utf16(a)[0] == Utf16(b)[0] == ub[0];
      assert |ua| == |ub|;
      assert ua == Utf16(a)[..|ua|] == Utf16(b)[..|ub|] == ub;
      Utf16CharInjective(a[0], b[0]);
      assert Utf16(a[1..]) == Utf16(a)[|ua|..] == Utf16(b)[|ub|..] == Utf16(b[1..]);
      Utf16Injective(a[1..], b[1..]);
      assert a == [a[0]] + a[1..] && b == [b[0]] + b[1..];
    } else {
      assert Utf16(b) == [];
    }
  }

  /** The default sort order compares any two strings. */
  lemma CodeUnitLeTotal(a: string, b: string)
    ensures CodeUnitLe(a, b) || CodeUnitLe(b, a)
  {
    UnitsLeTotal(Utf16(a), Utf16(b));
  }

  lemma CodeUnitLeTransitive(a: string, b: string, c: string)
    requires CodeUnitLe(a, b) && CodeUnitLe(b, c)
    ensures CodeUnitLe(a, c)
  {
    UnitsLeTransitive(Utf16(a), Utf16(b), Utf16(c));
  }

  /** Two strings the default order cannot tell apart are the same string. */
  lemma CodeUnitLeAntisymmetric(a: string, b: string)
    requires CodeUnitLe(a, b) && CodeUnitLe(b, a)
    ensures a == b
  {
    UnitsLeAntisymmetric(Utf16(a), Utf16(b));
    Utf16Injective(a, b);
  }

  // ---------------------------------------------------------------------
  // Joining and splitting lists

  /** The separator the handler puts between the values of one specification. */
  const ListSeparator: string := ", "

  /** `parts.join(sep)`. */
  function Join(parts: seq<string>, sep: string): string {
    if |parts| == 0 then ""
    else if |parts| == 1 then parts[0]
    else parts[0] + sep + Join(parts[1..], sep)
  }

  /** `s` holds ", " somewhere. */
  predicate HasListSeparator(s: string) {
    exists i :: 0 <= i < |s| - 1 && s[i] == ',' && s[i + 1] == ' '
  }

  /** `s.split(", ")`: the pieces between occurrences of the list separator,
      scanning left to right. */
  function SplitList(s: string): (parts: seq<string>)
    ensures |parts| >= 1
  {
    if |s| < 2 then [s]
    else if s[0] == ',' && s[1] == ' ' then [""] + SplitList(s[2..])
    else
      var rest := SplitList(s[1..]);
      [[s[0]] + rest[0]] + rest[1..]
  }

  /** A string without the separator splits into itself. */
  lemma {:induction false} SplitListNoSeparator(s: string)
    requires !HasListSeparator(s)
    ensures SplitList(s) == [s]
  {
    if |s| >= 2 {
      assert !(s[0] == ',' && s[1] == ' ');
      assert !HasListSeparator(s[1..]) by {
        forall i | 0 <= i < |s[1..]| - 1
          ensures !(s[1..][i] == ',' && s[1..][i + 1] == ' ')
        {
          assert s[1..][i] == s[i + 1] && s[1..][i + 1] == s[i + 2];
        }
      }
      SplitListNoSeparator(s[1..]);
      assert [s[0]] + s[1..] == s;
    }
  }

  /** Splitting `v + ", " + rest` yields `v` first, then the pieces of `rest`,
      provided `v` itself holds no separator. */
  lemma {:induction false} SplitListPrefix(v: string, rest: string)
    requires !HasListSeparator(v)
    ensures SplitList(v + ListSeparator + rest) == [v] + SplitList(rest)
  {
    var s := v + ListSeparator + rest;
    if v == [] {
      assert s == ", " + rest;
      assert s[2..] == rest;
    } else {
      assert s[0] == v[0];
      if |v| >= 2 {
        assert s[1] == v[1];
        assert !(v[0] == ',' && v[1] == ' ');
      } else {
        assert s[1] == ',';
      }
      assert !HasListSeparator(v[1..]) by {
        forall i | 0 <= i < |v[1..]| - 1
          ensures !(v[1..][i] == ',' && v[1..][i + 1] == ' ')
        {
          assert v[1..][i] == v[i + 1] && v[1..][i + 1] == v[i + 2];
        }
      }
      assert s[1..] == v[1..] + ListSeparator + rest;
      SplitListPrefix(v[1..], rest);
      assert [v[0]] + v[1..] == v;
    }
  }

  /** Splitting undoes joining, as long as no value holds the separator. */
  lemma {:induction false} SplitJoin(parts: seq<string>)
    requires |parts| >= 1
    requires forall i :: 0 <= i < |parts| ==> !HasListSeparator(parts[i])
    ensures SplitList(Join(parts, ListSeparator)) == parts
  {
    if |parts| == 1 {
      SplitListNoSeparator(parts[0]);
    } else {
      SplitJoin(parts[1..]);
      SplitListPrefix(parts[0], Join(parts[1..], ListSeparator));
      assert [parts[0]] + parts[1..] == parts;
    }
  }
}
