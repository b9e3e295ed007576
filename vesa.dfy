/** `parseSize`, the key of the VESA comparator in the characteristics handler:
    a value such as "200x100mm" is read as a (width, height) pair. */
module Vesa {
  import Text

  datatype Size = Size(w: nat, h: nat)

  predicate IsM(c: char) {
    c == 'm' || c == 'M'
  }

  /** `str.replace(/mm/gi, "")`: every non-overlapping "mm", in any case,
      found scanning left to right, is removed. */
  function StripMm(s: string): (r: string)
    ensures |r| <= |s|
  {
    if |s| >= 2 && IsM(s[0]) && IsM(s[1]) then StripMm(s[2..])
    else if s == [] then []
    else [s[0]] + StripMm(s[1..])
  }

  /** `s.split("x")`: the pieces between lower-case `x` characters; there is
      always at least one. */
  function SplitX(s: string): (parts: seq<string>)
    ensures |parts| >= 1
  {
    if s == [] then [""]
    else if s[0] == 'x' then [""] + SplitX(s[1..])
    else
      var rest := SplitX(s[1..]);
      [[s[0]] + rest[0]] + rest[1..]
  }

  /** `Number(part) || 0` for a piece that, once white space is trimmed, is
      empty or a string of decimal digits; any other piece reads as 0. */
  function NumberOrZero(part: string): nat {
    var t := Text.Trim(part);
    if Text.AllDigits(t) then Text.DigitsValue(t) else 0
  }

  /** `parseSize(str)`: width and height are the first two pieces, a missing
      height reads as 0. */
  function SizeOf(s: string): Size {
    var parts := SplitX(Text.Trim(StripMm(s)));
    Size(NumberOrZero(parts[0]), if |parts| >= 2 then NumberOrZero(parts[1]) else 0)
  }

  /** The comparator's order: width first, then height, both ascending. */
  predicate SizeLe(a: Size, b: Size) {
    a.w < b.w || (a.w == b.w && a.h <= b.h)
  }

  // ---------------------------------------------------------------------
  // Rendering a size, as the inverse of parseSize

  /** Decimal digits of `n`, without leading zeros. */
  function Decimal(n: nat): (s: string)
    ensures s != [] && Text.AllDigits(s)
  {
    if n < 10 then [('0' as int + n) as char]
    else Decimal(n / 10) + [('0' as int + n % 10) as char]
  }

  lemma {:induction false} DecimalValue(n: nat)
    ensures Text.DigitsValue(Decimal(n)) == n
  {
    var s := Decimal(n);
    if n >= 10 {
      DecimalValue(n / 10);
      assert s[..|s| - 1] == Decimal(n / 10);
    } else {
      assert s[..|s| - 1] == [];
    }
  }

  /** "W x H mm" in the catalogue's usual form. */
  function ShowSize(size: Size): string {
    Decimal(size.w) + "x" + Decimal(size.h) + "mm"
  }

  lemma {:induction false} StripMmNoM(t: string, u: string)
    requires forall i :: 0 <= i < |t| ==> !IsM(t[i])
    ensures StripMm(t + u) == t + StripMm(u)
  {
    if t != [] {
      var s := t + u;
      assert s[0] == t[0] && !IsM(s[0]);
      assert s[1..] == t[1..] + u;
      assert StripMm(s) == [t[0]] + StripMm(s[1..]);
      StripMmNoM(t[1..], u);
      assert [t[0]] + (t[1..] + StripMm(u)) == t + StripMm(u);
    } else {
      assert t + u == u;
    }
  }

  lemma {:induction false} SplitXNoX(t: string)
    requires forall i :: 0 <= i < |t| ==> t[i] != 'x'
    ensures SplitX(t) == [t]
  {
    if t != [] {
      SplitXNoX(t[1..]);
      assert [t[0]] + t[1..] == t;
    }
  }

  lemma {:induction false} SplitXPrefix(t: string, u: string)
    requires forall i :: 0 <= i < |t| ==> t[i] != 'x'
    ensures SplitX(t + "x" + u) == [t] + SplitX(u)
  {
    var s := t + "x" + u;
    if t == [] {
      assert s[1..] == u;
    } else {
      assert s[1..] == t[1..] + "x" + u;
      SplitXPrefix(t[1..], u);
      assert [t[0]] + t[1..] == t;
    }
  }

  lemma DigitsTrimmed(s: string)
    requires s != [] && Text.AllDigits(s)
    ensures Text.Trim(s) == s
  {
    Text.TrimOfTrimmed(s);
  }

  /** "a x b" between digit strings holds no `m` and does not need trimming. */
  lemma DigitPairShape(a: string, b: string)
    requires a != [] && Text.AllDigits(a) && b != [] && Text.AllDigits(b)
    ensures forall i :: 0 <= i < |a + "x" + b| ==> !IsM((a + "x" + b)[i])
    ensures Text.Trim(a + "x" + b) == a + "x" + b
  {
    var body := a + "x" + b;
    forall i | 0 <= i < |body|
      ensures !IsM(body[i])
    {
      if i < |a| {
        assert body[i] == a[i];
      } else if i > |a| {
        assert body[i] == b[i - |a| - 1];
      }
    }
    assert body[0] == a[0] && body[|body| - 1] == b[|b| - 1];
    Text.TrimOfTrimmed(body);
  }

  lemma StripMmSuffix(body: string)
    requires forall i :: 0 <= i < |body| ==> !IsM(body[i])
    ensures StripMm(body + "mm") == body
  {
    StripMmNoM(body, "mm");
    assert StripMm("mm") == StripMm("mm"[2..]) == [];
    assert body + [] == body;
  }

  /** parseSize reads back the width and height of a rendered size. */
  lemma SizeOfShowSize(size: Size)
    ensures SizeOf(ShowSize(size)) == size
  {
    var a, b := Decimal(size.w), Decimal(size.h);
    var body := a + "x" + b;
    assert ShowSize(size) == body + "mm";
    DigitPairShape(a, b);
    StripMmSuffix(body);
    assert Text.Trim(StripMm(ShowSize(size))) == body;
    assert forall i :: 0 <= i < |a| ==> a[i] != 'x';
    assert forall i :: 0 <= i < |b| ==> b[i] != 'x';
    SplitXPrefix(a, b);
    SplitXNoX(b);
    assert SplitX(body) == [a, b];
    DigitsTrimmed(a);
    DigitsTrimmed(b);
    DecimalValue(size.w);
    DecimalValue(size.h);
  }

  /** Without a lower-case `x` once "mm" is removed, the height reads as 0. */
  lemma NoSeparatorZeroHeight(s: string)
    requires forall i :: 0 <= i < |Text.Trim(StripMm(s))| ==> Text.Trim(StripMm(s))[i] != 'x'
    ensures SizeOf(s).h == 0
  {
    SplitXNoX(Text.Trim(StripMm(s)));
  }

  lemma SizeLeTransitive(a: Size, b: Size, c: Size)
    requires SizeLe(a, b) && SizeLe(b, c)
    ensures SizeLe(a, c)
  {
  }

  /** Sizes the comparator cannot tell apart are equal sizes. */
  lemma SizeLeAntisymmetric(a: Size, b: Size)
    requires SizeLe(a, b) && SizeLe(b, a)
    ensures a == b
  {
  }
}
