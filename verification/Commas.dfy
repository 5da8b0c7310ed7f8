// internal/printer/ata.go: formatComma.
module Commas {
  import opened GoInt

  function DigitChar(d: nat): char
    requires d < 10
  {
    ('0' as int + d) as char
  }

  predicate IsDigit(c: char) { '0' <= c <= '9' }

  // fmt's %d of an unsigned integer.
  function Decimal(n: nat): (s: string)
    ensures |s| >= 1 && forall i :: 0 <= i < |s| ==> IsDigit(s[i])
  {
    if n < 10 then [DigitChar(n)] else Decimal(n / 10) + [DigitChar(n % 10)]
  }

  // Groups of three from the right, with a comma between groups.
  ghost function Group(s: string): string {
    if |s| <= 3 then s else Group(s[..|s| - 3]) + "," + s[|s| - 3..]
  }

  // Counting from the right, every fourth character is a comma, and the others are the
  // digits in order.
  ghost function GroupedChar(s: string, j: nat): char
    requires j < GroupedLength(|s|)
  {
    if j % 4 == 3 then ',' else s[|s| - 1 - (j - j / 4)]
  }

  ghost function GroupedLength(d: nat): nat { if d == 0 then 0 else d + (d - 1) / 3 }

  ghost function RightChar(g: string, j: nat): char
    requires j < |g|
  {
    g[|g| - 1 - j]
  }

  ghost predicate IsGrouped(s: string, g: string) {
    && |g| == GroupedLength(|s|)
    && forall j: nat {:trigger GroupedChar(s, j)} {:trigger RightChar(g, j)} ::
         j < |g| ==> RightChar(g, j) == GroupedChar(s, j)
  }

  lemma GroupedExtend(t: string, g: string, last: string)
    requires IsGrouped(t, g) && |t| >= 1 && |last| == 3
    ensures IsGrouped(t + last, g + "," + last)
  {
    var s, h := t + last, g + "," + last;
    forall j: nat | j < |h| ensures RightChar(h, j) == GroupedChar(s, j) {
      if j >= 4 {
        assert RightChar(h, j) == RightChar(g, j - 4) == GroupedChar(t, j - 4);
      }
    }
  }

  lemma {:induction false} GroupIsGrouped(s: string)
    ensures IsGrouped(s, Group(s))
    decreases |s|
  {
    if |s| > 3 {
      var t, last := s[..|s| - 3], s[|s| - 3..];
      GroupIsGrouped(t);
      GroupedExtend(t, Group(t), last);
      assert t + last == s;
    }
  }

  method FormatComma(n: uint64) returns (r: string)
    ensures r == Group(Decimal(n))
  {
    var s := Decimal(n);
    GroupIsGrouped(s);
    r := GroupDigits(s, Group(s));
  }

  // The loop over the digits.  The buffer has the capacity the source reserves, and
  // no append ever goes beyond it.
  method GroupDigits(s: string, ghost g: string) returns (r: string)
    requires IsGrouped(s, g)
    ensures r == g
  {
    var out := new char[|s| + |s| / 3];
    var length := 0;
    for i := 0 to |s|
      invariant length == Filled(|s|, i) <= |g| <= out.Length
      invariant out[..length] == g[..length]
    {
      var pos := |s| - i;
      FilledStep(s, g, i);
      if i > 0 && pos % 3 == 0 {
        out[length] := ',';
        length := length + 1;
      }
      out[length] := s[i];
      length := length + 1;
    }
    return out[..length];
  }

  // How much of the buffer is filled after i of d digits.
  ghost function Filled(d: nat, i: nat): (r: nat)
    requires i <= d
    ensures r <= GroupedLength(d) <= d + d / 3
    ensures i == d ==> r == GroupedLength(d)
  {
    if i == 0 then 0 else i + (d - 1) / 3 - (d - i) / 3
  }

  lemma FilledStep(s: string, g: string, i: nat)
    requires IsGrouped(s, g) && i < |s|
    ensures var f := Filled(|s|, i);
            if i > 0 && (|s| - i) % 3 == 0 then
              Filled(|s|, i + 1) == f + 2 <= |g| && g[f] == ',' && g[f + 1] == s[i]
            else
              Filled(|s|, i + 1) == f + 1 <= |g| && g[f] == s[i]
  {
    var d, f := |s|, Filled(|s|, i);
    var j := GroupedLength(d) - 1 - f;
    if i > 0 && (d - i) % 3 == 0 {
      CommaArithmetic(d, i);
      assert RightChar(g, j) == GroupedChar(s, j) && RightChar(g, j - 1) == GroupedChar(s, j - 1);
    } else {
      if i == 0 { FirstArithmetic(d); } else { DigitArithmetic(d, i); }
      assert RightChar(g, j) == GroupedChar(s, j);
    }
  }

  lemma CommaArithmetic(d: nat, i: nat)
    requires 0 < i < d && (d - i) % 3 == 0
    ensures var j := GroupedLength(d) - 1 - Filled(d, i);
            && j >= 1 && j % 4 == 3 && d - 1 - ((j - 1) - (j - 1) / 4) == i
            && Filled(d, i + 1) == Filled(d, i) + 2
  {
    var q := (d - i) / 3;
    assert GroupedLength(d) - 1 - Filled(d, i) == 4 * q - 1;
    assert (4 * q - 1) % 4 == 3 && (4 * q - 2) / 4 == q - 1;
    assert (d - (i + 1)) / 3 == q - 1;
  }

  lemma DigitArithmetic(d: nat, i: nat)
    requires 0 < i < d && (d - i) % 3 != 0
    ensures var j := GroupedLength(d) - 1 - Filled(d, i);
            && j >= 0 && j % 4 != 3 && d - 1 - (j - j / 4) == i
            && Filled(d, i + 1) == Filled(d, i) + 1
  {
    var q, t := (d - i) / 3, (d - i) % 3;
    assert GroupedLength(d) - 1 - Filled(d, i) == 4 * q + (t - 1);
    assert (4 * q + (t - 1)) / 4 == q;
    assert (d - (i + 1)) / 3 == q;
  }

  lemma FirstArithmetic(d: nat)
    requires 0 < d
    ensures var j := GroupedLength(d) - 1;
            j >= 0 && j % 4 != 3 && d - 1 - (j - j / 4) == 0 && Filled(d, 1) == 1
  {
    var q, t := (d - 1) / 3, (d - 1) % 3;
    assert GroupedLength(d) - 1 == 4 * q + t;
    assert (4 * q + t) / 4 == q;
  }

  // --- reading back ---

  ghost function RemoveCommas(s: string): string {
    if s == "" then ""
    else
      var k := |s| - 1;
      RemoveCommas(s[..k]) + (if s[k] == ',' then "" else [s[k]])
  }

  ghost function Value(s: string): nat {
    if s == "" then 0
    else
      var k := |s| - 1;
      10 * Value(s[..k]) + (if IsDigit(s[k]) then s[k] as int - '0' as int else 0)
  }

  ghost predicate AllDigits(s: string) { forall i :: 0 <= i < |s| ==> IsDigit(s[i]) }

  // Canonical decimals: digits, with no leading zero but "0" itself.
  ghost predicate Canonical(s: string) {
    |s| >= 1 && AllDigits(s) && (s[0] == '0' ==> |s| == 1)
  }

  lemma {:induction false} ValueDecimal(n: nat)
    ensures Value(Decimal(n)) == n && Canonical(Decimal(n)) && (Decimal(n)[0] == '0' ==> n == 0)
  {
    if n < 10 {
      assert Value(Decimal(n)[..0]) == 0;
    } else {
      ValueDecimal(n / 10);
      assert Decimal(n)[..|Decimal(n)| - 1] == Decimal(n / 10);
    }
  }

  lemma {:induction false} DecimalValue(s: string)
    requires Canonical(s)
    ensures Decimal(Value(s)) == s && (s[0] != '0' ==> Value(s) >= 1)
    decreases |s|
  {
    var k := |s| - 1;
    if k == 0 {
      assert Value(s[..0]) == 0;
    } else {
      DecimalValue(s[..k]);
      assert Value(s) / 10 == Value(s[..k]);
      assert s == s[..k] + [s[k]];
    }
  }

  lemma {:induction false} RemoveConcat(s: string, t: string)
    ensures RemoveCommas(s + t) == RemoveCommas(s) + RemoveCommas(t)
  {
    if t == "" {
      assert s + t == s;
    } else {
      var k := |t| - 1;
      assert (s + t)[..|s + t| - 1] == s + t[..k];
      RemoveConcat(s, t[..k]);
    }
  }

  lemma {:induction false} RemoveNone(s: string)
    requires forall i :: 0 <= i < |s| ==> s[i] != ','
    ensures RemoveCommas(s) == s
  {
    if s != "" {
      RemoveNone(s[..|s| - 1]);
    }
  }

  lemma RemoveLastGroup(h: string, last: string)
    requires AllDigits(last)
    ensures RemoveCommas(h + "," + last) == RemoveCommas(h) + last
  {
    RemoveNone(last);
    RemoveConcat(h + ",", last);
    RemoveConcat(h, ",");
    assert RemoveCommas(",") == "" by { assert ","[..0] == ""; }
  }

  lemma {:induction false} RemoveGroup(s: string)
    requires AllDigits(s)
    ensures RemoveCommas(Group(s)) == s
    decreases |s|
  {
    if |s| <= 3 {
      RemoveNone(s);
    } else {
      var t, last := s[..|s| - 3], s[|s| - 3..];
      RemoveGroup(t);
      RemoveLastGroup(Group(t), last);
      assert s == t + last;
    }
  }

  // Removing the commas gives the plain decimal, which evaluates back to the number.
  lemma FormatInverts(n: uint64)
    ensures RemoveCommas(Group(Decimal(n))) == Decimal(n)
    ensures Value(RemoveCommas(Group(Decimal(n)))) == n
  {
    RemoveGroup(Decimal(n));
    ValueDecimal(n);
  }

  lemma FormatInjective(m: uint64, n: uint64)
    requires Group(Decimal(m)) == Group(Decimal(n))
    ensures m == n
  {
    FormatInverts(m);
    FormatInverts(n);
  }

  // --- exactly which strings are produced ---

  ghost predicate Shape(g: string) {
    && |g| % 4 != 0
    && forall j: nat {:trigger RightChar(g, j)} ::
         j < |g| ==> if j % 4 == 3 then RightChar(g, j) == ',' else IsDigit(RightChar(g, j))
  }

  ghost predicate WellGrouped(g: string) {
    Shape(g) && (g[0] == '0' ==> |g| == 1)
  }

  // A longer shape ends in a comma and three digits; the rest is a shape.
  lemma ShapeSplit(g: string)
    requires Shape(g) && |g| > 3
    ensures |g| > 4 && Shape(g[..|g| - 4])
    ensures g == g[..|g| - 4] + "," + g[|g| - 3..] && AllDigits(g[|g| - 3..])
  {
    var h, last := g[..|g| - 4], g[|g| - 3..];
    forall j: nat | j < |h|
      ensures if j % 4 == 3 then RightChar(h, j) == ',' else IsDigit(RightChar(h, j))
    {
      assert RightChar(h, j) == RightChar(g, j + 4);
    }
    assert RightChar(g, 3) == ',';
    assert last[2] == RightChar(g, 0) && last[1] == RightChar(g, 1) && last[0] == RightChar(g, 2);
  }

  lemma ShortShape(g: string)
    requires Shape(g) && |g| <= 3
    ensures AllDigits(g)
  {
    forall i | 0 <= i < |g| ensures IsDigit(g[i]) {
      assert g[i] == RightChar(g, |g| - 1 - i);
    }
  }

  lemma GroupExtend(t: string, last: string)
    requires |t| >= 1 && |last| == 3
    ensures Group(t + last) == Group(t) + "," + last
  {
    var s := t + last;
    assert s[..|s| - 3] == t && s[|s| - 3..] == last;
  }

  lemma {:induction false} ShapeIsGroup(g: string)
    requires Shape(g)
    ensures AllDigits(RemoveCommas(g)) && Group(RemoveCommas(g)) == g
    ensures |RemoveCommas(g)| >= 1 && RemoveCommas(g)[0] == g[0]
    ensures |RemoveCommas(g)| == 1 <==> |g| == 1
    decreases |g|
  {
    if |g| <= 3 {
      ShortShape(g);
      RemoveNone(g);
    } else {
      var h, last := g[..|g| - 4], g[|g| - 3..];
      ShapeSplit(g);
      ShapeIsGroup(h);
      RemoveLastGroup(h, last);
      GroupExtend(RemoveCommas(h), last);
    }
  }

  // Without the bound on its argument, grouping maps the numbers one to one onto the
  // well-grouped strings.
  lemma GroupImage(g: string)
    ensures WellGrouped(g) <==> g == Group(Decimal(Value(RemoveCommas(g))))
  {
    if WellGrouped(g) {
      ShapeIsGroup(g);
      DecimalValue(RemoveCommas(g));
    }
    GroupWellGrouped(Value(RemoveCommas(g)));
  }

  // The strings formatComma produces are exactly the well-grouped ones whose value is a uint64.
  lemma FormatImage(g: string)
    ensures (exists n: uint64 :: g == Group(Decimal(n)))
            <==> WellGrouped(g) && Value(RemoveCommas(g)) < 0x1_0000_0000_0000_0000
  {
    GroupImage(g);
    forall n: uint64 | g == Group(Decimal(n))
      ensures WellGrouped(g) && Value(RemoveCommas(g)) == n
    {
      GroupWellGrouped(n);
      FormatInverts(n);
    }
    if WellGrouped(g) && Value(RemoveCommas(g)) < 0x1_0000_0000_0000_0000 {
      var n: uint64 := Value(RemoveCommas(g));
      assert g == Group(Decimal(n));
    }
  }

  lemma GroupWellGrouped(n: nat)
    ensures WellGrouped(Group(Decimal(n)))
  {
    var s, g := Decimal(n), Group(Decimal(n));
    ValueDecimal(n);
    GroupIsGrouped(s);
    assert g[0] == RightChar(g, |g| - 1) == GroupedChar(s, |g| - 1);
    forall j: nat | j < |g| ensures if j % 4 == 3 then RightChar(g, j) == ',' else IsDigit(RightChar(g, j)) {
      assert RightChar(g, j) == GroupedChar(s, j);
    }
    LengthNotMultiple(|s|);
  }

  lemma LengthNotMultiple(d: nat)
    requires d >= 1
    ensures GroupedLength(d) % 4 != 0
    ensures var j := GroupedLength(d) - 1; j % 4 != 3 && d - 1 - (j - j / 4) == 0
    ensures GroupedLength(d) == 1 <==> d == 1
  {
    FirstArithmetic(d);
  }

  // A uint64 has at most 20 digits, and its format at most 26 characters.
  lemma FormatLength(n: uint64)
    ensures |Group(Decimal(n))| == GroupedLength(|Decimal(n)|) <= 26
  {
    GroupIsGrouped(Decimal(n));
    Digits(n, 20);
    assert Pow10(5) == 100000;
    assert Pow10(10) == 100000 * Pow10(5);
    assert Pow10(15) == 100000 * Pow10(10);
    assert Pow10(20) == 100000 * Pow10(15);
  }

  ghost function Pow10(k: nat): nat { if k == 0 then 1 else 10 * Pow10(k - 1) }

  lemma {:induction false} Digits(n: nat, k: nat)
    requires k >= 1
    ensures n < Pow10(k) ==> |Decimal(n)| <= k
    decreases k
  {
    if n >= 10 && k >= 2 {
      Digits(n / 10, k - 1);
    }
  }
}
