/**
 Python's `int(x)` on a string `x` with the default base 10, and `str(n)`, the
 formatter it inverts.  `int()` skips whitespace on both sides of the literal,
 takes an optional `+` or `-`, and then one or more ASCII digits in which single
 underscores may separate two digits; leading zeros are allowed.  Anything else
 raises `ValueError`, modelled as `None`.  The whitespace `int()` skips is not
 quite that of `str.isspace()`: ASCII characters count only when they are TAB,
 LF, VT, FF, CR or space, so the four information separators U+001C..U+001F,
 which `strip()` removes, make `int()` fail.
 */
module PyInt {
  import opened Wrappers
  import opened PyStr

  predicate IsDigit(c: char) {
    '0' <= c <= '9'
  }

  /** The information separators: whitespace to `str.isspace()`, not to `int()`. */
  predicate IsSeparator(c: char) {
    c == '\U{1C}' || c == '\U{1D}' || c == '\U{1E}' || c == '\U{1F}'
  }

  /** Whitespace `int()` skips around a literal: the ASCII characters TAB, LF,
      VT, FF, CR and space, and every non-ASCII character `str.isspace()` accepts. */
  predicate IsIntSpace(c: char) {
    IsSpace(c) && !IsSeparator(c)
  }

  predicate AllIntSpace(s: string) {
    forall i | 0 <= i < |s| :: IsIntSpace(s[i])
  }

  function DigitValue(c: char): (d: nat)
    ensures d < 10
  {
    if IsDigit(c) then c as int - '0' as int else 0
  }

  function DigitChar(d: nat): (c: char)
    requires d < 10
    ensures IsDigit(c) && DigitValue(c) == d
  {
    ('0' as int + d) as char
  }

  function Pow10(k: nat): (p: nat)
    ensures p > 0
  {
    if k == 0 then 1 else 10 * Pow10(k - 1)
  }

  /** The number a string of decimal digits denotes, most significant first. */
  function DecimalValue(ds: string): nat
    decreases |ds|
  {
    if |ds| == 0 then 0 else DecimalValue(ds[..|ds| - 1]) * 10 + DigitValue(ds[|ds| - 1])
  }

  /** `s` with every underscore removed. */
  function DropUnderscores(s: string): (r: string)
    ensures '_' !in r
    decreases |s|
  {
    if |s| == 0 then []
    else if s[0] == '_' then DropUnderscores(s[1..])
    else [s[0]] + DropUnderscores(s[1..])
  }

  // ---------------------------------------------------------------------------
  // The parser
  // ---------------------------------------------------------------------------

  datatype Sign = NoSign | Plus | Minus

  function SignText(sg: Sign): string {
    match sg
    case NoSign => ""
    case Plus => "+"
    case Minus => "-"
  }

  /** The digits after the first one, scanned left to right into `acc`: a digit
      extends the number, an underscore must be followed by a digit, any other
      character is an error. */
  function ScanDigits(s: string, acc: nat): (r: Option<nat>)
    ensures r.Some? ==> s == [] || IsDigit(s[|s| - 1])
    decreases |s|
  {
    if |s| == 0 then Some(acc)
    else if IsDigit(s[0]) then ScanDigits(s[1..], acc * 10 + DigitValue(s[0]))
    else if s[0] == '_' && |s| >= 2 && IsDigit(s[1]) then ScanDigits(s[2..], acc * 10 + DigitValue(s[1]))
    else None
  }

  /** An unsigned run of digits; it must start with a digit. */
  function ParseDigits(s: string): (r: Option<nat>)
    ensures r.Some? ==> |s| > 0 && IsDigit(s[0]) && IsDigit(s[|s| - 1])
  {
    if |s| > 0 && IsDigit(s[0]) then ScanDigits(s[1..], DigitValue(s[0])) else None
  }

  /** The sign in front of a literal, if any, and the text after it. */
  function SplitSign(t: string): (r: (Sign, string))
    ensures SignText(r.0) + r.1 == t
  {
    if |t| > 0 && t[0] == '-' then (Minus, t[1..])
    else if |t| > 0 && t[0] == '+' then (Plus, t[1..])
    else (NoSign, t)
  }

  /** An optionally signed run of digits, with no whitespace around it. */
  function ParseSigned(t: string): (r: Option<int>)
    ensures r.Some? ==> |t| > 0 && IsDigit(t[|t| - 1])
    ensures r.Some? && r.value < 0 ==> t[0] == '-'
  {
    var (sg, ds) := SplitSign(t);
    match ParseDigits(ds)
    case Some(n) => Some(if sg == Minus then -(n as int) else n)
    case None => None
  }

  /** `int(s)`; `None` where Python raises `ValueError`.  CPython skips its own
      whitespace, reads a sign and digits, skips its whitespace again and must
      then be at the end.  Since that whitespace is part of the `str.isspace()`
      set and a literal neither starts nor ends with such whitespace, this is
      the same as: `strip()` the text, parse the rest as a bare literal, and
      fail if what was cut off holds an information separator. */
  function ParseInt(s: string): (r: Option<int>)
    ensures r.Some? ==> |Strip(s)| > 0 && IsDigit(Strip(s)[|Strip(s)| - 1])
  {
    if AllIntSpace(Leading(s)) && AllIntSpace(Trailing(s)) then ParseSigned(Strip(s)) else None
  }

  // ---------------------------------------------------------------------------
  // The grammar of accepted literals, as an independent reference
  // ---------------------------------------------------------------------------

  /** Every character is a digit, or an underscore directly followed by a digit. */
  predicate GroupedDigits(s: string) {
    forall i | 0 <= i < |s| :: IsDigit(s[i]) || (s[i] == '_' && i + 1 < |s| && IsDigit(s[i + 1]))
  }

  /** Digits separated by single underscores, e.g. `7`, `007`, `1_000`. */
  predicate IsDigitGroups(s: string) {
    |s| > 0 && IsDigit(s[0]) && GroupedDigits(s)
  }

  /** An integer literal taken apart: whitespace, sign, digit groups, whitespace. */
  datatype Literal = Literal(lead: string, sign: Sign, digits: string, trail: string)

  predicate ValidLiteral(l: Literal) {
    AllIntSpace(l.lead) && IsDigitGroups(l.digits) && AllIntSpace(l.trail)
  }

  function Render(l: Literal): string {
    l.lead + SignText(l.sign) + l.digits + l.trail
  }

  function LiteralValue(l: Literal): int {
    var m: int := DecimalValue(DropUnderscores(l.digits));
    if l.sign == Minus then -m else m
  }

  // ---------------------------------------------------------------------------
  // The formatter `str(n)`
  // ---------------------------------------------------------------------------

  /** The canonical decimal text of `n`: digits only, no leading zero. */
  function Decimal(n: nat): (r: string)
    ensures |r| > 0 && forall i | 0 <= i < |r| :: IsDigit(r[i])
    ensures |r| > 1 ==> r[0] != '0'
    decreases n
  {
    if n < 10 then [DigitChar(n)] else Decimal(n / 10) + [DigitChar(n % 10)]
  }

  /** `str(n)`. */
  function FormatInt(n: int): string {
    if n < 0 then "-" + Decimal(-n) else Decimal(n)
  }

  // ---------------------------------------------------------------------------
  // Arithmetic of digit strings
  // ---------------------------------------------------------------------------

  lemma {:induction false} DecimalValueConcat(a: string, b: string)
    ensures DecimalValue(a + b) == DecimalValue(a) * Pow10(|b|) + DecimalValue(b)
    decreases |b|
  {
    if |b| == 0 {
      assert a + b == a;
    } else {
      var b' := b[..|b| - 1];
      assert (a + b)[..|a + b| - 1] == a + b';
      assert (a + b)[|a + b| - 1] == b[|b| - 1];
      DecimalValueConcat(a, b');
      ShiftDigit(DecimalValue(a), Pow10(|b'|), DecimalValue(b'), DigitValue(b[|b| - 1]));
    }
  }

  /** Appending a digit multiplies both parts of a split number by ten. */
  lemma ShiftDigit(x: int, p: int, y: int, d: int)
    ensures (x * p + y) * 10 + d == x * (10 * p) + (y * 10 + d)
  {
  }

  lemma ConcatRegroup(a: string, b: string, c: string, d: string)
    ensures a + b + c + d == a + (b + c) + d
  {
  }

  /** Putting a digit in front of a digit string adds its weight. */
  lemma DecimalValueCons(c: char, x: string)
    ensures DecimalValue([c] + x) == DigitValue(c) * Pow10(|x|) + DecimalValue(x)
  {
    DecimalValueConcat([c], x);
    assert [c][..0] == [];
  }

  /** `Decimal` inverts `DecimalValue`. */
  lemma {:induction false} DecimalRoundTrip(n: nat)
    ensures DecimalValue(Decimal(n)) == n
    decreases n
  {
    if n >= 10 {
      var r := Decimal(n);
      assert r[..|r| - 1] == Decimal(n / 10);
      DecimalRoundTrip(n / 10);
    }
  }

  lemma {:induction false} DropUnderscoresNone(s: string)
    requires '_' !in s
    ensures DropUnderscores(s) == s
    decreases |s|
  {
    if |s| > 0 {
      assert s[1..] == s[|s| - (|s| - 1)..];
      assert '_' !in s[1..] by {
        forall i | 0 <= i < |s| - 1 ensures s[1..][i] != '_' {
          assert s[1..][i] == s[i + 1];
        }
      }
      DropUnderscoresNone(s[1..]);
      assert [s[0]] + s[1..] == s;
    }
  }

  // ---------------------------------------------------------------------------
  // The parser agrees with the grammar
  // ---------------------------------------------------------------------------

  /** A leading digit does not affect whether the rest is well grouped. */
  lemma GroupedDigitsCons(s: string)
    requires |s| > 0 && IsDigit(s[0])
    ensures GroupedDigits(s) <==> GroupedDigits(s[1..])
  {
    if GroupedDigits(s[1..]) {
      forall i | 0 < i < |s|
        ensures IsDigit(s[i]) || (s[i] == '_' && i + 1 < |s| && IsDigit(s[i + 1]))
      {
        assert s[i] == s[1..][i - 1];
      }
    }
  }

  /** A leading underscore must be followed by a digit. */
  lemma GroupedDigitsUnderscore(s: string)
    requires |s| > 0 && s[0] == '_'
    ensures GroupedDigits(s) <==> |s| >= 2 && IsDigit(s[1]) && GroupedDigits(s[2..])
  {
    if |s| >= 2 && IsDigit(s[1]) {
      GroupedDigitsCons(s[1..]);
      assert s[1..][1..] == s[2..];
      if GroupedDigits(s[1..]) {
        forall i | 0 < i < |s|
          ensures IsDigit(s[i]) || (s[i] == '_' && i + 1 < |s| && IsDigit(s[i + 1]))
        {
          assert s[i] == s[1..][i - 1];
        }
      }
    } else {
      assert !(IsDigit(s[0]) || (s[0] == '_' && 0 + 1 < |s| && IsDigit(s[0 + 1])));
    }
  }

  /** Scanning one more digit into the accumulator. */
  lemma ScanStep(acc: nat, c: char, x: string)
    ensures (acc * 10 + DigitValue(c)) * Pow10(|x|) + DecimalValue(x)
         == acc * Pow10(|[c] + x|) + DecimalValue([c] + x)
  {
    DecimalValueCons(c, x);
    ShiftWeight(acc, DigitValue(c), Pow10(|x|), DecimalValue(x));
  }

  lemma ShiftWeight(acc: int, d: int, p: int, y: int)
    ensures (acc * 10 + d) * p + y == acc * (10 * p) + (d * p + y)
  {
  }

  /** What scanning `s` into `acc` should give: `acc` shifted past the digits of
      `s` plus their value, when `s` is well grouped. */
  function GroupedValue(s: string, acc: nat): Option<nat> {
    if GroupedDigits(s)
    then Some(acc * Pow10(|DropUnderscores(s)|) + DecimalValue(DropUnderscores(s)))
    else None
  }

  /** The scanner accepts exactly the grouped digit strings, and accumulates their value. */
  lemma {:induction false} ScanDigitsSpec(s: string, acc: nat)
    ensures ScanDigits(s, acc) == GroupedValue(s, acc)
    decreases |s|
  {
    if |s| == 0 {
    } else if IsDigit(s[0]) {
      ScanDigitsSpec(s[1..], acc * 10 + DigitValue(s[0]));
      GroupedValueDigit(s, acc);
    } else if s[0] == '_' && |s| >= 2 && IsDigit(s[1]) {
      ScanDigitsSpec(s[2..], acc * 10 + DigitValue(s[1]));
      GroupedValueUnderscore(s, acc);
    } else {
      GroupedValueStray(s, acc);
    }
  }

  lemma GroupedValueDigit(s: string, acc: nat)
    requires |s| > 0 && IsDigit(s[0])
    ensures GroupedValue(s, acc) == GroupedValue(s[1..], acc * 10 + DigitValue(s[0]))
  {
    GroupedDigitsCons(s);
    assert DropUnderscores(s) == [s[0]] + DropUnderscores(s[1..]);
    ScanStep(acc, s[0], DropUnderscores(s[1..]));
  }

  lemma GroupedValueUnderscore(s: string, acc: nat)
    requires |s| >= 2 && s[0] == '_' && IsDigit(s[1])
    ensures GroupedValue(s, acc) == GroupedValue(s[2..], acc * 10 + DigitValue(s[1]))
  {
    GroupedDigitsUnderscore(s);
    assert s[1..][1..] == s[2..];
    assert DropUnderscores(s) == DropUnderscores(s[1..]) == [s[1]] + DropUnderscores(s[2..]);
    ScanStep(acc, s[1], DropUnderscores(s[2..]));
  }

  lemma GroupedValueStray(s: string, acc: nat)
    requires |s| > 0 && !IsDigit(s[0]) && !(s[0] == '_' && |s| >= 2 && IsDigit(s[1]))
    ensures GroupedValue(s, acc) == None
  {
    if s[0] == '_' {
      GroupedDigitsUnderscore(s);
    } else {
      assert !IsDigit(s[0]) && s[0] != '_';
    }
  }

  /** `ParseDigits` accepts exactly the digit-group strings, with their value. */
  lemma ParseDigitsSpec(s: string)
    ensures ParseDigits(s) ==
      if IsDigitGroups(s) then Some(DecimalValue(DropUnderscores(s))) else None
  {
    if |s| > 0 && IsDigit(s[0]) {
      var x := DropUnderscores(s[1..]);
      ScanDigitsSpec(s[1..], DigitValue(s[0]));
      GroupedDigitsCons(s);
      DecimalValueCons(s[0], x);
    }
  }

  /** `strip()` cuts exactly a literal's whitespace and leaves its sign and digits. */
  lemma LiteralParts(l: Literal)
    requires ValidLiteral(l)
    ensures var r, core := Render(l), SignText(l.sign) + l.digits;
      Leading(r) == l.lead && Strip(r) == core && Trailing(r) == l.trail
  {
    var core := SignText(l.sign) + l.digits;
    assert Render(l) == l.lead + core + l.trail;
    CoreBare(l);
    SplitBare(l.lead, core, l.trail);
  }

  /** A sign followed by digit groups has no whitespace at either end. */
  lemma CoreBare(l: Literal)
    requires IsDigitGroups(l.digits)
    ensures var core := SignText(l.sign) + l.digits;
      core != [] && !IsSpace(core[0]) && !IsSpace(core[|core| - 1])
  {
    var core := SignText(l.sign) + l.digits;
    var n := |l.digits|;
    assert IsDigit(l.digits[n - 1]) by {
      assert !(n - 1 + 1 < n);
    }
    assert core[|core| - 1] == l.digits[n - 1];
    assert core[0] == if l.sign == NoSign then l.digits[0] else SignText(l.sign)[0];
  }

  /** A bare sign and digit groups parse to the value they denote. */
  lemma ParseSignedCore(l: Literal)
    requires IsDigitGroups(l.digits)
    ensures ParseSigned(SignText(l.sign) + l.digits) == Some(LiteralValue(l))
  {
    SplitSignText(l.sign, l.digits);
    ParseDigitsSpec(l.digits);
  }

  /** A sign written in front of digit groups is read back as that sign. */
  lemma SplitSignText(sg: Sign, ds: string)
    requires IsDigitGroups(ds)
    ensures SplitSign(SignText(sg) + ds) == (sg, ds)
  {
    var t := SignText(sg) + ds;
    match sg
    case NoSign => assert t == ds;
    case Plus => assert t[1..] == ds;
    case Minus => assert t[1..] == ds;
  }

  /** Every well-formed literal parses, to the value it denotes. */
  lemma ParseIntComplete(l: Literal)
    requires ValidLiteral(l)
    ensures ParseInt(Render(l)) == Some(LiteralValue(l))
  {
    LiteralParts(l);
    ParseSignedCore(l);
  }

  /** What a bare sign and digits that parse are made of. */
  lemma ParseSignedSound(t: string)
    requires ParseSigned(t).Some?
    ensures IsDigitGroups(SplitSign(t).1)
    ensures ParseSigned(t).value == LiteralValue(Literal("", SplitSign(t).0, SplitSign(t).1, ""))
  {
    ParseDigitsSpec(SplitSign(t).1);
  }

  /** The literal a string that parses is made of. */
  function Decompose(s: string): (l: Literal)
    requires ParseInt(s).Some?
    ensures ValidLiteral(l) && Render(l) == s && LiteralValue(l) == ParseInt(s).value
  {
    StripSplit(s);
    var (sg, ds) := SplitSign(Strip(s));
    ParseSignedSound(Strip(s));
    var l := Literal(Leading(s), sg, ds, Trailing(s));
    ConcatRegroup(l.lead, SignText(sg), ds, l.trail);
    l
  }

  /** `int(s)` returns `v` exactly when `s` is a well-formed literal denoting `v`. */
  lemma ParseIntAccepts(s: string, v: int)
    ensures ParseInt(s) == Some(v) <==> exists l :: ValidLiteral(l) && Render(l) == s && LiteralValue(l) == v
  {
    if ParseInt(s) == Some(v) {
      var l := Decompose(s);
    }
    if l :| ValidLiteral(l) && Render(l) == s && LiteralValue(l) == v {
      ParseIntComplete(l);
    }
  }

  /** A character that can be no part of a literal (`:`, `.`, a letter, ...) makes `int()` fail. */
  lemma ParseIntForeignChar(s: string, i: nat)
    requires i < |s|
    requires !IsIntSpace(s[i]) && !IsDigit(s[i]) && s[i] !in "_+-"
    ensures ParseInt(s) == None
  {
    if ParseInt(s).Some? {
      var l := Decompose(s);
      LiteralChars(l, i);
    }
  }

  /** Each character of a literal is whitespace, a sign, a digit or an underscore. */
  lemma LiteralChars(l: Literal, i: nat)
    requires ValidLiteral(l) && i < |Render(l)|
    ensures var c := Render(l)[i]; IsIntSpace(c) || IsDigit(c) || c in "_+-"
  {
    var r, sg := Render(l), SignText(l.sign);
    var n0, n1, n2 := |l.lead|, |l.lead| + |sg|, |l.lead| + |sg| + |l.digits|;
    if i < n0 {
      assert r[i] == l.lead[i];
    } else if i < n1 {
      assert r[i] == sg[i - n0];
      assert sg[i - n0] in "+-";
    } else if i < n2 {
      assert r[i] == l.digits[i - n1];
    } else {
      assert r[i] == l.trail[i - n2];
    }
  }

  /** A whitespace-only string, the empty one included, is not an integer. */
  lemma ParseIntBlank(s: string)
    requires AllSpace(s)
    ensures ParseInt(s) == None
  {
    StripLeftBlank(s);
  }

  /** `int(w + str(n)) == n`, for any whitespace `w` in front. */
  lemma FormatIntParses(w: string, n: int)
    requires AllIntSpace(w)
    ensures ParseInt(w + FormatInt(n)) == Some(n)
  {
    var l := FormatLiteral(w, n);
    ParseIntComplete(l);
  }

  /** `w + str(n)` taken apart as a literal. */
  function FormatLiteral(w: string, n: int): (l: Literal)
    requires AllIntSpace(w)
    ensures ValidLiteral(l) && Render(l) == w + FormatInt(n) && LiteralValue(l) == n
  {
    var m: nat := if n < 0 then -n else n;
    var l := Literal(w, if n < 0 then Minus else NoSign, Decimal(m), "");
    assert ValidLiteral(l) by {
      assert IsDigitGroups(Decimal(m));
    }
    assert Render(l) == w + FormatInt(n);
    assert LiteralValue(l) == n by {
      DropUnderscoresNone(Decimal(m));
      DecimalRoundTrip(m);
    }
    l
  }

  /** Leading zeros are accepted in base 10 and do not change the value: `int("007") == 7`. */
  lemma LeadingZero(ds: string)
    requires IsDigitGroups(ds)
    ensures ParseInt("0" + ds) == ParseInt(ds)
  {
    var z := "0" + ds;
    assert IsDigitGroups(z) by {
      assert z[1..] == ds;
      GroupedDigitsCons(z);
    }
    var l, lz := Literal("", NoSign, ds, ""), Literal("", NoSign, z, "");
    assert LiteralValue(lz) == LiteralValue(l) by {
      assert DropUnderscores(z) == "0" + DropUnderscores(ds) by {
        assert z[1..] == ds;
      }
      DecimalValueCons('0', DropUnderscores(ds));
    }
    SameValue(lz, z, l, ds);
  }

  /** A single underscore between two digit groups is accepted and ignored:
      `int("1_000") == int("1000")`. */
  lemma Underscore(x: string, y: string)
    requires IsDigitGroups(x) && IsDigitGroups(y)
    ensures ParseInt(x + "_" + y) == ParseInt(x + y)
  {
    var u, j := x + "_" + y, x + y;
    GroupedJoin(x, y);
    var lu, lj := Literal("", NoSign, u, ""), Literal("", NoSign, j, "");
    assert LiteralValue(lu) == LiteralValue(lj) by {
      DropUnderscoresConcat(x, "_" + y);
      assert ("_" + y)[1..] == y;
      assert u == x + ("_" + y);
      DropUnderscoresConcat(x, y);
    }
    SameValue(lu, u, lj, j);
  }

  /** Two well-formed literals with the same value parse alike. */
  lemma SameValue(l1: Literal, s1: string, l2: Literal, s2: string)
    requires ValidLiteral(l1) && ValidLiteral(l2) && LiteralValue(l1) == LiteralValue(l2)
    requires l1.lead == l1.trail == l2.lead == l2.trail == "" && l1.sign == l2.sign == NoSign
    requires s1 == l1.digits && s2 == l2.digits
    ensures ParseInt(s1) == ParseInt(s2)
  {
    assert Render(l1) == s1 && Render(l2) == s2;
    ParseIntComplete(l1);
    ParseIntComplete(l2);
  }

  /** Two digit groups joined directly or by one underscore are digit groups. */
  lemma GroupedJoin(x: string, y: string)
    requires IsDigitGroups(x) && IsDigitGroups(y)
    ensures IsDigitGroups(x + "_" + y) && IsDigitGroups(x + y)
  {
    var u, j := x + "_" + y, x + y;
    forall i | 0 <= i < |u|
      ensures IsDigit(u[i]) || (u[i] == '_' && i + 1 < |u| && IsDigit(u[i + 1]))
    {
      if i < |x| {
        assert u[i] == x[i];
        if i + 1 < |x| { assert u[i + 1] == x[i + 1]; }
      } else if i > |x| {
        assert u[i] == y[i - |x| - 1];
        if i + 1 < |u| { assert u[i + 1] == y[i - |x|]; }
      } else {
        assert u[i + 1] == y[0];
      }
    }
    forall i | 0 <= i < |j|
      ensures IsDigit(j[i]) || (j[i] == '_' && i + 1 < |j| && IsDigit(j[i + 1]))
    {
      if i < |x| {
        assert j[i] == x[i];
        if i + 1 < |x| { assert j[i + 1] == x[i + 1]; } else { assert j[i + 1] == y[0]; }
      } else {
        assert j[i] == y[i - |x|];
        if i + 1 < |j| { assert j[i + 1] == y[i - |x| + 1]; }
      }
    }
  }

  lemma {:induction false} DropUnderscoresConcat(a: string, b: string)
    ensures DropUnderscores(a + b) == DropUnderscores(a) + DropUnderscores(b)
    decreases |a|
  {
    if |a| == 0 {
      assert a + b == b;
    } else {
      assert (a + b)[0] == a[0] && (a + b)[1..] == a[1..] + b;
      DropUnderscoresConcat(a[1..], b);
    }
  }
}
