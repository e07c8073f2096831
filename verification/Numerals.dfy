// Strict decimal parsing (kernel/core/numparse.c) and printing (user/nyxrt.c).
module Numerals {
  import opened Words
  import ModArith

  // ---- What a numeral denotes ----

  predicate IsBlank(c: char) {
    c == ' ' || c == '\t'
  }

  predicate IsDigit(c: char) {
    '0' <= c <= '9'
  }

  predicate Blanks(t: string) {
    forall i :: 0 <= i < |t| ==> IsBlank(t[i])
  }

  predicate Digits(t: string) {
    forall i :: 0 <= i < |t| ==> IsDigit(t[i])
  }

  function DigitValue(c: char): nat
    requires IsDigit(c)
  {
    c as int - '0' as int
  }

  function Value(t: string): nat
    requires Digits(t)
  {
    if t == "" then 0 else Value(t[..|t| - 1]) * 10 + DigitValue(t[|t| - 1])
  }

  // The digits are those of the value in base ten, the first one highest.
  lemma {:induction false} ValueAt(t: string, i: nat)
    requires Digits(t) && i < |t|
    ensures ModArith.Pow(10, |t| - 1 - i) > 0
    ensures Value(t) / ModArith.Pow(10, |t| - 1 - i) % 10 == t[i] as int - '0' as int
    ensures Value(t) < ModArith.Pow(10, |t|)
  {
    ModArith.PowPos(10, |t| - 1 - i);
    var front, d := t[..|t| - 1], DigitValue(t[|t| - 1]);
    var n := Value(front);
    hide Value;
    if front == "" {
      ValueOfNone();
    } else {
      ValueAt(front, if i < |front| then i else 0);
    }
    ValueEnd(t);
    if i == |t| - 1 {
      ModArith.DivModUnique(Value(t), Value(t), 0, 1);
    } else {
      ModArith.PowPos(10, |t| - 2 - i);
      ModArith.DivDiv(Value(t), 10, ModArith.Pow(10, |t| - 2 - i));
      assert Value(t) / 10 == n;
    }
  }

  lemma ValueOfNone()
    ensures Value("") == 0
  {}

  lemma ValueEnd(t: string)
    requires Digits(t) && t != ""
    ensures Value(t) == Value(t[..|t| - 1]) * 10 + DigitValue(t[|t| - 1])
  {}

  // s is blanks, an optional sign, digits, blanks, and denotes v.
  ghost predicate Splits(s: string, lead: string, sign: string, digits: string, trail: string, v: int) {
    && s == lead + sign + digits + trail
    && Blanks(lead) && Blanks(trail) && Digits(digits) && digits != ""
    && (sign == "" || sign == "+" || sign == "-")
    && v == if sign == "-" then -(Value(digits) as int) else Value(digits)
  }

  ghost predicate Numeral(s: string, v: int) {
    exists lead, sign, digits, trail :: Splits(s, lead, sign, digits, trail, v)
  }

  // ---- Scanning ----

  function SkipBlanks(s: string, i: nat): (j: nat)
    requires i <= |s|
    ensures i <= j <= |s| && Blanks(s[i..j]) && (j < |s| ==> !IsBlank(s[j]))
    decreases |s| - i
  {
    if i < |s| && IsBlank(s[i]) then
      var j := SkipBlanks(s, i + 1);
      assert s[i..j] == [s[i]] + s[i + 1..j];
      j
    else i
  }

  function SkipDigits(s: string, i: nat): (j: nat)
    requires i <= |s|
    ensures i <= j <= |s| && Digits(s[i..j]) && (j < |s| ==> !IsDigit(s[j]))
    decreases |s| - i
  {
    if i < |s| && IsDigit(s[i]) then
      var j := SkipDigits(s, i + 1);
      assert s[i..j] == [s[i]] + s[i + 1..j];
      j
    else i
  }

  lemma {:induction false} SkipBlanksIs(s: string, i: nat, j: nat)
    requires i <= j <= |s| && Blanks(s[i..j]) && (j < |s| ==> !IsBlank(s[j]))
    ensures SkipBlanks(s, i) == j
    decreases j - i
  {
    if i < j {
      assert s[i..j][0] == s[i] && s[i..j][1..] == s[i + 1..j];
      SkipBlanksIs(s, i + 1, j);
    }
  }

  lemma {:induction false} SkipDigitsIs(s: string, i: nat, j: nat)
    requires i <= j <= |s| && Digits(s[i..j]) && (j < |s| ==> !IsDigit(s[j]))
    ensures SkipDigits(s, i) == j
    decreases j - i
  {
    if i < j {
      assert s[i..j][0] == s[i] && s[i..j][1..] == s[i + 1..j];
      SkipDigitsIs(s, i + 1, j);
    }
  }

  // The four places where a numeral changes: after the leading blanks, the
  // sign, the digits and the trailing blanks.
  function AfterSign(s: string): nat {
    var i := SkipBlanks(s, 0);
    if i < |s| && (s[i] == '+' || s[i] == '-') then i + 1 else i
  }

  function Negative(s: string): bool {
    var i := SkipBlanks(s, 0);
    i < |s| && s[i] == '-'
  }

  function Meaning(s: string): int
  {
    var a := AfterSign(s);
    var b := SkipDigits(s, a);
    if Negative(s) then -(Value(s[a..b]) as int) else Value(s[a..b])
  }

  predicate WellFormed(s: string) {
    var a := AfterSign(s);
    var b := SkipDigits(s, a);
    a < b && SkipBlanks(s, b) == |s|
  }

  // Scanning finds the only way to read a numeral.
  lemma SplitsUnique(s: string, lead: string, sign: string, digits: string, trail: string, v: int)
    requires Splits(s, lead, sign, digits, trail, v)
    ensures WellFormed(s) && Meaning(s) == v
  {
    hide Value;
    var i, a := |lead|, |lead| + |sign|;
    var b := a + |digits|;
    assert s[0..i] == lead && s[i..a] == sign && s[a..b] == digits && s[b..] == trail;
    assert s[a] == digits[0] && (sign != "" ==> s[i] == sign[0]);
    SkipBlanksIs(s, 0, i);
    assert b < |s| ==> s[b] == trail[0];
    SkipDigitsIs(s, a, b);
    assert s[b..|s|] == trail;
    SkipBlanksIs(s, b, |s|);
  }

  lemma NumeralExactly(s: string, v: int)
    ensures Numeral(s, v) <==> WellFormed(s) && Meaning(s) == v
  {
    if Numeral(s, v) {
      hide Splits, WellFormed, Meaning;
      var lead, sign, digits, trail :| Splits(s, lead, sign, digits, trail, v);
      SplitsUnique(s, lead, sign, digits, trail, v);
    }
    if WellFormed(s) && Meaning(s) == v {
      SplitsByScan(s, v);
    }
  }

  lemma SplitsByScan(s: string, v: int)
    requires WellFormed(s) && Meaning(s) == v
    ensures Numeral(s, v)
  {
    hide Value, SkipBlanks, SkipDigits;
    var i, a := SkipBlanks(s, 0), AfterSign(s);
    var b := SkipDigits(s, a);
    assert s == s[0..i] + s[i..a] + s[a..b] + s[b..|s|];
    assert Splits(s, s[0..i], s[i..a], s[a..b], s[b..|s|], v);
  }

  lemma TwoCharacters(c: char, d: char, lead: string, sign: string, digits: string, trail: string, v: int)
    requires Splits([c, d], lead, sign, digits, trail, v)
    ensures IsDigit(d) ==> IsBlank(c) || c == '+' || c == '-' || IsDigit(c)
    ensures IsDigit(c) ==> IsBlank(d) || IsDigit(d)
  {
    var s := [c, d];
    assert s[1] == if trail != "" then trail[|trail| - 1] else digits[|digits| - 1];
    assert s[0] == if lead != "" then lead[0] else if sign != "" then sign[0] else digits[0];
  }

  lemma OneDigit(d: char)
    requires IsDigit(d)
    ensures Digits([d]) && Value([d]) == DigitValue(d)
  {
    assert [d][..0] == "";
  }

  // What may stand before and after a digit, and what the sign means.
  lemma AroundDigit(c: char, d: char)
    requires '0' <= d <= '9'
    ensures (exists v :: Numeral([c, d], v)) <==> c == ' ' || c == '\t' || c == '+' || c == '-' || '0' <= c <= '9'
    ensures (exists v :: Numeral([d, c], v)) <==> c == ' ' || c == '\t' || '0' <= c <= '9'
    ensures Numeral(['+', d], d as int - '0' as int) && Numeral(['-', d], '0' as int - d as int)
  {
    hide Value, Splits;
    if v :| Numeral([c, d], v) {
      var lead, sign, digits, trail :| Splits([c, d], lead, sign, digits, trail, v);
      TwoCharacters(c, d, lead, sign, digits, trail, v);
    }
    if v :| Numeral([d, c], v) {
      var lead, sign, digits, trail :| Splits([d, c], lead, sign, digits, trail, v);
      TwoCharacters(d, c, lead, sign, digits, trail, v);
    }
    SomeNumeral(c, d);
    SomeNumeral('+', d);
    SomeNumeral('-', d);
  }

  lemma SomeNumeral(c: char, d: char)
    requires IsDigit(d)
    ensures IsBlank(c) || c == '+' ==> Numeral([c, d], DigitValue(d))
    ensures c == '-' ==> Numeral([c, d], -(DigitValue(d) as int))
    ensures IsBlank(c) ==> Numeral([d, c], DigitValue(d))
    ensures IsDigit(c) ==> Digits([c, d]) && Numeral([c, d], Value([c, d])) && Digits([d, c]) && Numeral([d, c], Value([d, c]))
  {
    hide Value;
    OneDigit(d);
    var v: int := DigitValue(d);
    if IsBlank(c) {
      assert Splits([c, d], [c], "", [d], "", v);
      assert Splits([d, c], "", "", [d], [c], v);
    } else if c == '+' {
      assert Splits([c, d], "", [c], [d], "", v);
    } else if c == '-' {
      assert Splits([c, d], "", [c], [d], "", -v);
    } else if IsDigit(c) {
      assert Splits([c, d], "", "", [c, d], "", Value([c, d]));
      assert Splits([d, c], "", "", [d, c], "", Value([d, c]));
    }
  }

  // ---- The parsers ----

  // The character at i; a C string ends with a NUL.
  function At(s: string, i: nat): char
    requires i <= |s|
  {
    if i < |s| then s[i] else '\0'
  }

  method ScanBlanks(s: string, i: nat) returns (j: nat)
    requires i <= |s| && '\0' !in s
    ensures j == SkipBlanks(s, i)
  {
    j := i;
    while IsBlank(At(s, j))
      invariant i <= j <= |s| && SkipBlanks(s, j) == SkipBlanks(s, i)
      decreases |s| - j
    {
      j := j + 1;
    }
  }

  lemma {:induction false} ValueGrows(s: string, i: nat, j: nat, k: nat)
    requires i <= j <= k <= |s| && Digits(s[i..k])
    ensures Digits(s[i..j]) && Value(s[i..j]) <= Value(s[i..k])
    decreases k
  {
    if j < k {
      assert s[i..k][..k - i - 1] == s[i..k - 1];
      ValueGrows(s, i, j, k - 1);
    } else {
      assert s[i..j] == s[i..k];
    }
  }

  lemma ValueNext(s: string, i: nat, j: nat)
    requires i <= j < |s| && Digits(s[i..j]) && IsDigit(s[j])
    ensures Digits(s[i..j + 1]) && Value(s[i..j + 1]) == Value(s[i..j]) * 10 + DigitValue(s[j])
  {
    assert s[i..j + 1][..j - i] == s[i..j];
    assert s[i..j + 1] == s[i..j] + [s[j]];
  }

  // The overflow test fires exactly when the true value exceeds the limit.
  method NpMag(s: string, i: nat, limit: uint64) returns (r: int, j: nat, out: uint64)
    requires i <= |s| && '\0' !in s && limit >= 9
    ensures r == 0 || r == -1
    ensures r == 0 <==> i < SkipDigits(s, i) && Value(s[i..SkipDigits(s, i)]) <= limit as int
    ensures r == 0 ==> j == SkipDigits(s, i) && out as int == Value(s[i..j])
  {
    hide Value;
    j, out := i, 0;
    if At(s, j) < '0' || At(s, j) > '9' { return -1, i, 0; }
    var acc: uint64 := 0;
    NoDigits(s, i);
    while '0' <= At(s, j) <= '9'
      invariant i <= j <= |s| && SkipDigits(s, j) == SkipDigits(s, i) && Digits(s[i..j])
      invariant acc as int == Value(s[i..j]) && acc <= limit
      decreases |s| - j
    {
      var d := (s[j] as int - '0' as int) as uint64;
      ValueNext(s, i, j);
      OverflowTest(acc as int, limit as int, d as int);
      if acc > (limit - d) / 10 {
        ValueGrows(s, i, j + 1, SkipDigits(s, i));
        return -1, i, 0;
      }
      acc := acc * 10 + d;
      j := j + 1;
    }
    return 0, j, acc;
  }

  lemma NoDigits(s: string, i: nat)
    requires i <= |s|
    ensures s[i..i] == "" && Value("") == 0
  {}

  lemma OverflowTest(acc: nat, limit: nat, d: nat)
    requires d <= 9 <= limit
    ensures acc > (limit - d) / 10 <==> acc * 10 + d > limit
  {}

  // s may be any C string, so without a NUL inside.
  method ParseI64(s: string, out0: int64) returns (r: int, out: int64)
    requires '\0' !in s
    ensures r == 0 || r == -1
    ensures r == 0 ==> Numeral(s, out as int)
    ensures r == -1 ==> out == out0 && forall v :: Numeral(s, v) ==> !(-0x8000_0000_0000_0000 <= v < 0x8000_0000_0000_0000)
  {
    hide Value, SkipBlanks, SkipDigits, Numeral;
    ParsesTo(s);
    out := out0;
    var i := ScanBlanks(s, 0);
    var neg := false;
    if At(s, i) == '+' {
      i := i + 1;
    } else if At(s, i) == '-' {
      neg := true;
      i := i + 1;
    }
    assert i == AfterSign(s) && neg == Negative(s);
    var limit: uint64 := if neg then 0x8000_0000_0000_0000 else 0x7fff_ffff_ffff_ffff;
    var ok, j, v := NpMag(s, i, limit);
    if ok != 0 { return -1, out0; }
    j := ScanBlanks(s, j);
    if At(s, j) != '\0' { return -1, out0; }
    out := if neg then (-(v as int)) as int64 else v as int64;
    return 0, out;
  }

  lemma ParsesTo(s: string)
    ensures forall v :: Numeral(s, v) <==> WellFormed(s) && Meaning(s) == v
  {
    hide WellFormed, Meaning, Numeral;
    forall v ensures Numeral(s, v) <==> WellFormed(s) && Meaning(s) == v {
      NumeralExactly(s, v);
    }
  }

  // An unsigned numeral has no minus sign.
  ghost predicate UnsignedNumeral(s: string, v: int) {
    Numeral(s, v) && !Negative(s)
  }

  lemma SignIs(s: string, lead: string, sign: string, digits: string, trail: string, v: int)
    requires Splits(s, lead, sign, digits, trail, v)
    ensures Negative(s) <==> '-' in s
  {
    hide Value;
    var i, a := |lead|, |lead| + |sign|;
    assert s[0..i] == lead;
    assert s[a] == digits[0] && (sign != "" ==> s[i] == sign[0]);
    SkipBlanksIs(s, 0, i);
    assert sign == "-" ==> s[i] == '-';
    assert '-' !in lead && '-' !in digits && '-' !in trail;
  }

  lemma UnsignedExactly(s: string, v: int)
    ensures UnsignedNumeral(s, v) <==> Numeral(s, v) && '-' !in s
  {
    hide Splits, Negative;
    if Numeral(s, v) {
      var lead, sign, digits, trail :| Splits(s, lead, sign, digits, trail, v);
      SignIs(s, lead, sign, digits, trail, v);
    }
  }

  method ParseU64(s: string, out0: uint64) returns (r: int, out: uint64)
    requires '\0' !in s
    ensures r == 0 || r == -1
    ensures r == 0 ==> UnsignedNumeral(s, out as int)
    ensures r == -1 ==> out == out0 && forall v :: UnsignedNumeral(s, v) ==> v >= 0x1_0000_0000_0000_0000
  {
    hide Value, SkipBlanks, SkipDigits, Numeral;
    ParsesTo(s);
    out := out0;
    var i := ScanBlanks(s, 0);
    ghost var start := i;
    if At(s, i) == '+' { i := i + 1; }
    if At(s, i) == '-' && i == start { MinusIsNoDigit(s, i); }
    var ok, j, v := NpMag(s, i, 0xffff_ffff_ffff_ffff);
    if ok != 0 { return -1, out0; }
    j := ScanBlanks(s, j);
    if At(s, j) != '\0' { return -1, out0; }
    return 0, v;
  }

  lemma MinusIsNoDigit(s: string, i: nat)
    requires i < |s| && s[i] == '-'
    ensures SkipDigits(s, i) == i
  {}

  method ParseU32Max(s: string, max: uint32, out0: uint32) returns (r: int, out: uint32)
    requires '\0' !in s
    ensures r == 0 || r == -1
    ensures r == 0 ==> UnsignedNumeral(s, out as int) && out <= max
    ensures r == -1 ==> out == out0 && forall v :: UnsignedNumeral(s, v) ==> v > max as int
  {
    hide Numeral, Negative;
    var ok, v := ParseU64(s, 0);
    OneMeaning(s);
    if ok != 0 { return -1, out0; }
    if v > max as uint64 { return -1, out0; }
    return 0, v as uint32;
  }

  lemma OneMeaning(s: string)
    ensures forall v, w :: Numeral(s, v) && Numeral(s, w) ==> v == w
  {
    hide Numeral, WellFormed, Meaning;
    ParsesTo(s);
  }

  // ---- The printer ----

  function Decimal(n: nat): (t: string)
    ensures Digits(t)
  {
    if n < 10 then [('0' as int + n) as char] else Decimal(n / 10) + [('0' as int + n % 10) as char]
  }

  lemma {:induction false} DecimalValue(n: nat)
    ensures Value(Decimal(n)) == n && Decimal(n) != ""
  {
    var t := Decimal(n);
    if n < 10 {
      assert t[..0] == "";
    } else {
      DecimalValue(n / 10);
      assert t[..|t| - 1] == Decimal(n / 10);
    }
  }

  // The text of a signed number.
  function Signed(v: int): string {
    if v < 0 then "-" + Decimal(-v) else Decimal(v)
  }

  // A minus sign just for negative numbers, and no leading zero but in "0".
  lemma SignedMeans(v: int)
    ensures var t := Signed(v);
            var digits := if v < 0 then t[1..] else t;
            && (v < 0 ==> t[0] == '-')
            && Digits(digits) && digits != "" && Value(digits) == (if v < 0 then -v else v)
            && (digits[0] == '0' ==> digits == "0")
  {
    hide Value, Decimal;
    var n: nat := if v < 0 then -v else v;
    DecimalValue(n);
    LeadingDigit(n);
    assert v < 0 ==> Signed(v)[1..] == Decimal(n);
  }

  lemma {:induction false} LeadingDigit(n: nat)
    ensures Decimal(n) != "" && (Decimal(n)[0] == '0' ==> Decimal(n) == "0")
    ensures Decimal(n) == "0" <==> n == 0
  {
    if n >= 10 { LeadingDigit(n / 10); }
  }

  lemma SignedNumeral(v: int)
    ensures Numeral(Signed(v), v) && '\0' !in Signed(v)
  {
    hide Value, Decimal;
    var n := if v < 0 then -v else v;
    DecimalValue(n);
    assert Signed(v) == "" + (if v < 0 then "-" else "") + Decimal(n) + "";
    assert Splits(Signed(v), "", if v < 0 then "-" else "", Decimal(n), "", v);
  }

  // A destination buffer of fixed capacity and the text in it.
  class NyxStr {
    const buf: array<char>
    var len: nat

    ghost predicate Valid()
      reads this, buf
    {
      if buf.Length == 0 then len == 0 else len < buf.Length && buf[len] == '\0'
    }

    ghost function Text(): string
      requires Valid()
      reads this, buf
    {
      buf[..len]
    }

    // Room left, counting the terminating NUL.
    ghost function Room(): nat
      requires Valid()
      reads this, buf
    {
      if buf.Length == 0 then 0 else buf.Length - 1 - len
    }

    constructor FmtBegin(cap: nat)
      ensures Valid() && fresh(buf) && buf.Length == cap && Text() == ""
    {
      buf := new char[cap];
      len := 0;
      new;
      if cap > 0 { buf[0] := '\0'; }
    }

    // Append what fits, and terminate.
    method Append(s: string)
      requires Valid()
      modifies this, buf
      ensures Valid()
      ensures Text() == old(Text()) + if |s| <= old(Room()) then s else s[..old(Room())]
    {
      ghost var before, room := Text(), Room();
      var i := 0;
      while i < |s| && len + 1 < buf.Length
        invariant i <= |s| && i <= room && len <= buf.Length && len == |before| + i
        invariant buf[..len] == before + s[..i]
        invariant buf.Length > 0 ==> len < buf.Length
      {
        buf[len] := s[i];
        len := len + 1;
        assert buf[..len] == before + s[..i] + [s[i]];
        assert s[..i + 1] == s[..i] + [s[i]];
        i := i + 1;
      }
      assert |s| <= room ==> s[..i] == s;
      if buf.Length > 0 { buf[len] := '\0'; }
      assert buf[..len] == before + s[..i];
    }

    method FmtI64(v: int64)
      requires Valid()
      modifies this, buf
      ensures Valid()
      ensures var t := Signed(v as int);
              Text() == old(Text()) + if |t| <= old(Room()) then t else t[..old(Room())]
    {
      hide Decimal;
      var tmp := new char[24];
      var neg := v < 0;
      var uv: uint64 := if neg then (-(v + 1)) as uint64 + 1 else v as uint64;
      var ti := LowDigits(tmp, uv);
      ghost var digits := tmp[..ti];
      if neg {
        tmp[ti] := '-';
        ti := ti + 1;
        ReverseNext(digits, '-');
        assert tmp[..ti] == digits + ['-'];
      }
      var text := Backwards(tmp, ti);
      assert text == Signed(v as int);
      Append(text);
    }
  }

  // The digits of uv, lowest first.
  method LowDigits(tmp: array<char>, uv: uint64) returns (ti: nat)
    requires tmp.Length == 24
    modifies tmp
    ensures 1 <= ti <= 20 && Reverse(tmp[..ti]) == Decimal(uv as nat)
  {
    hide ModArith.Pow, Decimal, Reverse;
    var u := uv;
    ti := 0;
    DecimalZero();
    assert tmp[..0] == "";
    ReverseNone();
    if u == 0 {
      tmp[0] := '0';
      ti := 1;
      ReverseOne('0');
      assert tmp[..1] == "0";
      return;
    }
    TwentyDigits();
    while u > 0
      invariant ti <= 20 && u as int < ModArith.Pow(10, 20 - ti)
      invariant (ti > 0 || u == uv) && (u > 0 || ti > 0)
      invariant (if u > 0 then Decimal(u as nat) else "") + Reverse(tmp[..ti]) == Decimal(uv as nat)
      decreases u
    {
      FewerDigits(u as nat, ti);
      ghost var before := tmp[..ti];
      DecimalStep(u as nat);
      tmp[ti] := ('0' as int + (u % 10) as int) as char;
      ReverseNext(before, tmp[ti]);
      assert tmp[..ti + 1] == before + [tmp[ti]];
      ti := ti + 1;
      u := u / 10;
    }
  }

  lemma DecimalZero()
    ensures Decimal(0) == "0"
  {}

  lemma DecimalStep(n: nat)
    requires n > 0
    ensures Decimal(n) == (if n / 10 > 0 then Decimal(n / 10) else "") + [('0' as int + n % 10) as char]
  {}

  lemma TwentyDigits()
    ensures ModArith.Pow(10, 20) > 0x1_0000_0000_0000_0000
  {
    assert ModArith.Pow(10, 5) == 100000 by {
      assert ModArith.Pow(10, 2) == 100;
      assert ModArith.Pow(10, 4) == 10000;
    }
    ModArith.PowAdd(10, 5, 5);
    ModArith.PowAdd(10, 10, 10);
  }

  lemma FewerDigits(u: nat, ti: nat)
    requires 0 < u < ModArith.Pow(10, if ti <= 20 then 20 - ti else 0) && ti <= 20
    ensures ti < 20 && u / 10 < ModArith.Pow(10, 19 - ti)
  {}

  function Reverse(t: string): string {
    if t == "" then "" else [t[|t| - 1]] + Reverse(t[..|t| - 1])
  }

  lemma ReverseNone()
    ensures Reverse("") == ""
  {}

  lemma ReverseOne(c: char)
    ensures Reverse([c]) == [c]
  {
    assert [c][..0] == "";
  }

  lemma ReverseNext(t: string, c: char)
    ensures Reverse(t + [c]) == [c] + Reverse(t)
  {
    assert (t + [c])[..|t|] == t;
  }

  method Backwards(tmp: array<char>, n: nat) returns (out: string)
    requires n <= tmp.Length
    ensures out == Reverse(tmp[..n])
  {
    hide Reverse;
    out := "";
    var ti := n;
    ghost var all := tmp[..n];
    while ti > 0
      invariant 0 <= ti <= n && out + Reverse(tmp[..ti]) == Reverse(tmp[..n])
    {
      assert tmp[..ti] == tmp[..ti - 1] + [tmp[ti - 1]];
      ReverseNext(tmp[..ti - 1], tmp[ti - 1]);
      ti := ti - 1;
      out := out + [tmp[ti]];
    }
    ReverseNone();
    assert tmp[..0] == "" && out + "" == out;
  }

  // Printing any 64-bit number into a large enough buffer and parsing the text
  // gives the number back, the least one included.
  method PrintThenParse(v: int64, cap: nat) returns (r: int, w: int64)
    requires cap > |Signed(v as int)|
    ensures r == 0 && w == v
  {
    hide Decimal, Numeral;
    var d := new NyxStr.FmtBegin(cap);
    d.FmtI64(v);
    SignedNumeral(v as int);
    var text := d.buf[..d.len];
    assert text == "" + Signed(v as int) == Signed(v as int);
    r, w := ParseI64(text, 0);
    OneMeaning(text);
    assert Numeral(text, v as int);
  }
}
