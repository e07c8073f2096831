// Base64 in the kernel (kernel/crypto/base64.c:18-78) and in userland
// (user/base64.c:54-125), against the encoding defined by section 4 of
// RFC 4648.
module Base64 {
  import opened Words
  import opened ModArith
  import opened Radix
  import opened RadixStream
  import opened Wrapping

  function Upper(): string {
    "ABCDEFGHIJKLMNOPQRSTUVWXYZ"
  }

  function Lower(): string {
    "abcdefghijklmnopqrstuvwxyz"
  }

  function Numerals(): string {
    "0123456789"
  }

  function B64(): string {
    Upper() + Lower() + Numerals() + "+/"
  }

  function Format(): Codec {
    Codec(64, 3, 4, [0, 2, 3, 4], [0, 16, 4, 1], B64())
  }

  // The value of a symbol, or -1.
  function B64Val(c: char): int {
    if 'A' <= c <= 'Z' then c as int - 'A' as int
    else if 'a' <= c <= 'z' then c as int - 'a' as int + 26
    else if '0' <= c <= '9' then c as int - '0' as int + 52
    else if c == '+' then 62
    else if c == '/' then 63
    else -1
  }

  lemma UpperAt(i: nat)
    requires i < 26
    ensures |Upper()| == 26 && Upper()[i] as int == 65 + i
  {}

  lemma LowerAt(i: nat)
    requires i < 26
    ensures |Lower()| == 26 && Lower()[i] as int == 97 + i
  {}

  lemma DigitAt(i: nat)
    requires i < 10
    ensures |Numerals()| == 10 && Numerals()[i] as int == 48 + i
  {}

  lemma JoinedAt(a: string, b: string, c: string, d: string, i: nat)
    requires |a| == 26 && |b| == 26 && |c| == 10 && |d| == 2 && i < 64
    ensures var s := a + b + c + d;
            |s| == 64 && s[i] == if i < 26 then a[i] else if i < 52 then b[i - 26] else if i < 62 then c[i - 52] else d[i - 62]
  {}

  // The alphabet, by the codes of its characters.
  lemma AlphabetCodes(i: nat)
    requires i < 64
    ensures |B64()| == 64
    ensures B64()[i] as int ==
            if i < 26 then 65 + i else if i < 52 then 97 + i - 26 else if i < 62 then 48 + i - 52 else if i == 62 then 43 else 47
  {
    hide Upper, Lower, Numerals;
    UpperAt(i % 26);
    LowerAt(i % 26);
    DigitAt(i % 10);
    JoinedAt(Upper(), Lower(), Numerals(), "+/", i);
    if i < 26 {
      UpperAt(i);
    } else if i < 52 {
      LowerAt(i - 26);
    } else if i < 62 {
      DigitAt(i - 52);
    }
  }

  lemma AlphabetAt(i: nat)
    requires i < 64
    ensures |B64()| == 64 && B64Val(B64()[i]) == i && B64()[i] != '=' && !IsSpace(B64()[i])
  {
    hide B64;
    AlphabetCodes(i);
  }

  // A character with a value is the symbol of that value.
  lemma ValueIs(c: char)
    ensures -1 <= B64Val(c) < 64 && |B64()| == 64
    ensures B64Val(c) >= 0 ==> B64()[B64Val(c)] == c
    ensures B64Val(c) < 0 ==> c !in B64()
  {
    var v := B64Val(c);
    if v >= 0 {
      AlphabetAt(v);
      if v < 62 { SameValue(c, B64()[v]); }
    } else {
      forall i: nat | i < 64 ensures B64()[i] != c {
        AlphabetAt(i);
      }
    }
  }

  lemma SameValue(c: char, d: char)
    requires B64Val(c) == B64Val(d) >= 0
    ensures c == d
  {}

  lemma CodecSound()
    ensures Sound(Format())
  {
    forall i: nat, j: nat | i < j < 64 ensures B64()[i] != B64()[j] {
      AlphabetAt(i);
      AlphabetAt(j);
    }
    forall i: nat | i < 64 ensures B64()[i] != '=' {
      AlphabetAt(i);
    }
    Powers();
    hide Pow;
    assert SoundAt(Format(), 1) && SoundAt(Format(), 2) && SoundAt(Format(), 3);
  }

  lemma Powers()
    ensures Pow(64, 0) == 1 && Pow(64, 1) == 64 && Pow(64, 2) == 4096 && Pow(64, 3) == 0x4_0000 && Pow(64, 4) == 0x100_0000
    ensures Pow(256, 0) == 1 && Pow(256, 1) == 256 && Pow(256, 2) == 0x1_0000 && Pow(256, 3) == 0x100_0000
  {
    assert Pow(64, 2) == 64 * Pow(64, 1);
    assert Pow(64, 3) == 64 * Pow(64, 2);
    assert Pow(256, 2) == 256 * Pow(256, 1);
  }

  lemma Fields()
    ensures Sound(Format()) && |B64()| == 64
    ensures Format().base == 64 && Format().bytes == 3 && Format().symbols == 4
    ensures Format().need == [0, 2, 3, 4] && Format().alphabet == B64()
  {
    CodecSound();
    AlphabetAt(0);
  }

  // ---- One group ----

  lemma From3(x: nat, y: nat, z: nat)
    ensures FromDigits([x, y, z], 256) == x * 0x1_0000 + y * 0x100 + z
  {
    assert [x, y, z][..2] == [x, y] && [x, y][..1] == [x] && [x][..0] == [];
    assert FromDigits([x], 256) == x;
  }

  lemma ToDigitsStep(v: nat, n: nat)
    ensures ToDigits(v, 64, n + 1) == ToDigits(v / 64, 64, n) + [v % 64]
  {}

  lemma To4(v: nat)
    ensures ToDigits(v, 64, 4) == [v / 0x4_0000 % 64, v / 0x1000 % 64, v / 0x40 % 64, v % 64]
  {
    hide ToDigits;
    ToDigitsStep(v, 3);
    ToDigitsStep(v / 64, 2);
    ToDigitsStep(v / 64 / 64, 1);
    ToDigitsStep(v / 64 / 64 / 64, 0);
    assert ToDigits(v / 64 / 64 / 64 / 64, 64, 0) == [];
    Shifts(v);
  }

  lemma Shifts(v: nat)
    ensures v / 64 / 64 == v / 0x1000 && v / 64 / 64 / 64 == v / 0x4_0000
  {}

  // The four characters of a group from its 24-bit number, n of them symbols.
  function Quad(v: nat, n: nat): (q: string)
    requires 2 <= n <= 4
    ensures |q| == 4
  {
    Fields();
    if n == 4 then [B64()[v / 0x4_0000 % 64], B64()[v / 0x1000 % 64], B64()[v / 0x40 % 64], B64()[v % 64]]
    else if n == 3 then [B64()[v / 0x4_0000 % 64], B64()[v / 0x1000 % 64], B64()[v / 0x40 % 64], '=']
    else [B64()[v / 0x4_0000 % 64], B64()[v / 0x1000 % 64], '=', '=']
  }

  // The 24-bit number of up to three bytes.
  function Number(s: seq<byte>): nat
    requires 1 <= |s| <= 3
  {
    s[0] as nat * 0x1_0000 + (if |s| > 1 then s[1] as nat * 0x100 else 0) + if |s| > 2 then s[2] as nat else 0
  }

  lemma GroupNumber(s: seq<byte>)
    requires 1 <= |s| <= 3
    ensures FromDigits(AsNats(s) + Zeros(3 - |s|), 256) == Number(s)
  {
    var y := if |s| > 1 then s[1] as nat else 0;
    var z := if |s| > 2 then s[2] as nat else 0;
    assert AsNats(s) + Zeros(3 - |s|) == [s[0] as nat, y, z];
    From3(s[0] as nat, y, z);
  }

  lemma GroupIs(s: seq<byte>)
    requires 1 <= |s| <= 3
    ensures Sound(Format()) && GroupText(Format(), s) == Quad(Number(s), |s| + 1)
  {
    hide FromDigits, ToDigits, B64, Sound, Format, Number;
    Fields();
    GroupNumber(s);
    To4(Number(s));
    var t, q := GroupText(Format(), s), Quad(Number(s), |s| + 1);
    var ds := GroupSymbols(Format(), s);
    assert t == Spell(Format(), ds) + Pads(4 - |ds|);
    forall k | 0 <= k < 4 ensures t[k] == q[k] {}
  }

  // ---- What the encoding is ----

  lemma Sixes(x: nat, y: nat, z: nat)
    requires x < 256 && y < 256 && z < 256
    ensures var v := x * 0x1_0000 + y * 0x100 + z;
            && v / 0x4_0000 % 64 == x / 4 && v / 0x1000 % 64 == x % 4 * 16 + y / 16
            && v / 0x40 % 64 == y % 16 * 4 + z / 64 && v % 64 == z % 64
  {
    var v := x * 0x1_0000 + y * 0x100 + z;
    Pieces(x / 4, x % 4, y / 16, y % 16, z / 64, z % 64);
    assert x == x / 4 * 4 + x % 4 && y == y / 16 * 16 + y % 16 && z == z / 64 * 64 + z % 64;
  }

  lemma Pieces(a: nat, b: nat, c: nat, d: nat, e: nat, f: nat)
    requires a < 64 && b < 4 && c < 16 && d < 16 && e < 4 && f < 64
    ensures var v := (a * 4 + b) * 0x1_0000 + (c * 16 + d) * 0x100 + e * 64 + f;
            && v / 0x4_0000 % 64 == a && v / 0x1000 % 64 == b * 16 + c && v / 0x40 % 64 == d * 4 + e && v % 64 == f
  {
    var v := (a * 4 + b) * 0x1_0000 + (c * 16 + d) * 0x100 + e * 64 + f;
    var w2 := a * 64 + b * 16 + c;
    var w3 := w2 * 64 + d * 4 + e;
    assert v == w3 * 64 + f;
    DivModUnique(v, w3, f, 64);
    DivModUnique(w3, w2, d * 4 + e, 64);
    DivModUnique(w2, a, b * 16 + c, 64);
    Shifts(v);
    assert a % 64 == a;
  }

  // The six-bit pieces of a group; a symbol is missing if its bits start past
  // the last byte.
  lemma QuadIs(s: seq<byte>)
    requires 1 <= |s| <= 3
    ensures |B64()| == 64
    ensures var x, y, z := s[0] as nat, if 1 < |s| then s[1] as nat else 0, if 2 < |s| then s[2] as nat else 0;
            Quad(Number(s), |s| + 1) ==
            [B64()[x / 4], B64()[x % 4 * 16 + y / 16],
             if 1 < |s| then B64()[y % 16 * 4 + z / 64] else '=', if 2 < |s| then B64()[z % 64] else '=']
  {
    hide B64, Sound, Format;
    Fields();
    Sixes(s[0] as nat, if 1 < |s| then s[1] as nat else 0, if 2 < |s| then s[2] as nat else 0);
  }

  lemma FirstGroupText(s: seq<byte>)
    requires s != []
    ensures Sound(Format())
    ensures var n := if |s| < 3 then |s| else 3;
            Encode(Format(), s) == Quad(Number(s[..n]), n + 1) + Encode(Format(), s[n..])
  {
    hide B64, Sound, Number, Quad, GroupText, Encode;
    Fields();
    EncodeStep(Format(), s);
    GroupIs(s[..if |s| < 3 then |s| else 3]);
  }

  function Least(n: nat, m: nat): nat {
    if n < m then n else m
  }

  lemma {:induction false} EncodeLength(s: seq<byte>)
    ensures Sound(Format()) && |Encode(Format(), s)| == (|s| + 2) / 3 * 4
    decreases |s|
  {
    hide B64, Sound, Number, Quad, GroupText, Encode, Format;
    Fields();
    EncodeNothing(Format());
    if s != [] {
      FirstGroupText(s);
      if |s| > 3 { EncodeLength(s[3..]); } else { assert s[|s|..] == []; }
    }
  }

  lemma GroupFits(g: nat, n: nat)
    requires 3 * g < n
    ensures 4 * g + 4 <= (n + 2) / 3 * 4
  {}

  lemma {:induction false} EncodeAt(s: seq<byte>, g: nat)
    requires 3 * g < |s|
    ensures Sound(Format()) && |Encode(Format(), s)| >= 4 * g + 4
    ensures var e := Least(|s|, 3 * g + 3);
            Encode(Format(), s)[4 * g..4 * g + 4] == Quad(Number(s[3 * g..e]), e - 3 * g + 1)
    decreases |s|
  {
    hide B64, Sound, Number, Quad, GroupText, Encode, Format;
    EncodeLength(s);
    GroupFits(g, |s|);
    FirstGroupText(s);
    if g == 0 {
      SliceOfFirst(Quad(Number(s[..Least(|s|, 3)]), Least(|s|, 3) + 1), Encode(Format(), s[Least(|s|, 3)..]));
      assert s[0..Least(|s|, 3)] == s[..Least(|s|, 3)];
    } else {
      var t, e := s[3..], Least(|s|, 3 * g + 3);
      EncodeAt(t, g - 1);
      SliceOfTail(s, 3, 3 * g, e);
      SliceOfSecond(Quad(Number(s[..3]), 4), Encode(Format(), t), 4 * g - 4, 4 * g);
    }
  }

  // Bytes 3g, 3g + 1 and 3g + 2 are symbols 4g to 4g + 3, six bits each.
  lemma EncodeMeans(s: seq<byte>, g: nat)
    requires 3 * g < |s|
    ensures Sound(Format()) && |Encode(Format(), s)| == (|s| + 2) / 3 * 4 && |B64()| == 64
    ensures var x := s[3 * g] as nat;
            var y := if 3 * g + 1 < |s| then s[3 * g + 1] as nat else 0;
            var z := if 3 * g + 2 < |s| then s[3 * g + 2] as nat else 0;
            Encode(Format(), s)[4 * g..4 * g + 4] ==
            [B64()[x / 4], B64()[x % 4 * 16 + y / 16],
             if 3 * g + 1 < |s| then B64()[y % 16 * 4 + z / 64] else '=', if 3 * g + 2 < |s| then B64()[z % 64] else '=']
  {
    hide B64, Sound, Number, Quad, GroupText, Encode, Format;
    EncodeAt(s, g);
    EncodeLength(s);
    GroupFits(g, |s|);
    QuadIs(s[3 * g..Least(|s|, 3 * g + 3)]);
  }

  // ---- Encoding ----

  lemma NextGroup(s: seq<byte>, i: nat, n: nat, text: string)
    requires Sound(Format()) && Encoded(Format(), s, i, text) && 1 <= n <= 3 && i + n <= |s| && (n == 3 || i + n == |s|)
    ensures Encoded(Format(), s, i + n, text + Quad(Number(s[i..i + n]), n + 1))
  {
    hide B64, Sound, Number, Quad, GroupText, Encoded;
    Fields();
    GroupIs(s[i..i + n]);
    EncodedNext(Format(), s, i, n, text, Quad(Number(s[i..i + n]), n + 1));
  }

  function EncodedLength(n: nat): nat {
    (n + 2) / 3 * 4
  }

  method Base64Encode(input: array<byte>, inLen: uint32, out: array<char>) returns (o: uint32)
    requires inLen as int <= input.Length
    requires EncodedLength(inLen as nat) < out.Length && EncodedLength(inLen as nat) < 0x1_0000_0000
    modifies out
    ensures Sound(Format()) && o as int < out.Length && out[..o] == Encode(Format(), input[..inLen])
    ensures o as int == EncodedLength(inLen as nat) && out[o] == '\0'
  {
    hide Encoded, Quad, Sound, Encode, B64, Format, EncodedLength;
    Fields();
    ghost var s := input[..inLen];
    var i: uint32 := 0;
    o := 0;
    EncodedStart(Format(), s);
    assert out[..0] == "";
    while i as int + 3 <= inLen as int
      invariant i <= inLen && i % 3 == 0 && o as int == i as int / 3 * 4 && o as int <= out.Length
      invariant Encoded(Format(), s, i as nat, out[..o])
      decreases inLen - i
    {
      var v := input[i] as nat * 0x1_0000 + input[i + 1] as nat * 0x100 + input[i + 2] as nat;
      NextGroup(s, i as nat, 3, out[..o]);
      assert v == Number(s[i..i as int + 3]);
      FitsGroup(i as nat, inLen as nat);
      Store(out, o as nat, Quad(v, 4));
      i := i + 3;
      o := o + 4;
    }
    var rem := inLen - i;
    if rem == 1 {
      var v := input[i] as nat * 0x1_0000;
      FitsLast(i as nat, inLen as nat);
      NextGroup(s, i as nat, 1, out[..o]);
      Store(out, o as nat, Quad(v, 2));
      o := o + 4;
    } else if rem == 2 {
      var v := input[i] as nat * 0x1_0000 + input[i + 1] as nat * 0x100;
      FitsLast(i as nat, inLen as nat);
      NextGroup(s, i as nat, 2, out[..o]);
      Store(out, o as nat, Quad(v, 3));
      o := o + 4;
    } else {
      FitsNone(i as nat, inLen as nat);
    }
    ghost var text := out[..o];
    EncodedAll(Format(), s, text);
    out[o] := '\0';
    assert out[..o] == text;
  }

  lemma FitsGroup(i: nat, n: nat)
    requires i + 3 <= n && i % 3 == 0
    ensures i / 3 * 4 + 4 <= EncodedLength(n) && (i + 3) / 3 * 4 == i / 3 * 4 + 4 && (i + 3) % 3 == 0
  {}

  lemma FitsLast(i: nat, n: nat)
    requires i < n < i + 3 && i % 3 == 0
    ensures i / 3 * 4 + 4 == EncodedLength(n)
  {}

  lemma FitsNone(i: nat, n: nat)
    requires i == n && i % 3 == 0
    ensures i / 3 * 4 == EncodedLength(n)
  {}

  // Userland: the same groups, wrapped.
  method EncodeWrapped(input: seq<byte>, wrap: nat, w: Writer<char>)
    requires w.Valid() && w.Contents() == ""
    modifies w, w.wbuf
    ensures w.Valid() && Sound(Format()) && w.out == w.Contents()
    ensures w.Contents() == Wrapped(Encode(Format(), input), wrap)
  {
    hide Encoded, Quad, Sound, Encode, B64, Format, Layout;
    Fields();
    var col: nat := 0;
    var i := 0;
    ghost var text := "";
    EncodedStart(Format(), input);
    LayoutStart(wrap);
    while i + 3 <= |input|
      invariant i <= |input| && Encoded(Format(), input, i, text)
      invariant w.Valid() && w.Contents() == Layout(text, wrap) && col == (if wrap > 0 then |text| % wrap else 0)
    {
      var v := input[i] as nat * 0x1_0000 + input[i + 1] as nat * 0x100 + input[i + 2] as nat;
      NextGroup(input, i, 3, text);
      col := Emit(w, Quad(v, 4), col, wrap, text);
      text := text + Quad(v, 4);
      i := i + 3;
    }
    var rem := |input| - i;
    if rem == 1 {
      var v := input[i] as nat * 0x1_0000;
      NextGroup(input, i, 1, text);
      col := Emit(w, Quad(v, 2), col, wrap, text);
      text := text + Quad(v, 2);
    } else if rem == 2 {
      var v := input[i] as nat * 0x1_0000 + input[i + 1] as nat * 0x100;
      NextGroup(input, i, 2, text);
      col := Emit(w, Quad(v, 3), col, wrap, text);
      text := text + Quad(v, 3);
    }
    EncodedAll(Format(), input, text);
    if wrap == 0 || col != 0 { w.Put('\n'); }
    w.Flush();
  }

  // Lines of wrap characters and one newline at the end.
  function Wrapped(text: string, wrap: nat): string {
    Layout(text, wrap) + if wrap == 0 || |text| % wrap != 0 then "\n" else ""
  }

  // Every line but the last has wrap characters, and every line is ended.
  lemma WrappedLines(text: string, wrap: nat)
    requires forall i :: 0 <= i < |text| ==> !IsSpace(text[i])
    ensures Strip(Wrapped(text, wrap)) == text
    ensures wrap == 0 ==> Wrapped(text, wrap) == text + "\n"
    ensures wrap > 0 ==>
              && |Wrapped(text, wrap)| == |text| + (|text| + wrap - 1) / wrap
              && forall k :: 0 <= k < |Wrapped(text, wrap)| ==>
                   (Wrapped(text, wrap)[k] == '\n' <==> (k + 1) % (wrap + 1) == 0 || k == |Wrapped(text, wrap)| - 1)
  {
    hide Layout, IsSpace, Strip;
    StripNone(text);
    StripLayout(text, wrap);
    var tail := if wrap == 0 || |text| % wrap != 0 then "\n" else "";
    StripAppend(Layout(text, wrap), tail);
    StripEnd(tail);
    if wrap == 0 {
      LayoutOneLine(text);
    } else {
      LayoutLines(text, wrap);
      LineCount(|text|, wrap);
    }
  }

  lemma LayoutStart(wrap: nat)
    ensures Layout("", wrap) == "" && (wrap > 0 ==> 0 % wrap == 0)
  {
    if wrap > 0 { Remains(0, 0, wrap); }
  }

  // ---- Decoding ----

  lemma FromDigits4(a: nat, b: nat, c: nat, d: nat)
    ensures FromDigits([a, b, c, d], 64) == a * 0x4_0000 + b * 0x1000 + c * 0x40 + d
  {
    var s := [a, b, c, d];
    assert s[..3] == [a, b, c] && [a, b, c][..2] == [a, b] && [a, b][..1] == [a] && [a][..0] == [];
    assert FromDigits([a], 64) == a;
    assert FromDigits([a, b], 64) == a * 64 + b;
    assert FromDigits([a, b, c], 64) == (a * 64 + b) * 64 + c;
  }

  lemma ToDigitsStep256(v: nat, n: nat)
    ensures ToDigits(v, 256, n + 1) == ToDigits(v / 256, 256, n) + [v % 256]
  {}

  lemma To3(v: nat)
    ensures ToDigits(v, 256, 3) == [v / 0x1_0000 % 256, v / 0x100 % 256, v % 256]
  {
    hide ToDigits;
    ToDigitsStep256(v, 2);
    ToDigitsStep256(v / 256, 1);
    ToDigitsStep256(v / 256 / 256, 0);
    assert ToDigits(v / 256 / 256 / 256, 256, 0) == [];
    assert v / 256 / 256 == v / 0x1_0000;
  }

  // n symbol values denote the bytes of their number, if the rest is zero.
  lemma DenotesIs(ds: seq<nat>, a: nat, b: nat, c: nat, d: nat, t: nat, s: seq<byte>)
    requires 2 <= |ds| <= 4 && ds + Zeros(4 - |ds|) == [a, b, c, d] && t == a * 0x4_0000 + b * 0x1000 + c * 0x40 + d
    requires 1 <= |s| <= 3
    ensures Denotes(Format(), ds, s) <==>
            && |s| == |ds| - 1
            && s[0] as nat == t / 0x1_0000 % 256
            && (if |s| > 1 then s[1] as nat == t / 0x100 % 256 else t / 0x100 % 256 == 0)
            && (if |s| > 2 then s[2] as nat == t % 256 else t % 256 == 0)
  {
    hide B64, FromDigits, ToDigits, Sound;
    Fields();
    FromDigits4(a, b, c, d);
    To3(t);
    var y := if |s| > 1 then s[1] as nat else 0;
    var z := if |s| > 2 then s[2] as nat else 0;
    assert AsNats(s) + Zeros(3 - |s|) == [s[0] as nat, y, z];
  }

  // The unused bits of the last symbol are those that reach the missing bytes.
  lemma UnusedBits(a: nat, b: nat, c: nat, d: nat)
    requires a < 64 && b < 64 && c < 64 && d < 64
    ensures var t := a * 0x4_0000 + b * 0x1000 + c * 0x40 + d;
            && t < 0x100_0000
            && (c == 0 && d == 0 ==> t % 256 == 0 && (t / 0x100 % 256 == 0 <==> b % 16 == 0))
            && (d == 0 ==> (t % 256 == 0 <==> c % 4 == 0))
  {}

  ghost predicate Quartet(q: string, s: seq<byte>) {
    Sound(Format()) && GroupOf(Format(), q, s)
  }

  lemma NoQuartet(q: string)
    requires Sound(Format()) && forall s :: !Quartet(q, s)
    ensures forall s :: !GroupOf(Format(), q, s)
  {
    hide Sound, GroupOf, Format;
    forall s ensures !GroupOf(Format(), q, s) {
      assert !Quartet(q, s);
    }
  }

  // What the four characters spell.
  lemma SpelledBy(q: string, ds: seq<nat>, s: seq<byte>)
    requires |q| == 4 && |ds| <= 4 && 1 <= |s| <= 3
    requires forall k :: 0 <= k < |ds| ==> ds[k] == B64Val(q[k]) && ds[k] < 64
    requires forall k :: |ds| <= k < 4 ==> q[k] == '='
    ensures Quartet(q, s) <==> Denotes(Format(), ds, s)
  {
    hide B64, Sound, Denotes, GroupText;
    Fields();
    forall k | 0 <= k < |ds| ensures q[k] == B64()[ds[k]] {
      ValueIs(q[k]);
    }
    Recognise(Format(), q, ds, s);
  }

  // A group's text has symbols in front, padding behind, and nothing else.
  lemma GroupShape(q: string, s: seq<byte>)
    requires Quartet(q, s)
    ensures B64Val(q[0]) >= 0 && B64Val(q[1]) >= 0
    ensures q[2] == '=' ==> q[3] == '='
    ensures (q[2] == '=' || B64Val(q[2]) >= 0) && (q[3] == '=' || B64Val(q[3]) >= 0)
  {
    hide B64, Sound, GroupText;
    Fields();
    GroupTextSpells(Format(), s);
    var ds := GroupSymbols(Format(), s);
    forall k | 0 <= k < |ds| ensures B64Val(q[k]) >= 0 && q[k] != '=' {
      AlphabetAt(ds[k]);
    }
  }

  method DecQuartet(q: string) returns (r: int, pad: bool, bytes: seq<byte>)
    requires |q| == 4
    ensures r == 0 || r == -1
    ensures r == 0 ==> Quartet(q, bytes) && (pad <==> |bytes| < 3)
    ensures r == -1 ==> forall s :: !Quartet(q, s)
  {
    hide B64, Sound, Denotes, GroupText, Quartet, B64Val;
    pad, bytes := false, [];
    ValueIs(q[0]);
    ValueIs(q[1]);
    ValueIs(q[2]);
    ValueIs(q[3]);
    EqualsHasNoValue();
    ShapeOfAll(q);
    var v0, v1 := B64Val(q[0]), B64Val(q[1]);
    if v0 < 0 || v1 < 0 { return -1, pad, bytes; }
    var p2, p3 := q[2] == '=', q[3] == '=';
    if p2 && !p3 { return -1, pad, bytes; }
    var v2 := if p2 then 0 else B64Val(q[2]);
    var v3 := if p3 then 0 else B64Val(q[3]);
    if v2 < 0 || v3 < 0 { return -1, pad, bytes; }
    var t := v0 * 0x4_0000 + v1 * 0x1000 + v2 * 0x40 + v3;
    UnusedBits(v0, v1, v2, v3);
    ghost var ds: seq<nat> := [v0 as nat, v1 as nat, v2 as nat, v3 as nat][..if p2 then 2 else if p3 then 3 else 4];
    assert ds + Zeros(4 - |ds|) == [v0 as nat, v1 as nat, v2 as nat, v3 as nat];
    GroupsOf(q, ds, v0, v1, v2, v3, t);
    if p2 {
      if v1 % 16 != 0 { return -1, pad, bytes; }
      bytes := [(t / 0x1_0000 % 256) as byte];
    } else if p3 {
      if v2 % 4 != 0 { return -1, pad, bytes; }
      bytes := [(t / 0x1_0000 % 256) as byte, (t / 0x100 % 256) as byte];
    } else {
      bytes := [(t / 0x1_0000 % 256) as byte, (t / 0x100 % 256) as byte, (t % 256) as byte];
    }
    return 0, p2 || p3, bytes;
  }

  lemma EqualsHasNoValue()
    ensures B64Val('=') == -1
  {}

  lemma ShapeOfAll(q: string)
    requires |q| == 4
    ensures forall s :: Quartet(q, s) ==>
      && B64Val(q[0]) >= 0 && B64Val(q[1]) >= 0 && (q[2] == '=' ==> q[3] == '=')
      && (q[2] == '=' || B64Val(q[2]) >= 0) && (q[3] == '=' || B64Val(q[3]) >= 0)
  {
    hide Quartet;
    forall s | Quartet(q, s)
      ensures && B64Val(q[0]) >= 0 && B64Val(q[1]) >= 0 && (q[2] == '=' ==> q[3] == '=')
              && (q[2] == '=' || B64Val(q[2]) >= 0) && (q[3] == '=' || B64Val(q[3]) >= 0)
    {
      GroupShape(q, s);
    }
  }

  // All the groups these four characters can be.
  lemma GroupsOf(q: string, ds: seq<nat>, a: nat, b: nat, c: nat, d: nat, t: nat)
    requires |q| == 4 && 2 <= |ds| <= 4 && ds + Zeros(4 - |ds|) == [a, b, c, d] && t == a * 0x4_0000 + b * 0x1000 + c * 0x40 + d
    requires forall k :: 0 <= k < |ds| ==> ds[k] == B64Val(q[k]) && ds[k] < 64
    requires forall k :: |ds| <= k < 4 ==> q[k] == '='
    ensures forall s :: Quartet(q, s) <==>
            && |s| == |ds| - 1
            && s[0] as nat == t / 0x1_0000 % 256
            && (if |s| > 1 then s[1] as nat == t / 0x100 % 256 else t / 0x100 % 256 == 0)
            && (if |s| > 2 then s[2] as nat == t % 256 else t % 256 == 0)
  {
    hide Denotes, GroupText, B64, B64Val;
    forall s: seq<byte> | 1 <= |s| <= 3 ensures Quartet(q, s) <==> Denotes(Format(), ds, s) {
      SpelledBy(q, ds, s);
    }
    forall s: seq<byte> | 1 <= |s| <= 3
      ensures Denotes(Format(), ds, s) <==>
            && |s| == |ds| - 1
            && s[0] as nat == t / 0x1_0000 % 256
            && (if |s| > 1 then s[1] as nat == t / 0x100 % 256 else t / 0x100 % 256 == 0)
            && (if |s| > 2 then s[2] as nat == t % 256 else t % 256 == 0)
    {
      DenotesIs(ds, a, b, c, d, t, s);
    }
  }

  method Base64Decode(input: array<char>, inLen: uint32, out: array<byte>) returns (r: int, outLen: nat)
    requires inLen as int <= input.Length && inLen as int / 4 * 3 <= out.Length
    modifies out
    ensures Sound(Format()) && outLen <= out.Length && (r == 0 || r == -1)
    ensures r == 0 ==> input[..inLen] == Encode(Format(), out[..outLen])
    ensures r == -1 ==> forall s :: input[..inLen] != Encode(Format(), s)
  {
    hide Decoded, GroupOf, Sound, Encode, Decode, B64, Format;
    ghost var t := input[..inLen];
    outLen := 0;
    Fields();
    Exactly(Format(), t);
    if inLen % 4 != 0 {
      if Decode(Format(), t).Some? { var groups := DecodeWhole(Format(), t); FourTimes(groups); }
      return -1, 0;
    }
    var i: uint32 := 0;
    DecodedStart(Format(), t);
    assert out[..0] == [];
    while i < inLen
      invariant i <= inLen && i % 4 == 0 && outLen <= i as int / 4 * 3 && outLen <= out.Length
      invariant Decoded(Format(), t, i as nat, out[..outLen])
      decreases inLen - i
    {
      Quarters(i as nat, inLen as nat);
      var q := [input[i], input[i + 1], input[i + 2], input[i + 3]];
      assert q == t[i..i as int + 4];
      var padded := q[2] == '=' || q[3] == '=';
      var ok, pad, bytes := DecQuartet(q);
      DecodedNext(Format(), t, i as nat, q, out[..outLen], bytes);
      if ok == 0 { PaddedIff(q, bytes); } else { NoQuartet(q); }
      if padded && i as int + 4 != inLen as int {
        return -1, outLen;
      }
      if ok == -1 { return -1, outLen; }
      GroupOfSize(Format(), q, bytes);
      Store(out, outLen, bytes);
      outLen := outLen + |bytes|;
      if i as int + 4 == inLen as int {
        DecodedAll(Format(), t, out[..outLen]);
        return 0, outLen;
      }
      i := i + 4;
    }
    DecodedAll(Format(), t, out[..outLen]);
    return 0, outLen;
  }

  lemma FourTimes(k: nat)
    ensures k * 4 % 4 == 0
  {}

  lemma Quarters(i: nat, n: nat)
    requires i < n && i % 4 == 0 && n % 4 == 0
    ensures i + 4 <= n && (i + 4) % 4 == 0 && (i + 4) / 4 * 3 == i / 4 * 3 + 3 && i / 4 * 3 + 3 <= n / 4 * 3
  {}

  // A group with padding characters carries fewer than three bytes.
  lemma PaddedIff(q: string, s: seq<byte>)
    requires |q| == 4 && Quartet(q, s)
    ensures q[2] == '=' || q[3] == '=' <==> |s| < 3
  {
    hide B64, Sound, GroupText;
    Fields();
    GroupTextSpells(Format(), s);
    var ds := GroupSymbols(Format(), s);
    forall k | 0 <= k < |ds| ensures q[k] != '=' {
      AlphabetAt(ds[k]);
    }
  }

  // ---- Userland decoding ----

  // Accepts exactly what the kernel's decoder accepts once white space is
  // removed, with the same bytes.
  method DecodeStream(input: string, w: Writer<byte>) returns (r: int)
    requires w.Valid() && w.Contents() == []
    modifies w, w.wbuf
    ensures w.Valid() && Sound(Format()) && (r == 0 || r == -1)
    ensures r == 0 ==> w.out == w.Contents() && Strip(input) == Encode(Format(), w.Contents())
    ensures r == -1 ==> forall s :: Strip(input) != Encode(Format(), s)
  {
    hide Streamed, GroupOf, Sound, Encode, Decode, B64, Format, Strip, IsSpace;
    Fields();
    Exactly(Format(), Strip(input));
    var q := new char[4];
    var qn, done := 0, false;
    StreamedStart(Format(), input);
    assert q[..0] == "";
    for i := 0 to |input|
      invariant w.Valid() && qn < 4 && (done ==> qn == 0)
      invariant Streamed(Format(), input, i, q[..qn], done, w.Contents())
    {
      var c := input[i];
      if IsSpace(c) {
        StreamedSpace(Format(), input, i, q[..qn], done, w.Contents());
        continue;
      }
      if done {
        StreamedAfterEnd(Format(), input, i, q[..qn], w.Contents());
        return -1;
      }
      StreamedChar(Format(), input, i, q[..qn], w.Contents());
      ghost var before := q[..qn];
      q[qn] := c;
      qn := qn + 1;
      assert q[..qn] == before + [c];
      if qn == 4 {
        var ok, pad, bytes := DecQuartet(q[..]);
        assert q[..] == q[..4];
        StreamedGroup(Format(), input, i + 1, q[..], w.Contents(), bytes);
        if ok == -1 {
          NoQuartet(q[..]);
          return -1;
        }
        PutAll(w, bytes);
        if pad { done := true; }
        qn := 0;
        assert q[..0] == "";
      }
    }
    StreamedAll(Format(), input, q[..qn], done, w.Contents());
    if qn != 0 { return -1; }
    w.Flush();
    return 0;
  }

  lemma StripEncoded(s: seq<byte>, wrap: nat)
    ensures Sound(Format()) && Strip(Wrapped(Encode(Format(), s), wrap)) == Encode(Format(), s)
  {
    hide Encode, Layout, Strip, Sound;
    Fields();
    forall i | 0 <= i < |B64()| ensures !IsSpace(B64()[i]) {
      AlphabetAt(i);
    }
    hide B64, IsSpace;
    StripWrapped(Format(), s, wrap, if wrap == 0 || |Encode(Format(), s)| % wrap != 0 then "\n" else "");
  }

  // Decoding wrapped output recovers the input, whatever the width.
  method WrapRoundTrip(input: seq<byte>, wrap: nat) returns (output: seq<byte>, r: int)
    ensures r == 0 && output == input
  {
    hide Encode, Sound, Wrapped, Strip, B64, Format;
    var w := new Writer<char>();
    EncodeWrapped(input, wrap, w);
    var d := new Writer<byte>();
    StripEncoded(input, wrap);
    r := DecodeStream(w.out, d);
    output := d.out;
    DecodeEncode(Format(), input);
    if r == 0 { DecodeEncode(Format(), output); }
  }
}
