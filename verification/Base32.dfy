// Base32 in the kernel (kernel/crypto/base32.c:8-59) and in userland
// (user/base32.c:51-127), against the encoding defined by section 6 of
// RFC 4648.
module Base32 {
  import opened Words
  import opened ModArith
  import opened Radix
  import opened RadixStream
  import opened Wrapping

  function Letters(): string {
    "ABCDEFGHIJKLMNOPQRSTUVWXYZ"
  }

  function Numerals(): string {
    "234567"
  }

  function B32(): string {
    Letters() + Numerals()
  }

  function Format(): Codec {
    Codec(32, 5, 8, [0, 2, 4, 5, 7, 8], [0, 4, 16, 2, 8, 1], B32())
  }

  // The value of a symbol, or -1.
  function B32Val(c: char): int {
    if 'A' <= c <= 'Z' then c as int - 'A' as int
    else if '2' <= c <= '7' then c as int - '2' as int + 26
    else -1
  }

  lemma LetterAt(i: nat)
    requires i < 26
    ensures |Letters()| == 26 && Letters()[i] as int == 65 + i
  {}

  lemma NumeralAt(i: nat)
    requires i < 6
    ensures |Numerals()| == 6 && Numerals()[i] as int == 50 + i
  {}

  lemma JoinedAt(a: string, b: string, i: nat)
    requires |a| == 26 && |b| == 6 && i < 32
    ensures |a + b| == 32 && (a + b)[i] == if i < 26 then a[i] else b[i - 26]
  {}

  // The alphabet, by the codes of its characters.
  lemma AlphabetCodes(i: nat)
    requires i < 32
    ensures |B32()| == 32 && B32()[i] as int == if i < 26 then 65 + i else 50 + i - 26
  {
    hide Letters, Numerals;
    LetterAt(i % 26);
    NumeralAt(i % 6);
    JoinedAt(Letters(), Numerals(), i);
    if i < 26 { LetterAt(i); } else { NumeralAt(i - 26); }
  }

  lemma AlphabetAt(i: nat)
    requires i < 32
    ensures |B32()| == 32 && B32Val(B32()[i]) == i && B32()[i] != '=' && !IsSpace(B32()[i])
  {
    hide B32;
    AlphabetCodes(i);
  }

  // A character with a value is the symbol of that value.
  lemma ValueIs(c: char)
    ensures -1 <= B32Val(c) < 32 && |B32()| == 32
    ensures B32Val(c) >= 0 ==> B32()[B32Val(c)] == c
    ensures B32Val(c) < 0 ==> c !in B32()
  {
    var v := B32Val(c);
    if v >= 0 {
      AlphabetAt(v);
      SameValue(c, B32()[v]);
    } else {
      forall i: nat | i < 32 ensures B32()[i] != c {
        AlphabetAt(i);
      }
    }
  }

  lemma SameValue(c: char, d: char)
    requires B32Val(c) == B32Val(d) >= 0
    ensures c == d
  {}

  lemma Powers()
    ensures Pow(32, 0) == 1 && Pow(32, 1) == 32 && Pow(32, 3) == 0x8000 && Pow(32, 4) == 0x10_0000 && Pow(32, 6) == 0x4000_0000
    ensures Pow(32, 8) == 0x100_0000_0000
    ensures Pow(256, 0) == 1 && Pow(256, 1) == 0x100 && Pow(256, 2) == 0x1_0000 && Pow(256, 3) == 0x100_0000
    ensures Pow(256, 4) == 0x1_0000_0000 && Pow(256, 5) == 0x100_0000_0000
  {
    assert Pow(32, 2) == 32 * Pow(32, 1);
    assert Pow(32, 3) == 32 * Pow(32, 2);
    assert Pow(32, 4) == 32 * Pow(32, 3);
    assert Pow(32, 5) == 32 * Pow(32, 4);
    assert Pow(32, 6) == 32 * Pow(32, 5);
    assert Pow(32, 7) == 32 * Pow(32, 6);
    assert Pow(256, 2) == 256 * Pow(256, 1);
    assert Pow(256, 3) == 256 * Pow(256, 2);
    assert Pow(256, 4) == 256 * Pow(256, 3);
  }

  lemma FormatSound()
    ensures Sound(Format())
  {
    forall i: nat, j: nat | i < j < 32 ensures B32()[i] != B32()[j] {
      AlphabetAt(i);
      AlphabetAt(j);
    }
    forall i: nat | i < 32 ensures B32()[i] != '=' {
      AlphabetAt(i);
    }
    Powers();
    hide Pow;
    assert SoundAt(Format(), 1) && SoundAt(Format(), 2) && SoundAt(Format(), 3) && SoundAt(Format(), 4) && SoundAt(Format(), 5);
  }

  lemma Fields()
    ensures Sound(Format()) && |B32()| == 32
    ensures Format().base == 32 && Format().bytes == 5 && Format().symbols == 8
    ensures Format().need == [0, 2, 4, 5, 7, 8] && Format().alphabet == B32()
  {
    FormatSound();
    AlphabetAt(0);
  }

  // ---- Encoding one group ----

  function Need(r: nat): nat
    requires 1 <= r <= 5
  {
    if r == 1 then 2 else if r == 2 then 4 else if r == 3 then 5 else if r == 4 then 7 else 8
  }

  function Number(s: seq<byte>): nat
    requires 1 <= |s| <= 5
  {
    FromDigits(AsNats(s) + Zeros(5 - |s|), 256)
  }

  // Pack the bytes big-endian into the top of a 40-bit value.
  method Pack(s: seq<byte>) returns (v: nat)
    requires 1 <= |s| <= 5
    ensures v == Number(s)
  {
    hide FromDigits, Pow;
    v := 0;
    ghost var ds := AsNats(s);
    assert ds[..0] + Zeros(5) == Zeros(5);
    FromZeros(256, 5);
    for j := 0 to |s|
      invariant v == FromDigits(ds[..j] + Zeros(5 - j), 256)
    {
      FromDigitsNext(ds, 256, 5, j);
      PowPos(256, 4 - j);
      Product(s[j] as nat, Pow(256, 4 - j));
      v := v + s[j] as nat * Pow(256, 4 - j);
    }
    assert ds[..|s|] == ds;
  }

  lemma Product(x: nat, y: int)
    requires y >= 1
    ensures x * y >= 0
  {}

  // The eight characters of one group.
  method Octet(s: seq<byte>) returns (q: string)
    requires 1 <= |s| <= 5
    ensures Sound(Format()) && |q| == 8 && q == GroupText(Format(), s)
  {
    hide FromDigits, ToDigits, Pow, B32, Sound, GroupText, Number, Format;
    Fields();
    var v := Pack(s);
    var nsym := Need(|s|);
    q := "";
    for j := 0 to nsym
      invariant |q| == j && forall k :: 0 <= k < j ==> q[k] == B32()[ToDigits(v, 32, 8)[k]]
    {
      ToDigitsAt(v, 32, 8, j);
      q := q + [B32()[v / Pow(32, 7 - j) % 32]];
    }
    for j := nsym to 8
      invariant |q| == j && (forall k :: 0 <= k < nsym ==> q[k] == B32()[ToDigits(v, 32, 8)[k]])
      invariant forall k :: nsym <= k < j ==> q[k] == '='
    {
      q := q + "=";
    }
    OctetIs(s, q);
  }

  lemma OctetIs(s: seq<byte>, q: string)
    requires 1 <= |s| <= 5 && |q| == 8 && |B32()| == 32
    requires forall k :: 0 <= k < Need(|s|) ==> q[k] == B32()[ToDigits(Number(s), 32, 8)[k]]
    requires forall k :: Need(|s|) <= k < 8 ==> q[k] == '='
    ensures Sound(Format()) && q == GroupText(Format(), s)
  {
    hide FromDigits, ToDigits, B32, Sound, GroupText;
    Fields();
    GroupTextSpells(Format(), s);
    var t := GroupText(Format(), s);
    forall k | 0 <= k < 8 ensures q[k] == t[k] {}
  }

  // ---- What the encoding is ----

  lemma FromPrefix(ds: seq<nat>, base: nat, k: nat)
    requires k < |ds|
    ensures FromDigits(ds[..k + 1], base) == FromDigits(ds[..k], base) * base + ds[k]
  {
    assert ds[..k + 1][..k] == ds[..k];
  }

  lemma FromNone(ds: seq<nat>, base: nat)
    ensures FromDigits(ds[..0], base) == 0 && ds[..|ds|] == ds
  {}

  lemma From5(ds: seq<nat>)
    requires |ds| == 5
    ensures FromDigits(ds, 256) == (((ds[0] * 256 + ds[1]) * 256 + ds[2]) * 256 + ds[3]) * 256 + ds[4]
  {
    hide FromDigits;
    FromNone(ds, 256);
    FromPrefix(ds, 256, 0);
    FromPrefix(ds, 256, 1);
    FromPrefix(ds, 256, 2);
    FromPrefix(ds, 256, 3);
    FromPrefix(ds, 256, 4);
  }

  lemma From8(ds: seq<nat>)
    requires |ds| == 8
    ensures FromDigits(ds, 32) ==
            ((((((ds[0] * 32 + ds[1]) * 32 + ds[2]) * 32 + ds[3]) * 32 + ds[4]) * 32 + ds[5]) * 32 + ds[6]) * 32 + ds[7]
  {
    hide FromDigits;
    FromNone(ds, 32);
    FromPrefix(ds, 32, 0);
    FromPrefix(ds, 32, 1);
    FromPrefix(ds, 32, 2);
    FromPrefix(ds, 32, 3);
    FromPrefix(ds, 32, 4);
    FromPrefix(ds, 32, 5);
    FromPrefix(ds, 32, 6);
    FromPrefix(ds, 32, 7);
  }

  // The five-bit pieces of five bytes.
  function Fives(s: seq<nat>): (ds: seq<nat>)
    requires |s| == 5 && Digits(s, 256)
    ensures |ds| == 8 && Digits(ds, 32)
  {
    [s[0] / 8, s[0] % 8 * 4 + s[1] / 64, s[1] / 2 % 32, s[1] % 2 * 16 + s[2] / 16,
     s[2] % 16 * 2 + s[3] / 128, s[3] / 4 % 32, s[3] % 4 * 8 + s[4] / 32, s[4] % 32]
  }

  lemma Cut(w: nat, k: nat)
    requires 0 < k < 3
    ensures k == 1 ==> w == w / 64 * 64 + w / 2 % 32 * 2 + w % 2
    ensures k == 2 ==> w == w / 128 * 128 + w / 4 % 32 * 4 + w % 4
  {
    var m := if k == 1 then 2 else 4;
    var q := w / m;
    assert w == q * m + w % m && q == q / 32 * 32 + q % 32;
    assert k == 1 ==> w / 64 == q / 32;
    assert k == 2 ==> w / 128 == q / 32;
  }

  lemma SameNumber(v: nat, w: nat, x: nat, y: nat, z: nat)
    ensures (((v * 256 + w) * 256 + x) * 256 + y) * 256 + z ==
            ((((((v / 8 * 32 + (v % 8 * 4 + w / 64)) * 32 + w / 2 % 32) * 32 + (w % 2 * 16 + x / 16)) * 32
               + (x % 16 * 2 + y / 128)) * 32 + y / 4 % 32) * 32 + (y % 4 * 8 + z / 32)) * 32 + z % 32
  {
    Cut(w, 1);
    Cut(y, 2);
    Horner(v / 8, v % 8, w / 64, w / 2 % 32, w % 2, x / 16, x % 16, y / 128, y / 4 % 32, y % 4, z / 32, z % 32);
  }

  lemma Horner(a: int, b: int, c: int, d: int, e: int, f: int, g: int, h: int, i: int, j: int, k: int, l: int)
    ensures ((((a * 8 + b) * 256 + (c * 64 + d * 2 + e)) * 256 + (f * 16 + g)) * 256 + (h * 128 + i * 4 + j)) * 256 + (k * 32 + l) ==
            ((((((a * 32 + (b * 4 + c)) * 32 + d) * 32 + (e * 16 + f)) * 32 + (g * 2 + h)) * 32 + i) * 32 + (j * 8 + k)) * 32 + l
  {}

  lemma FivesSum(s: seq<nat>)
    requires |s| == 5 && Digits(s, 256)
    ensures FromDigits(Fives(s), 32) == FromDigits(s, 256)
  {
    hide FromDigits;
    SameNumber(s[0], s[1], s[2], s[3], s[4]);
    From5(s);
    From8(Fives(s));
  }

  lemma FivesAre(s: seq<nat>)
    requires |s| == 5 && Digits(s, 256)
    ensures ToDigits(FromDigits(s, 256), 32, 8) == Fives(s)
  {
    hide FromDigits, ToDigits, Fives;
    FivesSum(s);
    ToFrom(Fives(s), 32);
  }

  lemma OctetAt(s: seq<byte>, k: nat)
    requires 1 <= |s| <= 5 && k < 8
    ensures Sound(Format()) && |B32()| == 32 && |GroupText(Format(), s)| == 8
    ensures GroupText(Format(), s)[k] == if 5 * k >= 8 * |s| then '=' else B32()[Fives(AsNats(s) + Zeros(5 - |s|))[k]]
  {
    hide FromDigits, ToDigits, B32, Sound, GroupText, Fives;
    Fields();
    GroupTextSpells(Format(), s);
    FivesAre(AsNats(s) + Zeros(5 - |s|));
  }

  lemma FirstGroupText(s: seq<byte>)
    requires s != []
    ensures Sound(Format())
    ensures var n := if |s| < 5 then |s| else 5;
            Encode(Format(), s) == GroupText(Format(), s[..n]) + Encode(Format(), s[n..])
  {
    hide B32, Sound, GroupText, Encode;
    Fields();
    EncodeStep(Format(), s);
  }

  function Least(n: nat, m: nat): nat {
    if n < m then n else m
  }

  lemma {:induction false} EncodeLength(s: seq<byte>)
    ensures Sound(Format()) && |Encode(Format(), s)| == (|s| + 4) / 5 * 8
    decreases |s|
  {
    hide B32, Sound, GroupText, Encode, Format;
    Fields();
    EncodeNothing(Format());
    if s != [] {
      FirstGroupText(s);
      if |s| > 5 { EncodeLength(s[5..]); } else { assert s[|s|..] == []; }
    }
  }

  lemma GroupFits(g: nat, n: nat)
    requires 5 * g < n
    ensures 8 * g + 8 <= (n + 4) / 5 * 8
  {}

  lemma {:induction false} EncodeAt(s: seq<byte>, g: nat)
    requires 5 * g < |s|
    ensures Sound(Format()) && |Encode(Format(), s)| >= 8 * g + 8
    ensures Encode(Format(), s)[8 * g..8 * g + 8] == GroupText(Format(), s[5 * g..Least(|s|, 5 * g + 5)])
    decreases |s|
  {
    hide B32, Sound, GroupText, Encode;
    EncodeLength(s);
    GroupFits(g, |s|);
    FirstGroupText(s);
    if g == 0 {
      SliceOfFirst(GroupText(Format(), s[..Least(|s|, 5)]), Encode(Format(), s[Least(|s|, 5)..]));
      assert s[0..Least(|s|, 5)] == s[..Least(|s|, 5)];
    } else {
      var t, e := s[5..], Least(|s|, 5 * g + 5);
      EncodeAt(t, g - 1);
      SliceOfTail(s, 5, 5 * g, e);
      SliceOfSecond(GroupText(Format(), s[..5]), Encode(Format(), t), 8 * g - 8, 8 * g);
    }
  }

  // Bytes 5g to 5g + 4 are symbols 8g to 8g + 7, five bits each; a symbol whose
  // bits start past the last byte is padding.
  lemma EncodeMeans(s: seq<byte>, g: nat, k: nat)
    requires 5 * g < |s| && k < 8
    ensures Sound(Format()) && |Encode(Format(), s)| == (|s| + 4) / 5 * 8 && 8 * g + 8 <= (|s| + 4) / 5 * 8
    ensures var b := seq(5, i requires 0 <= i < 5 => if 5 * g + i < |s| then s[5 * g + i] as nat else 0);
            && |B32()| == 32
            && Encode(Format(), s)[8 * g + k] ==
               if 5 * k >= 8 * (|s| - 5 * g) then '='
               else B32()[[b[0] / 8, b[0] % 8 * 4 + b[1] / 64, b[1] / 2 % 32, b[1] % 2 * 16 + b[2] / 16,
                           b[2] % 16 * 2 + b[3] / 128, b[3] / 4 % 32, b[3] % 4 * 8 + b[4] / 32, b[4] % 32][k]]
  {
    hide B32, Sound, GroupText, Encode, Format;
    EncodeAt(s, g);
    EncodeLength(s);
    GroupFits(g, |s|);
    var t := s[5 * g..Least(|s|, 5 * g + 5)];
    OctetAt(t, k);
    var b := seq(5, i requires 0 <= i < 5 => if 5 * g + i < |s| then s[5 * g + i] as nat else 0);
    assert AsNats(t) + Zeros(5 - |t|) == b;
  }

  // ---- Encoding ----

  function EncodedLength(n: nat): nat {
    (n + 4) / 5 * 8
  }

  method Base32Encode(input: array<byte>, inLen: uint32, out: array<char>) returns (o: uint32)
    requires inLen as int <= input.Length
    requires EncodedLength(inLen as nat) < out.Length && EncodedLength(inLen as nat) < 0x1_0000_0000
    modifies out
    ensures Sound(Format()) && o as int < out.Length && out[..o] == Encode(Format(), input[..inLen])
    ensures o as int == EncodedLength(inLen as nat) && out[o] == '\0'
  {
    hide Encoded, Sound, Encode, B32, Format, EncodedLength, GroupText;
    Fields();
    ghost var s := input[..inLen];
    var i: uint32 := 0;
    o := 0;
    EncodedStart(Format(), s);
    assert out[..0] == "";
    while i as int + 5 <= inLen as int
      invariant i <= inLen && i % 5 == 0 && o as int == i as int / 5 * 8 && o as int <= out.Length
      invariant Encoded(Format(), s, i as nat, out[..o]) && input[..inLen] == s
      decreases inLen - i
    {
      assert input[i..i + 5] == input[..inLen][i..i + 5];
      var q := Octet(input[i..i + 5]);
      EncodedNext(Format(), s, i as nat, 5, out[..o], q);
      FitsGroup(i as nat, inLen as nat);
      Store(out, o as nat, q);
      i := i + 5;
      o := o + 8;
    }
    var rem := inLen - i;
    if rem > 0 {
      assert input[i..inLen] == input[..inLen][i..i as int + rem as int];
      var q := Octet(input[i..inLen]);
      FitsLast(i as nat, inLen as nat);
      EncodedNext(Format(), s, i as nat, rem as nat, out[..o], q);
      Store(out, o as nat, q);
      o := o + 8;
    } else {
      FitsNone(i as nat, inLen as nat);
    }
    ghost var text := out[..o];
    EncodedAll(Format(), s, text);
    out[o] := '\0';
    assert out[..o] == text;
  }

  lemma FitsGroup(i: nat, n: nat)
    requires i + 5 <= n && i % 5 == 0
    ensures i / 5 * 8 + 8 <= EncodedLength(n) && (i + 5) / 5 * 8 == i / 5 * 8 + 8 && (i + 5) % 5 == 0
  {}

  lemma FitsLast(i: nat, n: nat)
    requires i < n < i + 5 && i % 5 == 0
    ensures i / 5 * 8 + 8 == EncodedLength(n)
  {}

  lemma FitsNone(i: nat, n: nat)
    requires i == n && i % 5 == 0
    ensures i / 5 * 8 == EncodedLength(n)
  {}

  // Lines of wrap characters; a newline ends a partial last line, but nothing
  // ends an unwrapped one.
  function Wrapped(text: string, wrap: nat): string {
    Layout(text, wrap) + if wrap != 0 && |text| % wrap != 0 then "\n" else ""
  }

  // Userland: the same groups, wrapped.
  method EncodeWrapped(input: seq<byte>, wrap: nat, w: Writer<char>)
    requires w.Valid() && w.Contents() == ""
    modifies w, w.wbuf
    ensures w.Valid() && Sound(Format()) && w.out == w.Contents()
    ensures w.Contents() == Wrapped(Encode(Format(), input), wrap)
  {
    hide Encoded, Sound, Encode, B32, Format, Layout, GroupText;
    Fields();
    var col: nat := 0;
    var i := 0;
    ghost var text := "";
    EncodedStart(Format(), input);
    LayoutStart(wrap);
    while i + 5 <= |input|
      invariant i <= |input| && Encoded(Format(), input, i, text)
      invariant w.Valid() && w.Contents() == Layout(text, wrap) && col == (if wrap > 0 then |text| % wrap else 0)
    {
      var q := Octet(input[i..i + 5]);
      EncodedNext(Format(), input, i, 5, text, q);
      col := Emit(w, q, col, wrap, text);
      text := text + q;
      i := i + 5;
    }
    var rem := |input| - i;
    if rem > 0 {
      var q := Octet(input[i..]);
      assert input[i..] == input[i..i + rem];
      EncodedNext(Format(), input, i, rem, text, q);
      col := Emit(w, q, col, wrap, text);
      text := text + q;
    }
    EncodedAll(Format(), input, text);
    if wrap != 0 && col != 0 { w.Put('\n'); }
    w.Flush();
  }

  // Every line but the last has wrap characters; the last is ended too unless
  // the text is one line.
  lemma WrappedLines(text: string, wrap: nat)
    requires forall i :: 0 <= i < |text| ==> !IsSpace(text[i])
    ensures Strip(Wrapped(text, wrap)) == text
    ensures wrap == 0 ==> Wrapped(text, wrap) == text
    ensures wrap > 0 ==>
              && |Wrapped(text, wrap)| == |text| + (|text| + wrap - 1) / wrap
              && forall k :: 0 <= k < |Wrapped(text, wrap)| ==>
                   (Wrapped(text, wrap)[k] == '\n' <==> (k + 1) % (wrap + 1) == 0 || k == |Wrapped(text, wrap)| - 1)
  {
    hide Layout, IsSpace, Strip;
    StripNone(text);
    StripLayout(text, wrap);
    var tail := if wrap != 0 && |text| % wrap != 0 then "\n" else "";
    StripAppend(Layout(text, wrap), tail);
    StripEnd(tail);
    if wrap == 0 {
      LayoutOneLine(text);
    } else {
      LayoutLines(text, wrap);
      LineCount(|text|, wrap);
    }
  }

  lemma LayoutStart(wrap: nat)
    ensures Layout("", wrap) == "" && (wrap > 0 ==> 0 % wrap == 0)
  {
    if wrap > 0 { Remains(0, 0, wrap); }
  }

  // ---- Decoding one group ----

  ghost predicate OctetOf(q: string, s: seq<byte>) {
    Sound(Format()) && GroupOf(Format(), q, s)
  }

  lemma NoOctet(q: string)
    requires Sound(Format()) && forall s :: !OctetOf(q, s)
    ensures forall s :: !GroupOf(Format(), q, s)
  {
    hide Sound, GroupOf, Format;
    forall s ensures !GroupOf(Format(), q, s) {
      assert !OctetOf(q, s);
    }
  }

  // The bytes carried by a group with this much padding, or -1.
  function BytesFor(pad: nat): int {
    if pad == 0 then 5 else if pad == 1 then 4 else if pad == 3 then 3 else if pad == 4 then 2 else if pad == 6 then 1 else -1
  }

  lemma BytesForRange(np: nat)
    requires np <= 8
    ensures BytesFor(np) == -1 || (1 <= BytesFor(np) <= 5 && Need(BytesFor(np)) == 8 - np && (np > 0 <==> BytesFor(np) < 5))
  {}

  // A group's text has need[|s|] symbols and then padding.
  lemma OctetShape(q: string, s: seq<byte>)
    requires OctetOf(q, s)
    ensures |q| == 8 && 1 <= |s| <= 5
    ensures forall k :: 0 <= k < Need(|s|) ==> B32Val(q[k]) >= 0 && q[k] != '='
    ensures forall k :: Need(|s|) <= k < 8 ==> q[k] == '='
  {
    hide B32, Sound, GroupText, B32Val;
    Fields();
    GroupTextSpells(Format(), s);
    var ds := GroupSymbols(Format(), s);
    forall k | 0 <= k < |ds| ensures B32Val(q[k]) >= 0 && q[k] != '=' {
      AlphabetAt(ds[k]);
    }
  }

  // The padding of a group determines how many bytes it carries.
  lemma PadCount(q: string, np: nat)
    requires |q| == 8 && np <= 8 && (forall k :: 8 - np <= k < 8 ==> q[k] == '=') && (np < 8 ==> q[7 - np] != '=')
    ensures forall s :: OctetOf(q, s) ==> 1 <= |s| <= 5 && Need(|s|) == 8 - np && BytesFor(np) == |s|
  {
    hide OctetOf;
    forall s | OctetOf(q, s) ensures 1 <= |s| <= 5 && Need(|s|) == 8 - np && BytesFor(np) == |s| {
      OctetShape(q, s);
      PadUnique(q, Need(|s|), np);
    }
  }

  lemma PadUnique(q: string, n: nat, np: nat)
    requires |q| == 8 && 1 <= n <= 8 && np <= 8
    requires (forall k :: 8 - np <= k < 8 ==> q[k] == '=') && (np < 8 ==> q[7 - np] != '=')
    requires (forall k :: 0 <= k < n ==> q[k] != '=') && (forall k :: n <= k < 8 ==> q[k] == '=')
    ensures n == 8 - np
  {
    assert q[n - 1] != '=';
    assert n < 8 ==> q[n] == '=';
  }

  lemma BadSymbol(q: string, np: nat, k: nat)
    requires |q| == 8 && np <= 8 && k < 8 - np && B32Val(q[k]) < 0
    requires forall s :: OctetOf(q, s) ==> 1 <= |s| <= 5 && Need(|s|) == 8 - np
    ensures forall s :: !OctetOf(q, s)
  {
    hide OctetOf, B32Val;
    forall s | OctetOf(q, s) ensures false {
      OctetShape(q, s);
    }
  }

  // All the groups these symbols can be.
  lemma OctetsOf(q: string, ds: seq<nat>, v: nat, r: nat)
    requires |q| == 8 && 1 <= r <= 5 && |ds| == Need(r) && v == FromDigits(ds + Zeros(8 - |ds|), 32)
    requires forall k :: 0 <= k < |ds| ==> ds[k] == B32Val(q[k]) && ds[k] < 32
    requires forall k :: |ds| <= k < 8 ==> q[k] == '='
    ensures Pow(256, 5 - r) > 0
    ensures forall s :: OctetOf(q, s) <==> |s| == r && v % Pow(256, 5 - r) == 0 && AsNats(s) == ToDigits(v, 256, 5)[..r]
  {
    hide FromDigits, ToDigits, B32, B32Val, Sound, GroupText, Pow, Denotes;
    Fields();
    ZeroTail(v, 256, 5, 5 - r);
    forall k | 0 <= k < |ds| ensures q[k] == B32()[ds[k]] {
      ValueIs(q[k]);
    }
    assert Spells(Format(), q, ds);
    forall s ensures OctetOf(q, s) <==> |s| == r && v % Pow(256, 5 - r) == 0 && AsNats(s) == ToDigits(v, 256, 5)[..r] {
      if 1 <= |s| <= 5 {
        Recognise(Format(), q, ds, s);
        DenotesIs(ds, v, r, s);
      }
    }
  }

  lemma DenotesIs(ds: seq<nat>, v: nat, r: nat, s: seq<byte>)
    requires 1 <= r <= 5 && 1 <= |s| <= 5 && |ds| == Need(r) && v == FromDigits(ds + Zeros(8 - |ds|), 32)
    ensures Denotes(Format(), ds, s) <==>
            |s| == r && ToDigits(v, 256, 5)[r..] == Zeros(5 - r) && AsNats(s) == ToDigits(v, 256, 5)[..r]
  {
    hide FromDigits, ToDigits, B32;
    var t := ToDigits(v, 256, 5);
    assert t == t[..r] + t[r..];
    if |s| == r {
      assert (AsNats(s) + Zeros(5 - r))[..r] == AsNats(s) && (AsNats(s) + Zeros(5 - r))[r..] == Zeros(5 - r);
    }
  }

  method TrailingPads(g: string) returns (np: nat)
    requires |g| == 8
    ensures np <= 8 && (forall k :: 8 - np <= k < 8 ==> g[k] == '=') && (np < 8 ==> g[7 - np] != '=')
  {
    np := 0;
    while np < 8 && g[7 - np] == '='
      invariant np <= 8 && forall k :: 8 - np <= k < 8 ==> g[k] == '='
    {
      np := np + 1;
    }
  }

  // The number the symbols spell, or -1 if one is no symbol.
  method Unpack(g: string, nsym: nat) returns (v: int, ghost ds: seq<nat>)
    requires |g| == 8 && nsym <= 8
    ensures v == -1 ==> exists k :: 0 <= k < nsym && B32Val(g[k]) < 0
    ensures v != -1 ==>
      && |ds| == nsym && v == FromDigits(ds + Zeros(8 - nsym), 32)
      && forall k :: 0 <= k < nsym ==> ds[k] == B32Val(g[k]) && ds[k] < 32
  {
    hide FromDigits, Pow, B32;
    v, ds := 0, [];
    assert ds + Zeros(8) == Zeros(8);
    FromZeros(32, 8);
    for k := 0 to nsym
      invariant |ds| == k && v == FromDigits(ds + Zeros(8 - k), 32)
      invariant forall j :: 0 <= j < k ==> ds[j] == B32Val(g[j]) && ds[j] < 32
    {
      ValueIs(g[k]);
      var s := B32Val(g[k]);
      if s < 0 { return -1, ds; }
      ghost var more := ds + [s as nat];
      assert more[..k] == ds && more[..k + 1] == more;
      FromDigitsNext(more, 32, 8, k);
      PowPos(32, 7 - k);
      Product(s, Pow(32, 7 - k));
      v := v + s * Pow(32, 7 - k);
      ds := more;
    }
  }

  method DecOctet(g: string) returns (r: int, pad: bool, bytes: seq<byte>)
    requires |g| == 8
    ensures r == 0 || r == -1
    ensures r == 0 ==> OctetOf(g, bytes) && (pad <==> |bytes| < 5)
    ensures r == -1 ==> forall s :: !OctetOf(g, s)
  {
    hide B32, OctetOf, B32Val, FromDigits, ToDigits, Pow, BytesFor;
    pad, bytes := false, [];
    var np := TrailingPads(g);
    PadCount(g, np);
    BytesForRange(np);
    var nbytes := BytesFor(np);
    if nbytes < 0 { return -1, pad, bytes; }
    var nsym := 8 - np;
    var v, ds := Unpack(g, nsym);
    if v == -1 {
      ghost var k: nat :| k < nsym && B32Val(g[k]) < 0;
      BadSymbol(g, np, k);
      return -1, pad, bytes;
    }
    OctetsOf(g, ds, v, nbytes);
    if v % Pow(256, 5 - nbytes) != 0 { return -1, pad, bytes; }
    bytes := TopBytes(v, nbytes);
    return 0, np > 0, bytes;
  }

  method TopBytes(v: nat, nbytes: nat) returns (bytes: seq<byte>)
    requires nbytes <= 5
    ensures AsNats(bytes) == ToDigits(v, 256, 5)[..nbytes]
  {
    hide ToDigits, Pow;
    bytes := [];
    for k := 0 to nbytes
      invariant |bytes| == k && forall j :: 0 <= j < k ==> bytes[j] as nat == ToDigits(v, 256, 5)[j]
    {
      ToDigitsAt(v, 256, 5, k);
      bytes := bytes + [(v / Pow(256, 4 - k) % 256) as byte];
    }
  }

  // ---- Decoding ----

  method Base32Decode(input: array<char>, inLen: uint32, out: array<byte>) returns (r: int, outLen: nat)
    requires inLen as int <= input.Length && inLen as int / 8 * 5 <= out.Length
    modifies out
    ensures Sound(Format()) && outLen <= out.Length && (r == 0 || r == -1)
    ensures r == 0 ==> input[..inLen] == Encode(Format(), out[..outLen])
    ensures r == -1 ==> forall s :: input[..inLen] != Encode(Format(), s)
  {
    hide Decoded, GroupOf, OctetOf, Sound, Encode, Decode, B32, Format;
    ghost var t := input[..inLen];
    outLen := 0;
    Fields();
    Exactly(Format(), t);
    if inLen % 8 != 0 {
      if Decode(Format(), t).Some? {
        var groups := DecodeWhole(Format(), t);
        EightTimes(groups);
      }
      return -1, 0;
    }
    var i: uint32 := 0;
    DecodedStart(Format(), t);
    assert out[..0] == [];
    while i < inLen
      invariant i <= inLen && i % 8 == 0 && outLen <= i as int / 8 * 5 && outLen <= out.Length
      invariant Decoded(Format(), t, i as nat, out[..outLen])
      decreases inLen - i
    {
      Eighths(i as nat, inLen as nat);
      var q := input[i..i as int + 8];
      assert q == t[i..i as int + 8];
      var np := TrailingPads(q);
      var ok, pad, bytes := DecOctet(q);
      DecodedNext(Format(), t, i as nat, q, out[..outLen], bytes);
      if ok == 0 { AsGroup(q, bytes, np); } else { NoOctet(q); }
      if np > 0 && i as int + 8 != inLen as int { return -1, outLen; }
      if ok == -1 { return -1, outLen; }
      GroupOfSize(Format(), q, bytes);
      Store(out, outLen, bytes);
      outLen := outLen + |bytes|;
      if i as int + 8 == inLen as int {
        DecodedAll(Format(), t, out[..outLen]);
        return 0, outLen;
      }
      i := i + 8;
    }
    DecodedAll(Format(), t, out[..outLen]);
    return 0, outLen;
  }

  lemma AsGroup(q: string, s: seq<byte>, np: nat)
    requires OctetOf(q, s) && |q| == 8 && np <= 8
    requires (forall k :: 8 - np <= k < 8 ==> q[k] == '=') && (np < 8 ==> q[7 - np] != '=')
    ensures Sound(Format()) && GroupOf(Format(), q, s) && (np > 0 <==> |s| < 5)
  {
    hide B32, GroupOf, Sound;
    PadCount(q, np);
  }

  lemma EightTimes(k: nat)
    ensures k * 8 % 8 == 0
  {}

  lemma Eighths(i: nat, n: nat)
    requires i < n && i % 8 == 0 && n % 8 == 0
    ensures i + 8 <= n && (i + 8) % 8 == 0 && (i + 8) / 8 * 5 == i / 8 * 5 + 5 && i / 8 * 5 + 5 <= n / 8 * 5
  {}

  // Accepts exactly what the kernel's decoder accepts once white space is
  // removed, with the same bytes.
  method DecodeStream(input: string, w: Writer<byte>) returns (r: int)
    requires w.Valid() && w.Contents() == []
    modifies w, w.wbuf
    ensures w.Valid() && Sound(Format()) && (r == 0 || r == -1)
    ensures r == 0 ==> w.out == w.Contents() && Strip(input) == Encode(Format(), w.Contents())
    ensures r == -1 ==> forall s :: Strip(input) != Encode(Format(), s)
  {
    hide Streamed, GroupOf, Sound, Encode, Decode, B32, Format, Strip, IsSpace;
    Fields();
    Exactly(Format(), Strip(input));
    var g := new char[8];
    var gn, done := 0, false;
    StreamedStart(Format(), input);
    assert g[..0] == "";
    for i := 0 to |input|
      invariant w.Valid() && gn < 8 && (done ==> gn == 0)
      invariant Streamed(Format(), input, i, g[..gn], done, w.Contents())
    {
      var c := input[i];
      if IsSpace(c) {
        StreamedSpace(Format(), input, i, g[..gn], done, w.Contents());
        continue;
      }
      if done {
        StreamedAfterEnd(Format(), input, i, g[..gn], w.Contents());
        return -1;
      }
      StreamedChar(Format(), input, i, g[..gn], w.Contents());
      ghost var before := g[..gn];
      g[gn] := c;
      gn := gn + 1;
      assert g[..gn] == before + [c];
      if gn == 8 {
        var ok, pad, bytes := DecOctet(g[..]);
        assert g[..] == g[..8];
        StreamedGroup(Format(), input, i + 1, g[..], w.Contents(), bytes);
        if ok == -1 {
          NoOctet(g[..]);
          return -1;
        }
        PutAll(w, bytes);
        if pad { done := true; }
        gn := 0;
        assert g[..0] == "";
      }
    }
    StreamedAll(Format(), input, g[..gn], done, w.Contents());
    if gn != 0 { return -1; }
    w.Flush();
    return 0;
  }

  lemma StripEncoded(s: seq<byte>, wrap: nat)
    ensures Sound(Format()) && Strip(Wrapped(Encode(Format(), s), wrap)) == Encode(Format(), s)
  {
    hide Encode, Layout, Strip, Sound;
    Fields();
    forall i | 0 <= i < |B32()| ensures !IsSpace(B32()[i]) {
      AlphabetAt(i);
    }
    hide B32, IsSpace;
    StripWrapped(Format(), s, wrap, if wrap != 0 && |Encode(Format(), s)| % wrap != 0 then "\n" else "");
  }

  // Decoding wrapped output recovers the input, whatever the width.
  method WrapRoundTrip(input: seq<byte>, wrap: nat) returns (output: seq<byte>, r: int)
    ensures r == 0 && output == input
  {
    hide Encode, Sound, Wrapped, Strip, B32, Format;
    var w := new Writer<char>();
    EncodeWrapped(input, wrap, w);
    var d := new Writer<byte>();
    StripEncoded(input, wrap);
    r := DecodeStream(w.out, d);
    output := d.out;
    DecodeEncode(Format(), input);
    if r == 0 { DecodeEncode(Format(), output); }
  }
}
