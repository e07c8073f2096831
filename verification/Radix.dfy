// Group codecs: bytes are digits in base 256, symbols digits in base 64 or 32,
// of one and the same number.  Sections 3, 4 and 6 of RFC 4648 are the
// instances.
module Radix {
  import opened Words
  import opened ModArith

  // ---- Digits ----

  // Big-endian.
  function FromDigits(ds: seq<nat>, base: nat): nat
    decreases |ds|
  {
    if ds == [] then 0 else FromDigits(ds[..|ds| - 1], base) * base + ds[|ds| - 1]
  }

  function ToDigits(v: nat, base: nat, n: nat): (ds: seq<nat>)
    requires base > 0
    ensures |ds| == n && forall i :: 0 <= i < n ==> ds[i] < base
    decreases n
  {
    if n == 0 then [] else ToDigits(v / base, base, n - 1) + [v % base]
  }

  predicate Digits(ds: seq<nat>, base: nat) {
    forall i :: 0 <= i < |ds| ==> ds[i] < base
  }

  function Zeros(n: nat): seq<nat> {
    seq(n, i => 0)
  }

  lemma DigitStep(q: nat, d: nat, base: nat)
    requires d < base
    ensures (q * base + d) / base == q && (q * base + d) % base == d
  {
    DivModUnique(q * base + d, q, d, base);
  }

  lemma {:induction false} ToFrom(ds: seq<nat>, base: nat)
    requires base > 0 && Digits(ds, base)
    ensures ToDigits(FromDigits(ds, base), base, |ds|) == ds
    decreases |ds|
  {
    if ds != [] {
      var front, d := ds[..|ds| - 1], ds[|ds| - 1];
      ToFrom(front, base);
      DigitStep(FromDigits(front, base), d, base);
    }
  }

  lemma {:induction false} FromTo(v: nat, base: nat, n: nat)
    requires base > 0 && v < Pow(base, n)
    ensures FromDigits(ToDigits(v, base, n), base) == v
    decreases n
  {
    if n > 0 {
      PowPos(base, n - 1);
      QuotientBelow(v, base, Pow(base, n - 1));
      FromTo(v / base, base, n - 1);
      var ds := ToDigits(v, base, n);
      assert ds[..n - 1] == ToDigits(v / base, base, n - 1);
      Euclid(v, base);
    }
  }

  lemma Euclid(v: nat, base: nat)
    requires base > 0
    ensures v == v / base * base + v % base
  {}

  lemma QuotientBelow(v: nat, base: nat, p: nat)
    requires base > 0 && v < base * p
    ensures v / base < p
  {
    Euclid(v, base);
    if v / base >= p { MulLe(p, v / base, base); }
  }

  lemma {:induction false} FromDigitsBound(ds: seq<nat>, base: nat)
    requires base > 0 && Digits(ds, base)
    ensures FromDigits(ds, base) < Pow(base, |ds|)
    decreases |ds|
  {
    if ds != [] {
      var front := ds[..|ds| - 1];
      FromDigitsBound(front, base);
      MulLe(FromDigits(front, base) + 1, Pow(base, |ds| - 1), base);
      Expand(FromDigits(front, base), base, Pow(base, |ds| - 1));
    }
  }

  lemma Expand(x: nat, base: nat, p: nat)
    ensures (x + 1) * base == x * base + base && p * base == base * p
  {}

  // Trailing zeros are trailing factors.
  lemma {:induction false} FromDigitsZeros(ds: seq<nat>, base: nat, k: nat)
    requires base > 0
    ensures FromDigits(ds + Zeros(k), base) == FromDigits(ds, base) * Pow(base, k)
    decreases k
  {
    if k == 0 {
      assert ds + Zeros(0) == ds;
    } else {
      FromDigitsZeros(ds, base, k - 1);
      var s := ds + Zeros(k);
      assert s[..|s| - 1] == ds + Zeros(k - 1);
      Regroup(FromDigits(ds, base), Pow(base, k - 1), base);
    }
  }

  lemma Regroup(x: int, p: int, base: int)
    ensures (x * p) * base == x * (base * p)
  {
    MulAssoc(x, p, base);
  }

  lemma {:induction false} ToDigitsSplit(v: nat, base: nat, n: nat, k: nat)
    requires base > 0
    ensures Pow(base, k) > 0
    ensures ToDigits(v, base, n + k) == ToDigits(v / Pow(base, k), base, n) + ToDigits(v, base, k)
    decreases k
  {
    PowPos(base, k);
    if k > 0 {
      PowPos(base, k - 1);
      ToDigitsSplit(v / base, base, n, k - 1);
      DivDiv(v, base, Pow(base, k - 1));
    }
  }

  lemma {:induction false} ToDigitsZero(base: nat, k: nat)
    requires base > 0
    ensures ToDigits(0, base, k) == Zeros(k)
    decreases k
  {
    if k > 0 {
      ToDigitsZero(base, k - 1);
      assert 0 / base == 0 && 0 % base == 0 by { DigitStep(0, 0, base); }
      assert Zeros(k) == Zeros(k - 1) + [0];
    }
  }

  lemma {:induction false} ToDigitsOfMultiple(v: nat, q: nat, base: nat, k: nat)
    requires base > 0 && v == q * Pow(base, k)
    ensures ToDigits(v, base, k) == Zeros(k)
    decreases k
  {
    if k > 0 {
      PowPos(base, k - 1);
      Regroup(q, Pow(base, k - 1), base);
      MulLe(0, q, Pow(base, k - 1));
      var w: nat := q * Pow(base, k - 1);
      DigitStep(w, 0, base);
      ToDigitsOfMultiple(w, q, base, k - 1);
      assert Zeros(k) == Zeros(k - 1) + [0];
    }
  }

  // One more digit.
  lemma FromDigitsNext(ds: seq<nat>, base: nat, n: nat, k: nat)
    requires base > 0 && k < |ds| && k < n
    ensures FromDigits(ds[..k + 1] + Zeros(n - k - 1), base) ==
            FromDigits(ds[..k] + Zeros(n - k), base) + ds[k] * Pow(base, n - k - 1)
  {
    var p, x := Pow(base, n - k - 1), FromDigits(ds[..k], base);
    FromDigitsZeros(ds[..k + 1], base, n - k - 1);
    FromDigitsZeros(ds[..k], base, n - k);
    assert ds[..k + 1][..k] == ds[..k];
    assert FromDigits(ds[..k + 1], base) == x * base + ds[k];
    hide FromDigits;
    assert (x * base + ds[k]) * p == x * (base * p) + ds[k] * p by {
      MulAssoc(x, base, p);
    }
  }

  lemma ToDigitsAt(v: nat, base: nat, n: nat, k: nat)
    requires base > 0 && k < n
    ensures Pow(base, n - 1 - k) > 0 && ToDigits(v, base, n)[k] == v / Pow(base, n - 1 - k) % base
  {
    ToDigitsSplit(v, base, k + 1, n - 1 - k);
  }

  lemma {:induction false} FromToMod(v: nat, base: nat, k: nat)
    requires base > 0
    ensures Pow(base, k) > 0 && FromDigits(ToDigits(v, base, k), base) == v % Pow(base, k)
    decreases k
  {
    PowPos(base, k);
    if k > 0 {
      var p, q := Pow(base, k - 1), v / base;
      FromToMod(q, base, k - 1);
      var ds := ToDigits(v, base, k);
      assert ds[..k - 1] == ToDigits(q, base, k - 1);
      ModNested(v, base, p);
    } else {
      DivModUnique(v, v, 0, 1);
    }
  }

  lemma ModNested(v: nat, base: nat, p: nat)
    requires base > 0 && p > 0
    ensures base * p > 0 && v / base % p * base + v % base == v % (base * p)
  {
    var q := v / base;
    var r := q % p;
    Euclid(v, base);
    Euclid(q, p);
    MulGe(base, p);
    MulLe(r + 1, p, base);
    Expand(r, base, p);
    Regroup(q / p, p, base);
    Spread(q / p * p, r, base);
    DivModUnique(v, q / p, r * base + v % base, base * p);
  }

  lemma Spread(x: nat, y: nat, z: nat)
    ensures (x + y) * z == x * z + y * z
  {}

  // The last k digits are zero exactly for multiples of base^k.
  lemma ZeroTail(v: nat, base: nat, n: nat, k: nat)
    requires base > 0 && k <= n
    ensures Pow(base, k) > 0
    ensures ToDigits(v, base, n)[n - k..] == Zeros(k) <==> v % Pow(base, k) == 0
  {
    hide Pow, ToDigits, FromDigits;
    ToDigitsSplit(v, base, n - k, k);
    FromToMod(v, base, k);
    FromZeros(base, k);
    assert ToDigits(v, base, n)[n - k..] == ToDigits(v, base, k);
    if v % Pow(base, k) == 0 { MultipleTail(v, base, k); }
  }

  lemma MultipleTail(v: nat, base: nat, k: nat)
    requires base > 0 && Pow(base, k) > 0 && v % Pow(base, k) == 0
    ensures ToDigits(v, base, k) == Zeros(k)
  {
    hide Pow, ToDigits;
    Euclid(v, Pow(base, k));
    ToDigitsOfMultiple(v, v / Pow(base, k), base, k);
  }

  lemma FromZeros(base: nat, k: nat)
    requires base > 0
    ensures FromDigits(Zeros(k), base) == 0
  {
    FromDigitsZeros([], base, k);
    assert [] + Zeros(k) == Zeros(k);
  }

  // ---- Codecs ----

  // A group is bytes * 8 bits, symbols digits of base; need[r] is the number
  // of symbols that carry r bytes, spare[r] the weight of their unused bits.
  datatype Codec = Codec(base: nat, bytes: nat, symbols: nat, need: seq<nat>, spare: seq<nat>, alphabet: string)

  predicate Distinct(a: string) {
    forall i, j :: 0 <= i < j < |a| ==> a[i] != a[j]
  }

  ghost predicate Sound(c: Codec) {
    && c.base > 1 && c.bytes > 0 && c.symbols > 0 && |c.need| == |c.spare| == c.bytes + 1
    && |c.alphabet| == c.base && '=' !in c.alphabet && Distinct(c.alphabet)
    && Pow(c.base, c.symbols) == Pow(256, c.bytes)
    && c.need[c.bytes] == c.symbols
    && forall r: nat :: 1 <= r <= c.bytes ==> SoundAt(c, r)
  }

  // r bytes need need[r] symbols: the others are zero, and other byte counts
  // need other numbers of symbols.
  ghost predicate SoundAt(c: Codec, r: nat)
    requires 1 <= r <= c.bytes && |c.need| == |c.spare| == c.bytes + 1
  {
    && 1 <= c.need[r] <= c.symbols
    && Pow(256, c.bytes - r) == c.spare[r] * Pow(c.base, c.symbols - c.need[r])
    && forall r' :: 1 <= r' <= c.bytes && r' != r ==> c.need[r'] != c.need[r]
  }

  function AsNats(s: seq<byte>): (r: seq<nat>)
    ensures |r| == |s| && Digits(r, 256)
  {
    seq(|s|, i requires 0 <= i < |s| => s[i] as nat)
  }

  // The symbol values of a group of r bytes, without padding.
  function GroupSymbols(c: Codec, s: seq<byte>): (ds: seq<nat>)
    requires c.base > 0 && 1 <= |s| <= c.bytes && |c.need| == c.bytes + 1 && c.need[|s|] <= c.symbols
    ensures |ds| == c.need[|s|]
  {
    ToDigits(FromDigits(AsNats(s) + Zeros(c.bytes - |s|), 256), c.base, c.symbols)[..c.need[|s|]]
  }

  // The bytes that a group of symbol values denotes, if it is canonical.
  ghost predicate Denotes(c: Codec, ds: seq<nat>, s: seq<byte>)
    requires |c.need| == c.bytes + 1
  {
    && 1 <= |s| <= c.bytes && |ds| == c.need[|s|] <= c.symbols
    && ToDigits(FromDigits(ds + Zeros(c.symbols - |ds|), c.base), 256, c.bytes) == AsNats(s) + Zeros(c.bytes - |s|)
  }

  // The symbols past need[r] are zero.
  lemma PadZeros(c: Codec, s: seq<byte>)
    requires Sound(c) && 1 <= |s| <= c.bytes
    ensures c.need[|s|] <= c.symbols
    ensures var v := FromDigits(AsNats(s) + Zeros(c.bytes - |s|), 256);
            ToDigits(v, c.base, c.symbols) == GroupSymbols(c, s) + Zeros(c.symbols - c.need[|s|])
  {
    hide FromDigits, ToDigits, Pow;
    var r := |s|;
    assert SoundAt(c, r);
    var k := c.symbols - c.need[r];
    var v := FromDigits(AsNats(s) + Zeros(c.bytes - r), 256);
    FromDigitsZeros(AsNats(s), 256, c.bytes - r);
    var x := FromDigits(AsNats(s), 256);
    Reassociate(x, c.spare[r], Pow(c.base, k));
    ToDigitsOfMultiple(v, x * c.spare[r], c.base, k);
    ToDigitsSplit(v, c.base, c.need[r], k);
    assert ToDigits(v, c.base, c.symbols)[..c.need[r]] == ToDigits(v / Pow(c.base, k), c.base, c.need[r]);
  }

  lemma Reassociate(x: nat, m: nat, p: int)
    ensures x * (m * p) == (x * m) * p && x * m >= 0
  {
    MulAssoc(x, m, p);
  }

  // A group of symbols denotes s exactly if it is the encoding of s.
  lemma GroupExact(c: Codec, ds: seq<nat>, s: seq<byte>)
    requires Sound(c) && Digits(ds, c.base) && 1 <= |s| <= c.bytes
    ensures c.need[|s|] <= c.symbols && (Denotes(c, ds, s) <==> ds == GroupSymbols(c, s))
  {
    hide FromDigits, ToDigits;
    var bytes := AsNats(s) + Zeros(c.bytes - |s|);
    var v := FromDigits(bytes, 256);
    FromDigitsBound(bytes, 256);
    ToFrom(bytes, 256);
    FromTo(v, c.base, c.symbols);
    PadZeros(c, s);
    if |ds| == c.need[|s|] {
      var padded := ds + Zeros(c.symbols - |ds|);
      ToFrom(padded, c.base);
      FromDigitsBound(padded, c.base);
      FromTo(FromDigits(padded, c.base), 256, c.bytes);
      assert padded[..|ds|] == ds;
    }
  }

  // ---- Text ----

  datatype Option<T> = None | Some(value: T)

  function Pads(n: nat): string {
    seq(n, i => '=')
  }

  function Spell(c: Codec, ds: seq<nat>): (t: string)
    requires Digits(ds, |c.alphabet|)
    ensures |t| == |ds| && forall i :: 0 <= i < |ds| ==> t[i] == c.alphabet[ds[i]]
  {
    seq(|ds|, i requires 0 <= i < |ds| => c.alphabet[ds[i]])
  }

  ghost predicate GroupSize(c: Codec, s: seq<byte>) {
    1 <= |s| <= c.bytes
  }

  // A group of bytes as text: its symbols, then padding.
  ghost function GroupText(c: Codec, s: seq<byte>): (t: string)
    requires Sound(c) && GroupSize(c, s)
    ensures |t| == c.symbols
  {
    assert SoundAt(c, |s|);
    Spell(c, GroupSymbols(c, s)) + Pads(c.symbols - c.need[|s|])
  }

  ghost function Encode(c: Codec, s: seq<byte>): string
    requires Sound(c)
    decreases |s|
  {
    if s == [] then ""
    else if |s| <= c.bytes then GroupText(c, s)
    else GroupText(c, s[..c.bytes]) + Encode(c, s[c.bytes..])
  }

  // t spells ds and is padded from there on.
  ghost predicate Spells(c: Codec, t: string, ds: seq<nat>) {
    && |ds| <= |t| && Digits(ds, |c.alphabet|)
    && (forall k :: 0 <= k < |ds| ==> t[k] == c.alphabet[ds[k]])
    && (forall k :: |ds| <= k < |t| ==> t[k] == '=')
  }

  lemma NotPad(c: Codec, t: string, ds: seq<nat>, k: nat)
    requires '=' !in c.alphabet && Spells(c, t, ds) && k < |ds|
    ensures t[k] != '='
  {
    assert c.alphabet[ds[k]] in c.alphabet;
  }

  lemma SpellUnique(c: Codec, t: string, u: string, ds: seq<nat>)
    requires Spells(c, t, ds) && Spells(c, u, ds) && |t| == |u|
    ensures t == u
  {}

  lemma SameLengthSpelled(c: Codec, t: string, ds: seq<nat>, es: seq<nat>)
    requires '=' !in c.alphabet && Distinct(c.alphabet) && Spells(c, t, ds) && Spells(c, t, es)
    ensures ds == es
  {
    if |ds| < |es| { NotPad(c, t, es, |ds|); }
    if |es| < |ds| { NotPad(c, t, ds, |es|); }
    forall k | 0 <= k < |ds| && |ds| == |es| ensures ds[k] == es[k] {
      assert c.alphabet[ds[k]] == c.alphabet[es[k]];
    }
  }

  lemma GroupTextSpells(c: Codec, s: seq<byte>)
    requires Sound(c) && GroupSize(c, s)
    ensures c.need[|s|] <= c.symbols && Spells(c, GroupText(c, s), GroupSymbols(c, s))
  {
    assert SoundAt(c, |s|);
  }

  // A padded text is the text of s exactly if its symbols denote s.
  lemma Recognise(c: Codec, t: string, ds: seq<nat>, s: seq<byte>)
    requires Sound(c) && GroupSize(c, s) && |t| == c.symbols && Spells(c, t, ds)
    ensures Denotes(c, ds, s) <==> t == GroupText(c, s)
  {
    GroupTextSpells(c, s);
    GroupExact(c, ds, s);
    hide Denotes, GroupText, Spells;
    if t == GroupText(c, s) { SameLengthSpelled(c, t, ds, GroupSymbols(c, s)); }
    if Denotes(c, ds, s) { SpellUnique(c, t, GroupText(c, s), ds); }
  }

  lemma DenotesOne(c: Codec, ds: seq<nat>, s: seq<byte>, s': seq<byte>)
    requires Sound(c) && Denotes(c, ds, s) && Denotes(c, ds, s')
    ensures s == s'
  {
    assert SoundAt(c, |s|);
    var v := ToDigits(FromDigits(ds + Zeros(c.symbols - |ds|), c.base), 256, c.bytes);
    assert v[..|s|] == AsNats(s) && v[..|s|] == AsNats(s');
    forall i | 0 <= i < |s| ensures s[i] == s'[i] {
      assert AsNats(s)[i] == AsNats(s')[i];
    }
  }

  lemma GroupInjective(c: Codec, s: seq<byte>, s': seq<byte>)
    requires Sound(c) && GroupSize(c, s) && GroupSize(c, s') && GroupText(c, s) == GroupText(c, s')
    ensures s == s'
  {
    var t := GroupText(c, s);
    GroupTextSpells(c, s);
    var ds := GroupSymbols(c, s);
    Recognise(c, t, ds, s);
    Recognise(c, t, ds, s');
    DenotesOne(c, ds, s, s');
  }

  // ---- Decoding ----

  // The bytes of a group of text, if it is the text of any.
  ghost function GroupBytes(c: Codec, t: string): (r: Option<seq<byte>>)
    requires Sound(c)
    ensures r.Some? ==> GroupSize(c, r.value) && GroupText(c, r.value) == t
    ensures r.None? ==> forall s :: GroupSize(c, s) ==> GroupText(c, s) != t
  {
    if s :| GroupSize(c, s) && GroupText(c, s) == t then Some(s) else None
  }

  function Prepend(a: seq<byte>, b: Option<seq<byte>>): Option<seq<byte>> {
    if b.Some? then Some(a + b.value) else None
  }

  ghost function Decode(c: Codec, t: string): Option<seq<byte>>
    requires Sound(c)
    decreases |t|
  {
    if t == "" then Some([])
    else if |t| < c.symbols then None
    else
      var g := GroupBytes(c, t[..c.symbols]);
      if g.None? then None
      else if |g.value| < c.bytes then (if |t| == c.symbols then g else None)
      else Prepend(g.value, Decode(c, t[c.symbols..]))
  }

  lemma EncodeStep(c: Codec, s: seq<byte>)
    requires Sound(c) && s != []
    ensures c.bytes > 0
    ensures var n := if |s| <= c.bytes then |s| else c.bytes;
            Encode(c, s) == GroupText(c, s[..n]) + Encode(c, s[n..])
  {
    assert c.bytes > 0;
    hide Sound, GroupText;
    if |s| <= c.bytes {
      assert s[..|s|] == s && s[|s|..] == [];
      assert GroupText(c, s) + "" == GroupText(c, s);
    }
  }

  lemma SliceOfTail(s: seq<byte>, n: nat, i: nat, j: nat)
    requires n <= i <= j <= |s|
    ensures s[n..][i - n..j - n] == s[i..j]
  {}

  lemma SliceOfFirst(a: string, b: string)
    ensures (a + b)[0..|a|] == a
  {}

  lemma SliceOfSecond(a: string, b: string, i: nat, j: nat)
    requires i <= j <= |b|
    ensures (a + b)[|a| + i..|a| + j] == b[i..j]
  {}

  lemma EncodeNothing(c: Codec)
    requires Sound(c)
    ensures Encode(c, []) == ""
  {}

  lemma DecodeStep(c: Codec, x: seq<byte>, tail: string)
    requires Sound(c) && GroupSize(c, x)
    ensures Decode(c, GroupText(c, x) + tail) ==
            if |x| < c.bytes then (if tail == "" then Some(x) else None) else Prepend(x, Decode(c, tail))
  {
    var t := GroupText(c, x) + tail;
    assert t[..c.symbols] == GroupText(c, x) && t[c.symbols..] == tail;
    var g := GroupBytes(c, GroupText(c, x));
    GroupInjective(c, x, g.value);
  }

  // Decoding undoes encoding.
  lemma {:induction false} DecodeEncode(c: Codec, s: seq<byte>)
    requires Sound(c)
    ensures Decode(c, Encode(c, s)) == Some(s)
    decreases |s|
  {
    hide Sound, Decode, Encode, GroupText;
    EncodeNothing(c);
    if s == [] {
      DecodeNothing(c);
    } else {
      EncodeStep(c, s);
      var n := if |s| <= c.bytes then |s| else c.bytes;
      DecodeStep(c, s[..n], Encode(c, s[n..]));
      DecodeEncode(c, s[n..]);
      assert s == s[..n] + s[n..];
      if |s| <= c.bytes { assert s[n..] == [] && s[..n] == s; }
    }
  }

  lemma DecodeNothing(c: Codec)
    requires Sound(c)
    ensures Decode(c, "") == Some([])
  {}

  // Whatever is accepted is the encoding of the result.
  lemma {:induction false} EncodeDecode(c: Codec, t: string)
    requires Sound(c) && Decode(c, t).Some?
    ensures Encode(c, Decode(c, t).value) == t
    decreases |t|
  {
    if t != "" {
      var head, tail := t[..c.symbols], t[c.symbols..];
      assert t == head + tail;
      var x := GroupBytes(c, head).value;
      DecodeStep(c, x, tail);
      hide Decode;
      if |x| < c.bytes {
        assert tail == "";
        assert head + "" == head;
      } else {
        assert c.symbols > 0;
        EncodeDecode(c, tail);
        var y := Decode(c, tail).value;
        EncodeStep(c, x + y);
        hide Encode;
        EncodeNothing(c);
        FirstGroup(c, x, y);
      }
    }
  }

  lemma FirstGroup(c: Codec, x: seq<byte>, y: seq<byte>)
    requires |x| == c.bytes
    ensures var n := if |x + y| <= c.bytes then |x + y| else c.bytes; (x + y)[..n] == x && (x + y)[n..] == y
  {}

  // decode accepts t with result s if and only if t is the encoding of s.
  lemma DecodeExact(c: Codec, t: string, s: seq<byte>)
    requires Sound(c)
    ensures Decode(c, t) == Some(s) <==> t == Encode(c, s)
  {
    hide Decode, Encode;
    DecodeEncode(c, s);
    if Decode(c, t).Some? { EncodeDecode(c, t); }
  }

  // An encoding is made of alphabet characters and padding.
  lemma {:induction false} EncodeChars(c: Codec, s: seq<byte>)
    requires Sound(c)
    ensures forall i :: 0 <= i < |Encode(c, s)| ==> Encode(c, s)[i] in c.alphabet || Encode(c, s)[i] == '='
    decreases |s|
  {
    hide Encode;
    EncodeNothing(c);
    if s != [] {
      EncodeStep(c, s);
      var n := if |s| <= c.bytes then |s| else c.bytes;
      EncodeChars(c, s[n..]);
      GroupTextSpells(c, s[..n]);
    }
  }

  lemma PrependTwice(a: seq<byte>, b: seq<byte>, o: Option<seq<byte>>)
    ensures Prepend(a, Prepend(b, o)) == Prepend(a + b, o)
  {
    if o.Some? { assert a + (b + o.value) == a + b + o.value; }
  }
}
