// Counter mode and authenticated encryption (kernel/crypto/aes_gcm.c).
module GcmSeal {
  // NIST SP 800-38D, sections 6.2, 6.5, 7.1 and 7.2, over an arbitrary block
  // cipher E(key, block).

  import opened Words
  import opened Gf2
  import opened GcmField
  import opened Gcm

  // ---- The counter ----

  function Value(b: bv8): nat {
    b as nat
  }

  // The rightmost 32 bits, big-endian.
  function Low32(c: Block): nat {
    Value(c[12]) * 0x100_0000 + Value(c[13]) * 0x1_0000 + Value(c[14]) * 0x100 + Value(c[15])
  }

  // Increment with carry from byte i upwards, never leaving bytes 12 to 15.
  function IncFrom(c: Block, i: nat): Block
    requires 11 <= i <= 15
    decreases i
  {
    if i == 11 then c
    else if c[i] + 1 != 0 then c[i := c[i] + 1]
    else IncFrom(c[i := 0], i - 1)
  }

  function Inc32(c: Block): Block {
    IncFrom(c, 15)
  }

  lemma Increment(b: bv8)
    ensures b as nat <= 255
    ensures b + 1 != 0 ==> (b + 1) as nat == b as nat + 1
    ensures b + 1 == 0 ==> b as nat == 255
  {}

  function Weight(i: nat): nat
    requires 11 <= i <= 15
  {
    if i == 15 then 1 else if i == 14 then 0x100 else if i == 13 then 0x1_0000
    else if i == 12 then 0x100_0000 else 0x1_0000_0000
  }

  lemma Low32Update(c: Block, i: nat, v: bv8, d: int)
    requires 12 <= i <= 15 && Value(v) == Value(c[i]) + d
    ensures c[i := v][..12] == c[..12]
    ensures Low32(c[i := v]) == Low32(c) + d * Weight(i)
  {
    hide Value;
  }

  lemma {:induction false} IncFromValue(c: Block, i: nat)
    requires 11 <= i <= 15
    ensures IncFrom(c, i)[..12] == c[..12]
    ensures Low32(IncFrom(c, i)) == Low32(c) + Weight(i) ||
            Low32(IncFrom(c, i)) == Low32(c) + Weight(i) - 0x1_0000_0000
    decreases i
  {
    hide Low32, IncFrom;
    IncStep(c, i);
    if i > 11 {
      Increment(c[i]);
      if c[i] + 1 != 0 {
        Low32Update(c, i, c[i] + 1, 1);
      } else {
        Low32Update(c, i, 0, -255);
        IncFromValue(c[i := 0], i - 1);
      }
    }
  }

  lemma Low32Range(c: Block)
    ensures Low32(c) < 0x1_0000_0000
  {
    Increment(c[12]);
    Increment(c[13]);
    Increment(c[14]);
    Increment(c[15]);
  }

  // The counter adds one modulo 2^32 and keeps the other 96 bits.
  lemma Inc32Value(c: Block)
    ensures Inc32(c)[..12] == c[..12]
    ensures Low32(Inc32(c)) == (Low32(c) + 1) % 0x1_0000_0000
  {
    hide Low32, IncFrom;
    IncFromValue(c, 15);
    Low32Range(c);
    Low32Range(Inc32(c));
  }

  function CounterAt(c: Block, n: nat): Block
    decreases n
  {
    if n == 0 then c else CounterAt(Inc32(c), n - 1)
  }

  lemma {:induction false} CounterValue(c: Block, n: nat)
    ensures CounterAt(c, n)[..12] == c[..12]
    ensures Low32(CounterAt(c, n)) == (Low32(c) + n) % 0x1_0000_0000
    decreases n
  {
    hide Low32, Inc32;
    if n == 0 {
      Low32Range(c);
    } else {
      Inc32Value(c);
      CounterValue(Inc32(c), n - 1);
      CounterWrap(Low32(c), n);
    }
  }

  lemma CounterWrap(l: nat, n: nat)
    requires n > 0
    ensures ((l + 1) % 0x1_0000_0000 + (n - 1)) % 0x1_0000_0000 == (l + n) % 0x1_0000_0000
  {}

  // Within 2^32 increments no counter block repeats, so no two blocks of a
  // message, nor the tag, share a keystream block.
  lemma CountersDistinct(c: Block, m: nat, n: nat)
    requires m < n < m + 0x1_0000_0000
    ensures CounterAt(c, m) != CounterAt(c, n)
  {
    hide Low32, CounterAt;
    CounterValue(c, m);
    CounterValue(c, n);
    Residues(Low32(c) + m, n - m);
  }

  lemma Residues(x: nat, d: nat)
    requires 0 < d < 0x1_0000_0000
    ensures x % 0x1_0000_0000 != (x + d) % 0x1_0000_0000
  {}

  method Inc32InPlace(ctr: array<bv8>)
    requires ctr.Length == 16
    modifies ctr
    ensures ctr[..] == Inc32(old(ctr[..]))
  {
    hide IncFrom;
    ghost var c := ctr[..];
    var i := 15;
    while i >= 12
      invariant 11 <= i <= 15
      invariant IncFrom(ctr[..], i) == Inc32(c)
      decreases i
    {
      ghost var before: Block := ctr[..];
      IncStep(before, i);
      ctr[i] := ctr[i] + 1;
      assert ctr[..] == before[i := before[i] + 1];
      if ctr[i] != 0 { return; }
      i := i - 1;
    }
    IncStep(ctr[..], 11);
  }

  lemma IncStep(c: Block, i: nat)
    requires 11 <= i <= 15
    ensures IncFrom(c, i) == if i == 11 then c else if c[i] + 1 != 0 then c[i := c[i] + 1] else IncFrom(c[i := 0], i - 1)
  {}

  // ---- Counter mode ----

  function XorBytes(a: seq<bv8>, b: seq<bv8>): seq<bv8>
    requires |a| <= |b|
  {
    seq(|a|, i requires 0 <= i < |a| => a[i] ^ b[i])
  }

  function Gctr(E: Cipher, key: Block, ctr: Block, s: seq<bv8>): (r: seq<bv8>)
    ensures |r| == |s|
    decreases |s|
  {
    if |s| == 0 then []
    else if |s| <= 16 then XorBytes(s, E(key, ctr))
    else XorBytes(s[..16], E(key, ctr)) + Gctr(E, key, Inc32(ctr), s[16..])
  }

  lemma XorTwice(a: seq<bv8>, b: seq<bv8>)
    requires |a| <= |b|
    ensures XorBytes(XorBytes(a, b), b) == a
  {
    var c := XorBytes(a, b);
    forall i | 0 <= i < |a| ensures c[i] ^ b[i] == a[i] {
      XorBack(a[i], b[i]);
    }
  }

  lemma XorBack(x: bv8, y: bv8)
    ensures (x ^ y) ^ y == x
  {}

  // Counter mode is its own inverse from the same counter.
  lemma {:induction false} GctrInvolution(E: Cipher, key: Block, ctr: Block, s: seq<bv8>)
    ensures Gctr(E, key, ctr, Gctr(E, key, ctr, s)) == s
    decreases |s|
  {
    hide Inc32, XorBytes;
    var ks := E(key, ctr);
    if 0 < |s| <= 16 {
      XorLength(s, ks);
      XorTwice(s, ks);
    } else if |s| > 16 {
      XorLength(s[..16], ks);
      XorTwice(s[..16], ks);
      var head, tail := XorBytes(s[..16], ks), Gctr(E, key, Inc32(ctr), s[16..]);
      assert (head + tail)[..16] == head && (head + tail)[16..] == tail;
      GctrInvolution(E, key, Inc32(ctr), s[16..]);
      assert s == s[..16] + s[16..];
    }
  }

  lemma XorLength(a: seq<bv8>, b: seq<bv8>)
    requires |a| <= |b|
    ensures |XorBytes(a, b)| == |a|
  {}

  lemma GctrStep(E: Cipher, key: Block, ctr: Block, s: seq<bv8>, n: nat)
    requires |s| > 0 && n == (if |s| > 16 then 16 else |s|)
    ensures Gctr(E, key, ctr, s) == XorBytes(s[..n], E(key, ctr)) + Gctr(E, key, Inc32(ctr), s[n..])
  {
    if |s| <= 16 { assert s[..n] == s; }
  }

  // dst[i..i + n] := src[i..i + n] xor ks, in place if dst is src.
  method XorBlock(dst: array<bv8>, src: array<bv8>, i: nat, n: nat, ks: Block)
    requires n <= 16 && i + n <= src.Length && i + n <= dst.Length
    modifies dst
    ensures dst[i..i + n] == XorBytes(old(src[i..i + n]), ks)
    ensures forall k :: 0 <= k < dst.Length && !(i <= k < i + n) ==> dst[k] == old(dst[k])
  {
    for j := 0 to n
      invariant forall k :: i <= k < i + j ==> dst[k] == old(src[k]) ^ ks[k - i]
      invariant forall k :: i + j <= k < i + n ==> src[k] == old(src[k])
      invariant forall k :: 0 <= k < dst.Length && !(i <= k < i + n) ==> dst[k] == old(dst[k])
    {
      dst[i + j] := src[i + j] ^ ks[j];
    }
    XorIs(old(src[i..i + n]), ks, dst[i..i + n]);
  }

  // CTR-mode loop; source and destination may be the same buffer.
  method GctrBytes(E: Cipher, key: Block, ctr: array<bv8>, src: array<bv8>, len: uint32, dst: array<bv8>)
    requires ctr.Length == 16 && ctr != src && ctr != dst
    requires len as int <= src.Length && len as int <= dst.Length && len <= 0xffff_fff0
    modifies ctr, dst
    ensures dst[..len] == Gctr(E, key, old(ctr[..]), old(src[..len]))
    ensures forall k :: len as int <= k < dst.Length ==> dst[k] == old(dst[k])
  {
    hide Inc32, Gctr, XorBytes;
    ghost var s, c := src[..len], ctr[..];
    var i: uint32 := 0;
    while i < len
      invariant i <= len || i - len < 16
      invariant forall k :: i as int <= k < len as int ==> src[k] == s[k]
      invariant forall k :: len as int <= k < dst.Length ==> dst[k] == old(dst[k])
      invariant Written(E, key, ctr[..], dst[..len], s, Gctr(E, key, c, s), if i <= len then i else len)
      decreases len as int + 16 - i as int
    {
      var ks := E(key, ctr[..]);
      var n := len - i;
      if n > 16 { n := 16; }
      ghost var before, counter := dst[..len], ctr[..];
      assert src[i as int..i as int + n as int] == s[i..][..n];
      XorBlock(dst, src, i as int, n as int, ks);
      Inc32InPlace(ctr);
      WrittenStep(E, key, counter, before, dst[..len], s, Gctr(E, key, c, s), i as int, n as int);
      i := i + 16;
    }
    WrittenAll(E, key, ctr[..], dst[..len], s, Gctr(E, key, c, s));
  }

  // The first i bytes of out are final and the rest is still to be processed.
  ghost predicate Written(E: Cipher, key: Block, ctr: Block, out: seq<bv8>, s: seq<bv8>, goal: seq<bv8>, i: uint32) {
    |out| == |s| == |goal| && i as int <= |s| && out[..i] + Gctr(E, key, ctr, s[i..]) == goal
  }

  lemma WrittenStep(E: Cipher, key: Block, ctr: Block, out: seq<bv8>, out': seq<bv8>, s: seq<bv8>, goal: seq<bv8>,
                    i: nat, n: nat)
    requires i < |s| < 0x1_0000_0000 && n == (if |s| - i > 16 then 16 else |s| - i)
    requires Written(E, key, ctr, out, s, goal, i as uint32) && |out'| == |s|
    requires out'[i..i + n] == XorBytes(s[i..][..n], E(key, ctr))
    requires forall k :: 0 <= k < i ==> out'[k] == out[k]
    ensures Written(E, key, Inc32(ctr), out', s, goal, (i + n) as uint32)
  {
    hide Inc32, Gctr, XorBytes;
    GctrStep(E, key, ctr, s[i..], n);
    assert s[i..][n..] == s[i + n..];
    assert out'[..i + n] == out[..i] + out'[i..i + n];
  }

  lemma WrittenAll(E: Cipher, key: Block, ctr: Block, out: seq<bv8>, s: seq<bv8>, goal: seq<bv8>)
    requires |s| < 0x1_0000_0000 && Written(E, key, ctr, out, s, goal, |s| as uint32)
    ensures out == goal
  {
    assert s[|s|..] == [];
    assert Gctr(E, key, ctr, []) == [];
    assert out[..|s|] == out;
  }

  lemma XorIs(a: seq<bv8>, b: seq<bv8>, c: seq<bv8>)
    requires |a| <= |b| && |c| == |a| && forall k :: 0 <= k < |a| ==> c[k] == a[k] ^ b[k]
    ensures c == XorBytes(a, b)
  {}

  // ---- The tag and the two operations ----

  function FirstCounter(iv: seq<bv8>): Block
    requires |iv| == 12
  {
    iv + [0, 0, 0, 1]
  }

  const ZERO: Block := seq(16, _ => 0)

  // T is a tag of the ciphertext: GHASH, masked by the first keystream block.
  ghost predicate IsTag(E: Cipher, key: Block, iv: seq<bv8>, aad: seq<bv8>, ct: seq<bv8>, tag: seq<bv8>)
    requires |iv| == 12
  {
    |tag| == 16 &&
    Poly(tag) == Add(Ghash(Poly(E(key, ZERO)), aad, ct), Poly(E(key, FirstCounter(iv))))
  }

  // The tag is GHASH under the encrypted zero block, masked by the encryption of
  // the IV followed by 0, 0, 0, 1.
  lemma TagMeans(E: Cipher, key: Block, iv: seq<bv8>, aad: seq<bv8>, ct: seq<bv8>, tag: seq<bv8>, zero: Block, j0: Block)
    requires |iv| == 12 && IsTag(E, key, iv, aad, ct, tag)
    requires forall i :: 0 <= i < 16 ==> zero[i] == 0
    requires j0[..12] == iv && j0[12] == 0 && j0[13] == 0 && j0[14] == 0 && j0[15] == 1
    ensures Poly(tag) == Add(Ghash(Poly(E(key, zero)), aad, ct), Poly(E(key, j0)))
  {
    hide Poly, Add, Ghash;
    assert zero == ZERO;
    assert j0 == FirstCounter(iv);
  }

  // Byte j of the ciphertext is the byte of the plaintext masked by byte j % 16
  // of the encryption of the IV followed by 2 + j / 16, big-endian modulo 2^32.
  lemma SealedByte(E: Cipher, key: Block, iv: seq<bv8>, s: seq<bv8>, j: nat, counter: Block)
    requires |iv| == 12 && j < |s| && counter[..12] == iv
    requires counter[12] as nat * 0x100_0000 + counter[13] as nat * 0x1_0000 + counter[14] as nat * 0x100 +
             counter[15] as nat == (2 + j / 16) % 0x1_0000_0000
    ensures Gctr(E, key, Inc32(FirstCounter(iv)), s)[j] == s[j] ^ E(key, counter)[j % 16]
  {
    hide Gctr, Inc32, CounterAt;
    var first := FirstCounter(iv);
    assert first[..12] == iv && Low32(first) == 1;
    Inc32Value(first);
    var start := Inc32(first);
    CounterValue(start, j / 16);
    CounterSum(j / 16);
    SameCounter(counter, CounterAt(start, j / 16));
    GctrByte(E, key, start, s, j);
  }

  lemma CounterSum(n: nat)
    ensures ((1 + 1) % 0x1_0000_0000 + n) % 0x1_0000_0000 == (2 + n) % 0x1_0000_0000
  {}

  // A counter block is its first twelve bytes and its counter.
  lemma SameCounter(c: Block, d: Block)
    requires c[..12] == d[..12] && Low32(c) == Low32(d)
    ensures c == d
  {
    hide Low32;
    SameTail(c, d);
    assert c == c[..12] + [c[12], c[13], c[14], c[15]];
    assert d == d[..12] + [d[12], d[13], d[14], d[15]];
  }

  lemma SameTail(c: Block, d: Block)
    requires Low32(c) == Low32(d)
    ensures c[12] == d[12] && c[13] == d[13] && c[14] == d[14] && c[15] == d[15]
  {
    hide Value;
    SameByte(c[12], d[12]);
    SameByte(c[13], d[13]);
    SameByte(c[14], d[14]);
    SameByte(c[15], d[15]);
    SameDigits(Value(c[12]), Value(c[13]), Value(c[14]), Value(c[15]), Value(d[12]), Value(d[13]), Value(d[14]), Value(d[15]));
  }

  lemma SameDigits(a: nat, b: nat, c: nat, d: nat, a': nat, b': nat, c': nat, d': nat)
    requires a < 0x100 && b < 0x100 && c < 0x100 && d < 0x100 && a' < 0x100 && b' < 0x100 && c' < 0x100 && d' < 0x100
    requires a * 0x100_0000 + b * 0x1_0000 + c * 0x100 + d == a' * 0x100_0000 + b' * 0x1_0000 + c' * 0x100 + d'
    ensures a == a' && b == b' && c == c' && d == d'
  {}

  lemma SameByte(x: bv8, y: bv8)
    ensures Value(x) == Value(y) ==> x == y
    ensures Value(x) < 0x100 && Value(y) < 0x100
  {
    assert x as nat as bv8 == x && y as nat as bv8 == y;
  }

  // Counter mode byte by byte.
  lemma {:induction false} GctrByte(E: Cipher, key: Block, ctr: Block, s: seq<bv8>, j: nat)
    requires j < |s|
    ensures Gctr(E, key, ctr, s)[j] == s[j] ^ E(key, CounterAt(ctr, j / 16))[j % 16]
    decreases |s|
  {
    hide Inc32;
    if |s| > 16 && j >= 16 {
      GctrByte(E, key, Inc32(ctr), s[16..], j - 16);
      assert (j - 16) / 16 == j / 16 - 1 && (j - 16) % 16 == j % 16;
    }
  }

  // A block is determined by its polynomial, so there is one tag.
  lemma TagUnique(E: Cipher, key: Block, iv: seq<bv8>, aad: seq<bv8>, ct: seq<bv8>, t: seq<bv8>, u: seq<bv8>)
    requires |iv| == 12 && IsTag(E, key, iv, aad, ct, t) && IsTag(E, key, iv, aad, ct, u)
    ensures t == u
  {
    hide Poly;
    PolyInjective(t, u);
  }

  method ZeroBlock() returns (z: array<bv8>)
    ensures fresh(z) && z.Length == 16 && z[..] == ZERO
  {
    z := new bv8[16];
    for i := 0 to 16
      invariant forall k :: 0 <= k < i ==> z[k] == 0
    {
      z[i] := 0;
    }
  }

  // The counter block J0 of a 96-bit IV.
  method InitialCounter(iv: array<bv8>) returns (j0: array<bv8>)
    requires iv.Length == 12
    ensures fresh(j0) && j0.Length == 16 && j0[..] == FirstCounter(iv[..])
  {
    j0 := new bv8[16];
    for i := 0 to 12
      invariant forall k :: 0 <= k < i ==> j0[k] == iv[k]
    {
      j0[i] := iv[i];
    }
    j0[12], j0[13], j0[14], j0[15] := 0, 0, 0, 1;
    assert j0[..] == iv[..] + [0, 0, 0, 1];
  }

  method HashKey(E: Cipher, key: Block) returns (H: array<bv8>)
    ensures fresh(H) && H.Length == 16 && H[..] == E(key, ZERO)
  {
    var zero := ZeroBlock();
    var h := E(key, zero[..]);
    H := new bv8[16];
    for i := 0 to 16
      invariant forall k :: 0 <= k < i ==> H[k] == h[k]
    {
      H[i] := h[i];
    }
    assert H[..] == h;
  }

  method GcmTag(E: Cipher, key: Block, H: array<bv8>, iv: array<bv8>, aad: array<bv8>, aadLen: uint32,
                ct: array<bv8>, ctLen: uint32, tag: array<bv8>)
    requires H.Length == 16 && H[..] == E(key, ZERO) && iv.Length == 12 && tag.Length == 16
    requires aadLen as int <= aad.Length && ctLen as int <= ct.Length
    requires aadLen <= 0xffff_fff0 && ctLen <= 0xffff_fff0
    requires tag != iv && tag != aad && tag != ct && tag != H
    modifies tag
    ensures IsTag(E, key, iv[..], aad[..aadLen], ct[..ctLen], tag[..])
  {
    hide Poly, Add, Ghash;
    var j0 := InitialCounter(iv);
    var S := GhashBytes(H, aad, aadLen, ct, ctLen);
    var ej0 := E(key, j0[..]);
    ghost var sum := S[..];
    for i := 0 to 16
      invariant S[..] == sum
      invariant forall k :: 0 <= k < i ==> tag[k] == sum[k] ^ ej0[k]
    {
      tag[i] := S[i] ^ ej0[i];
    }
    PolyXor(sum, ej0, tag[..]);
  }

  method Encrypt(E: Cipher, key: Block, iv: array<bv8>, aad: array<bv8>, aadLen: uint32,
                 pt: array<bv8>, ptLen: uint32, ct: array<bv8>, tag: array<bv8>)
    requires iv.Length == 12 && tag.Length == 16
    requires aadLen as int <= aad.Length && ptLen as int <= pt.Length && ptLen as int <= ct.Length
    requires aadLen <= 0xffff_fff0 && ptLen <= 0xffff_fff0
    requires ct != iv && ct != aad && tag != iv && tag != aad && tag != ct
    modifies ct, tag
    ensures ct[..ptLen] == Gctr(E, key, Inc32(FirstCounter(iv[..])), old(pt[..ptLen]))
    ensures IsTag(E, key, iv[..], aad[..aadLen], ct[..ptLen], tag[..])
    ensures forall k :: ptLen as int <= k < ct.Length ==> ct[k] == old(ct[k])
    ensures forall j: nat, counter: Block ::
              j < ptLen as nat && counter[..12] == iv[..] && Low32(counter) == (2 + j / 16) % 0x1_0000_0000 ==>
                ct[j] == old(pt[j]) ^ E(key, counter)[j % 16]
  {
    hide Inc32, Gctr, FirstCounter, IsTag;
    ghost var s := pt[..ptLen];
    forall j: nat, counter: Block | j < |s| && counter[..12] == iv[..] && Low32(counter) == (2 + j / 16) % 0x1_0000_0000
      ensures Gctr(E, key, Inc32(FirstCounter(iv[..])), s)[j] == s[j] ^ E(key, counter)[j % 16]
    {
      SealedByte(E, key, iv[..], s, j, counter);
    }
    var H := HashKey(E, key);
    var ctr := InitialCounter(iv);
    Inc32InPlace(ctr);
    GctrBytes(E, key, ctr, pt, ptLen, ct);
    GcmTag(E, key, H, iv, aad, aadLen, ct, ptLen, tag);
  }

  // diff accumulates every differing bit: zero exactly for equal tags.
  method SameTag(want: array<bv8>, tag: array<bv8>) returns (same: bool)
    requires want.Length == tag.Length == 16
    ensures same <==> want[..] == tag[..]
  {
    var diff: bv8 := 0;
    for i := 0 to 16
      invariant diff == 0 <==> forall k :: 0 <= k < i ==> want[k] == tag[k]
    {
      OrXor(diff, want[i], tag[i]);
      diff := diff | (want[i] ^ tag[i]);
    }
    same := diff == 0;
    assert same ==> want[..] == tag[..];
  }

  lemma OrXor(d: bv8, x: bv8, y: bv8)
    ensures d | (x ^ y) == 0 <==> d == 0 && x == y
  {}

  method Decrypt(E: Cipher, key: Block, iv: array<bv8>, aad: array<bv8>, aadLen: uint32,
                 ct: array<bv8>, ctLen: uint32, tag: array<bv8>, pt: array<bv8>) returns (r: int)
    requires iv.Length == 12 && tag.Length == 16
    requires aadLen as int <= aad.Length && ctLen as int <= ct.Length && ctLen as int <= pt.Length
    requires aadLen <= 0xffff_fff0 && ctLen <= 0xffff_fff0
    modifies pt
    ensures r == 0 || r == -1
    ensures r == 0 <==> IsTag(E, key, old(iv[..]), old(aad[..aadLen]), old(ct[..ctLen]), old(tag[..]))
    ensures r == 0 ==> pt[..ctLen] == Gctr(E, key, Inc32(FirstCounter(old(iv[..]))), old(ct[..ctLen]))
    ensures r == -1 ==> pt[..] == old(pt[..])
    ensures forall k :: ctLen as int <= k < pt.Length ==> pt[k] == old(pt[k])
  {
    hide Inc32, Gctr, FirstCounter, IsTag;
    var H := HashKey(E, key);
    var want := new bv8[16];
    GcmTag(E, key, H, iv, aad, aadLen, ct, ctLen, want);
    var same := SameTag(want, tag);
    if IsTag(E, key, iv[..], aad[..aadLen], ct[..ctLen], tag[..]) {
      TagUnique(E, key, iv[..], aad[..aadLen], ct[..ctLen], want[..], tag[..]);
    }
    if !same { return -1; }
    var ctr := InitialCounter(iv);
    Inc32InPlace(ctr);
    GctrBytes(E, key, ctr, ct, ctLen, pt);
    return 0;
  }

  // Sealing and opening with the same key, IV and associated data: the call
  // accepts and returns the plaintext.
  method SealThenOpen(E: Cipher, key: Block, iv: array<bv8>, aad: array<bv8>, aadLen: uint32,
                      pt: array<bv8>, ptLen: uint32, ct: array<bv8>, tag: array<bv8>, out: array<bv8>) returns (r: int)
    requires iv.Length == 12 && tag.Length == 16
    requires aadLen as int <= aad.Length && ptLen as int <= pt.Length && ptLen as int <= ct.Length && ptLen as int <= out.Length
    requires aadLen <= 0xffff_fff0 && ptLen <= 0xffff_fff0
    requires ct != iv && ct != aad && tag != iv && tag != aad && tag != ct
    modifies ct, tag, out
    ensures r == 0 && out[..ptLen] == old(pt[..ptLen])
  {
    hide Inc32, Gctr, FirstCounter, IsTag;
    ghost var j0 := FirstCounter(iv[..]);
    Encrypt(E, key, iv, aad, aadLen, pt, ptLen, ct, tag);
    r := Decrypt(E, key, iv, aad, aadLen, ct, ptLen, tag, out);
    GctrInvolution(E, key, Inc32(j0), old(pt[..ptLen]));
  }
}
