// Encoding and decoding a whole text group by group.  Decoding comes with or
// without skipping white space, and everything holds for any group codec of
// module Radix.
module RadixStream {
  import opened Words
  import opened Radix
  import opened Wrapping

  // ---- Encoding ----

  // text is the encoding of the first i bytes.
  ghost predicate Encoded(c: Codec, s: seq<byte>, i: nat, text: string)
    requires Sound(c)
  {
    i <= |s| && text + Encode(c, s[i..]) == Encode(c, s)
  }

  lemma EncodedStart(c: Codec, s: seq<byte>)
    requires Sound(c)
    ensures Encoded(c, s, 0, "")
  {
    hide Sound, Encode;
    assert s[0..] == s;
    assert "" + Encode(c, s) == Encode(c, s);
  }

  lemma EncodedNext(c: Codec, s: seq<byte>, i: nat, n: nat, text: string, group: string)
    requires Sound(c) && Encoded(c, s, i, text) && 1 <= n <= c.bytes && i + n <= |s| && (n == c.bytes || i + n == |s|)
    requires group == GroupText(c, s[i..i + n])
    ensures Encoded(c, s, i + n, text + group)
  {
    hide Sound, GroupText;
    EncodeStep(c, s[i..]);
    hide Encode;
    assert s[i..][..n] == s[i..i + n] && s[i..][n..] == s[i + n..];
    assert text + (group + Encode(c, s[i + n..])) == (text + group) + Encode(c, s[i + n..]);
  }

  lemma EncodedAll(c: Codec, s: seq<byte>, text: string)
    requires Sound(c) && Encoded(c, s, |s|, text)
    ensures text == Encode(c, s)
  {
    hide Sound;
    EncodeNothing(c);
    assert s[|s|..] == [];
  }

  // ---- Decoding ----

  ghost predicate GroupOf(c: Codec, t: string, s: seq<byte>)
    requires Sound(c)
  {
    GroupSize(c, s) && |t| == c.symbols && GroupText(c, s) == t
  }

  // What the decoder makes of a text that starts with the group q.
  lemma DecodeGroup(c: Codec, q: string, tail: string, bytes: seq<byte>)
    requires Sound(c) && |q| == c.symbols
    ensures GroupOf(c, q, bytes) ==>
              Decode(c, q + tail) == if |bytes| < c.bytes && tail != "" then None else Prepend(bytes, Decode(c, tail))
    ensures (forall s :: !GroupOf(c, q, s)) ==> Decode(c, q + tail) == None
  {
    hide GroupText;
    assert c.symbols > 0;
    assert (q + tail)[..c.symbols] == q && (q + tail)[c.symbols..] == tail;
    if GroupOf(c, q, bytes) {
      DecodeStep(c, bytes, tail);
      hide Decode;
      DecodeNothing(c);
      assert bytes + [] == bytes;
    } else if forall s :: !GroupOf(c, q, s) {
      var g := GroupBytes(c, q);
      assert g.Some? ==> GroupOf(c, q, g.value);
    }
  }

  // What decodes is a whole number of groups.
  lemma {:induction false} DecodeWhole(c: Codec, t: string) returns (groups: nat)
    requires Sound(c) && Decode(c, t).Some?
    ensures |t| == groups * c.symbols
    decreases |t|
  {
    groups := 0;
    if t != "" {
      assert c.symbols > 0;
      hide Sound, GroupText;
      var g := GroupBytes(c, t[..c.symbols]);
      groups := 1;
      if |g.value| == c.bytes {
        assert Decode(c, t[c.symbols..]).Some?;
        hide Decode, GroupBytes;
        var rest := DecodeWhole(c, t[c.symbols..]);
        groups := rest + 1;
        OneMore(rest, c.symbols);
      }
    }
  }

  lemma OneMore(k: nat, m: nat)
    ensures (k + 1) * m == k * m + m
  {}

  ghost predicate Decoded(c: Codec, t: string, i: nat, done: seq<byte>)
    requires Sound(c)
  {
    i <= |t| && Decode(c, t) == Prepend(done, Decode(c, t[i..]))
  }

  lemma DecodedStart(c: Codec, t: string)
    requires Sound(c)
    ensures Decoded(c, t, 0, [])
  {
    hide Sound, Decode;
    assert t[0..] == t;
    var d := Decode(c, t);
    if d.Some? { assert [] + d.value == d.value; }
  }

  // One more group: it goes on, or it is the end, or nothing decodes.
  lemma DecodedNext(c: Codec, t: string, i: nat, q: string, done: seq<byte>, bytes: seq<byte>)
    requires Sound(c) && Decoded(c, t, i, done) && i + c.symbols <= |t| && q == t[i..i + c.symbols]
    ensures GroupOf(c, q, bytes) && (|bytes| == c.bytes || i + c.symbols == |t|) ==> Decoded(c, t, i + c.symbols, done + bytes)
    ensures GroupOf(c, q, bytes) && |bytes| < c.bytes && i + c.symbols < |t| ==> Decode(c, t) == None
    ensures (forall s :: !GroupOf(c, q, s)) ==> Decode(c, t) == None
  {
    hide Sound, Decode, GroupOf;
    var tail := t[i + c.symbols..];
    assert t[i..] == q + tail;
    DecodeGroup(c, q, tail, bytes);
    PrependTwice(done, bytes, Decode(c, tail));
    GroupOfSize(c, q, bytes);
  }

  lemma GroupOfSize(c: Codec, q: string, bytes: seq<byte>)
    requires Sound(c)
    ensures GroupOf(c, q, bytes) ==> 1 <= |bytes| <= c.bytes
  {}

  lemma DecodedAll(c: Codec, t: string, done: seq<byte>)
    requires Sound(c) && Decoded(c, t, |t|, done)
    ensures Decode(c, t) == Some(done)
  {
    hide Sound, Decode;
    DecodeNothing(c);
    assert t[|t|..] == "" && done + [] == done;
  }

  lemma Exactly(c: Codec, t: string)
    requires Sound(c)
    ensures Decode(c, t) == None ==> forall s :: t != Encode(c, s)
    ensures forall s :: Decode(c, t) == Some(s) ==> t == Encode(c, s)
  {
    hide Sound, Decode, Encode;
    forall s ensures Decode(c, t) == Some(s) <==> t == Encode(c, s) {
      DecodeExact(c, t, s);
    }
  }

  // ---- Decoding a stream with white space ----

  // q is the group begun; after a padded group nothing but space may follow.
  ghost predicate Streamed(c: Codec, t: string, i: nat, q: string, done: bool, bytes: seq<byte>)
    requires Sound(c)
  {
    && i <= |t|
    && Decode(c, Strip(t)) ==
       if done then (if Strip(t[i..]) == "" then Some(bytes) else None)
       else Prepend(bytes, Decode(c, q + Strip(t[i..])))
  }

  lemma StreamedStart(c: Codec, t: string)
    requires Sound(c)
    ensures Streamed(c, t, 0, "", false, [])
  {
    hide Sound, Decode, Strip;
    assert t[0..] == t && "" + Strip(t) == Strip(t);
    var d := Decode(c, Strip(t));
    if d.Some? { assert [] + d.value == d.value; }
  }

  lemma StripNext(t: string, i: nat)
    requires i < |t|
    ensures Strip(t[i..]) == (if IsSpace(t[i]) then "" else [t[i]]) + Strip(t[i + 1..])
  {
    assert t[i..][1..] == t[i + 1..];
    hide IsSpace;
  }

  lemma StreamedSpace(c: Codec, t: string, i: nat, q: string, done: bool, bytes: seq<byte>)
    requires Sound(c) && Streamed(c, t, i, q, done, bytes) && i < |t| && IsSpace(t[i])
    ensures Streamed(c, t, i + 1, q, done, bytes)
  {
    hide Sound, Decode, Strip;
    StripNext(t, i);
    assert "" + Strip(t[i + 1..]) == Strip(t[i + 1..]);
  }

  lemma StreamedAfterEnd(c: Codec, t: string, i: nat, q: string, bytes: seq<byte>)
    requires Sound(c) && Streamed(c, t, i, q, true, bytes) && i < |t| && !IsSpace(t[i])
    ensures Decode(c, Strip(t)) == None
  {
    hide Sound, Decode, Strip;
    StripNext(t, i);
  }

  lemma StreamedChar(c: Codec, t: string, i: nat, q: string, bytes: seq<byte>)
    requires Sound(c) && Streamed(c, t, i, q, false, bytes) && i < |t| && !IsSpace(t[i])
    ensures Streamed(c, t, i + 1, q + [t[i]], false, bytes)
  {
    hide Sound, Decode, Strip;
    StripNext(t, i);
    assert q + ([t[i]] + Strip(t[i + 1..])) == (q + [t[i]]) + Strip(t[i + 1..]);
  }

  lemma StreamedGroup(c: Codec, t: string, i: nat, q: string, bytes: seq<byte>, more: seq<byte>)
    requires Sound(c) && Streamed(c, t, i, q, false, bytes) && |q| == c.symbols
    ensures GroupOf(c, q, more) ==> Streamed(c, t, i, "", |more| < c.bytes, bytes + more)
    ensures (forall s :: !GroupOf(c, q, s)) ==> Decode(c, Strip(t)) == None
  {
    hide Sound, Decode, Strip, GroupOf;
    var tail := Strip(t[i..]);
    DecodeGroup(c, q, tail, more);
    DecodeNothing(c);
    PrependTwice(bytes, more, Decode(c, tail));
    assert "" + tail == tail && more + [] == more;
  }

  lemma StreamedAll(c: Codec, t: string, q: string, done: bool, bytes: seq<byte>)
    requires Sound(c) && Streamed(c, t, |t|, q, done, bytes) && |q| < c.symbols
    ensures q == "" ==> Decode(c, Strip(t)) == Some(bytes)
    ensures q != "" && !done ==> Decode(c, Strip(t)) == None
  {
    hide Sound;
    assert t[|t|..] == "" && q + "" == q;
    assert bytes + [] == bytes;
  }

  // Wrapping an encoding, at any width, adds only white space.
  lemma StripWrapped(c: Codec, s: seq<byte>, wrap: nat, tail: string)
    requires Sound(c) && (forall i :: 0 <= i < |c.alphabet| ==> !IsSpace(c.alphabet[i])) && (tail == "" || tail == "\n")
    ensures Strip(Layout(Encode(c, s), wrap) + tail) == Encode(c, s)
  {
    hide Sound, Encode, Layout, Strip;
    var text := Encode(c, s);
    EncodeChars(c, s);
    StripAppend(Layout(text, wrap), tail);
    StripLayout(text, wrap);
    StripNone(text);
    StripOne('\n');
    StripNone("");
    assert text + "" == text;
  }

  method PutAll(w: Writer<byte>, bytes: seq<byte>)
    requires w.Valid()
    modifies w, w.wbuf
    ensures w.Valid() && w.Contents() == old(w.Contents()) + bytes
  {
    for k := 0 to |bytes|
      invariant w.Valid() && w.Contents() == old(w.Contents()) + bytes[..k]
    {
      w.Put(bytes[k]);
      assert bytes[..k + 1] == bytes[..k] + [bytes[k]];
    }
  }

  method Store<T>(out: array<T>, o: nat, items: seq<T>)
    requires o + |items| <= out.Length
    modifies out
    ensures out[..o + |items|] == old(out[..o]) + items
  {
    for k := 0 to |items|
      invariant out[..o + k] == old(out[..o]) + items[..k]
    {
      out[o + k] := items[k];
      assert out[..o + k + 1] == out[..o + k] + [items[k]];
    }
  }
}
