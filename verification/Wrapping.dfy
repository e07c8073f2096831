// What the userland encoders and decoders share: buffered output, wrapped
// lines, and skipped white space (user/base64.c:25-29, 54-59, 112-124;
// user/base32.c:24-29, 51-56, 110-125).
module Wrapping {
  import ModArith

  // ---- Buffered output ----

  const BUFSIZE: nat := 1024

  class Writer<T(0)> {
    const wbuf: array<T>
    var wn: nat
    var out: seq<T> // what has been written to the file descriptor

    ghost predicate Valid()
      reads this
    {
      wbuf.Length == BUFSIZE && wn <= BUFSIZE
    }

    // Everything put so far.
    ghost function Contents(): seq<T>
      requires Valid()
      reads this, wbuf
    {
      out + wbuf[..wn]
    }

    constructor ()
      ensures Valid() && fresh(wbuf) && Contents() == []
    {
      wbuf := new T[BUFSIZE];
      wn := 0;
      out := [];
    }

    method Flush()
      requires Valid()
      modifies this
      ensures Valid() && Contents() == old(Contents()) && wn == 0 && out == Contents()
    {
      if wn > 0 {
        out := out + wbuf[..wn];
        wn := 0;
      }
    }

    method Put(c: T)
      requires Valid()
      modifies this, wbuf
      ensures Valid() && Contents() == old(Contents()) + [c]
    {
      if wn == BUFSIZE { Flush(); }
      wbuf[wn] := c;
      wn := wn + 1;
    }
  }

  // ---- White space ----

  predicate IsSpace(c: char) {
    c == '\n' || c == '\r' || c == '\t' || c == ' '
  }

  function Strip(t: string): string {
    if t == "" then ""
    else if IsSpace(t[0]) then Strip(t[1..])
    else [t[0]] + Strip(t[1..])
  }

  lemma {:induction false} StripAppend(s: string, t: string)
    ensures Strip(s + t) == Strip(s) + Strip(t)
  {
    if s == "" {
      assert s + t == t;
    } else {
      assert (s + t)[1..] == s[1..] + t;
      StripAppend(s[1..], t);
    }
  }

  lemma StripOne(c: char)
    ensures Strip([c]) == if IsSpace(c) then "" else [c]
  {
    assert [c][1..] == "";
  }

  // Stripping removes these four characters wherever they stand.
  lemma StripAround(s: string, c: char, t: string)
    ensures Strip(s + [c] + t) ==
            Strip(s) + (if c == '\n' || c == '\r' || c == '\t' || c == ' ' then "" else [c]) + Strip(t)
    ensures Strip("") == ""
  {
    hide Strip;
    StripAppend(s + [c], t);
    StripAppend(s, [c]);
    StripOne(c);
    StripNone("");
  }

  // A final newline or nothing.
  lemma StripEnd(tail: string)
    requires tail == "" || tail == "\n"
    ensures Strip(tail) == ""
  {
    StripOne('\n');
  }

  lemma {:induction false} StripNone(t: string)
    requires forall i :: 0 <= i < |t| ==> !IsSpace(t[i])
    ensures Strip(t) == t
  {
    if t != "" { StripNone(t[1..]); }
  }

  lemma {:induction false} StripClean(t: string)
    ensures forall i :: 0 <= i < |Strip(t)| ==> !IsSpace(Strip(t)[i])
  {
    if t != "" { StripClean(t[1..]); }
  }

  // ---- Wrapped lines ----

  // A newline after every wrap characters; wrap 0 is one long line.
  function Layout(text: string, wrap: nat): string {
    if text == "" then ""
    else Layout(text[..|text| - 1], wrap) + [text[|text| - 1]] + if wrap > 0 && |text| % wrap == 0 then "\n" else ""
  }

  // Wrapping adds nothing but white space.
  lemma {:induction false} StripLayout(text: string, wrap: nat)
    ensures Strip(Layout(text, wrap)) == Strip(text)
  {
    if text != "" {
      var front, c := text[..|text| - 1], text[|text| - 1];
      var newline := if wrap > 0 && |text| % wrap == 0 then "\n" else "";
      StripLayout(front, wrap);
      StripAppend(front, [c]);
      StripAppend(Layout(front, wrap), [c]);
      StripAppend(Layout(front, wrap) + [c], newline);
      StripOne('\n');
      assert text == front + [c];
    }
  }

  // Newlines stand exactly after every wrap characters: every line but the last
  // is full, and the last has what remains.
  lemma {:induction false} LayoutLines(text: string, wrap: nat)
    requires wrap > 0 && forall i :: 0 <= i < |text| ==> !IsSpace(text[i])
    ensures |Layout(text, wrap)| == |text| + |text| / wrap
    ensures forall k :: 0 <= k < |Layout(text, wrap)| ==>
              (Layout(text, wrap)[k] == '\n' <==> (k + 1) % (wrap + 1) == 0)
  {
    if text != "" {
      var front, c, n := text[..|text| - 1], text[|text| - 1], |text| - 1;
      LayoutLines(front, wrap);
      var line := Layout(front, wrap) + [c];
      NextColumn(n, wrap);
      LinePositions(n, wrap);
      assert line[n + n / wrap] == c && !IsSpace(c);
    } else {
      Remains(0, 0, wrap);
    }
  }

  lemma {:induction false} LayoutOneLine(text: string)
    ensures Layout(text, 0) == text
  {
    if text != "" { LayoutOneLine(text[..|text| - 1]); }
  }

  // The lines of n characters, the last one full or not.
  lemma LineCount(n: nat, wrap: nat)
    requires wrap > 0
    ensures (n + wrap - 1) / wrap == n / wrap + if n % wrap == 0 then 0 else 1
    ensures n % wrap == 0 ==> (n + n / wrap) % (wrap + 1) == 0
    ensures n % wrap != 0 ==> (n + n / wrap + 1) % (wrap + 1) != 0
  {
    var q, r := n / wrap, n % wrap;
    assert n == q * wrap + r;
    assert (q + 1) * wrap == q * wrap + wrap;
    assert q * (wrap + 1) == q * wrap + q;
    ModArith.DivModUnique(n + wrap - 1, if r == 0 then q else q + 1, if r == 0 then wrap - 1 else r - 1, wrap);
    ModArith.DivModUnique(n + q, q, r, wrap + 1);
    if r != 0 { ModArith.DivModUnique(n + q + 1, q, r + 1, wrap + 1); }
  }

  // Where the character after n others is put, and the newline behind it.
  lemma LinePositions(n: nat, wrap: nat)
    requires wrap > 0
    ensures (n + n / wrap + 1) % (wrap + 1) != 0
    ensures (n + 1) / wrap == n / wrap + (if n % wrap + 1 == wrap then 1 else 0)
    ensures n % wrap + 1 == wrap ==> (n + n / wrap + 2) % (wrap + 1) == 0
  {
    var q, r := n / wrap, n % wrap;
    var product := q * wrap;
    assert n == product + r;
    assert q * (wrap + 1) == product + q;
    ModArith.DivModUnique(n + q + 1, q, r + 1, wrap + 1);
    if r + 1 == wrap {
      assert (q + 1) * wrap == product + wrap;
      assert (q + 1) * (wrap + 1) == product + q + wrap + 1;
      ModArith.DivModUnique(n + 1, q + 1, 0, wrap);
      ModArith.DivModUnique(n + q + 2, q + 1, 0, wrap + 1);
    } else {
      ModArith.DivModUnique(n + 1, q, r + 1, wrap);
    }
  }

  lemma NextColumn(n: nat, wrap: nat)
    requires wrap > 0
    ensures (n + 1) % wrap == if n % wrap + 1 == wrap then 0 else n % wrap + 1
  {
    var q, r := n / wrap, n % wrap;
    assert n == q * wrap + r;
    if r + 1 == wrap {
      Exact(q, wrap);
    } else {
      Remains(q, r + 1, wrap);
    }
  }

  lemma Exact(q: nat, wrap: nat)
    requires wrap > 0
    ensures (q * wrap + wrap) % wrap == 0
  {
    ModArith.DivModUnique(q * wrap + wrap, q + 1, 0, wrap);
  }

  lemma Remains(q: nat, r: nat, wrap: nat)
    requires r < wrap
    ensures (q * wrap + r) % wrap == r
  {
    ModArith.DivModUnique(q * wrap + r, q, r, wrap);
  }

  lemma LayoutNext(text: string, c: char, wrap: nat)
    ensures Layout(text + [c], wrap) ==
            Layout(text, wrap) + [c] + if wrap > 0 && (|text| + 1) % wrap == 0 then "\n" else ""
  {
    assert (text + [c])[..|text|] == text;
  }

  // Put the characters of one group, breaking lines.
  method Emit(w: Writer<char>, q: string, col: nat, wrap: nat, ghost text: string) returns (col': nat)
    requires w.Valid() && w.Contents() == Layout(text, wrap) && col == (if wrap > 0 then |text| % wrap else 0)
    modifies w, w.wbuf
    ensures w.Valid() && w.Contents() == Layout(text + q, wrap)
    ensures col' == if wrap > 0 then |text + q| % wrap else 0
  {
    hide Layout;
    col' := col;
    assert text + q[..0] == text;
    for k := 0 to |q|
      invariant w.Valid() && w.Contents() == Layout(text + q[..k], wrap)
      invariant col' == if wrap > 0 then |text + q[..k]| % wrap else 0
    {
      assert text + q[..k + 1] == text + q[..k] + [q[k]];
      LayoutNext(text + q[..k], q[k], wrap);
      if wrap > 0 { NextColumn(|text| + k, wrap); }
      w.Put(q[k]);
      if wrap > 0 {
        col' := col' + 1;
        if col' == wrap {
          w.Put('\n');
          col' := 0;
        }
      }
    }
    assert text + q[..|q|] == text + q;
  }
}
