// Buffered FILE streams over one kernel file (user/libc.c:590-735).
module Stdio {
  // The kernel's side is kernel/core/syscall.c:815-833 and
  // kernel/fs/vfs.c:615-676.  The stream with its buffer behaves as a plain file
  // with one position.

  import opened Words

  const MAX_OFFSET: nat := 0x1_0000_0000

  // ---- A plain file ----

  // Write data at p.  A gap is filled with zeros; writing nothing changes nothing.
  function Overwrite(c: seq<byte>, p: nat, data: seq<byte>): (r: seq<byte>) {
    if data == [] then c
    else
      var head := if p <= |c| then c[..p] else c + seq(p - |c|, i => 0 as byte);
      head + data + (if p + |data| <= |c| then c[p + |data|..] else [])
  }

  datatype Plain = Plain(content: seq<byte>, pos: nat, canRead: bool, canWrite: bool, eof: bool, err: bool)

  datatype Whence = Set | Cur | End

  // Where lseek goes, or a negative number.  The size is a signed 32-bit
  // number to the kernel.
  function Target(c: seq<byte>, pos: nat, offset: int, whence: Whence): int {
    match whence
    case Set => offset
    case Cur => pos + offset
    case End => (if |c| < MAX_OFFSET / 2 then |c| else 0) + offset
  }

  function Get(f: Plain): (Plain, int) {
    if !f.canRead then (f.(err := true), -1)
    else if f.pos < |f.content| then (f.(pos := f.pos + 1), f.content[f.pos] as int)
    else (f.(eof := true), -1)
  }

  function Put(f: Plain, c: int): (Plain, int) {
    if !f.canWrite then (f.(err := true), -1)
    else (f.(content := Overwrite(f.content, f.pos, [(c % 256) as byte]), pos := f.pos + 1), c % 256)
  }

  function Seek(f: Plain, offset: int, whence: Whence): (Plain, int) {
    var t := Target(f.content, f.pos, offset, whence);
    if t < 0 then (f.(eof := false, err := true), -1)
    else (f.(eof := false, pos := t % MAX_OFFSET), 0)
  }

  // ---- Overwriting ----

  lemma OverwriteAt(c: seq<byte>, p: nat, data: seq<byte>, k: nat)
    requires k < |Overwrite(c, p, data)|
    ensures Overwrite(c, p, data)[k] ==
            if p <= k < p + |data| then data[k - p] else if k < |c| then c[k] else 0
  {}

  lemma OverwriteLength(c: seq<byte>, p: nat, data: seq<byte>)
    ensures |Overwrite(c, p, data)| == if data == [] || p + |data| <= |c| then |c| else p + |data|
  {}

  lemma TwiceAt(c: seq<byte>, p: nat, a: seq<byte>, b: seq<byte>, k: nat)
    requires a != [] && b != []
    ensures |Overwrite(Overwrite(c, p, a), p + |a|, b)| == |Overwrite(c, p, a + b)|
    ensures k < |Overwrite(c, p, a + b)| ==> Overwrite(Overwrite(c, p, a), p + |a|, b)[k] == Overwrite(c, p, a + b)[k]
  {
    hide Overwrite;
    var once := Overwrite(c, p, a);
    OverwriteLength(c, p, a);
    OverwriteLength(once, p + |a|, b);
    OverwriteLength(c, p, a + b);
    if k < |Overwrite(c, p, a + b)| {
      OverwriteAt(once, p + |a|, b, k);
      if k < |once| { OverwriteAt(c, p, a, k); }
      OverwriteAt(c, p, a + b, k);
    }
  }

  // Two adjacent writes are one.
  lemma OverwriteTwice(c: seq<byte>, p: nat, a: seq<byte>, b: seq<byte>)
    ensures Overwrite(Overwrite(c, p, a), p + |a|, b) == Overwrite(c, p, a + b)
  {
    hide Overwrite;
    if b == [] {
      OverwriteNothing(Overwrite(c, p, a), p + |a|);
      assert a + b == a;
    } else if a == [] {
      OverwriteNothing(c, p);
      assert a + b == b;
    } else {
      TwiceAt(c, p, a, b, 0);
      forall k: nat | k < |Overwrite(c, p, a + b)|
        ensures Overwrite(Overwrite(c, p, a), p + |a|, b)[k] == Overwrite(c, p, a + b)[k]
      {
        TwiceAt(c, p, a, b, k);
      }
    }
  }

  // ---- Round trip on the plain file ----

  function PutAll(f: Plain, data: seq<byte>): Plain
    decreases |data|
  {
    if data == [] then f else PutAll(Put(f, data[0] as int).0, data[1..])
  }

  function GetAll(f: Plain, n: nat): (Plain, seq<int>)
    decreases n
  {
    if n == 0 then (f, [])
    else
      var (g, b) := Get(f);
      var (h, rest) := GetAll(g, n - 1);
      (h, [b] + rest)
  }

  lemma {:induction false} PutAllIs(f: Plain, data: seq<byte>)
    requires f.canWrite
    ensures PutAll(f, data) == f.(content := Overwrite(f.content, f.pos, data), pos := f.pos + |data|)
    decreases |data|
  {
    hide Overwrite;
    if data == [] {
      OverwriteNothing(f.content, f.pos);
    } else {
      var g := Put(f, data[0] as int).0;
      PutAllIs(g, data[1..]);
      OverwriteTwice(f.content, f.pos, [data[0]], data[1..]);
      assert [data[0]] + data[1..] == data;
    }
  }

  lemma OverwriteNothing(c: seq<byte>, p: nat)
    ensures Overwrite(c, p, []) == c
  {}

  lemma {:induction false} GetAllIs(f: Plain, n: nat)
    requires f.canRead && f.pos + n <= |f.content|
    ensures GetAll(f, n).1 == seq(n, i requires 0 <= i < n => f.content[f.pos + i] as int)
    decreases n
  {
    if n > 0 {
      GetAllIs(Get(f).0, n - 1);
    }
  }

  // What was written is read back from the same place.
  lemma ReadBack(f: Plain, data: seq<byte>)
    requires f.canRead && f.canWrite && f.pos < MAX_OFFSET
    ensures var g := Seek(PutAll(f, data), f.pos, Set).0;
            GetAll(g, |data|).1 == seq(|data|, i requires 0 <= i < |data| => data[i] as int)
  {
    hide Overwrite, GetAll, PutAll;
    PutAllIs(f, data);
    OverwriteLength(f.content, f.pos, data);
    var g := Seek(PutAll(f, data), f.pos, Set).0;
    assert g.content == Overwrite(f.content, f.pos, data) && g.pos == f.pos && g.canRead;
    if data == [] {
      NothingRead(g);
    } else {
      GetAllIs(g, |data|);
      OverwriteSlice(f.content, f.pos, data);
      SameBytes(g.content, f.pos, data);
    }
  }

  lemma OverwriteSlice(c: seq<byte>, p: nat, data: seq<byte>)
    requires data != []
    ensures p + |data| <= |Overwrite(c, p, data)| && Overwrite(c, p, data)[p..p + |data|] == data
  {}

  lemma SameBytes(c: seq<byte>, p: nat, data: seq<byte>)
    requires p + |data| <= |c| && c[p..p + |data|] == data
    ensures seq(|data|, i requires 0 <= i < |data| => c[p + i] as int) == seq(|data|, i requires 0 <= i < |data| => data[i] as int)
  {
    forall i: nat | i < |data| ensures c[p + i] == data[i] {
      assert c[p..p + |data|][i] == c[p + i];
    }
  }

  lemma NothingRead(f: Plain)
    ensures GetAll(f, 0).1 == []
  {}

  // ---- Seeking ----

  // From the start, from the position or from the end; a file of 2^31 bytes or
  // more counts as empty from the end.  Only the position and the flags change,
  // and a seek before the start fails.
  lemma SeekMeans(f: Plain, n: int, k: int)
    requires 0 <= n < 0x1_0000_0000 && k >= 0
    ensures Seek(f, n, Set) == (f.(eof := false, pos := n), 0)
    ensures f.pos + n < 0x1_0000_0000 ==> Seek(f, n, Cur) == (f.(eof := false, pos := f.pos + n), 0)
    ensures k <= f.pos < 0x1_0000_0000 ==> Seek(f, -k, Cur) == (f.(eof := false, pos := f.pos - k), 0)
    ensures |f.content| < 0x8000_0000 && |f.content| + n < 0x1_0000_0000 ==>
              Seek(f, n, End) == (f.(eof := false, pos := |f.content| + n), 0)
    ensures k <= |f.content| < 0x8000_0000 ==> Seek(f, -k, End) == (f.(eof := false, pos := |f.content| - k), 0)
    ensures |f.content| >= 0x8000_0000 ==> Seek(f, n, End) == (f.(eof := false, pos := n), 0)
    ensures k > 0 ==> Seek(f, -k, Set) == (f.(eof := false, err := true), -1)
    ensures k > f.pos ==> Seek(f, -k, Cur) == (f.(eof := false, err := true), -1)
    ensures k > |f.content| ==> Seek(f, -k, End) == (f.(eof := false, err := true), -1)
  {
    SmallMod(n);
    if f.pos + n < MAX_OFFSET { SmallMod(f.pos + n); }
    if |f.content| + n < MAX_OFFSET { SmallMod(|f.content| + n); }
    if k <= f.pos < MAX_OFFSET { SmallMod(f.pos - k); }
    if k <= |f.content| < MAX_OFFSET { SmallMod(|f.content| - k); }
  }

  // What is put after a seek to the end is appended.
  lemma AppendAtEnd(f: Plain, data: seq<byte>)
    requires f.canWrite && |f.content| < 0x8000_0000
    ensures PutAll(Seek(f, 0, End).0, data).content == f.content + data
  {
    SeekMeans(f, 0, 0);
    PutAllIs(Seek(f, 0, End).0, data);
  }

  // n bytes before the end, the last n bytes are read, and then the end is met.
  lemma LastBytes(f: Plain, n: int)
    requires f.canRead && 0 <= n <= |f.content| < 0x8000_0000
    ensures var g := Seek(f, -n, End).0;
            && GetAll(g, n).1 == seq(n, i requires 0 <= i < n => f.content[|f.content| - n + i] as int)
            && Get(GetAll(g, n).0).1 == -1 && Get(GetAll(g, n).0).0.eof
  {
    SeekMeans(f, 0, n);
    hide GetAll, Seek;
    var g := Seek(f, -n, End).0;
    GetAllIs(g, n);
    GetAllPosition(g, n);
  }

  lemma {:induction false} GetAllPosition(f: Plain, n: nat)
    requires f.canRead && f.pos + n <= |f.content|
    ensures GetAll(f, n).0 == f.(pos := f.pos + n)
    decreases n
  {
    if n > 0 { GetAllPosition(Get(f).0, n - 1); }
  }

  // What the three calls do to the flags.
  lemma FlagsMean(f: Plain, c: int)
    ensures f.canRead && f.pos < |f.content| ==> Get(f) == (f.(pos := f.pos + 1), f.content[f.pos] as int)
    ensures f.canRead && f.pos >= |f.content| ==> Get(f) == (f.(eof := true), -1)
    ensures !f.canRead ==> Get(f) == (f.(err := true), -1)
    ensures !f.canWrite ==> Put(f, c) == (f.(err := true), -1)
    ensures f.canWrite ==> Put(f, c).1 == c % 0x100 && Put(f, c).0.eof == f.eof && Put(f, c).0.err == f.err
  {}

  // ---- The kernel file ----

  class OsFile {
    var content: seq<byte>
    var pos: nat

    constructor (content: seq<byte>)
      ensures this.content == content && pos == 0
    {
      this.content := content;
      pos := 0;
    }

    method Read(n: nat) returns (data: seq<byte>)
      requires n > 0
      modifies this`pos
      ensures pos == old(pos) + |data| && |data| <= n
      ensures data == [] <==> old(pos) >= |content|
      ensures data != [] ==> pos <= |content| && data == content[old(pos)..pos] && (|data| == n || pos == |content|)
    {
      if pos >= |content| { return []; }
      var end := if pos + n <= |content| then pos + n else |content|;
      data := content[pos..end];
      pos := end;
    }

    method Write(data: seq<byte>) returns (n: int)
      modifies this
      ensures old(pos) + |data| >= 0x1_0000_0000 ==> n == -1 && content == old(content) && pos == old(pos)
      ensures old(pos) + |data| < 0x1_0000_0000 ==>
        n == |data| && content == Overwrite(old(content), old(pos), data) && pos == old(pos) + |data|
    {
      if pos + |data| >= MAX_OFFSET { return -1; }
      content := Overwrite(content, pos, data);
      pos := pos + |data|;
      return |data|;
    }

    method LSeek(offset: int, whence: Whence) returns (r: int)
      modifies this`pos
      ensures var t := Target(content, old(pos), offset, whence);
              if t < 0 then r == -1 && pos == old(pos) else r == pos == t % MAX_OFFSET
      ensures whence.Set? && 0 <= offset < 0x1_0000_0000 ==> r == pos == offset
      ensures whence.Cur? && 0 <= old(pos) + offset < 0x1_0000_0000 ==> r == pos == old(pos) + offset
      ensures whence.End? && |content| < 0x8000_0000 && 0 <= |content| + offset < 0x1_0000_0000 ==>
                r == pos == |content| + offset
      ensures whence.End? && |content| >= 0x8000_0000 && 0 <= offset < 0x1_0000_0000 ==> r == pos == offset
    {
      var t := Target(content, pos, offset, whence);
      if t < 0 { return -1; }
      if t < MAX_OFFSET { SmallMod(t); }
      pos := t % MAX_OFFSET;
      return pos;
    }
  }

  lemma SmallMod(x: nat)
    requires x < MAX_OFFSET
    ensures x % MAX_OFFSET == x
  {}

  // ---- The stream ----

  datatype Mode = Idle | Reading | Writing

  const BUFSIZ: nat := 1024

  class Stream {
    const fd: OsFile
    const buf: array<byte>
    var pos: nat
    var len: nat
    var mode: Mode
    const canRead: bool
    const canWrite: bool
    var eof: bool
    var err: bool
    const flushEach: bool

    constructor (fd: OsFile, canRead: bool, canWrite: bool, flushEach: bool)
      requires fd.pos < MAX_OFFSET && |fd.content| < MAX_OFFSET
      ensures Valid() && Fits() && fresh(buf) && this.fd == fd
      ensures View() == Plain(fd.content, fd.pos, canRead, canWrite, false, false)
    {
      this.fd := fd;
      buf := new byte[BUFSIZ];
      pos := 0;
      len := 0;
      mode := Idle;
      this.canRead := canRead;
      this.canWrite := canWrite;
      eof := false;
      err := false;
      this.flushEach := flushEach;
    }

    // The buffer may be full, as it is for a moment inside fputc.
    ghost predicate Coherent()
      reads this, fd, buf
    {
      && buf.Length == BUFSIZ && pos <= len <= BUFSIZ && |fd.content| < MAX_OFFSET
      && match mode
         case Idle => len == 0 && fd.pos < MAX_OFFSET
         case Reading => len <= fd.pos <= |fd.content| && buf[..len] == fd.content[fd.pos - len..fd.pos]
         case Writing => pos == 0 && fd.pos < MAX_OFFSET
    }

    // The pending bytes lie below the kernel's file size limit.
    ghost predicate Fits()
      reads this, fd
    {
      mode.Writing? ==> fd.pos + len < MAX_OFFSET
    }

    ghost predicate Valid()
      reads this, fd, buf
    {
      Coherent() && (mode.Writing? ==> len < BUFSIZ)
    }

    // The plain file this stream stands for.
    ghost function View(): Plain
      requires Coherent()
      reads this, fd, buf
    {
      match mode
      case Idle => Plain(fd.content, fd.pos, canRead, canWrite, eof, err)
      case Reading => Plain(fd.content, fd.pos - (len - pos), canRead, canWrite, eof, err)
      case Writing => Plain(Overwrite(fd.content, fd.pos, buf[..len]), fd.pos + len, canRead, canWrite, eof, err)
    }

    // What is left when the pending bytes are dropped.
    ghost function Kept(): Plain
      reads this, fd
    {
      Plain(fd.content, fd.pos, canRead, canWrite, eof, true)
    }

    // After a flush the kernel's file holds everything written, unless the
    // pending bytes reach past the largest file: then they are dropped.
    method FFlush() returns (r: int)
      requires Coherent()
      modifies this, fd
      ensures Valid() && Fits() && mode == old(mode) && (mode.Writing? ==> len == 0) && fd.content == View().content
      ensures old(Fits()) ==> r == 0 && View() == old(View())
      ensures !old(Fits()) ==> r == -1 && View() == old(Kept())
    {
      hide Overwrite;
      OverwriteNothing(fd.content, fd.pos);
      OverwriteLength(fd.content, fd.pos, buf[..len]);
      if mode.Writing? && len > 0 {
        var n := fd.Write(buf[..len]);
        if n < len {
          err := true;
          len := 0;
          OverwriteNothing(fd.content, fd.pos);
          return -1;
        }
        len := 0;
        OverwriteNothing(fd.content, fd.pos);
      }
      return 0;
    }

    // Read the next stretch of the file into the buffer, unless at its end.
    method Refill() returns (ok: bool)
      requires Valid() && canRead && (mode.Idle? || (mode.Reading? && pos == len))
      modifies this, fd, buf
      ensures Valid() && Fits() && (ok <==> old(View().pos) < |View().content|)
      ensures View() == old(View()).(eof := old(eof) || !ok)
      ensures ok ==> mode.Reading? && pos < len
    {
      hide Overwrite;
      var data := fd.Read(BUFSIZ);
      if data == [] {
        eof := true;
        return false;
      }
      Fill(data);
      len := |data|;
      pos := 0;
      mode := Reading;
      return true;
    }

    method Take() returns (c: int)
      requires Valid() && mode.Reading? && pos < len
      modifies this`pos
      ensures Valid() && Fits() && View() == old(View()).(pos := old(View().pos) + 1)
      ensures old(View().pos) < |View().content| && c == View().content[old(View().pos)] as int
    {
      assert buf[..len][pos] == fd.content[fd.pos - len..fd.pos][pos];
      c := buf[pos] as int;
      pos := pos + 1;
    }

    method FGetc() returns (c: int)
      requires Valid()
      modifies this, fd, buf
      ensures Valid() && (old(Fits()) ==> Fits())
      ensures old(Fits()) || !canRead ==> (View(), c) == Get(old(View()))
      ensures !old(Fits()) && canRead ==> c == -1 && View() == old(Kept())
    {
      hide Overwrite;
      ghost var v := View();
      if !canRead {
        err := true;
        return -1;
      }
      var stopped := StopWriting();
      if !stopped { return -1; }
      if !mode.Reading? || pos >= len {
        var ok := Refill();
        if !ok { return -1; }
      }
      c := Take();
    }

    // Flush pending bytes; false if the flush failed.
    method StopWriting() returns (ok: bool)
      requires Valid()
      modifies this, fd
      ensures Valid() && Fits() && ok == old(Fits()) && fd.content == View().content
      ensures if ok then !mode.Writing? && View() == old(View()) else View() == old(Kept())
      ensures old(mode).Reading? ==> mode == old(mode) && pos == old(pos) && len == old(len)
    {
      hide Overwrite;
      if mode.Writing? {
        var flushed := FFlush();
        if flushed == -1 { return false; }
        LeaveWriting();
      }
      return true;
    }

    // An empty write buffer is no buffer.
    method LeaveWriting()
      requires Valid() && mode.Writing? && len == 0
      modifies this`mode
      ensures Valid() && mode == Idle && View() == old(View())
    {
      OverwriteNothing(fd.content, fd.pos);
      mode := Idle;
    }

    // The kernel's copy into the buffer.
    method Fill(data: seq<byte>)
      requires |data| <= buf.Length
      modifies buf
      ensures buf[..|data|] == data
    {
      for i := 0 to |data|
        invariant buf[..i] == data[..i]
      {
        buf[i] := data[i];
      }
    }

    // Move the file back to the first byte not yet read, and start writing.
    method StartWriting()
      requires Valid()
      modifies this, fd
      ensures Valid() && mode == Writing && View() == old(View()) && fd.content == old(fd.content)
      ensures if old(mode).Writing? then fd.pos == old(fd.pos) else len == 0
      ensures old(mode).Writing? ==> len == old(len)
    {
      hide Overwrite;
      OverwriteNothing(fd.content, fd.pos);
      if mode.Reading? {
        if len > pos {
          var at := fd.LSeek(-((len - pos) as int), Cur);
        }
        len := 0;
        pos := 0;
        mode := Idle;
      }
      OverwriteNothing(fd.content, fd.pos);
      if !mode.Writing? {
        mode := Writing;
        len := 0;
      }
    }

    method Append(b: byte)
      requires Valid() && mode == Writing
      modifies this`len, buf
      ensures Coherent() && mode == Writing && len == old(len) + 1
      ensures View() == old(View()).(content := Overwrite(old(View().content), old(View().pos), [b]), pos := old(View().pos) + 1)
    {
      hide Overwrite;
      ghost var before := buf[..len];
      buf[len] := b;
      len := len + 1;
      assert buf[..len] == before + [b];
      OverwriteTwice(fd.content, fd.pos, before, [b]);
    }

    // A byte that no kernel file can hold stays pending for a while, but the next
    // flush drops it with all the bytes pending before it.
    method FPutc(c: int) returns (r: int)
      requires Valid()
      modifies this, fd, buf
      ensures Valid()
      ensures !canWrite || old(View().pos) + 1 < MAX_OFFSET ==> (View(), r) == Put(old(View()), c)
      ensures old(Fits()) && (!canWrite || old(View().pos) + 1 < MAX_OFFSET) ==> Fits()
      ensures flushEach && canWrite ==> fd.content == View().content
      ensures canWrite && old(View().pos) + 1 >= MAX_OFFSET ==>
                fd.content == old(fd.content) &&
                if flushEach || (old(mode).Writing? && old(len) + 1 == BUFSIZ) then r == -1 && View() == Kept()
                else !Fits() && (View(), r) == Put(old(View()), c)
    {
      hide Overwrite;
      if !canWrite {
        err := true;
        return -1;
      }
      StartWriting();
      Append((c % 256) as byte);
      if flushEach || len == BUFSIZ {
        var flushed := FFlush();
        if flushed == -1 { return -1; }
      }
      return c % 256;
    }

    // Empty the buffer, leaving the file at the logical position.
    method Sync() returns (ok: bool)
      requires Valid()
      modifies this, fd
      ensures Valid() && Fits() && ok == old(Fits()) && fd.content == View().content
      ensures if ok then mode == Idle && pos == 0 && View() == old(View()) else View() == old(Kept())
    {
      hide Overwrite;
      var stopped := StopWriting();
      if !stopped { return false; }
      if mode.Reading? && len > pos {
        var at := fd.LSeek(-((len - pos) as int), Cur);
      }
      mode := Idle;
      pos := 0;
      len := 0;
      return true;
    }

    method FSeek(offset: int, whence: Whence) returns (r: int)
      requires Valid()
      modifies this, fd
      ensures Valid() && Fits() && fd.content == View().content
      ensures if old(Fits()) then (View(), r) == Seek(old(View()), offset, whence) else r == -1 && View() == old(Kept())
    {
      var ok := Sync();
      if !ok { return -1; }
      eof := false;
      var at := fd.LSeek(offset, whence);
      if at < 0 {
        err := true;
        return -1;
      }
      return 0;
    }

    method FTell() returns (off: int)
      requires Valid()
      modifies fd`pos
      ensures Valid() && View() == old(View()) && off == View().pos && (old(Fits()) ==> Fits())
    {
      hide Overwrite;
      assert fd.pos < MAX_OFFSET;
      SmallMod(fd.pos);
      off := fd.LSeek(0, Cur);
      assert off == fd.pos == old(fd.pos);
      if mode.Writing? {
        off := off + len;
      } else if mode.Reading? {
        off := off - (len - pos);
      }
    }
  }

  // ---- Any interleaving of calls ----

  datatype Op = GetOp | PutOp(c: int) | FlushOp | SeekOp(offset: int, whence: Whence) | TellOp

  function Do(f: Plain, op: Op): (Plain, int) {
    match op
    case GetOp => Get(f)
    case PutOp(c) => Put(f, c)
    case FlushOp => (f, 0)
    case SeekOp(offset, whence) => Seek(f, offset, whence)
    case TellOp => (f, f.pos)
  }

  function DoAll(f: Plain, ops: seq<Op>): (Plain, seq<int>)
    decreases |ops|
  {
    if ops == [] then (f, [])
    else
      var (g, r) := Do(f, ops[0]);
      var (h, rs) := DoAll(g, ops[1..]);
      (h, [r] + rs)
  }

  // No byte is put at or past the largest file offset.
  predicate PutsInRange(f: Plain, op: Op) {
    op.PutOp? && f.canWrite ==> f.pos + 1 < MAX_OFFSET
  }

  predicate InRange(f: Plain, ops: seq<Op>)
    decreases |ops|
  {
    ops == [] || (PutsInRange(f, ops[0]) && InRange(Do(f, ops[0]).0, ops[1..]))
  }

  // A plain file never gets shorter, and a byte out of range makes it longer
  // than any kernel file.
  lemma DoGrows(f: Plain, op: Op)
    ensures |Do(f, op).0.content| >= |f.content|
    ensures !PutsInRange(f, op) ==> |Do(f, op).0.content| >= MAX_OFFSET
  {}

  lemma {:induction false} DoAllGrows(f: Plain, ops: seq<Op>)
    ensures |DoAll(f, ops).0.content| >= |f.content|
    ensures !InRange(f, ops) ==> |DoAll(f, ops).0.content| >= MAX_OFFSET
    decreases |ops|
  {
    hide Do;
    if ops != [] {
      DoGrows(f, ops[0]);
      DoAllGrows(Do(f, ops[0]).0, ops[1..]);
    }
  }

  lemma DoAllStep(f: Plain, ops: seq<Op>)
    requires ops != []
    ensures DoAll(f, ops).0 == DoAll(Do(f, ops[0]).0, ops[1..]).0
    ensures DoAll(f, ops).1 == [Do(f, ops[0]).1] + DoAll(Do(f, ops[0]).0, ops[1..]).1
  {}

  method Call(s: Stream, op: Op) returns (r: int)
    requires s.Valid()
    modifies s, s.fd, s.buf
    ensures s.Valid()
    ensures old(s.Fits()) && PutsInRange(old(s.View()), op) ==> s.Fits() && (s.View(), r) == Do(old(s.View()), op)
    ensures op.FlushOp? || op.SeekOp? ==> s.fd.content == s.View().content
  {
    match op {
      case GetOp => r := s.FGetc();
      case PutOp(c) => r := s.FPutc(c);
      case FlushOp => r := s.FFlush();
      case SeekOp(offset, whence) => r := s.FSeek(offset, whence);
      case TellOp => r := s.FTell();
    }
  }

  // Over any interleaving the stream returns what the plain file returns and
  // ends with its content; a final flush puts that content in the kernel file.
  // It does so exactly when no byte is put at or past the largest file offset.
  method Play(s: Stream, ops: seq<Op>) returns (rs: seq<int>)
    requires s.Valid() && s.Fits()
    modifies s, s.fd, s.buf
    ensures s.Valid() && s.fd.content == s.View().content
    ensures InRange(old(s.View()), ops) ==> (s.View(), rs) == DoAll(old(s.View()), ops)
    ensures s.fd.content == DoAll(old(s.View()), ops).0.content <==> InRange(old(s.View()), ops)
  {
    hide Do, Overwrite, DoAll, PutsInRange;
    ghost var v := s.View();
    ghost var goal := DoAll(v, ops);
    rs := [];
    assert ops[0..] == ops;
    for i := 0 to |ops|
      invariant s.Valid()
      invariant InRange(v, ops) ==> s.Fits() && InRange(s.View(), ops[i..])
      invariant InRange(v, ops) ==> goal.0 == DoAll(s.View(), ops[i..]).0 && goal.1 == rs + DoAll(s.View(), ops[i..]).1
    {
      DoAllStep(s.View(), ops[i..]);
      assert ops[i..][1..] == ops[i + 1..];
      var r := Call(s, ops[i]);
      rs := rs + [r];
    }
    assert ops[|ops|..] == [];
    DoAllEnd(s.View());
    assert rs + [] == rs;
    DoAllGrows(v, ops);
    var flushed := s.FFlush();
  }

  lemma DoAllEnd(f: Plain)
    ensures DoAll(f, []) == (f, [])
  {}
}
