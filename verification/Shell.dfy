// The shell's passes as they run, each against its meaning in ShellModel.
module Shell {
  // user/sh.c:21-165, 257-282, 442-458 and 607-704.

  import opened ShellModel

  // Restore placeholder bytes, in place.
  method QUnprotect(s: array<char>)
    modifies s
    ensures s[..] == UnprotectAll(old(s[..]))
  {
    hide Unprotect;
    for i := 0 to s.Length
      invariant forall k :: 0 <= k < i ==> s[k] == Unprotect(old(s[k]))
      invariant forall k :: i <= k < s.Length ==> s[k] == old(s[k])
    {
      s[i] := Unprotect(s[i]);
    }
  }

  lemma Associate(a: string, b: string, c: string)
    ensures a + (b + c) == (a + b) + c
  {}

  // ---- Quote removal ----

  lemma DequoteStep(s: string, i: nat, state: nat, room: nat)
    requires i < |s| && room > 0
    requires !(state != 1 && s[i] == '$' && i + 1 < |s| && s[i + 1] == '(')
    ensures state == 0 ==>
      Dequote(s[i..], 0, room) ==
      if s[i] == '\'' then Dequote(s[i + 1..], 1, room)
      else if s[i] == '"' then Dequote(s[i + 1..], 2, room)
      else [s[i]] + Dequote(s[i + 1..], 0, room - 1)
    ensures state == 1 ==>
      Dequote(s[i..], 1, room) ==
      if s[i] == '\'' then Dequote(s[i + 1..], 0, room) else [Protect(s[i], true)] + Dequote(s[i + 1..], 1, room - 1)
    ensures state == 2 ==>
      Dequote(s[i..], 2, room) ==
      if s[i] == '"' then Dequote(s[i + 1..], 0, room) else [Protect(s[i], false)] + Dequote(s[i + 1..], 2, room - 1)
  {
    hide Protect, Verbatim;
    assert s[i..][1..] == s[i + 1..];
  }

  lemma VerbatimStep(s: string, i: nat, depth: int, state: nat, room: nat)
    requires i < |s| && room > 0
    ensures var depth' := if s[i] == '(' then depth + 1 else if s[i] == ')' then depth - 1 else depth;
            Verbatim(s[i..], depth, state, room) ==
            [s[i]] + if depth' == 0 && s[i] == ')' then Dequote(s[i + 1..], state, room - 1)
                     else Verbatim(s[i + 1..], depth', state, room - 1)
  {
    hide Dequote;
    assert s[i..][1..] == s[i + 1..];
  }

  lemma Stops(s: string, i: nat, depth: int, state: nat, room: nat)
    requires i <= |s| && (i == |s| || room == 0)
    ensures Dequote(s[i..], state, room) == "" && Verbatim(s[i..], depth, state, room) == ""
  {}

  method CopyVerbatim(input: string, i0: nat, room: nat, state: nat) returns (out: string, i: nat)
    requires i0 < |input| && room > 0
    ensures i0 < i <= |input| && |out| <= room
    ensures out + Dequote(input[i..], state, room - |out|) == Verbatim(input[i0..], 0, state, room)
  {
    hide Dequote, Verbatim;
    i, out := i0, "";
    var depth := 0;
    assert "" + Verbatim(input[i0..], 0, state, room) == Verbatim(input[i0..], 0, state, room);
    while i < |input| && |out| < room
      invariant i0 <= i <= |input| && |out| <= room && (i > i0 || |out| == 0)
      invariant out + Verbatim(input[i..], depth, state, room - |out|) == Verbatim(input[i0..], 0, state, room)
      decreases |input| - i
    {
      var d := input[i];
      VerbatimStep(input, i, depth, state, room - |out|);
      if d == '(' { depth := depth + 1; } else if d == ')' { depth := depth - 1; }
      ghost var before := out;
      out := out + [d];
      i := i + 1;
      if depth == 0 && d == ')' {
        Associate(before, [d], Dequote(input[i..], state, room - |out|));
        return;
      }
      Associate(before, [d], Verbatim(input[i..], depth, state, room - |out|));
    }
    Stops(input, i, depth, state, room - |out|);
  }

  method PreprocessQuotes(input: string, outsz: nat) returns (out: string)
    requires outsz > 0
    ensures out == Dequote(input, 0, outsz - 1)
  {
    hide Dequote, Verbatim, Protect;
    var room := outsz - 1;
    var i, state := 0, 0;
    out := "";
    assert input[0..] == input && "" + Dequote(input, 0, room) == Dequote(input, 0, room);
    while i < |input| && |out| < room
      invariant i <= |input| && |out| <= room && 0 <= state <= 2
      invariant out + Dequote(input[i..], state, room - |out|) == Dequote(input, 0, room)
      decreases |input| - i
    {
      var c := input[i];
      ghost var before := out;
      if state != 1 && c == '$' && i + 1 < |input| && input[i + 1] == '(' {
        DequoteVerbatim(input, i, state, room - |out|);
        var text, next := CopyVerbatim(input, i, room - |out|, state);
        Associate(before, text, Dequote(input[next..], state, room - |out| - |text|));
        out := out + text;
        i := next;
        continue;
      }
      DequoteStep(input, i, state, room - |out|);
      if state == 0 {
        if c == '\'' {
          state := 1;
        } else if c == '"' {
          state := 2;
        } else {
          Associate(before, [c], Dequote(input[i + 1..], 0, room - |out| - 1));
          out := out + [c];
        }
      } else if state == 1 {
        if c == '\'' {
          state := 0;
        } else {
          Associate(before, [Protect(c, true)], Dequote(input[i + 1..], 1, room - |out| - 1));
          out := out + [Protect(c, true)];
        }
      } else {
        if c == '"' {
          state := 0;
        } else {
          Associate(before, [Protect(c, false)], Dequote(input[i + 1..], 2, room - |out| - 1));
          out := out + [Protect(c, false)];
        }
      }
      i := i + 1;
    }
    Stops(input, i, 0, state, room - |out|);
    assert out + "" == out;
  }

  lemma DequoteVerbatim(s: string, i: nat, state: nat, room: nat)
    requires i < |s| && room > 0 && state != 1 && s[i] == '$' && i + 1 < |s| && s[i + 1] == '('
    ensures Dequote(s[i..], state, room) == Verbatim(s[i..], 0, state, room)
  {
    hide Verbatim;
  }

  // ---- Command substitution ----

  method FindClose(input: string, start: nat) returns (j: nat)
    requires start <= |input|
    ensures j == Close(input, start, 1) && start <= j <= |input|
  {
    var depth: nat := 1;
    j := start;
    while j < |input| && depth > 0
      invariant start <= j <= |input| && depth > 0 && Close(input, j, depth) == Close(input, start, 1)
      decreases |input| - j
    {
      if input[j] == '(' {
        depth := depth + 1;
      } else if input[j] == ')' {
        if depth == 1 { return; }
        depth := depth - 1;
      }
      j := j + 1;
    }
  }

  // Text without a command is copied; a command is replaced by what its first
  // 255 characters print, and the text after it is treated alike; an unclosed
  // command runs to the end.  All up to the size of the buffer.
  method ExpandCmdsubst(input: string, capture: string -> string, outsz: nat) returns (out: string)
    requires outsz > 0
    ensures out == Take(Substitute(input, capture), outsz - 1)
    ensures NoCommand(input) ==> out == Take(input, outsz - 1)
    ensures forall pre, cmd, post :: HasCommand(input, pre, cmd, post) ==>
              out == Take(pre + capture(Take(cmd, 255)) + Substitute(post, capture), outsz - 1)
    ensures forall pre, cmd :: HasUnclosed(input, pre, cmd) ==> out == Take(pre + capture(Take(cmd, 255)), outsz - 1)
  {
    hide Substitute, Close, Take, NoCommand, HasCommand, HasUnclosed;
    var room := outsz - 1;
    ghost var all := Substitute(input, capture);
    var i := 0;
    out := "";
    assert input[0..] == input && "" + Take(all, room) == Take(all, room);
    while i < |input| && |out| < room
      invariant i <= |input| && |out| <= room
      invariant out + Take(Substitute(input[i..], capture), room - |out|) == Take(all, room)
      decreases |input| - i
    {
      ghost var left := room - |out|;
      var text, next;
      if input[i] == '$' && i + 1 < |input| && input[i + 1] == '(' {
        var j := FindClose(input, i + 2);
        text := capture(Take(input[i + 2..j], 255));
        next := if j < |input| then j + 1 else j;
        SubstituteCommand(input, i, j, capture);
      } else {
        text, next := [input[i]], i + 1;
        SubstituteChar(input, i, capture);
      }
      TakeMore(text, Substitute(input[next..], capture), left);
      text := Take(text, room - |out|);
      Associate(out, text, Take(Substitute(input[next..], capture), left - |text|));
      out := out + text;
      i := next;
    }
    SubstituteStops(input, i, capture, room - |out|);
    assert out + "" == out;
    SubstituteMeans(input, capture);
  }

  lemma SubstituteMeans(s: string, capture: string -> string)
    ensures NoCommand(s) ==> Substitute(s, capture) == s
    ensures forall pre, cmd, post :: HasCommand(s, pre, cmd, post) ==>
              Substitute(s, capture) == pre + capture(Take(cmd, 255)) + Substitute(post, capture)
    ensures forall pre, cmd :: HasUnclosed(s, pre, cmd) ==> Substitute(s, capture) == pre + capture(Take(cmd, 255))
  {
    hide Substitute, Take, NoCommand, HasCommand, HasUnclosed;
    if NoCommand(s) { TextKept(s, capture); }
    forall pre, cmd, post | HasCommand(s, pre, cmd, post)
      ensures Substitute(s, capture) == pre + capture(Take(cmd, 255)) + Substitute(post, capture)
    {
      CommandReplaced(s, pre, cmd, post, capture);
    }
    forall pre, cmd | HasUnclosed(s, pre, cmd)
      ensures Substitute(s, capture) == pre + capture(Take(cmd, 255))
    {
      UnclosedReplaced(s, pre, cmd, capture);
    }
  }

  lemma SubstituteStops(s: string, i: nat, capture: string -> string, room: nat)
    requires i <= |s| && (i == |s| || room == 0)
    ensures Take(Substitute(s[i..], capture), room) == ""
  {}

  lemma SubstituteChar(s: string, i: nat, capture: string -> string)
    requires i < |s| && !CommandAt(s, i)
    ensures Substitute(s[i..], capture) == [s[i]] + Substitute(s[i + 1..], capture)
  {
    assert s[i..][1..] == s[i + 1..];
  }

  lemma {:induction false} CloseShift(s: string, i: nat, j: nat, depth: nat)
    requires i <= j <= |s| && depth > 0
    ensures Close(s[i..], j - i, depth) == Close(s, j, depth) - i
    decreases |s| - j
  {
    if j < |s| {
      assert s[i..][j - i] == s[j];
      if s[j] == '(' {
        CloseShift(s, i, j + 1, depth + 1);
      } else if s[j] == ')' {
        if depth > 1 { CloseShift(s, i, j + 1, depth - 1); }
      } else {
        CloseShift(s, i, j + 1, depth);
      }
    }
  }

  lemma SubstituteCommand(s: string, i: nat, j: nat, capture: string -> string)
    requires i < |s| && CommandAt(s, i) && j == Close(s, i + 2, 1)
    ensures Substitute(s[i..], capture) ==
            capture(Take(s[i + 2..j], 255)) + Substitute(s[if j < |s| then j + 1 else j..], capture)
  {
    CloseShift(s, i, i + 2, 1);
    hide Close, Take;
    var t := s[i..];
    assert t[2..j - i] == s[i + 2..j];
    assert t[if j < |s| then j - i + 1 else j - i..] == s[if j < |s| then j + 1 else j..];
  }

  // ---- Variables ----

  method ReadName(input: string, start: nat) returns (i: nat)
    requires start <= |input|
    ensures i == NameEnd(input, start, 31)
  {
    i := start;
    var ni: nat := 0;
    while i < |input| && IsNameChar(input[i]) && ni < 31
      invariant start <= i <= |input| && ni <= 31 && NameEnd(input, i, 31 - ni) == NameEnd(input, start, 31)
      decreases 31 - ni
    {
      i := i + 1;
      ni := ni + 1;
    }
  }

  // Text in which nothing is expanded is copied; the first thing expanded is
  // replaced by its value, and the scan goes on behind it.  All up to the size
  // of the buffer.
  method ExpandVariables(input: string, env: map<string, string>, status: string, outsz: nat) returns (out: string)
    requires outsz > 0
    ensures out == Take(ExpandVars(input, 0, env, status), outsz - 1)
    ensures NothingIn(input, 0, |input|) ==> out == Take(input, outsz - 1)
    ensures forall j: nat, k: nat :: VariableFirst(input, 0, j, k) ==>
              out == Take(input[..j] + Lookup(env, input[j + 1..k]) + ExpandVars(input, k, env, status), outsz - 1)
    ensures forall j: nat :: StatusFirst(input, 0, j) ==>
              out == Take(input[..j] + status + ExpandVars(input, j + 2, env, status), outsz - 1)
    ensures forall j: nat :: TildeFirst(input, 0, j) ==>
              out == Take(input[..j] + Home(env) + ExpandVars(input, j + 1, env, status), outsz - 1)
  {
    hide NameEnd, ExpandVars, Home, Lookup, Take, NothingIn;
    var room := outsz - 1;
    ghost var all := ExpandVars(input, 0, env, status);
    var i := 0;
    out := "";
    assert "" + Take(all, room) == Take(all, room);
    while i < |input| && |out| < room
      invariant i <= |input| && |out| <= room
      invariant out + Take(ExpandVars(input, i, env, status), room - |out|) == Take(all, room)
      decreases |input| - i
    {
      ghost var left := room - |out|;
      var text, next := [input[i]], i + 1;
      if input[i] == '$' && i + 1 < |input| && input[i + 1] == '?' {
        text, next := status, i + 2;
      } else if input[i] == '$' && i + 1 < |input| && IsNameChar(input[i + 1]) {
        next := ReadName(input, i + 1);
        text := Lookup(env, input[i + 1..next]);
      } else if TildeAt(input, i) {
        text := Home(env);
      }
      VariableStep(input, i, env, status, text, next);
      TakeMore(text, ExpandVars(input, next, env, status), left);
      text := Take(text, room - |out|);
      Associate(out, text, Take(ExpandVars(input, next, env, status), left - |text|));
      out := out + text;
      i := next;
    }
    VariablesEnd(input, i, env, status, room - |out|);
    assert out + "" == out;
    VariablesMean(input, env, status);
  }

  lemma VariablesMean(s: string, env: map<string, string>, status: string)
    ensures NothingIn(s, 0, |s|) ==> ExpandVars(s, 0, env, status) == s
    ensures forall j: nat, k: nat :: VariableFirst(s, 0, j, k) ==>
              ExpandVars(s, 0, env, status) == s[..j] + Lookup(env, s[j + 1..k]) + ExpandVars(s, k, env, status)
    ensures forall j: nat :: StatusFirst(s, 0, j) ==>
              ExpandVars(s, 0, env, status) == s[..j] + status + ExpandVars(s, j + 2, env, status)
    ensures forall j: nat :: TildeFirst(s, 0, j) ==>
              ExpandVars(s, 0, env, status) == s[..j] + Home(env) + ExpandVars(s, j + 1, env, status)
  {
    hide ExpandVars, Home, Lookup, NothingIn, NameAt, TildeAt;
    if NothingIn(s, 0, |s|) {
      NothingKept(s, 0, |s|, env, status);
      VariablesDone(s, env, status);
      assert s[0..] + "" == s;
    }
    forall j: nat, k: nat | VariableFirst(s, 0, j, k)
      ensures ExpandVars(s, 0, env, status) == s[..j] + Lookup(env, s[j + 1..k]) + ExpandVars(s, k, env, status)
    {
      VariableReplaced(s, 0, j, k, env, status);
      assert s[0..j] == s[..j];
    }
    forall j: nat | StatusFirst(s, 0, j)
      ensures ExpandVars(s, 0, env, status) == s[..j] + status + ExpandVars(s, j + 2, env, status)
    {
      StatusReplaced(s, 0, j, env, status);
      assert s[0..j] == s[..j];
    }
    forall j: nat | TildeFirst(s, 0, j)
      ensures ExpandVars(s, 0, env, status) == s[..j] + Home(env) + ExpandVars(s, j + 1, env, status)
    {
      TildeReplaced(s, 0, j, env, status);
      assert s[0..j] == s[..j];
    }
  }

  lemma VariablesEnd(s: string, i: nat, env: map<string, string>, status: string, room: nat)
    requires i <= |s| && (i == |s| || room == 0)
    ensures Take(ExpandVars(s, i, env, status), room) == ""
  {
    if i == |s| { VariablesDone(s, env, status); }
    hide ExpandVars;
  }

  // One round of the loop: text is put and the scan goes on at next.
  lemma VariableStep(s: string, i: nat, env: map<string, string>, status: string, text: string, next: nat)
    requires i < |s|
    requires if s[i] == '$' && i + 1 < |s| && s[i + 1] == '?' then text == status && next == i + 2
             else if s[i] == '$' && i + 1 < |s| && IsNameChar(s[i + 1]) then
               next == NameEnd(s, i + 1, 31) && text == Lookup(env, s[i + 1..next])
             else if TildeAt(s, i) then text == Home(env) && next == i + 1
             else text == [s[i]] && next == i + 1
    ensures i < next <= |s| && ExpandVars(s, i, env, status) == text + ExpandVars(s, next, env, status)
  {
    hide NameEnd, Home, Lookup;
    if i + 1 < |s| { NameAdvances(s, i + 1); }
  }

  lemma NameAdvances(s: string, i: nat)
    requires i <= |s|
    ensures i < |s| && IsNameChar(s[i]) ==> NameEnd(s, i, 31) > i
  {}

  // ---- Splitting ----

  // The segments and their operators give the line back, and each segment ends
  // at the first operator.
  method SplitLine(line: string, max: nat) returns (segs: seq<Segment>)
    requires max > 0
    ensures IsSplit(line, segs, OpSemi, max - 1)
  {
    hide SplitList, IsSplit, OperatorAt, NoneBefore;
    var start, s, op := 0, 0, OpSemi;
    segs := [];
    ghost var all := SplitList(line, OpSemi, max - 1);
    assert line[0..] == line && [] + all == all;
    NothingBefore(line[start..]);
    while s < |line| && |segs| + 1 < max
      invariant start <= s <= |line| && |segs| < max
      invariant NoneBefore(line[start..], s - start)
      invariant segs + SplitList(line[start..], op, max - 1 - |segs|) == all
      decreases |line| - s
    {
      ghost var before, seg, room := segs, Segment(op, line[start..s]), max - 1 - |segs|;
      OperatorMeans(line, s);
      SplitStep(line, start, s, op, room);
      if s + 1 < |line| && line[s] == '&' && line[s + 1] == '&' {
        segs := segs + [Segment(op, line[start..s])];
        s, start, op := s + 2, s + 2, OpAnd;
      } else if s + 1 < |line| && line[s] == '|' && line[s + 1] == '|' {
        segs := segs + [Segment(op, line[start..s])];
        s, start, op := s + 2, s + 2, OpOr;
      } else if line[s] == ';' {
        segs := segs + [Segment(op, line[start..s])];
        s, start, op := s + 1, s + 1, OpSemi;
      } else {
        s := s + 1;
        continue;
      }
      AssociateSegments(before, seg, SplitList(line[start..], op, room - 1));
      NothingBefore(line[start..]);
    }
    SplitEnd(line, start, op, max - 1 - |segs|);
    segs := segs + [Segment(op, line[start..])];
    SplitExactly(line, segs, OpSemi, max - 1);
  }

  lemma NothingBefore(s: string)
    ensures NoneBefore(s, 0)
  {}

  lemma OperatorMeans(s: string, i: nat)
    requires i < |s|
    ensures OperatorAt(s, i) <==>
              s[i] == ';' || (i + 1 < |s| && ((s[i] == '&' && s[i + 1] == '&') || (s[i] == '|' && s[i + 1] == '|')))
    ensures forall start :: 0 <= start <= i ==> OperatorAt(s[start..], i - start) == OperatorAt(s, i)
    ensures OpText(OpAnd) == "&&" && OpText(OpOr) == "||" && OpText(OpSemi) == ";"
  {}

  // At an operator the segment ends.
  lemma SplitAt(s: string, k: nat, op: Op, room: nat)
    requires k < |s| && room > 0 && OperatorAt(s, k) && NoneBefore(s, k)
    ensures var next := OpOf(s[k]);
            k + |OpText(next)| <= |s| &&
            SplitList(s, op, room) == [Segment(op, s[..k])] + SplitList(s[k + |OpText(next)|..], next, room - 1)
  {
    OperatorIs(s, k);
    FirstAt(s, k);
  }

  // At an operator the segment ends; elsewhere it goes on.
  lemma SplitStep(s: string, start: nat, i: nat, op: Op, room: nat)
    requires start <= i < |s| && room > 0 && NoneBefore(s[start..], i - start)
    ensures OperatorAt(s, i) ==>
              var next := OpOf(s[i]);
              i + |OpText(next)| <= |s| &&
              SplitList(s[start..], op, room) ==
              [Segment(op, s[start..i])] + SplitList(s[i + |OpText(next)|..], next, room - 1)
    ensures !OperatorAt(s, i) ==> NoneBefore(s[start..], i + 1 - start)
  {
    hide SplitList, OperatorAt, OpText, OpOf;
    var t, k := s[start..], i - start;
    OperatorMeans(s, i);
    assert t[k] == s[i];
    if OperatorAt(s, i) {
      SplitAt(t, k, op, room);
      assert t[..k] == s[start..i];
      assert t[k + |OpText(OpOf(s[i]))|..] == s[i + |OpText(OpOf(s[i]))|..];
    }
  }

  lemma FirstAt(s: string, k: nat)
    requires k < |s| && OperatorAt(s, k) && NoneBefore(s, k)
    ensures FirstOperator(s, 0) == k
  {}

  lemma SplitEnd(s: string, start: nat, op: Op, room: nat)
    requires start <= |s| && (room == 0 || NoneBefore(s[start..], |s| - start))
    ensures SplitList(s[start..], op, room) == [Segment(op, s[start..])]
  {
    SplitLast(s[start..], op, room);
  }

  lemma AssociateSegments(a: seq<Segment>, x: Segment, b: seq<Segment>)
    ensures a + ([x] + b) == (a + [x]) + b
  {}

  method SkipSpaces(s: string, i: nat) returns (j: nat)
    requires i <= |s|
    ensures i <= j <= |s| && s[j..] == DropSpaces(s[i..])
  {
    j := i;
    while j < |s| && s[j] == ' '
      invariant i <= j <= |s| && DropSpaces(s[j..]) == DropSpaces(s[i..])
    {
      assert s[j..][1..] == s[j + 1..];
      j := j + 1;
    }
  }

  method SplitWords(s: string, max: nat) returns (av: seq<string>)
    requires max > 0
    ensures av == SplitArgs(s, max - 1)
  {
    hide SplitArgs, DropSpaces, FindChar;
    av := [];
    var i := 0;
    assert s[0..] == s && [] + SplitArgs(s, max - 1) == SplitArgs(s, max - 1);
    while i < |s| && |av| < max - 1
      invariant i <= |s| && |av| <= max - 1
      invariant av + SplitArgs(s[i..], max - 1 - |av|) == SplitArgs(s, max - 1)
      decreases |s| - i
    {
      ghost var slots := max - 1 - |av|;
      ArgStep(s[i..], slots);
      i := SkipSpaces(s, i);
      if i == |s| {
        assert av + [] == av;
        return;
      }
      if |av| + 1 == max - 1 {
        // Nothing ends the word in the last slot.
        av := av + [s[i..]];
        return;
      }
      var j := WordEnd(s, i);
      assert s[i..][..j - i] == s[i..j] && s[i..][j - i..] == s[j..];
      AssociateWords(av, s[i..j], SplitArgs(s[j..], slots - 1));
      av := av + [s[i..j]];
      i := j;
    }
    NoArgs(s[i..], max - 1 - |av|);
    assert av + [] == av;
  }

  method WordEnd(s: string, i: nat) returns (j: nat)
    requires i < |s| && s[i] != ' '
    ensures i < j <= |s| && j - i == FindChar(s[i..], ' ')
  {
    j := i;
    while j < |s| && s[j] != ' '
      invariant i <= j <= |s| && ' ' !in s[i..j] && (j == i ==> s[j] != ' ')
    {
      assert s[i..j + 1] == s[i..j] + [s[j]];
      j := j + 1;
    }
    assert s[i..][..j - i] == s[i..j];
    if j < |s| {
      FoundAt(s[i..], ' ', j - i);
    } else {
      assert s[i..j] == s[i..];
      NotFound(s[i..], ' ');
    }
  }

  lemma ArgStep(s: string, slots: nat)
    requires slots > 0
    ensures var t := DropSpaces(s);
            && (t != "" ==> t[0] != ' ')
            && SplitArgs(s, slots) ==
               if t == "" then [] else if slots == 1 then [t]
               else [t[..FindChar(t, ' ')]] + SplitArgs(t[FindChar(t, ' ')..], slots - 1)
  {
    DropSpacesLength(s);
    hide DropSpaces, FindChar;
  }

  lemma NoArgs(s: string, slots: nat)
    requires s == "" || slots == 0
    ensures SplitArgs(s, slots) == []
  {}

  lemma AssociateWords(a: seq<string>, x: string, b: seq<string>)
    ensures a + ([x] + b) == (a + [x]) + b
  {}

  // ---- Redirection and wildcards ----

  // The words are the tokens that neither redirect nor name a file; of several
  // redirections of a kind the last counts.
  method ParseRedirections(av: seq<string>) returns (r: Redirects)
    ensures r == ParseRedir(av)
  {
    hide Words, LastOperator, IsName, IsRedirect;
    r := Redirects([], "", "", false);
    NoTokens(av);
    var i := 0;
    while i < |av|
      invariant i <= |av| && r == RedirectsIn(av, i) && (i < |av| ==> !IsName(av, i))
      decreases |av| - i
    {
      var t := av[i];
      TokenStep(av, i);
      if t != "" && t[0] == '<' {
        if |t| > 1 {
          r := r.(infile := t[1..]);
        } else if i + 1 < |av| {
          NameStep(av, i);
          i := i + 1;
          r := r.(infile := av[i]);
        } else {
          r := r.(infile := "");
        }
      } else if t != "" && t[0] == '>' && |t| > 1 && t[1] == '>' {
        r := r.(append := true);
        if |t| > 2 {
          r := r.(outfile := t[2..]);
        } else if i + 1 < |av| {
          NameStep(av, i);
          i := i + 1;
          r := r.(outfile := av[i]);
        } else {
          r := r.(outfile := "");
        }
      } else if t != "" && t[0] == '>' {
        r := r.(append := false);
        if |t| > 1 {
          r := r.(outfile := t[1..]);
        } else if i + 1 < |av| {
          NameStep(av, i);
          i := i + 1;
          r := r.(outfile := av[i]);
        } else {
          r := r.(outfile := "");
        }
      } else {
        r := r.(words := r.words + [t]);
      }
      i := i + 1;
    }
  }

  lemma NoTokens(av: seq<string>)
    ensures RedirectsIn(av, 0) == Redirects([], "", "", false)
    ensures av != [] ==> !IsName(av, 0)
  {}

  // What a token that names no file adds.
  lemma TokenStep(av: seq<string>, i: nat)
    requires i < |av| && !IsName(av, i)
    ensures var r, t := RedirectsIn(av, i), av[i];
            RedirectsIn(av, i + 1) ==
            if !IsRedirect(t) then r.(words := r.words + [t])
            else if t[0] == '<' then r.(infile := NameOf(av, i))
            else r.(outfile := NameOf(av, i), append := Doubled(t))
    ensures IsRedirect(av[i]) <==> av[i] != "" && (av[i][0] == '<' || av[i][0] == '>')
    ensures i + 1 < |av| ==> IsName(av, i + 1) == Bare(av[i])
  {}

  // A token that names a file adds nothing itself.
  lemma NameStep(av: seq<string>, i: nat)
    requires i + 1 < |av| && !IsName(av, i) && Bare(av[i])
    ensures RedirectsIn(av, i + 2) == RedirectsIn(av, i + 1)
    ensures i + 2 < |av| ==> !IsName(av, i + 2)
  {}

  // The recursive matcher.
  method GlobMatch(pattern: string, text: string) returns (r: bool)
    ensures r <==> Matches(pattern, text)
    decreases |pattern|
  {
    hide Matches;
    var pat, s := pattern, text;
    while pat != ""
      invariant |pat| <= |pattern| && (Matches(pat, s) <==> Matches(pattern, text))
      decreases |pat|
    {
      MatchStep(pat, s);
      if pat[0] == '*' {
        pat := pat[1..];
        if pat == "" {
          MatchEnd(s[|s|..]);
          return true;
        }
        for k := 0 to |s|
          invariant forall j :: 0 <= j < k ==> !Matches(pat, s[j..])
        {
          var m := GlobMatch(pat, s[k..]);
          if m { return true; }
        }
        r := GlobMatch(pat, s[|s|..]);
        return;
      } else if pat[0] == '?' {
        if s == "" { return false; }
        pat, s := pat[1..], s[1..];
      } else {
        if s == "" || pat[0] != s[0] { return false; }
        pat, s := pat[1..], s[1..];
      }
    }
    MatchEnd(s);
    return s == "";
  }

  lemma MatchEnd(s: string)
    ensures Matches("", s) <==> s == ""
  {}

  lemma MatchStep(pat: string, s: string)
    requires pat != ""
    ensures Matches(pat, s) <==>
            if pat[0] == '*' then exists k :: 0 <= k <= |s| && Matches(pat[1..], s[k..])
            else s != "" && (pat[0] == '?' || pat[0] == s[0]) && Matches(pat[1..], s[1..])
  {}
}
