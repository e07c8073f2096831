// The passes a command line goes through in the shell, as functions on text.
module ShellModel {
  // user/sh.c:21-165, 229-282, 412-505 and 583-704.

  // ---- Quoting ----

  // The placeholder of a special character; single quotes also protect $ ( ).
  function Protect(c: char, single: bool): char {
    match c
    case ' ' => 1 as char
    case '\t' => 0x11 as char
    case ';' => 2 as char
    case '&' => 3 as char
    case '|' => 4 as char
    case '<' => 5 as char
    case '>' => 6 as char
    case '*' => 7 as char
    case '?' => 0x0B as char
    case '~' => 0x0C as char
    case '$' => if single then 0x0E as char else c
    case '(' => if single then 0x0F as char else c
    case ')' => if single then 0x10 as char else c
    case _ => c
  }

  function Unprotect(c: char): char {
    match c as int
    case 1 => ' '
    case 0x11 => '\t'
    case 2 => ';'
    case 3 => '&'
    case 4 => '|'
    case 5 => '<'
    case 6 => '>'
    case 7 => '*'
    case 0x0B => '?'
    case 0x0C => '~'
    case 0x0E => '$'
    case 0x0F => '('
    case 0x10 => ')'
    case _ => c
  }

  predicate IsPlaceholder(c: char) {
    1 <= c as int <= 7 || 0x0B <= c as int <= 0x0C || 0x0E <= c as int <= 0x11
  }

  function ProtectAll(s: string): (t: string)
    ensures |t| == |s| && forall i :: 0 <= i < |s| ==> t[i] == Protect(s[i], true)
  {
    seq(|s|, i requires 0 <= i < |s| => Protect(s[i], true))
  }

  function UnprotectAll(s: string): (t: string)
    ensures |t| == |s| && forall i :: 0 <= i < |s| ==> t[i] == Unprotect(s[i])
  {
    seq(|s|, i requires 0 <= i < |s| => Unprotect(s[i]))
  }

  // A word comes back from protection unchanged exactly if it has no
  // placeholder byte of its own.
  lemma ProtectionExactly(w: string)
    ensures UnprotectAll(ProtectAll(w)) == w <==> forall i :: 0 <= i < |w| ==> !IsPlaceholder(w[i])
  {
    var t := UnprotectAll(ProtectAll(w));
    forall i | 0 <= i < |w| ensures t[i] == w[i] <==> !IsPlaceholder(w[i]) {
      ProtectedChar(w[i]);
    }
    if t == w {
      forall i | 0 <= i < |w| ensures !IsPlaceholder(w[i]) {
        assert t[i] == w[i];
      }
    }
  }

  // Single quotes protect exactly these characters; double quotes leave the
  // dollar sign and parentheses alive, and protect the others alike.
  lemma ProtectsExactly(c: char)
    ensures Protect(c, true) != c <==> c in " \t;&|<>*?~$()"
    ensures Protect(c, false) != c <==> c in " \t;&|<>*?~"
    ensures c !in "$()" ==> Protect(c, false) == Protect(c, true)
    ensures forall d :: Protect(c, true) == Protect(d, true) && !IsPlaceholder(c) && !IsPlaceholder(d) ==> c == d
  {
    var all, some := " \t;&|<>*?~$()", " \t;&|<>*?~";
    assert all == [' ', '\t', ';', '&', '|', '<', '>', '*', '?', '~', '$', '(', ')'];
    assert some == [' ', '\t', ';', '&', '|', '<', '>', '*', '?', '~'];
    assert all[0] == ' ' && all[1] == '\t' && all[2] == ';' && all[3] == '&' && all[4] == '|' && all[5] == '<' && all[6] == '>';
    assert all[7] == '*' && all[8] == '?' && all[9] == '~' && all[10] == '$' && all[11] == '(' && all[12] == ')';
    assert some[0] == ' ' && some[1] == '\t' && some[2] == ';' && some[3] == '&' && some[4] == '|' && some[5] == '<';
    assert some[6] == '>' && some[7] == '*' && some[8] == '?' && some[9] == '~';
    assert "$()"[0] == '$' && "$()"[1] == '(' && "$()"[2] == ')';
    forall d | Protect(c, true) == Protect(d, true) && !IsPlaceholder(c) && !IsPlaceholder(d) ensures c == d {
      ProtectedChar(c);
      ProtectedChar(d);
    }
  }

  lemma ProtectedChar(c: char)
    ensures Unprotect(Protect(c, true)) == c <==> !IsPlaceholder(c)
  {}

  // Quote removal.  In state 0 text is plain, in 1 single- and in 2
  // double-quoted; room is what is left of the output buffer.
  function Dequote(s: string, state: nat, room: nat): string
    decreases |s|, 1
  {
    if s == "" || room == 0 then ""
    else if state != 1 && s[0] == '$' && |s| > 1 && s[1] == '(' then Verbatim(s, 0, state, room)
    else if state == 0 then
      if s[0] == '\'' then Dequote(s[1..], 1, room)
      else if s[0] == '"' then Dequote(s[1..], 2, room)
      else [s[0]] + Dequote(s[1..], 0, room - 1)
    else if state == 1 then
      if s[0] == '\'' then Dequote(s[1..], 0, room) else [Protect(s[0], true)] + Dequote(s[1..], 1, room - 1)
    else
      if s[0] == '"' then Dequote(s[1..], 0, room) else [Protect(s[0], false)] + Dequote(s[1..], state, room - 1)
  }

  // A $(...) is copied as it is.
  function Verbatim(s: string, depth: int, state: nat, room: nat): string
    decreases |s|, 0
  {
    if s == "" || room == 0 then ""
    else
      var depth' := if s[0] == '(' then depth + 1 else if s[0] == ')' then depth - 1 else depth;
      [s[0]] + if depth' == 0 && s[0] == ')' then Dequote(s[1..], state, room - 1) else Verbatim(s[1..], depth', state, room - 1)
  }

  // ---- Command substitution ----

  // Where the parenthesis closes, or the end.
  function Close(s: string, j: nat, depth: nat): (k: nat)
    requires j <= |s| && depth > 0
    ensures j <= k <= |s|
    decreases |s| - j
  {
    if j == |s| then j
    else if s[j] == '(' then Close(s, j + 1, depth + 1)
    else if s[j] == ')' then (if depth == 1 then j else Close(s, j + 1, depth - 1))
    else Close(s, j + 1, depth)
  }

  function Take(s: string, n: nat): string {
    if |s| <= n then s else s[..n]
  }

  lemma TakeMore(a: string, b: string, n: nat)
    ensures |Take(a, n)| == (if |a| <= n then |a| else n) && Take(a, n) <= a
    ensures Take(a + b, n) == Take(a, n) + Take(b, n - |Take(a, n)|)
    ensures Take("", n) == "" && Take(b, 0) == ""
  {}

  predicate CommandAt(s: string, i: nat)
    requires i < |s|
  {
    s[i] == '$' && i + 1 < |s| && s[i + 1] == '('
  }

  // capture is what running a command prints, made into one line.
  function Substitute(s: string, capture: string -> string): string
    decreases |s|
  {
    if s == "" then ""
    else if CommandAt(s, 0) then
      var j := Close(s, 2, 1);
      capture(Take(s[2..j], 255)) + Substitute(s[if j < |s| then j + 1 else j..], capture)
    else [s[0]] + Substitute(s[1..], capture)
  }

  // Opening less closing parentheses.
  function Level(c: string): int {
    if c == "" then 0
    else Level(c[..|c| - 1]) + (if c[|c| - 1] == '(' then 1 else if c[|c| - 1] == ')' then -1 else 0)
  }

  // No parenthesis closes that c has not opened.
  ghost predicate Open(c: string) {
    forall k :: 0 <= k <= |c| ==> Level(c[..k]) >= 0
  }

  ghost predicate NoCommand(s: string) {
    forall i :: 0 <= i < |s| ==> !CommandAt(s, i)
  }

  // The first command of s is cmd, up to the parenthesis that matches, and post
  // follows it.
  ghost predicate HasCommand(s: string, pre: string, cmd: string, post: string) {
    s == pre + "$(" + cmd + ")" + post && NoCommand(pre) && Open(cmd) && Level(cmd) == 0
  }

  // The first command of s is cmd, and no parenthesis matches.
  ghost predicate HasUnclosed(s: string, pre: string, cmd: string) {
    s == pre + "$(" + cmd && NoCommand(pre) && Open(cmd)
  }

  lemma LevelNext(s: string, i: nat, j: nat)
    requires i <= j < |s|
    ensures Level(s[i..j + 1]) == Level(s[i..j]) + (if s[j] == '(' then 1 else if s[j] == ')' then -1 else 0)
  {
    assert s[i..j + 1][..j - i] == s[i..j];
  }

  // The search passes over text that closes nothing but its own parentheses.
  lemma {:induction false} ClosePasses(s: string, i: nat, j: nat, end: nat)
    requires i <= j <= end <= |s| && Open(s[i..end])
    ensures Level(s[i..j]) >= 0 && Level(s[i..end]) >= 0
    ensures Close(s, j, 1 + Level(s[i..j])) == Close(s, end, 1 + Level(s[i..end]))
    decreases end - j
  {
    assert s[i..end][..j - i] == s[i..j] && s[i..end][..end - i] == s[i..end];
    if j < end {
      assert s[i..end][..j + 1 - i] == s[i..j + 1];
      LevelNext(s, i, j);
      hide Level;
      ClosePasses(s, i, j + 1, end);
    }
  }

  // What it has passed when it stops.
  lemma {:induction false} ClosePassed(s: string, i: nat, j: nat)
    requires i <= j <= |s| && Open(s[i..j])
    ensures Level(s[i..j]) >= 0
    ensures var k := Close(s, j, 1 + Level(s[i..j]));
            Open(s[i..k]) && (k < |s| ==> s[k] == ')' && Level(s[i..k]) == 0)
    decreases |s| - j
  {
    assert s[i..j][..j - i] == s[i..j];
    if j < |s| {
      LevelNext(s, i, j);
      if Level(s[i..j + 1]) >= 0 {
        OpenMore(s, i, j);
        hide Level, Open;
        ClosePassed(s, i, j + 1);
      }
    }
  }

  lemma OpenMore(s: string, i: nat, j: nat)
    requires i <= j < |s| && Open(s[i..j]) && Level(s[i..j + 1]) >= 0
    ensures Open(s[i..j + 1])
  {
    var c := s[i..j + 1];
    forall k | 0 <= k <= |c| ensures Level(c[..k]) >= 0 {
      if k <= j - i { assert c[..k] == s[i..j][..k]; } else { assert c[..k] == c; }
    }
  }

  lemma {:induction false} SubstitutePrefix(pre: string, rest: string, capture: string -> string)
    requires NoCommand(pre) && (pre != "" && rest != "" ==> pre[|pre| - 1] != '$' || rest[0] != '(')
    ensures Substitute(pre + rest, capture) == pre + Substitute(rest, capture)
    decreases |pre|
  {
    if pre == "" {
      assert pre + rest == rest;
    } else {
      var s := pre + rest;
      assert s[1..] == pre[1..] + rest;
      assert !CommandAt(pre, 0) && !CommandAt(s, 0);
      forall i | 0 <= i < |pre[1..]| ensures !CommandAt(pre[1..], i) {
        assert !CommandAt(pre, i + 1);
      }
      SubstitutePrefix(pre[1..], rest, capture);
      assert pre + Substitute(rest, capture) == [pre[0]] + (pre[1..] + Substitute(rest, capture));
    }
  }

  // Text without a command is copied.
  lemma TextKept(s: string, capture: string -> string)
    requires NoCommand(s)
    ensures Substitute(s, capture) == s
  {
    SubstitutePrefix(s, "", capture);
    assert s + "" == s;
  }

  lemma CommandFirst(cmd: string, post: string, capture: string -> string)
    requires Open(cmd) && Level(cmd) == 0
    ensures Substitute("$(" + cmd + ")" + post, capture) == capture(Take(cmd, 255)) + Substitute(post, capture)
  {
    hide Open, Level;
    var t := "$(" + cmd + ")" + post;
    var j := 2 + |cmd|;
    assert t[2..j] == cmd && t[j] == ')' && t[j + 1..] == post && CommandAt(t, 0) && t[2..2] == "";
    LevelEmpty();
    ClosePasses(t, 2, 2, j);
  }

  // A command is replaced by what its first 255 characters print; the text
  // before it is kept and the text after it is treated alike.
  lemma CommandReplaced(s: string, pre: string, cmd: string, post: string, capture: string -> string)
    requires HasCommand(s, pre, cmd, post)
    ensures Substitute(s, capture) == pre + capture(Take(cmd, 255)) + Substitute(post, capture)
  {
    hide NoCommand, Open, Level, Substitute, Take;
    var t := "$(" + cmd + ")" + post;
    assert s == pre + t;
    CommandFirst(cmd, post, capture);
    SubstitutePrefix(pre, t, capture);
    assert pre + (capture(Take(cmd, 255)) + Substitute(post, capture)) ==
           pre + capture(Take(cmd, 255)) + Substitute(post, capture);
  }

  lemma LevelEmpty()
    ensures Level("") == 0
  {}

  // An unclosed command runs to the end of the line.
  lemma UnclosedReplaced(s: string, pre: string, cmd: string, capture: string -> string)
    requires HasUnclosed(s, pre, cmd)
    ensures Substitute(s, capture) == pre + capture(Take(cmd, 255))
  {
    hide NoCommand, Open, Level, Substitute, Take;
    assert s == pre + ("$(" + cmd);
    UnclosedFirst(cmd, capture);
    SubstitutePrefix(pre, "$(" + cmd, capture);
  }

  lemma UnclosedFirst(cmd: string, capture: string -> string)
    requires Open(cmd)
    ensures Substitute("$(" + cmd, capture) == capture(Take(cmd, 255))
  {
    hide Open, Level, Take;
    var t := "$(" + cmd;
    assert t[2..] == cmd && t[2..|t|] == cmd && CommandAt(t, 0) && t[2..2] == "" && t[|t|..] == "";
    LevelEmpty();
    ClosePasses(t, 2, 2, |t|);
    assert capture(Take(cmd, 255)) + "" == capture(Take(cmd, 255));
  }

  // These are all the lines there are.
  lemma LineForms(s: string)
    ensures NoCommand(s) || (exists pre, cmd, post :: HasCommand(s, pre, cmd, post)) ||
            (exists pre, cmd :: HasUnclosed(s, pre, cmd))
  {
    if !NoCommand(s) {
      var i := FirstCommand(s);
      var k := Close(s, i + 2, 1);
      hide NoCommand, Open, Level, Close;
      assert s[i + 2..i + 2] == "";
      LevelEmpty();
      OpenEmpty();
      ClosePassed(s, i + 2, i + 2);
      CutOut(s, i, k);
      if k < |s| {
        assert HasCommand(s, s[..i], s[i + 2..k], s[k + 1..]);
      } else {
        assert HasUnclosed(s, s[..i], s[i + 2..k]);
      }
    }
  }

  lemma CutOut(s: string, i: nat, k: nat)
    requires i + 2 <= k <= |s| && s[i] == '$' && s[i + 1] == '(' && (k < |s| ==> s[k] == ')')
    ensures k < |s| ==> s == s[..i] + "$(" + s[i + 2..k] + ")" + s[k + 1..]
    ensures k == |s| ==> s == s[..i] + "$(" + s[i + 2..k]
  {
    assert s[i..i + 2] == "$(" && s == s[..i] + s[i..i + 2] + s[i + 2..k] + s[k..];
    if k < |s| { assert s[k..] == ")" + s[k + 1..]; }
  }

  lemma OpenEmpty()
    ensures Open("")
  {}

  lemma FirstCommand(s: string) returns (i: nat)
    requires !NoCommand(s)
    ensures i < |s| && CommandAt(s, i) && NoCommand(s[..i])
  {
    i := 0;
    while i < |s| && !CommandAt(s, i)
      invariant i <= |s| && forall j :: 0 <= j < i ==> !CommandAt(s, j)
    {
      i := i + 1;
    }
    forall j | 0 <= j < i ensures !CommandAt(s[..i], j) {
      assert !CommandAt(s, j);
    }
  }

  // ---- Variables ----

  predicate IsNameChar(c: char) {
    'a' <= c <= 'z' || 'A' <= c <= 'Z' || '0' <= c <= '9' || c == '_'
  }

  function NameEnd(s: string, i: nat, room: nat): (j: nat)
    requires i <= |s|
    ensures i <= j <= |s|
    decreases room
  {
    if room > 0 && i < |s| && IsNameChar(s[i]) then NameEnd(s, i + 1, room - 1) else i
  }

  function Lookup(env: map<string, string>, name: string): string {
    if name in env then env[name] else ""
  }

  function Home(env: map<string, string>): string {
    if Lookup(env, "HOME") == "" then "/home/user" else Lookup(env, "HOME")
  }

  predicate TildeAt(s: string, i: nat)
    requires i < |s|
  {
    s[i] == '~' && (i == 0 || s[i - 1] == ' ') && (i + 1 == |s| || s[i + 1] == '/' || s[i + 1] == ' ')
  }

  // A variable, or the last status.
  predicate VariableAt(s: string, i: nat)
    requires i < |s|
  {
    s[i] == '$' && i + 1 < |s| && (s[i + 1] == '?' || IsNameChar(s[i + 1]))
  }

  function ExpandVars(s: string, i: nat, env: map<string, string>, status: string): string
    requires i <= |s|
    decreases |s| - i
  {
    if i == |s| then ""
    else if VariableAt(s, i) && s[i + 1] == '?' then status + ExpandVars(s, i + 2, env, status)
    else if VariableAt(s, i) then
      var j := NameEnd(s, i + 1, 31);
      Lookup(env, s[i + 1..j]) + ExpandVars(s, j, env, status)
    else if TildeAt(s, i) then Home(env) + ExpandVars(s, i + 1, env, status)
    else [s[i]] + ExpandVars(s, i + 1, env, status)
  }

  // Nothing is expanded from i to j.
  ghost predicate NothingIn(s: string, i: nat, j: nat)
    requires i <= j <= |s|
  {
    forall k :: i <= k < j ==> !VariableAt(s, k) && !TildeAt(s, k)
  }

  // The longest name of at most 31 characters at i ends at j.
  ghost predicate NameAt(s: string, i: nat, j: nat)
    requires i <= j <= |s|
  {
    && j - i <= 31 && (forall k :: i <= k < j ==> IsNameChar(s[k]))
    && (j < |s| && IsNameChar(s[j]) ==> j - i == 31)
  }

  // From i on, the first thing expanded is the variable from j to k.
  ghost predicate VariableFirst(s: string, i: nat, j: nat, k: nat) {
    i <= j && j + 1 < k <= |s| && NothingIn(s, i, j) && s[j] == '$' && NameAt(s, j + 1, k)
  }

  // It is $? at j.
  ghost predicate StatusFirst(s: string, i: nat, j: nat) {
    i <= j && j + 1 < |s| && NothingIn(s, i, j) && s[j] == '$' && s[j + 1] == '?'
  }

  // It is a ~ at j.
  ghost predicate TildeFirst(s: string, i: nat, j: nat) {
    i <= j < |s| && NothingIn(s, i, j) && TildeAt(s, j)
  }

  // Letters of both cases, digits and the underscore make names, of up to 31
  // characters; without a HOME of its own the environment has /home/user.
  lemma NamesMean(c: char, s: string, i: nat, j: nat, env: map<string, string>)
    ensures IsNameChar(c) <==>
              c in "abcdefghijklm" || c in "nopqrstuvwxyz" || c in "ABCDEFGHIJKLM" || c in "NOPQRSTUVWXYZ" || c in "0123456789_"
    ensures i <= j <= |s| && NameAt(s, i, j) ==> j - i <= 31 && (j < |s| && IsNameChar(s[j]) ==> j - i == 31)
    ensures i <= j <= |s| && NameAt(s, i, j) ==> forall k :: i <= k < j ==> IsNameChar(s[k])
    ensures "HOME" in env && env["HOME"] != "" ==> Home(env) == env["HOME"]
    ensures "HOME" !in env || env["HOME"] == "" ==> Home(env) == "/home/user"
  {
    Stretch('a', "abcdefghijklm", c);
    Stretch('n', "nopqrstuvwxyz", c);
    Stretch('A', "ABCDEFGHIJKLM", c);
    Stretch('N', "NOPQRSTUVWXYZ", c);
    Stretch('0', "0123456789", c);
    assert "0123456789_" == "0123456789" + "_";
  }

  // Membership in a string of consecutive characters.
  lemma Stretch(first: char, s: string, c: char)
    requires first as int + |s| < 0x100
    requires forall i :: 0 <= i < |s| ==> s[i] as int == first as int + i
    ensures c in s <==> first as int <= c as int < first as int + |s|
  {
    if first as int <= c as int < first as int + |s| {
      assert s[c as int - first as int] == c;
    }
  }

  lemma {:induction false} NameEndIs(s: string, i: nat, j: nat, room: nat)
    requires i <= j <= |s| && j - i <= room && (forall k :: i <= k < j ==> IsNameChar(s[k]))
    requires j < |s| && IsNameChar(s[j]) ==> j - i == room
    ensures NameEnd(s, i, room) == j
    decreases room
  {
    if i < j { NameEndIs(s, i + 1, j, room - 1); }
  }

  lemma {:induction false} NameEndNames(s: string, i: nat, room: nat)
    requires i <= |s|
    ensures var j := NameEnd(s, i, room);
            && j - i <= room && (forall k :: i <= k < j ==> IsNameChar(s[k]))
            && (j < |s| && IsNameChar(s[j]) ==> j - i == room)
            && (room > 0 && i < |s| && IsNameChar(s[i]) ==> j > i)
    decreases room
  {
    if room > 0 && i < |s| && IsNameChar(s[i]) { NameEndNames(s, i + 1, room - 1); }
  }

  lemma CharKept(s: string, i: nat, env: map<string, string>, status: string)
    requires i < |s| && !VariableAt(s, i) && !TildeAt(s, i)
    ensures ExpandVars(s, i, env, status) == [s[i]] + ExpandVars(s, i + 1, env, status)
  {
    hide NameEnd, Home, Lookup;
  }

  // Text in which nothing is expanded is copied.
  lemma {:induction false} NothingKept(s: string, i: nat, j: nat, env: map<string, string>, status: string)
    requires i <= j <= |s| && NothingIn(s, i, j)
    ensures ExpandVars(s, i, env, status) == s[i..j] + ExpandVars(s, j, env, status)
    decreases j - i
  {
    hide ExpandVars, VariableAt, TildeAt;
    if i < j {
      CharKept(s, i, env, status);
      NothingKept(s, i + 1, j, env, status);
      assert s[i..j] + ExpandVars(s, j, env, status) == [s[i]] + (s[i + 1..j] + ExpandVars(s, j, env, status));
    } else {
      assert s[i..j] == "";
    }
  }

  // $name becomes its value, or nothing if it has none.
  lemma VariableReplaced(s: string, i: nat, j: nat, k: nat, env: map<string, string>, status: string)
    requires VariableFirst(s, i, j, k)
    ensures ExpandVars(s, i, env, status) == s[i..j] + Lookup(env, s[j + 1..k]) + ExpandVars(s, k, env, status)
  {
    NothingKept(s, i, j, env, status);
    NameEndIs(s, j + 1, k, 31);
    assert IsNameChar(s[j + 1]) && s[j + 1] != '?';
    hide Lookup, NameEnd;
    assert s[i..j] + (Lookup(env, s[j + 1..k]) + ExpandVars(s, k, env, status)) ==
           s[i..j] + Lookup(env, s[j + 1..k]) + ExpandVars(s, k, env, status);
  }

  // $? becomes the last status.
  lemma StatusReplaced(s: string, i: nat, j: nat, env: map<string, string>, status: string)
    requires StatusFirst(s, i, j)
    ensures ExpandVars(s, i, env, status) == s[i..j] + status + ExpandVars(s, j + 2, env, status)
  {
    NothingKept(s, i, j, env, status);
    assert s[i..j] + (status + ExpandVars(s, j + 2, env, status)) == s[i..j] + status + ExpandVars(s, j + 2, env, status);
  }

  // A ~ that stands alone or before a slash at the start of a word becomes HOME.
  lemma TildeReplaced(s: string, i: nat, j: nat, env: map<string, string>, status: string)
    requires TildeFirst(s, i, j)
    ensures ExpandVars(s, i, env, status) == s[i..j] + Home(env) + ExpandVars(s, j + 1, env, status)
  {
    hide Home, Lookup, NameEnd, NothingIn;
    NothingKept(s, i, j, env, status);
    assert s[i..j] + (Home(env) + ExpandVars(s, j + 1, env, status)) ==
           s[i..j] + Home(env) + ExpandVars(s, j + 1, env, status);
  }

  // What happens at one position: $?, $ and a name that ends at j, a tilde that
  // is a word or starts a path, and everything else.
  lemma PositionMeans(s: string, i: nat, j: nat, env: map<string, string>, status: string)
    requires i < |s|
    ensures s[i] == '$' && i + 1 < |s| && s[i + 1] == '?' ==>
              ExpandVars(s, i, env, status) == status + ExpandVars(s, i + 2, env, status)
    ensures s[i] == '$' && i + 1 < j <= |s| && j - i <= 32 && (forall k :: i < k < j ==> IsNameChar(s[k])) &&
            (j < |s| && IsNameChar(s[j]) ==> j - i == 32) ==>
              ExpandVars(s, i, env, status) ==
              (if s[i + 1..j] in env then env[s[i + 1..j]] else "") + ExpandVars(s, j, env, status)
    ensures s[i] == '~' && (i == 0 || s[i - 1] == ' ') && (i + 1 == |s| || s[i + 1] == '/' || s[i + 1] == ' ') ==>
              ExpandVars(s, i, env, status) == Home(env) + ExpandVars(s, i + 1, env, status)
    ensures (s[i] == '$' ==> i + 1 == |s| || (s[i + 1] != '?' && !IsNameChar(s[i + 1]))) &&
            (s[i] == '~' ==> (i > 0 && s[i - 1] != ' ') || (i + 1 < |s| && s[i + 1] != '/' && s[i + 1] != ' ')) ==>
              ExpandVars(s, i, env, status) == [s[i]] + ExpandVars(s, i + 1, env, status)
  {
    hide Home, NameEnd;
    if s[i] == '$' && i + 1 < j <= |s| && j - i <= 32 && (forall k :: i < k < j ==> IsNameChar(s[k])) &&
       (j < |s| && IsNameChar(s[j]) ==> j - i == 32)
    {
      NameAtIs(s, i, j, env, status);
    }
  }

  lemma NameAtIs(s: string, i: nat, j: nat, env: map<string, string>, status: string)
    requires i + 1 < j <= |s| && s[i] == '$' && j - i <= 32 && (forall k :: i < k < j ==> IsNameChar(s[k]))
    requires j < |s| && IsNameChar(s[j]) ==> j - i == 32
    ensures ExpandVars(s, i, env, status) == Lookup(env, s[i + 1..j]) + ExpandVars(s, j, env, status)
  {
    hide Home, NameEnd, Lookup;
    assert IsNameChar(s[i + 1]) && s[i + 1] != '?';
    NameEndIs(s, i + 1, j, 31);
  }

  // From every position on, nothing is expanded or one of these comes first.
  lemma TextForms(s: string, i: nat) returns (j: nat, k: nat)
    requires i <= |s|
    ensures (j == |s| && NothingIn(s, i, j)) || VariableFirst(s, i, j, k) || StatusFirst(s, i, j) || TildeFirst(s, i, j)
  {
    hide NameEnd;
    j, k := i, 0;
    while j < |s| && !VariableAt(s, j) && !TildeAt(s, j)
      invariant i <= j <= |s| && NothingIn(s, i, j)
    {
      j := j + 1;
    }
    if j < |s| && VariableAt(s, j) && s[j + 1] != '?' {
      k := NameEnd(s, j + 1, 31);
      NameEndNames(s, j + 1, 31);
    }
  }

  // ---- Splitting ----

  datatype Op = OpSemi | OpAnd | OpOr

  datatype Segment = Segment(op: Op, text: string)

  // The first operator, or the end.
  predicate OperatorAt(s: string, i: nat)
    requires i < |s|
  {
    s[i] == ';' || (i + 1 < |s| && s[i] == s[i + 1] && (s[i] == '&' || s[i] == '|'))
  }

  function FirstOperator(s: string, i: nat): (k: nat)
    requires i <= |s|
    ensures i <= k <= |s| && (k < |s| ==> OperatorAt(s, k))
    ensures forall j :: i <= j < k ==> !OperatorAt(s, j)
    decreases |s| - i
  {
    if i == |s| || OperatorAt(s, i) then i else FirstOperator(s, i + 1)
  }

  function OpText(op: Op): string {
    match op
    case OpSemi => ";"
    case OpAnd => "&&"
    case OpOr => "||"
  }

  function OpOf(c: char): Op {
    if c == '&' then OpAnd else if c == '|' then OpOr else OpSemi
  }

  // Pieces between the list operators; op precedes the first.
  function SplitList(s: string, op: Op, room: nat): seq<Segment>
    decreases room
  {
    var k := FirstOperator(s, 0);
    if k == |s| || room == 0 then [Segment(op, s)]
    else
      var next := OpOf(s[k]);
      [Segment(op, s[..k])] + SplitList(s[k + |OpText(next)|..], next, room - 1)
  }

  // The segments with their operators between them.
  function Rejoined(segs: seq<Segment>): string
    requires segs != []
  {
    if |segs| == 1 then segs[0].text
    else segs[0].text + OpText(segs[1].op) + Rejoined(segs[1..])
  }

  // No operator starts in the first n characters of s.
  predicate NoneBefore(s: string, n: nat)
    requires n <= |s|
  {
    forall i :: 0 <= i < n ==> !OperatorAt(s, i)
  }

  // Segment k ends where its line's first operator starts.
  predicate EndsAtOperator(segs: seq<Segment>, k: nat)
    requires k + 1 < |segs|
  {
    NoneBefore(segs[k].text + OpText(segs[k + 1].op), |segs[k].text|)
  }

  // What splitting a line promises: the pieces give the line back, every
  // operator splits as soon as it appears, and only for want of room does the
  // last segment keep one.
  ghost predicate IsSplit(s: string, segs: seq<Segment>, op: Op, room: nat) {
    && 1 <= |segs| <= room + 1 && segs[0].op == op && Rejoined(segs) == s
    && (forall k: nat :: k + 1 < |segs| ==> EndsAtOperator(segs, k))
    && (|segs| <= room ==> var last := segs[|segs| - 1].text; NoneBefore(last, |last|))
  }

  lemma OperatorIs(s: string, k: nat)
    requires k < |s| && OperatorAt(s, k)
    ensures var t := OpText(OpOf(s[k]));
            k + |t| <= |s| && s == s[..k] + t + s[k + |t|..]
            && (NoneBefore(s, k) ==> NoneBefore(s[..k] + t, k))
  {
    var t := OpText(OpOf(s[k]));
    assert s[k..k + |t|] == t;
    assert s == s[..k] + s[k..k + |t|] + s[k + |t|..];
    if NoneBefore(s, k) {
      forall i | 0 <= i < k ensures !OperatorAt(s[..k] + t, i) {
        assert !OperatorAt(s, i);
      }
    }
  }

  lemma TailEnds(segs: seq<Segment>)
    requires |segs| > 1
    ensures forall k: nat :: k + 2 < |segs| ==> EndsAtOperator(segs[1..], k) == EndsAtOperator(segs, k + 1)
  {
    forall k: nat | k + 2 < |segs|
      ensures EndsAtOperator(segs[1..], k) == EndsAtOperator(segs, k + 1)
    {
      assert segs[1..][k] == segs[k + 1] && segs[1..][k + 1] == segs[k + 2];
    }
  }

  // Splitting off the first segment.
  lemma IsSplitMore(s: string, segs: seq<Segment>, op: Op, room: nat)
    requires |segs| > 1 && room > 0
    ensures IsSplit(s, segs, op, room) <==>
            segs[0].op == op && EndsAtOperator(segs, 0) &&
            s == segs[0].text + OpText(segs[1].op) + Rejoined(segs[1..]) &&
            IsSplit(Rejoined(segs[1..]), segs[1..], segs[1].op, room - 1)
  {
    hide EndsAtOperator, OpText, NoneBefore, OperatorAt;
    TailEnds(segs);
    if forall k: nat :: k + 1 < |segs[1..]| ==> EndsAtOperator(segs[1..], k) {
      forall k: nat | 1 <= k && k + 1 < |segs| ensures EndsAtOperator(segs, k) {
        assert EndsAtOperator(segs[1..], k - 1);
      }
    }
    if forall k: nat :: k + 1 < |segs| ==> EndsAtOperator(segs, k) {
      forall k: nat | k + 1 < |segs[1..]| ensures EndsAtOperator(segs[1..], k) {
        assert EndsAtOperator(segs, k + 1);
      }
    }
  }

  lemma SplitCons(head: string, op: Op, tail: string, rest: seq<Segment>, room: nat)
    requires rest != [] && IsSplit(tail, rest, rest[0].op, room)
    requires NoneBefore(head + OpText(rest[0].op), |head|)
    ensures IsSplit(head + OpText(rest[0].op) + tail, [Segment(op, head)] + rest, op, room + 1)
  {
    hide OpText, OperatorAt, NoneBefore, IsSplit;
    var segs := [Segment(op, head)] + rest;
    assert segs[1..] == rest && segs[1] == rest[0];
    assert EndsAtOperator(segs, 0);
    assert Rejoined(rest) == tail by { SplitRejoins(tail, rest, rest[0].op, room); }
    IsSplitMore(head + OpText(rest[0].op) + tail, segs, op, room + 1);
  }

  lemma SplitRejoins(s: string, segs: seq<Segment>, op: Op, room: nat)
    requires IsSplit(s, segs, op, room)
    ensures segs != [] && segs[0].op == op && Rejoined(segs) == s
  {}

  lemma {:induction false} SplitListIsSplit(s: string, op: Op, room: nat)
    ensures IsSplit(s, SplitList(s, op, room), op, room)
    decreases room
  {
    hide OpText, OpOf, OperatorAt, NoneBefore, IsSplit, FirstOperator, Rejoined;
    var k := FirstOperator(s, 0);
    if k < |s| && room > 0 {
      var next := OpOf(s[k]);
      OperatorIs(s, k);
      var tail := s[k + |OpText(next)|..];
      SplitListIsSplit(tail, next, room - 1);
      SplitRejoins(tail, SplitList(tail, next, room - 1), next, room - 1);
      FirstIs(s);
      SplitCons(s[..k], op, tail, SplitList(tail, next, room - 1), room - 1);
    } else {
      FirstIs(s);
      OneIsSplit(s, op, room);
    }
  }

  lemma FirstIs(s: string)
    ensures NoneBefore(s, FirstOperator(s, 0))
  {}

  lemma OneIsSplit(s: string, op: Op, room: nat)
    requires room == 0 || NoneBefore(s, |s|)
    ensures IsSplit(s, [Segment(op, s)], op, room)
  {}

  // The split is the only one of its kind.
  lemma {:induction false} SplitExactly(s: string, segs: seq<Segment>, op: Op, room: nat)
    ensures segs == SplitList(s, op, room) <==> IsSplit(s, segs, op, room)
    decreases room
  {
    hide OpText, OpOf, OperatorAt, EndsAtOperator, SplitList;
    SplitListIsSplit(s, op, room);
    if IsSplit(s, segs, op, room) {
      if |segs| == 1 {
        SplitLast(s, op, room);
        assert segs[0] == Segment(op, s);
      } else {
        IsSplitMore(s, segs, op, room);
        SplitFirst(s, segs, op, room);
        SplitExactly(Rejoined(segs[1..]), segs[1..], segs[1].op, room - 1);
        assert segs == [segs[0]] + segs[1..];
      }
    }
  }

  lemma SplitLast(s: string, op: Op, room: nat)
    requires room == 0 || NoneBefore(s, |s|)
    ensures SplitList(s, op, room) == [Segment(op, s)]
  {
    if room > 0 { NoOperator(s); }
  }

  lemma SplitFirst(s: string, segs: seq<Segment>, op: Op, room: nat)
    requires |segs| > 1 && room > 0 && EndsAtOperator(segs, 0)
    requires s == segs[0].text + OpText(segs[1].op) + Rejoined(segs[1..])
    ensures SplitList(s, op, room) ==
            [Segment(op, segs[0].text)] + SplitList(Rejoined(segs[1..]), segs[1].op, room - 1)
  {
    hide Rejoined;
    var head, t, rest := segs[0].text, OpText(segs[1].op), Rejoined(segs[1..]);
    assert s == head + (t + rest);
    OperatorFirst(s, head, segs[1].op, rest);
    assert s[..|head|] == head && s[|head| + |t|..] == rest;
  }

  lemma NoOperator(s: string)
    requires NoneBefore(s, |s|)
    ensures FirstOperator(s, 0) == |s|
  {}

  lemma OperatorFirst(s: string, head: string, op: Op, rest: string)
    requires s == head + (OpText(op) + rest) && NoneBefore(head + OpText(op), |head|)
    ensures FirstOperator(s, 0) == |head| < |s| && OpOf(s[|head|]) == op
  {
    var k, t := FirstOperator(s, 0), head + OpText(op);
    assert t == s[..|t|];
    assert OperatorAt(s, |head|);
    if k < |head| {
      assert OperatorAt(t, k);
    }
  }

  // Text without a list operator is one segment; followed by an operator it is
  // the first of several.
  lemma SegmentMeans(head: string, mark: string, next: Op, rest: string, op: Op, room: nat)
    requires (mark == ";" && next == OpSemi) || (mark == "&&" && next == OpAnd) || (mark == "||" && next == OpOr)
    requires ';' !in head && (head != "" ==> head[|head| - 1] != mark[0])
    requires forall i :: 0 <= i < |head| - 1 ==> head[i] == '&' || head[i] == '|' ==> head[i] != head[i + 1]
    ensures SplitList(head, op, room) == [Segment(op, head)]
    ensures SplitList(head + (mark + rest), op, room + 1) == [Segment(op, head)] + SplitList(rest, next, room)
  {
    hide SplitList;
    forall i | 0 <= i < |head| ensures !OperatorAt(head, i) {
      assert head[i] in head;
    }
    SplitLast(head, op, room);
    var t := head + mark;
    forall i | 0 <= i < |head| ensures !OperatorAt(t, i) {
      assert t[i] == head[i] && head[i] in head;
      assert t[i + 1] == if i + 1 < |head| then head[i + 1] else mark[0];
    }
    SplitAt(head, next, rest, op, room + 1);
  }

  lemma SplitAt(head: string, next: Op, rest: string, op: Op, room: nat)
    requires room > 0 && NoneBefore(head + OpText(next), |head|)
    ensures SplitList(head + (OpText(next) + rest), op, room) == [Segment(op, head)] + SplitList(rest, next, room - 1)
  {
    hide OpText, NoneBefore;
    var segs := [Segment(op, head), Segment(next, rest)];
    assert Rejoined(segs[1..]) == rest;
    assert head + (OpText(next) + rest) == head + OpText(next) + rest;
    SplitFirst(head + (OpText(next) + rest), segs, op, room);
  }

  function DropSpaces(s: string): string {
    if s != "" && s[0] == ' ' then DropSpaces(s[1..]) else s
  }

  function DropTail(s: string): string {
    if s != "" && s[|s| - 1] == ' ' then DropTail(s[..|s| - 1]) else s
  }

  function Trim(s: string): string {
    DropTail(DropSpaces(s))
  }

  // A trailing & asks for the background and is removed.
  function Background(s: string): (bool, string) {
    var t := DropTail(s);
    if t != "" && t[|t| - 1] == '&' then (true, t[..|t| - 1]) else (false, s)
  }

  // Pipeline stages; the last one keeps any further |.
  function Stages(s: string, room: nat): seq<string>
    decreases |s|
  {
    if room == 0 then [s]
    else
      var k := FindChar(s, '|');
      if k == |s| then [s] else [s[..k]] + Stages(s[k + 1..], room - 1)
  }

  // Any text but spaces around it is left, and a trailing & is told apart from
  // everything else a line can end with.
  lemma {:induction false} DropSpacesMeans(lead: string, t: string)
    requires (forall i :: 0 <= i < |lead| ==> lead[i] == ' ') && (t != "" ==> t[0] != ' ')
    ensures DropSpaces(lead + t) == t
    decreases |lead|
  {
    if lead == "" {
      assert lead + t == t;
    } else {
      assert (lead + t)[1..] == lead[1..] + t;
      DropSpacesMeans(lead[1..], t);
    }
  }

  lemma {:induction false} DropTailMeans(t: string, trail: string)
    requires (forall i :: 0 <= i < |trail| ==> trail[i] == ' ') && (t != "" ==> t[|t| - 1] != ' ')
    ensures DropTail(t + trail) == t
    decreases |trail|
  {
    if trail == "" {
      assert t + trail == t;
    } else {
      assert (t + trail)[..|t + trail| - 1] == t + trail[..|trail| - 1];
      DropTailMeans(t, trail[..|trail| - 1]);
    }
  }

  lemma TrimMeans(lead: string, t: string, trail: string)
    requires forall i :: 0 <= i < |lead| ==> lead[i] == ' '
    requires forall i :: 0 <= i < |trail| ==> trail[i] == ' '
    requires t != "" ==> t[0] != ' ' && t[|t| - 1] != ' '
    ensures Trim(lead + t + trail) == t
  {
    hide DropSpaces, DropTail;
    if t == "" {
      var all := lead + trail;
      assert lead + t + trail == all && all + "" == all && "" + "" == "";
      DropSpacesMeans(all, "");
      DropTailMeans("", "");
    } else {
      assert lead + t + trail == lead + (t + trail);
      DropSpacesMeans(lead, t + trail);
      DropTailMeans(t, trail);
    }
  }

  lemma BackgroundMeans(t: string, trail: string)
    requires forall i :: 0 <= i < |trail| ==> trail[i] == ' '
    ensures Background(t + "&" + trail) == (true, t)
    ensures t == "" || (t[|t| - 1] != '&' && t[|t| - 1] != ' ') ==> Background(t + trail) == (false, t + trail)
  {
    hide DropTail;
    DropTailMeans(t + "&", trail);
    assert (t + "&")[..|t|] == t;
    if t == "" || t[|t| - 1] != ' ' { DropTailMeans(t, trail); }
  }

  // The stages with bars between them.
  function Piped(stages: seq<string>): string
    requires stages != []
  {
    if |stages| == 1 then stages[0] else stages[0] + "|" + Piped(stages[1..])
  }

  // The pieces between bars; only for want of room does the last keep one.
  ghost predicate IsPipeline(s: string, stages: seq<string>, room: nat) {
    && 1 <= |stages| <= room + 1 && Piped(stages) == s
    && (forall k :: 0 <= k < |stages| - 1 ==> '|' !in stages[k])
    && (|stages| <= room ==> '|' !in stages[|stages| - 1])
  }

  lemma StagesStep(s: string, head: string, tail: string, room: nat)
    requires room > 0 && s == head + "|" + tail && '|' !in head
    ensures Stages(s, room) == [head] + Stages(tail, room - 1)
  {
    assert s[..|head|] == head && s[|head|] == '|' && s[|head| + 1..] == tail;
    FoundAt(s, '|', |head|);
    hide FindChar;
  }

  lemma StagesEnd(s: string, room: nat)
    requires room == 0 || '|' !in s
    ensures Stages(s, room) == [s]
  {
    if room > 0 { NotFound(s, '|'); }
    hide FindChar;
  }

  lemma BarCut(s: string) returns (head: string, tail: string)
    requires '|' in s
    ensures s == head + "|" + tail && '|' !in head && |tail| < |s|
  {
    var k := FindChar(s, '|');
    assert s[..|s|] == s;
    head, tail := s[..k], s[k + 1..];
  }

  lemma {:induction false} StagesArePipeline(s: string, room: nat)
    ensures IsPipeline(s, Stages(s, room), room)
    decreases room
  {
    hide Stages;
    if room > 0 && '|' in s {
      var head, tail := BarCut(s);
      StagesStep(s, head, tail, room);
      StagesArePipeline(tail, room - 1);
      assert ([head] + Stages(tail, room - 1))[1..] == Stages(tail, room - 1);
      PipelineMore(s, Stages(s, room), room);
    } else {
      StagesEnd(s, room);
    }
  }

  // A line has exactly one such list of stages, the one it is cut into.
  lemma {:induction false} StagesExactly(s: string, stages: seq<string>, room: nat)
    ensures stages == Stages(s, room) <==> IsPipeline(s, stages, room)
    decreases room
  {
    hide Stages;
    StagesArePipeline(s, room);
    if IsPipeline(s, stages, room) {
      if |stages| == 1 {
        StagesEnd(s, room);
        assert stages == [stages[0]];
      } else {
        PipelineMore(s, stages, room);
        hide IsPipeline;
        var tail := Piped(stages[1..]);
        StagesStep(s, stages[0], tail, room);
        StagesExactly(tail, stages[1..], room - 1);
        assert stages == [stages[0]] + stages[1..];
      }
    }
  }

  lemma PipelineMore(s: string, stages: seq<string>, room: nat)
    requires |stages| > 1 && room > 0
    ensures IsPipeline(s, stages, room) <==>
              s == stages[0] + "|" + Piped(stages[1..]) && '|' !in stages[0] &&
              IsPipeline(Piped(stages[1..]), stages[1..], room - 1)
  {
    var rest := stages[1..];
    if forall k :: 0 <= k < |rest| - 1 ==> '|' !in rest[k] {
      forall k | 1 <= k < |stages| - 1 ensures '|' !in stages[k] {
        assert stages[k] == rest[k - 1];
      }
    }
    if forall k :: 0 <= k < |stages| - 1 ==> '|' !in stages[k] {
      forall k | 0 <= k < |rest| - 1 ensures '|' !in rest[k] {
        assert rest[k] == stages[k + 1];
      }
    }
  }

  // The first word of a stage is the first run of other characters than spaces,
  // except in the last slot, where it runs to the end.
  lemma WordsMean(lead: string, w: string, rest: string, slots: nat)
    requires forall i :: 0 <= i < |lead| ==> lead[i] == ' '
    requires w != "" && ' ' !in w && (rest != "" ==> rest[0] == ' ')
    ensures SplitArgs(lead, slots) == []
    ensures slots > 1 ==> SplitArgs(lead + w + rest, slots) == [w] + SplitArgs(rest, slots - 1)
    ensures slots == 1 ==> SplitArgs(lead + w + rest, slots) == [w + rest]
  {
    assert w[0] in w;
    assert lead + w + rest == lead + (w + rest) && lead + "" == lead;
    DropSpacesMeans(lead, w + rest);
    DropSpacesMeans(lead, "");
    hide DropSpaces;
    var t := w + rest;
    assert t[..|w|] == w && t[|w|..] == rest;
    if rest != "" {
      FoundAt(t, ' ', |w|);
    } else {
      assert t == w;
      NotFound(t, ' ');
    }
  }

  function FindChar(s: string, c: char): (k: nat)
    ensures k <= |s| && c !in s[..k] && (k < |s| ==> s[k] == c)
  {
    if s == "" || s[0] == c then 0
    else
      var k := 1 + FindChar(s[1..], c);
      assert s[..k] == [s[0]] + s[1..][..k - 1];
      k
  }

  // Words of a stage.  The word in the last of the slots runs to the end.
  function SplitArgs(s: string, slots: nat): (av: seq<string>)
    ensures |av| <= slots && forall i :: 0 <= i < |av| ==> av[i] != ""
    decreases slots
  {
    if slots == 0 then []
    else
      var t := DropSpaces(s);
      DropSpacesLength(s);
      if t == "" then []
      else if slots == 1 then [t]
      else
        var k := FindChar(t, ' ');
        [t[..k]] + SplitArgs(t[k..], slots - 1)
  }

  lemma {:induction false} DropSpacesLength(s: string)
    ensures |DropSpaces(s)| <= |s| && (DropSpaces(s) != "" ==> DropSpaces(s)[0] != ' ')
    ensures s != "" && s[0] != ' ' ==> DropSpaces(s) == s
  {
    if s != "" && s[0] == ' ' { DropSpacesLength(s[1..]); }
  }

  // ---- Redirection and wildcards ----

  datatype Redirects = Redirects(words: seq<string>, infile: string, outfile: string, append: bool)

  predicate IsRedirect(t: string) {
    t != "" && (t[0] == '<' || t[0] == '>')
  }

  // < > or >> on its own, so that the next token is the name.
  predicate Bare(t: string) {
    t == "<" || t == ">" || t == ">>"
  }

  predicate IsName(av: seq<string>, i: nat)
    requires i < |av|
  {
    i > 0 && Bare(av[i - 1]) && !IsName(av, i - 1)
  }

  predicate IsWord(av: seq<string>, i: nat)
    requires i < |av|
  {
    !IsName(av, i) && !IsRedirect(av[i])
  }

  // Token i redirects output, or input.
  predicate IsOperator(av: seq<string>, i: nat, output: bool)
    requires i < |av|
  {
    !IsName(av, i) && IsRedirect(av[i]) && (av[i][0] == '>') == output
  }

  predicate Doubled(t: string) {
    |t| > 1 && t[0] == '>' && t[1] == '>'
  }

  // The name that belongs to operator i, attached or in the next token.
  function NameOf(av: seq<string>, i: nat): string
    requires i < |av| && IsRedirect(av[i])
  {
    var attached := av[i][if Doubled(av[i]) then 2 else 1..];
    if attached != "" then attached else if i + 1 < |av| then av[i + 1] else ""
  }

  function Words(av: seq<string>, n: nat): seq<string>
    requires n <= |av|
  {
    if n == 0 then [] else Words(av, n - 1) + if IsWord(av, n - 1) then [av[n - 1]] else []
  }

  // The last operator of a kind among the first n tokens, or -1.
  function LastOperator(av: seq<string>, n: nat, output: bool): (k: int)
    requires n <= |av|
    ensures -1 <= k < n && (k >= 0 ==> IsOperator(av, k, output))
    ensures forall i: nat :: k < i < n ==> !IsOperator(av, i, output)
  {
    if n == 0 then -1 else if IsOperator(av, n - 1, output) then n - 1 else LastOperator(av, n - 1, output)
  }

  function NameAfter(av: seq<string>, k: int): string
    requires -1 <= k < |av| && (k >= 0 ==> IsRedirect(av[k]))
  {
    if k < 0 then "" else NameOf(av, k)
  }

  // What the first n tokens say: the words are those that neither redirect nor
  // name a file, and of several redirections the last counts.  A name of "" is
  // none.
  function RedirectsIn(av: seq<string>, n: nat): Redirects
    requires n <= |av|
  {
    var out := LastOperator(av, n, true);
    Redirects(Words(av, n), NameAfter(av, LastOperator(av, n, false)), NameAfter(av, out),
              out >= 0 && Doubled(av[out]))
  }

  function ParseRedir(av: seq<string>): Redirects {
    RedirectsIn(av, |av|)
  }

  lemma {:induction false} WordsOnly(av: seq<string>, n: nat)
    requires n <= |av|
    ensures forall i :: 0 <= i < |Words(av, n)| ==> !IsRedirect(Words(av, n)[i])
  {
    if n > 0 { WordsOnly(av, n - 1); }
  }

  lemma {:induction false} NoRedirects(av: seq<string>, n: nat)
    requires n <= |av| && forall i :: 0 <= i < |av| ==> !IsRedirect(av[i])
    ensures RedirectsIn(av, n) == Redirects(av[..n], "", "", false)
  {
    if n > 0 {
      NoRedirects(av, n - 1);
      assert av[..n] == av[..n - 1] + [av[n - 1]];
    }
  }

  // The words that are left hold no redirection any more.
  lemma RedirectsOnce(av: seq<string>)
    ensures ParseRedir(ParseRedir(av).words) == Redirects(ParseRedir(av).words, "", "", false)
  {
    var ws := ParseRedir(av).words;
    WordsOnly(av, |av|);
    NoRedirects(ws, |ws|);
    assert ws[..|ws|] == ws;
  }

  // The name of a redirection, and what it redirects.
  lemma NameMeans(av: seq<string>, i: nat, n: string)
    requires i < |av| && n != ""
    ensures av[i] == "<" || av[i] == ">" || av[i] == ">>" ==>
              IsRedirect(av[i]) && NameOf(av, i) == if i + 1 < |av| then av[i + 1] else ""
    ensures av[i] == "<" + n || av[i] == ">>" + n || (av[i] == ">" + n && n[0] != '>') ==>
              IsRedirect(av[i]) && NameOf(av, i) == n
  {
    var t := av[i];
    if t == "<" + n || t == ">" + n { assert t[1..] == n; }
    if t == ">>" + n { assert t[2..] == n; }
  }

  // Before a redirection the words stay, and it takes effect.
  lemma RedirectIs(av: seq<string>, i: nat)
    requires i < |av| && (forall k :: 0 <= k < i ==> !IsRedirect(av[k])) && IsRedirect(av[i])
    ensures !IsName(av, i)
    ensures RedirectsIn(av, i + 1) ==
            if av[i][0] == '<' then Redirects(av[..i], NameOf(av, i), "", false)
            else Redirects(av[..i], "", NameOf(av, i), Doubled(av[i]))
  {
    PlainSoFar(av, i);
    hide Words, LastOperator, NameOf, Doubled;
    if i > 0 { assert !IsRedirect(av[i - 1]); }
    OneToken(av, i);
  }

  lemma OneToken(av: seq<string>, i: nat)
    requires i < |av| && !IsName(av, i) && IsRedirect(av[i])
    ensures var r := RedirectsIn(av, i);
            RedirectsIn(av, i + 1) ==
            if av[i][0] == '<' then r.(infile := NameOf(av, i))
            else r.(outfile := NameOf(av, i), append := Doubled(av[i]))
  {}

  lemma {:induction false} PlainSoFar(av: seq<string>, n: nat)
    requires n <= |av| && forall k :: 0 <= k < n ==> !IsRedirect(av[k])
    ensures RedirectsIn(av, n) == Redirects(av[..n], "", "", false)
  {
    if n > 0 {
      PlainSoFar(av, n - 1);
      assert av[..n] == av[..n - 1] + [av[n - 1]];
    }
  }

  // After it, words are words again.
  lemma {:induction false} WordsAfter(av: seq<string>, i: nat, n: nat)
    requires 0 < i <= n <= |av| && !(i < |av| && IsName(av, i)) && forall k :: i <= k < n ==> !IsRedirect(av[k])
    ensures RedirectsIn(av, n) == RedirectsIn(av, i).(words := RedirectsIn(av, i).words + av[i..n])
  {
    if n > i {
      WordsAfter(av, i, n - 1);
      if n - 1 > i { assert !IsRedirect(av[n - 2]); }
      assert av[i..n] == av[i..n - 1] + [av[n - 1]];
      hide IsRedirect;
    } else {
      assert av[i..n] == [];
      assert RedirectsIn(av, i).words + [] == RedirectsIn(av, i).words;
    }
  }

  // A stage with one redirection, its name in the next token or attached to it.
  lemma OneRedirection(front: seq<string>, op: string, name: string, rest: seq<string>)
    requires op == "<" || op == ">" || op == ">>"
    requires name != "" && (op == ">" ==> name[0] != '>')
    requires forall k :: 0 <= k < |front| ==> !IsRedirect(front[k])
    requires forall k :: 0 <= k < |rest| ==> !IsRedirect(rest[k])
    ensures var r := if op == "<" then Redirects(front + rest, name, "", false)
                     else Redirects(front + rest, "", name, op == ">>");
            ParseRedir(front + [op, name] + rest) == r && ParseRedir(front + [op + name] + rest) == r
  {
    SeparateName(front, op, name, rest);
    AttachedName(front, op, name, rest);
  }

  lemma SeparateName(front: seq<string>, op: string, name: string, rest: seq<string>)
    requires (op == "<" || op == ">" || op == ">>") && name != ""
    requires forall k :: 0 <= k < |front| ==> !IsRedirect(front[k])
    requires forall k :: 0 <= k < |rest| ==> !IsRedirect(rest[k])
    ensures ParseRedir(front + [op, name] + rest) ==
            if op == "<" then Redirects(front + rest, name, "", false) else Redirects(front + rest, "", name, op == ">>")
  {
    var i, av := |front|, front + [op, name] + rest;
    assert av[i] == op && av[i + 1] == name && av[..i] == front && av[i + 2..] == rest;
    forall k | 0 <= k < i ensures !IsRedirect(av[k]) { assert av[k] == front[k]; }
    NameMeans(av, i, name);
    RedirectIs(av, i);
    assert IsName(av, i + 1);
    SkipName(av, i);
    forall k | i + 2 <= k < |av| ensures !IsRedirect(av[k]) { assert av[k] == rest[k - i - 2]; }
    hide RedirectsIn, IsRedirect, NameOf;
    WordsAfter(av, i + 2, |av|);
    assert av[i + 2..|av|] == rest;
  }

  lemma SkipName(av: seq<string>, i: nat)
    requires i + 1 < |av| && IsName(av, i + 1)
    ensures RedirectsIn(av, i + 2) == RedirectsIn(av, i + 1)
    ensures i + 2 < |av| ==> !IsName(av, i + 2)
  {}

  lemma AttachedName(front: seq<string>, op: string, name: string, rest: seq<string>)
    requires (op == "<" || op == ">" || op == ">>") && name != "" && (op == ">" ==> name[0] != '>')
    requires forall k :: 0 <= k < |front| ==> !IsRedirect(front[k])
    requires forall k :: 0 <= k < |rest| ==> !IsRedirect(rest[k])
    ensures ParseRedir(front + [op + name] + rest) ==
            if op == "<" then Redirects(front + rest, name, "", false) else Redirects(front + rest, "", name, op == ">>")
  {
    var i, t := |front|, op + name;
    var av := front + [t] + rest;
    assert av[i] == t && av[..i] == front && av[i + 1..] == rest;
    forall k | 0 <= k < i ensures !IsRedirect(av[k]) { assert av[k] == front[k]; }
    NameMeans(av, i, name);
    RedirectIs(av, i);
    AttachedKinds(op, name);
    forall k | i + 1 <= k < |av| ensures !IsRedirect(av[k]) { assert av[k] == rest[k - i - 1]; }
    assert i + 1 < |av| ==> !IsName(av, i + 1);
    hide RedirectsIn, IsRedirect, NameOf;
    WordsAfter(av, i + 1, |av|);
    assert av[i + 1..|av|] == rest;
  }

  lemma AttachedKinds(op: string, name: string)
    requires (op == "<" || op == ">" || op == ">>") && name != "" && (op == ">" ==> name[0] != '>')
    ensures var t := op + name;
            !Bare(t) && (t[0] == '<' <==> op == "<") && (op != "<" ==> (Doubled(t) <==> op == ">>"))
  {
    var t := op + name;
    assert t[|op|] == name[0];
    assert |t| > |op|;
  }

  // What all tokens but the last say, if the last operator has its name.
  lemma {:induction false} RedirectsBefore(av: seq<string>, t: string, n: nat)
    requires n <= |av| && (av != [] ==> !Bare(av[|av| - 1]))
    ensures RedirectsIn(av + [t], n) == RedirectsIn(av, n)
    decreases n
  {
    if n > 0 {
      RedirectsBefore(av, t, n - 1);
      SameToken(av, t, n - 1);
    }
  }

  lemma SameToken(av: seq<string>, t: string, i: nat)
    requires i < |av| && !Bare(av[|av| - 1])
    ensures (av + [t])[i] == av[i] && IsName(av + [t], i) == IsName(av, i)
    ensures IsRedirect(av[i]) ==> NameOf(av + [t], i) == NameOf(av, i)
  {
    SameNames(av, t, i);
    if IsRedirect(av[i]) && i + 1 == |av| {
      AttachedNotEmpty(av[i]);
    }
  }

  lemma {:induction false} SameNames(av: seq<string>, t: string, i: nat)
    requires i < |av|
    ensures IsName(av + [t], i) == IsName(av, i)
  {
    if i > 0 { SameNames(av, t, i - 1); }
  }

  lemma AttachedNotEmpty(t: string)
    requires IsRedirect(t) && !Bare(t)
    ensures t[if Doubled(t) then 2 else 1..] != ""
  {
    if Doubled(t) {
      assert t == ">>" || |t| > 2;
    } else {
      assert t == "<" || t == ">" || |t| > 1;
    }
  }

  // Of several redirections of a kind the last counts, and the other kind and the
  // words are left alone.
  lemma LastCounts(av: seq<string>, op: string, name: string)
    requires op == "<" || op == ">" || op == ">>"
    requires name != "" && (op == ">" ==> name[0] != '>')
    requires av != [] ==> av[|av| - 1] != "<" && av[|av| - 1] != ">" && av[|av| - 1] != ">>"
    ensures var r := ParseRedir(av);
            ParseRedir(av + [op + name]) ==
            if op == "<" then r.(infile := name) else r.(outfile := name, append := op == ">>")
  {
    var t, more := op + name, av + [op + name];
    RedirectsBefore(av, t, |av|);
    assert t[0] == op[0];
    NameMeans(more, |av|, name);
    AttachedKinds(op, name);
    if av != [] { assert more[|av| - 1] == av[|av| - 1]; }
    hide RedirectsIn, NameOf, Doubled;
    OneToken(more, |av|);
  }

  predicate HasWildcard(s: string) {
    '*' in s || '?' in s
  }

  // matches gives what a word with wildcards turns into; others are copied,
  // up to 95 characters and 32 words.
  function Globs(av: seq<string>, matches: string -> seq<string>, room: nat): seq<string>
    decreases |av|
  {
    if av == [] || room == 0 then []
    else if HasWildcard(av[0]) then
      var m := matches(av[0]);
      var n := if |m| <= room then m else m[..room];
      n + Globs(av[1..], matches, room - |n|)
    else [Take(av[0], 95)] + Globs(av[1..], matches, room - 1)
  }

  // ---- The words a stage is run with ----

  function StageArgv(stage: string, matches: string -> seq<string>): seq<string>
  {
    var words := Globs(ParseRedir(SplitArgs(Trim(stage), 11)).words, matches, 32);
    seq(|words|, i requires 0 <= i < |words| => UnprotectAll(words[i]))
  }

  // ---- Quoted words ----

  // Words that fit the buffers and can be written in single quotes: no quote,
  // no NUL and no placeholder byte.
  predicate Quotable(w: string) {
    && 1 <= |w| <= 95
    && forall i :: 0 <= i < |w| ==> w[i] != '\'' && w[i] != '\0' && !IsPlaceholder(w[i])
  }

  predicate AllQuotable(ws: seq<string>) {
    forall i :: 0 <= i < |ws| ==> Quotable(ws[i])
  }

  function Quoted(ws: seq<string>): string {
    if ws == [] then ""
    else "'" + ws[0] + "'" + if |ws| == 1 then "" else " " + Quoted(ws[1..])
  }

  // The words, protected, with single spaces between them.
  function Plain(ws: seq<string>): string {
    if ws == [] then "" else ProtectAll(ws[0]) + if |ws| == 1 then "" else " " + Plain(ws[1..])
  }

  predicate Special(c: char) {
    c == '$' || c == '~' || c == ';' || c == '&' || c == '|' || c == '<' || c == '>' || c == '*' || c == '?'
  }

  lemma ProtectedIsPlain(c: char)
    ensures !Special(Protect(c, true)) && Protect(c, true) != ' '
  {}

  // No special character is left, and words do not start or end with a space.
  lemma {:induction false} PlainIsClean(ws: seq<string>)
    requires AllQuotable(ws) && ws != []
    ensures Plain(ws) != "" && Plain(ws)[0] != ' ' && Plain(ws)[|Plain(ws)| - 1] != ' '
    ensures forall i :: 0 <= i < |Plain(ws)| ==> !Special(Plain(ws)[i])
  {
    var p := ProtectAll(ws[0]);
    assert Quotable(ws[0]);
    forall i | 0 <= i < |p| ensures !Special(p[i]) && p[i] != ' ' {
      ProtectedIsPlain(ws[0][i]);
    }
    if |ws| > 1 {
      PlainIsClean(ws[1..]);
      assert Plain(ws) == p + (" " + Plain(ws[1..]));
    } else {
      assert Plain(ws) == p;
    }
  }

  lemma DequoteQuoted(c: char, s: string, room: nat)
    requires c != '\'' ==> room > 0
    ensures Dequote([c] + s, 1, room) == if c == '\'' then Dequote(s, 0, room) else [Protect(c, true)] + Dequote(s, 1, room - 1)
  {
    assert ([c] + s)[1..] == s;
    hide Protect, Verbatim;
    if room == 0 { EmptyRoom(s); }
  }

  lemma EmptyRoom(s: string)
    ensures Dequote(s, 0, 0) == ""
  {}

  lemma {:induction false} DequoteWord(w: string, rest: string, room: nat)
    requires '\'' !in w && |w| <= room
    ensures Dequote(w + "'" + rest, 1, room) == ProtectAll(w) + Dequote(rest, 0, room - |w|)
    decreases |w|
  {
    hide Protect, Dequote;
    if w == "" {
      assert w + "'" + rest == ['\''] + rest;
      DequoteQuoted('\'', rest, room);
      assert ProtectAll(w) + Dequote(rest, 0, room) == Dequote(rest, 0, room);
    } else {
      assert w + "'" + rest == [w[0]] + (w[1..] + "'" + rest) && w[0] in w;
      DequoteQuoted(w[0], w[1..] + "'" + rest, room);
      DequoteWord(w[1..], rest, room - 1);
      assert ProtectAll(w) == [Protect(w[0], true)] + ProtectAll(w[1..]);
    }
  }

  lemma DequoteOpen(s: string, room: nat)
    requires room > 0
    ensures Dequote("'" + s, 0, room) == Dequote(s, 1, room)
    ensures Dequote(" " + s, 0, room) == " " + Dequote(s, 0, room - 1)
    ensures Dequote("", 0, room) == "" && Dequote("", 0, 0) == ""
  {
    hide Protect, Verbatim;
    assert ("'" + s)[1..] == s && (" " + s)[1..] == s;
  }

  lemma {:induction false} DequoteLine(ws: seq<string>, room: nat)
    requires AllQuotable(ws) && |Plain(ws)| <= room
    ensures Dequote(Quoted(ws), 0, room) == Plain(ws)
    decreases |ws|
  {
    hide Dequote;
    DequoteOpen("", room + 1);
    if ws == [] {
      EmptyLine(room);
    } else {
      var w := ws[0];
      assert Quotable(w);
      var rest := if |ws| == 1 then "" else " " + Quoted(ws[1..]);
      assert Quoted(ws) == "'" + (w + "'" + rest);
      DequoteOpen(w + "'" + rest, room);
      DequoteWord(w, rest, room);
      if |ws| > 1 {
        DequoteOpen(Quoted(ws[1..]), room - |w|);
        DequoteLine(ws[1..], room - |w| - 1);
      } else {
        EmptyLine(room - |w|);
        assert ProtectAll(w) + "" == ProtectAll(w);
      }
    }
  }

  // ---- The other forms of quoting ----

  function ProtectDouble(s: string): (t: string)
    ensures |t| == |s| && forall i :: 0 <= i < |s| ==> t[i] == Protect(s[i], false)
  {
    seq(|s|, i requires 0 <= i < |s| => Protect(s[i], false))
  }

  lemma DoubleStep(c: char, s: string, room: nat)
    requires room > 0 && c != '"' && (c == '$' && s != "" ==> s[0] != '(')
    ensures Dequote([c] + s, 2, room) == [Protect(c, false)] + Dequote(s, 2, room - 1)
  {
    hide Protect, Verbatim;
    assert ([c] + s)[1..] == s;
  }

  lemma DoubleEnd(s: string, room: nat)
    ensures room > 0 ==> Dequote("\"" + s, 0, room) == Dequote(s, 2, room)
    ensures Dequote("\"" + s, 2, room) == Dequote(s, 0, room)
  {
    hide Protect, Verbatim;
    assert ("\"" + s)[1..] == s;
    if room == 0 { EmptyRoom(s); }
  }

  // In double quotes, text without a quote or a command is protected but for the
  // dollar signs and parentheses in it.
  lemma {:induction false} DequoteDouble(w: string, rest: string, room: nat)
    requires '"' !in w && NoCommand(w) && |w| <= room
    ensures Dequote(w + "\"" + rest, 2, room) == ProtectDouble(w) + Dequote(rest, 0, room - |w|)
    decreases |w|
  {
    hide Protect, Dequote;
    if w == "" {
      assert w + "\"" + rest == "\"" + rest;
      DoubleEnd(rest, room);
      assert ProtectDouble(w) + Dequote(rest, 0, room) == Dequote(rest, 0, room);
    } else {
      var tail := w[1..] + "\"" + rest;
      assert w + "\"" + rest == [w[0]] + tail && w[0] in w;
      assert !CommandAt(w, 0);
      DoubleStep(w[0], tail, room);
      forall i | 0 <= i < |w[1..]| ensures !CommandAt(w[1..], i) {
        assert !CommandAt(w, i + 1);
      }
      DequoteDouble(w[1..], rest, room - 1);
      assert ProtectDouble(w) == [Protect(w[0], false)] + ProtectDouble(w[1..]);
    }
  }

  // A word in double quotes, as a whole.
  lemma DequoteDoubleWord(w: string, rest: string, room: nat)
    requires '"' !in w && NoCommand(w) && |w| <= room && room > 0
    ensures Dequote("\"" + w + "\"" + rest, 0, room) == ProtectDouble(w) + Dequote(rest, 0, room - |w|)
  {
    hide Protect, Dequote, NoCommand;
    assert "\"" + w + "\"" + rest == "\"" + (w + "\"" + rest);
    DoubleEnd(w + "\"" + rest, room);
    DequoteDouble(w, rest, room);
  }

  lemma PlainStep(c: char, s: string, room: nat)
    requires room > 0 && c != '\'' && c != '"' && (c == '$' && s != "" ==> s[0] != '(')
    ensures Dequote([c] + s, 0, room) == [c] + Dequote(s, 0, room - 1)
  {
    hide Protect, Verbatim;
    assert ([c] + s)[1..] == s;
  }

  // Text outside quotes is copied.
  lemma {:induction false} DequotePlain(w: string, rest: string, room: nat)
    requires '\'' !in w && '"' !in w && NoCommand(w) && |w| <= room
    requires w != "" && rest != "" && w[|w| - 1] == '$' ==> rest[0] != '('
    ensures Dequote(w + rest, 0, room) == w + Dequote(rest, 0, room - |w|)
    decreases |w|
  {
    hide Protect, Dequote;
    if w == "" {
      assert w + rest == rest;
    } else {
      assert w + rest == [w[0]] + (w[1..] + rest) && w[0] in w && !CommandAt(w, 0);
      PlainStep(w[0], w[1..] + rest, room);
      forall i | 0 <= i < |w[1..]| ensures !CommandAt(w[1..], i) {
        assert !CommandAt(w, i + 1);
      }
      DequotePlain(w[1..], rest, room - 1);
      assert w == [w[0]] + w[1..];
    }
  }

  lemma CopyStep(c: char, s: string, depth: int, state: nat, room: nat)
    requires room > 0
    ensures var depth' := depth + (if c == '(' then 1 else if c == ')' then -1 else 0);
            Verbatim([c] + s, depth, state, room) ==
            [c] + if depth' == 0 && c == ')' then Dequote(s, state, room - 1) else Verbatim(s, depth', state, room - 1)
  {
    hide Dequote;
    assert ([c] + s)[1..] == s;
  }

  lemma OpenAt(c: string, i: nat)
    requires Open(c) && i <= |c|
    ensures Level(c[..i]) >= 0
  {}

  lemma HeadOf(x: char, a: string, b: string)
    ensures [x] + (a + ")" + b) == [x] + a + ")" + b
  {}

  // The rest of a command from position i, with the parentheses open so far.
  lemma {:induction false} CopyRest(cmd: string, i: nat, rest: string, state: nat, room: nat)
    requires i <= |cmd| && Open(cmd) && Level(cmd) == 0 && |cmd| - i < room
    ensures Verbatim(cmd[i..] + ")" + rest, 1 + Level(cmd[..i]), state, room) ==
            cmd[i..] + ")" + Dequote(rest, state, room - (|cmd| - i) - 1)
    decreases |cmd| - i
  {
    hide Verbatim, Dequote, Open, Level;
    if i == |cmd| {
      assert cmd[..i] == cmd && cmd[i..] == "" && "" + ")" + rest == [')'] + rest;
      CopyStep(')', rest, 1, state, room);
    } else {
      var c, tail := cmd[i], cmd[i + 1..];
      assert cmd[i..] == [c] + tail;
      HeadOf(c, tail, rest);
      CopyStep(c, tail + ")" + rest, 1 + Level(cmd[..i]), state, room);
      LevelNext(cmd, 0, i);
      OpenAt(cmd, i + 1);
      assert cmd[0..i] == cmd[..i] && cmd[0..i + 1] == cmd[..i + 1];
      CopyRest(cmd, i + 1, rest, state, room - 1);
      HeadOf(c, tail, Dequote(rest, state, room - (|cmd| - i) - 1));
    }
  }

  // A command outside single quotes is copied as it is, quotes and all.
  lemma DequoteCommand(cmd: string, rest: string, state: nat, room: nat)
    requires (state == 0 || state == 2) && Open(cmd) && Level(cmd) == 0 && |cmd| + 3 <= room
    ensures Dequote("$(" + (cmd + ")" + rest), state, room) == "$(" + (cmd + ")" + Dequote(rest, state, room - |cmd| - 3))
  {
    hide Verbatim, Dequote, Open, Level;
    var tail := cmd + ")" + rest;
    assert "$(" + tail == ['$'] + (['('] + tail);
    VerbatimStarts(['$'] + (['('] + tail), state, room);
    CopyStep('$', ['('] + tail, 0, state, room);
    CopyStep('(', tail, 0, state, room - 1);
    assert cmd[0..] == cmd && cmd[..0] == "";
    LevelEmpty();
    CopyRest(cmd, 0, rest, state, room - 2);
    var out := cmd + ")" + Dequote(rest, state, room - |cmd| - 3);
    assert "$(" + out == ['$'] + (['('] + out);
  }

  lemma VerbatimStarts(s: string, state: nat, room: nat)
    requires state != 1 && room > 0 && |s| > 1 && s[0] == '$' && s[1] == '('
    ensures Dequote(s, state, room) == Verbatim(s, 0, state, room)
  {}

  lemma EmptyLine(room: nat)
    ensures Dequote("", 0, room) == ""
  {}

  lemma NothingSpecial(s: string)
    requires forall i :: 0 <= i < |s| ==> !Special(s[i])
    ensures NoCommand(s) && NothingIn(s, 0, |s|)
  {}

  lemma VariablesDone(s: string, env: map<string, string>, status: string)
    ensures ExpandVars(s, |s|, env, status) == ""
  {}

  lemma OneSegment(s: string, op: Op, room: nat)
    requires forall i :: 0 <= i < |s| ==> !Special(s[i])
    ensures SplitList(s, op, room) == [Segment(op, s)]
  {
    NoOperator(s);
  }

  lemma TrimNothing(s: string)
    requires s != "" && s[0] != ' ' && s[|s| - 1] != ' '
    ensures Trim(s) == s && DropTail(s) == s
  {}

  lemma NotFound(s: string, c: char)
    requires c !in s
    ensures FindChar(s, c) == |s|
  {}

  lemma {:induction false} FoundAt(s: string, c: char, k: nat)
    requires k < |s| && s[k] == c && c !in s[..k]
    ensures FindChar(s, c) == k
    decreases k
  {
    if k > 0 {
      assert s[..k][0] == s[0] && s[..k][1..] == s[1..][..k - 1];
      FoundAt(s[1..], c, k - 1);
    }
  }

  lemma SplitOne(p: string, slots: nat)
    requires p != "" && ' ' !in p && slots > 0
    ensures SplitArgs(p, slots) == [p]
  {
    DropSpacesLength(p);
    hide DropSpaces;
    NotFound(p, ' ');
    hide FindChar;
    assert p[0] in p;
    assert p[|p|..] == "";
    NoWords(slots - 1);
    assert p[..|p|] == p;
  }

  lemma NoWords(slots: nat)
    ensures SplitArgs("", slots) == []
  {}

  lemma SplitMore(p: string, rest: string, slots: nat)
    requires p != "" && ' ' !in p && slots > 1 && rest != "" && rest[0] != ' '
    ensures SplitArgs(p + " " + rest, slots) == [p] + SplitArgs(rest, slots - 1)
  {
    var s := p + " " + rest;
    assert s[0] == p[0] && p[0] in p;
    DropSpacesLength(s);
    assert s[..|p|] == p && s[|p|..] == " " + rest;
    FoundAt(s, ' ', |p|);
    hide DropSpaces, FindChar;
    LeadingSpace(rest, slots - 1);
  }

  lemma PlainMore(ws: seq<string>)
    requires |ws| > 1
    ensures Plain(ws) == ProtectAll(ws[0]) + " " + Plain(ws[1..])
  {
    assert ProtectAll(ws[0]) + (" " + Plain(ws[1..])) == ProtectAll(ws[0]) + " " + Plain(ws[1..]);
  }

  lemma PlainOne(ws: seq<string>)
    requires |ws| == 1
    ensures Plain(ws) == ProtectAll(ws[0])
  {
    assert ProtectAll(ws[0]) + "" == ProtectAll(ws[0]);
  }

  // With fewer slots than words, the last slot takes all that is left.
  function Slots(ws: seq<string>, slots: nat): seq<string>
    requires slots > 0
  {
    if |ws| <= slots then seq(|ws|, i requires 0 <= i < |ws| => ProtectAll(ws[i]))
    else seq(slots - 1, i requires 0 <= i < slots - 1 => ProtectAll(ws[i])) + [Plain(ws[slots - 1..])]
  }

  lemma {:induction false} SplitPlain(ws: seq<string>, slots: nat)
    requires AllQuotable(ws) && slots > 0
    ensures SplitArgs(Plain(ws), slots) == Slots(ws, slots)
    decreases |ws|
  {
    hide SplitArgs, Plain, ProtectAll;
    if ws == [] {
      PlainNone();
      NoWords(slots);
    } else {
      assert Quotable(ws[0]);
      var p := ProtectAll(ws[0]);
      NoSpace(ws[0]);
      if |ws| == 1 {
        PlainOne(ws);
        SplitOne(p, slots);
      } else if slots == 1 {
        PlainIsClean(ws);
        OneSlot(Plain(ws));
        assert ws[0..] == ws;
      } else {
        PlainMore(ws);
        PlainIsClean(ws[1..]);
        SplitMore(p, Plain(ws[1..]), slots);
        SplitPlain(ws[1..], slots - 1);
        SlotsMore(ws, slots);
      }
    }
  }

  lemma OneSlot(s: string)
    requires s != "" && s[0] != ' '
    ensures SplitArgs(s, 1) == [s]
  {}

  lemma SlotsMore(ws: seq<string>, slots: nat)
    requires |ws| > 1 && slots > 1
    ensures Slots(ws, slots) == [ProtectAll(ws[0])] + Slots(ws[1..], slots - 1)
  {
    hide Plain, ProtectAll;
    if |ws| > slots { assert ws[1..][slots - 2..] == ws[slots - 1..]; }
  }

  lemma PlainNone()
    ensures Plain([]) == ""
  {}

  lemma NoSpace(w: string)
    ensures ' ' !in ProtectAll(w)
  {
    var p := ProtectAll(w);
    forall i | 0 <= i < |p| ensures p[i] != ' ' {
      ProtectedIsPlain(w[i]);
    }
  }

  lemma LeadingSpace(t: string, slots: nat)
    requires t != "" && t[0] != ' '
    ensures SplitArgs(" " + t, slots) == SplitArgs(t, slots)
  {
    assert (" " + t)[1..] == t;
    assert DropSpaces(" " + t) == DropSpaces(t);
  }

  lemma ProtectedWord(w: string)
    requires Quotable(w)
    ensures var p := ProtectAll(w); p != "" && |p| <= 95 && !IsRedirect(p) && !HasWildcard(p) && UnprotectAll(p) == w
  {
    var p := ProtectAll(w);
    forall i | 0 <= i < |p| ensures !Special(p[i]) {
      ProtectedIsPlain(w[i]);
    }
    ProtectionExactly(w);
  }

  // The words with single spaces between them.
  function Spaced(ws: seq<string>): string {
    if ws == [] then "" else ws[0] + if |ws| == 1 then "" else " " + Spaced(ws[1..])
  }

  lemma {:induction false} PlainSpaced(ws: seq<string>)
    requires AllQuotable(ws)
    ensures UnprotectAll(Plain(ws)) == Spaced(ws)
    decreases |ws|
  {
    hide Unprotect, ProtectAll;
    if ws != [] {
      assert Quotable(ws[0]);
      ProtectedWord(ws[0]);
      if |ws| == 1 {
        PlainOne(ws);
      } else {
        PlainSpaced(ws[1..]);
        PlainMore(ws);
        UnprotectJoin(ProtectAll(ws[0]), Plain(ws[1..]));
      }
    }
  }

  lemma UnprotectJoin(a: string, b: string)
    ensures UnprotectAll(a + " " + b) == UnprotectAll(a) + (" " + UnprotectAll(b))
  {
    assert Unprotect(' ') == ' ';
    hide Unprotect;
  }

  lemma UnprotectTake(s: string, n: nat)
    ensures UnprotectAll(Take(s, n)) == Take(UnprotectAll(s), n)
  {
    hide Unprotect;
  }

  // The words a program is run with when ws are written in single quotes: from
  // the eleventh on they stay one word, cut to what a word can hold.
  function Received(ws: seq<string>): seq<string> {
    if |ws| <= 11 then ws else ws[..10] + [Take(Spaced(ws[10..]), 95)]
  }

  // A word with a wildcard becomes what it matches, any other word itself.
  lemma GlobMeans(w: string, rest: seq<string>, matches: string -> seq<string>, room: nat)
    requires room > 0 && |matches(w)| <= room && |w| <= 95
    ensures '*' in w || '?' in w ==> Globs([w] + rest, matches, room) == matches(w) + Globs(rest, matches, room - |matches(w)|)
    ensures '*' !in w && '?' !in w ==> Globs([w] + rest, matches, room) == [w] + Globs(rest, matches, room - 1)
  {
    assert ([w] + rest)[1..] == rest;
  }

  lemma {:induction false} CopyThrough(av: seq<string>, matches: string -> seq<string>, room: nat)
    requires |av| <= room && forall k :: 0 <= k < |av| ==> !HasWildcard(av[k])
    ensures Globs(av, matches, room) == seq(|av|, i requires 0 <= i < |av| => Take(av[i], 95))
    decreases |av|
  {
    hide Take;
    if av != [] { CopyThrough(av[1..], matches, room - 1); }
  }

  // The tokens of such a stage: no redirection, no wildcard.
  lemma SlotsClean(ws: seq<string>, k: nat)
    requires AllQuotable(ws) && k < |Slots(ws, 11)|
    ensures var t := Slots(ws, 11)[k];
            !IsRedirect(t) && !HasWildcard(t) && k < |Received(ws)| && UnprotectAll(Take(t, 95)) == Received(ws)[k]
  {
    hide UnprotectAll, ProtectAll, Plain, Spaced;
    if |ws| > 11 && k == 10 {
      var rest := ws[10..];
      PlainIsClean(rest);
      PlainSpaced(rest);
      UnprotectTake(Plain(rest), 95);
    } else {
      assert Quotable(ws[k]);
      ProtectedWord(ws[k]);
    }
  }

  lemma StageOfPlain(ws: seq<string>, matches: string -> seq<string>)
    requires AllQuotable(ws) && ws != []
    ensures StageArgv(Plain(ws), matches) == Received(ws)
  {
    hide Plain, Trim, SplitArgs, RedirectsIn, Globs, Slots, Received, IsRedirect, HasWildcard, Take, UnprotectAll;
    PlainIsClean(ws);
    TrimNothing(Plain(ws));
    SplitPlain(ws, 11);
    var av := Slots(ws, 11);
    SlotsLength(ws);
    forall k | 0 <= k < |av|
      ensures !IsRedirect(av[k]) && !HasWildcard(av[k]) && UnprotectAll(Take(av[k], 95)) == Received(ws)[k]
    {
      SlotsClean(ws, k);
    }
    NoRedirects(av, |av|);
    assert av[..|av|] == av;
    CopyThrough(av, matches, 32);
  }

  lemma SlotsLength(ws: seq<string>)
    ensures |Slots(ws, 11)| == |Received(ws)| == if |ws| <= 11 then |ws| else 11
  {}

  // What the words of a line written in single quotes are by the time a program
  // is run with them, whatever the environment, the directory and the last
  // status are: themselves, exactly if there are at most eleven.
  lemma QuotedWordsReachArgv(ws: seq<string>, capture: string -> string, env: map<string, string>, status: string,
                             matches: string -> seq<string>)
    requires AllQuotable(ws) && ws != [] && |Plain(ws)| <= 511
    ensures var p := Dequote(Quoted(ws), 0, 511);
            && SplitList(Take(Substitute(p, capture), 511), OpSemi, 15) == [Segment(OpSemi, p)]
            && Trim(Take(ExpandVars(Trim(p), 0, env, status), 511)) == p
            && Background(p) == (false, p) && Stages(p, 3) == [p]
            && StageArgv(p, matches) == Received(ws)
    ensures Received(ws) == ws <==> |ws| <= 11
  {
    hide Dequote, Substitute, SplitList, ExpandVars, Trim, DropTail, StageArgv, Plain, FindChar, Spaced;
    var p := Plain(ws);
    DequoteLine(ws, 511);
    PlainIsClean(ws);
    NothingSpecial(p);
    TextKept(p, capture);
    OneSegment(p, OpSemi, 15);
    TrimNothing(p);
    NothingKept(p, 0, |p|, env, status);
    VariablesDone(p, env, status);
    assert p[0..] == p && p + "" == p;
    NotFound(p, '|');
    StageOfPlain(ws, matches);
  }

  // ---- Wildcards ----

  // * stands for any text, ? for one character, the rest for itself.
  ghost predicate Matches(pat: string, s: string)
    decreases |pat|
  {
    if pat == "" then s == ""
    else if pat[0] == '*' then exists k :: 0 <= k <= |s| && Matches(pat[1..], s[k..])
    else s != "" && (pat[0] == '?' || pat[0] == s[0]) && Matches(pat[1..], s[1..])
  }

  // One after the other two patterns match two pieces of the text.
  lemma {:induction false} MatchesJoin(p: string, q: string, s: string)
    ensures Matches(p + q, s) <==> exists k :: 0 <= k <= |s| && Matches(p, s[..k]) && Matches(q, s[k..])
    decreases |p|
  {
    if Matches(p + q, s) {
      var k := JoinCut(p, q, s);
    }
    if k :| 0 <= k <= |s| && Matches(p, s[..k]) && Matches(q, s[k..]) {
      JoinMatches(p, q, s, k);
    }
  }

  lemma {:induction false} JoinCut(p: string, q: string, s: string) returns (k: nat)
    requires Matches(p + q, s)
    ensures k <= |s| && Matches(p, s[..k]) && Matches(q, s[k..])
    decreases |p|
  {
    hide Matches;
    if p == "" {
      k := 0;
      JoinNothing(q, s);
      JoinNothing(q, s[..0]);
    } else {
      JoinHead(p, q);
      if p[0] == '*' {
        var j := StarCut(p + q, s);
        var m := JoinCut(p[1..], q, s[j..]);
        k := j + m;
        Pieces(s, j, k);
        StarJoin(p, s[..k], j);
      } else {
        OneStep(p + q, s);
        var m := JoinCut(p[1..], q, s[1..]);
        k := 1 + m;
        Pieces(s, 1, k);
        OneStep(p, s[..k]);
      }
    }
  }

  lemma StarCut(p: string, s: string) returns (j: nat)
    requires p != "" && p[0] == '*' && Matches(p, s)
    ensures j <= |s| && Matches(p[1..], s[j..])
  {
    j :| 0 <= j <= |s| && Matches(p[1..], s[j..]);
  }

  lemma StarJoin(p: string, s: string, j: nat)
    requires p != "" && p[0] == '*' && j <= |s| && Matches(p[1..], s[j..])
    ensures Matches(p, s)
  {}

  lemma OneStep(p: string, s: string)
    requires p != "" && p[0] != '*'
    ensures Matches(p, s) <==> s != "" && (p[0] == '?' || p[0] == s[0]) && Matches(p[1..], s[1..])
  {}

  lemma Pieces(s: string, i: nat, k: nat)
    requires i <= k <= |s|
    ensures s[..k][i..] == s[i..][..k - i] && s[k..] == s[i..][k - i..]
  {}

  lemma JoinHead(p: string, q: string)
    requires p != ""
    ensures p + q != "" && (p + q)[1..] == p[1..] + q && (p + q)[0] == p[0]
  {}

  lemma JoinNothing(q: string, s: string)
    ensures "" + q == q && s[0..] == s && (Matches("", s) <==> s == "")
  {}

  lemma {:induction false} JoinMatches(p: string, q: string, s: string, k: nat)
    requires k <= |s| && Matches(p, s[..k]) && Matches(q, s[k..])
    ensures Matches(p + q, s)
    decreases |p|
  {
    hide Matches;
    if p == "" {
      JoinNothing(q, s[..k]);
      JoinNothing(q, s);
    } else {
      JoinHead(p, q);
      if p[0] == '*' {
        var j := StarCut(p, s[..k]);
        Pieces(s, j, k);
        JoinMatches(p[1..], q, s[j..], k - j);
        StarJoin(p + q, s, j);
      } else {
        OneStep(p, s[..k]);
        OneStep(p + q, s);
        Pieces(s, 1, k);
        JoinMatches(p[1..], q, s[1..], k - 1);
      }
    }
  }

  // A single * matches any text, a single ? any one character, any other
  // character itself, and no pattern no text.
  lemma OneCharacterMatches(c: char, s: string)
    ensures Matches("*", s)
    ensures Matches("?", s) <==> |s| == 1
    ensures c != '*' && c != '?' ==> (Matches([c], s) <==> s == [c])
    ensures Matches("", s) <==> s == ""
  {
    hide Matches;
    assert "*"[1..] == "" && "?"[1..] == "" && [c][1..] == "";
    assert s[|s|..] == "";
    JoinNothing("", s);
    JoinNothing("", s[|s|..]);
    StarJoin("*", s, |s|);
    OneStep("?", s);
    if c != '*' { OneStep([c], s); }
    if s != "" { JoinNothing("", s[1..]); }
  }

  // A pattern without wildcards matches only itself.
  lemma {:induction false} LiteralMatch(pat: string, s: string)
    requires !HasWildcard(pat)
    ensures Matches(pat, s) <==> pat == s
    decreases |pat|
  {
    if pat != "" {
      assert pat[0] in pat;
      forall c | c in pat[1..] ensures c in pat {}
      if s != "" {
        LiteralMatch(pat[1..], s[1..]);
        assert pat == [pat[0]] + pat[1..] && s == [s[0]] + s[1..];
      }
    }
  }
}
