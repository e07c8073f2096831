// What a line diff promises: common subsequences, edit scripts and hunks.
module DiffModel {
  // ---- Common subsequences ----

  predicate Subsequence<T(==)>(s: seq<T>, t: seq<T>)
    decreases |t|
  {
    s == [] || (t != [] && ((s[0] == t[0] && Subsequence(s[1..], t[1..])) || Subsequence(s, t[1..])))
  }

  lemma {:induction false} DropHead<T>(s: seq<T>, t: seq<T>)
    requires Subsequence(s, t) && s != []
    ensures t != [] && Subsequence(s[1..], t[1..])
    decreases |t|
  {
    if !(s[0] == t[0] && Subsequence(s[1..], t[1..])) {
      DropHead(s, t[1..]);
      Widen(s[1..], t[1..][1..], t[1]);
      assert [t[1]] + t[1..][1..] == t[1..];
    }
  }

  lemma Widen<T>(s: seq<T>, t: seq<T>, x: T)
    requires Subsequence(s, t)
    ensures Subsequence(s, [x] + t)
  {
    assert ([x] + t)[1..] == t;
  }

  lemma {:induction false} SubsequenceRefl<T>(s: seq<T>)
    ensures Subsequence(s, s)
  {
    if s != [] { SubsequenceRefl(s[1..]); }
  }

  // The value the table is meant to hold for the suffixes from i and j.
  function Lcs<T(==)>(a: seq<T>, b: seq<T>, i: nat, j: nat): (r: nat)
    requires i <= |a| && j <= |b|
    ensures r <= |a| - i && r <= |b| - j
    decreases |a| - i + |b| - j
  {
    if i == |a| || j == |b| then 0
    else if a[i] == b[j] then Lcs(a, b, i + 1, j + 1) + 1
    else
      var down, right := Lcs(a, b, i + 1, j), Lcs(a, b, i, j + 1);
      if down >= right then down else right
  }

  // No common subsequence is longer.
  lemma {:induction false} LcsUpper<T>(a: seq<T>, b: seq<T>, i: nat, j: nat, s: seq<T>)
    requires i <= |a| && j <= |b| && Subsequence(s, a[i..]) && Subsequence(s, b[j..])
    ensures |s| <= Lcs(a, b, i, j)
    decreases |a| - i + |b| - j
  {
    if s != [] {
      assert a[i..][1..] == a[i + 1..] && b[j..][1..] == b[j + 1..];
      if a[i] == b[j] {
        DropHead(s, a[i..]);
        DropHead(s, b[j..]);
        LcsUpper(a, b, i + 1, j + 1, s[1..]);
      } else if s[0] != a[i] {
        LcsUpper(a, b, i + 1, j, s);
      } else {
        LcsUpper(a, b, i, j + 1, s);
      }
    }
  }

  // ---- Edit scripts ----

  datatype Edit = Keep | Delete | Add

  // The script leads from the start of both files to line i of a and j of b,
  // keeping only equal lines.
  predicate Reaches<T(==)>(a: seq<T>, b: seq<T>, script: seq<Edit>, i: nat, j: nat)
    requires i <= |a| && j <= |b|
    decreases |script|
  {
    if script == [] then i == 0 && j == 0
    else
      var rest := script[..|script| - 1];
      match script[|script| - 1]
      case Keep => i > 0 && j > 0 && a[i - 1] == b[j - 1] && Reaches(a, b, rest, i - 1, j - 1)
      case Delete => i > 0 && Reaches(a, b, rest, i - 1, j)
      case Add => j > 0 && Reaches(a, b, rest, i, j - 1)
  }

  function Count(script: seq<Edit>, e: Edit): nat {
    if script == [] then 0
    else Count(script[..|script| - 1], e) + if script[|script| - 1] == e then 1 else 0
  }

  // Rewrite a by the script, taking added lines from b in order.
  function Rewrite<T>(a: seq<T>, b: seq<T>, script: seq<Edit>): seq<T>
    decreases |script|
  {
    if script == [] then []
    else
      var rest := script[..|script| - 1];
      var done := Rewrite(a, b, rest);
      match script[|script| - 1]
      case Keep => done + Nth(a, Count(rest, Keep) + Count(rest, Delete))
      case Delete => done
      case Add => done + Nth(b, Count(rest, Keep) + Count(rest, Add))
  }

  function Nth<T>(s: seq<T>, i: nat): seq<T> {
    if i < |s| then [s[i]] else []
  }

  function Kept<T>(a: seq<T>, script: seq<Edit>): seq<T>
    decreases |script|
  {
    if script == [] then []
    else
      var rest := script[..|script| - 1];
      Kept(a, rest) + if script[|script| - 1].Keep? then Nth(a, Count(rest, Keep) + Count(rest, Delete)) else []
  }

  lemma {:induction false} ReachesCounts<T>(a: seq<T>, b: seq<T>, script: seq<Edit>, i: nat, j: nat)
    requires i <= |a| && j <= |b| && Reaches(a, b, script, i, j)
    ensures i == Count(script, Keep) + Count(script, Delete)
    ensures j == Count(script, Keep) + Count(script, Add)
    ensures |script| == Count(script, Keep) + Count(script, Delete) + Count(script, Add)
    decreases |script|
  {
    if script != [] {
      var rest := script[..|script| - 1];
      match script[|script| - 1]
      case Keep => ReachesCounts(a, b, rest, i - 1, j - 1);
      case Delete => ReachesCounts(a, b, rest, i - 1, j);
      case Add => ReachesCounts(a, b, rest, i, j - 1);
    }
  }

  // Every script prefix but the last edit, and the last edit.
  function Front(script: seq<Edit>): seq<Edit>
    requires script != []
  {
    script[..|script| - 1]
  }

  function Last(script: seq<Edit>): Edit
    requires script != []
  {
    script[|script| - 1]
  }

  // Where the script stood before its last step.
  lemma LastStep<T>(a: seq<T>, b: seq<T>, script: seq<Edit>, i: nat, j: nat)
    requires i <= |a| && j <= |b| && Reaches(a, b, script, i, j) && script != []
    ensures Last(script).Keep? ==> i > 0 && j > 0 && a[i - 1] == b[j - 1] && Reaches(a, b, Front(script), i - 1, j - 1)
    ensures Last(script).Delete? ==> i > 0 && Reaches(a, b, Front(script), i - 1, j)
    ensures Last(script).Add? ==> j > 0 && Reaches(a, b, Front(script), i, j - 1)
  {}

  lemma RewriteStep<T>(a: seq<T>, b: seq<T>, script: seq<Edit>)
    requires script != []
    ensures Rewrite(a, b, script) == Rewrite(a, b, Front(script)) +
            match Last(script)
            case Keep => Nth(a, Count(Front(script), Keep) + Count(Front(script), Delete))
            case Delete => []
            case Add => Nth(b, Count(Front(script), Keep) + Count(Front(script), Add))
  {}

  lemma TakeOne<T>(s: seq<T>, i: nat)
    requires 0 < i <= |s|
    ensures s[..i] == s[..i - 1] + [s[i - 1]]
  {}

  // A script that reaches both ends turns file 1 into file 2.
  lemma {:induction false} RewriteIs<T>(a: seq<T>, b: seq<T>, script: seq<Edit>, i: nat, j: nat)
    requires i <= |a| && j <= |b| && Reaches(a, b, script, i, j)
    ensures Rewrite(a, b, script) == b[..j]
    decreases |script|
  {
    if script != [] {
      hide Rewrite, Reaches, Count;
      var rest := Front(script);
      LastStep(a, b, script, i, j);
      RewriteStep(a, b, script);
      match Last(script) {
        case Keep =>
          RewriteIs(a, b, rest, i - 1, j - 1);
          ReachesCounts(a, b, rest, i - 1, j - 1);
          TakeOne(b, j);
        case Delete => RewriteIs(a, b, rest, i - 1, j);
        case Add =>
          RewriteIs(a, b, rest, i, j - 1);
          ReachesCounts(a, b, rest, i, j - 1);
          TakeOne(b, j);
      }
    }
  }

  lemma {:induction false} AppendSubsequence<T>(s: seq<T>, t: seq<T>, x: T)
    requires Subsequence(s, t)
    ensures Subsequence(s + [x], t + [x]) && Subsequence(s, t + [x])
    decreases |t|
  {
    if t == [] {
      assert s == [];
      assert [x][1..] == [] && s + [x] == [x] && t + [x] == [x];
    } else {
      assert (t + [x])[1..] == t[1..] + [x];
      if s != [] {
        assert (s + [x])[1..] == s[1..] + [x];
        if s[0] == t[0] && Subsequence(s[1..], t[1..]) {
          AppendSubsequence(s[1..], t[1..], x);
        } else {
          AppendSubsequence(s, t[1..], x);
        }
      } else {
        AppendSubsequence(s, t[1..], x);
      }
    }
  }

  lemma KeptStep<T>(a: seq<T>, script: seq<Edit>)
    requires script != []
    ensures Last(script).Keep? ==>
              Kept(a, script) == Kept(a, Front(script)) + Nth(a, Count(Front(script), Keep) + Count(Front(script), Delete))
    ensures !Last(script).Keep? ==> Kept(a, script) == Kept(a, Front(script))
    ensures Count(script, Keep) == Count(Front(script), Keep) + if Last(script).Keep? then 1 else 0
  {}

  // The kept lines are common to both files.
  lemma {:induction false} KeptIsCommon<T>(a: seq<T>, b: seq<T>, script: seq<Edit>, i: nat, j: nat)
    requires i <= |a| && j <= |b| && Reaches(a, b, script, i, j)
    ensures |Kept(a, script)| == Count(script, Keep)
    ensures Subsequence(Kept(a, script), a[..i]) && Subsequence(Kept(a, script), b[..j])
    decreases |script|
  {
    if script == [] {
      EmptySubsequence(a[..i]);
      EmptySubsequence(b[..j]);
    } else {
      hide Subsequence, Kept, Reaches, Count;
      var rest := Front(script);
      LastStep(a, b, script, i, j);
      KeptStep(a, script);
      match Last(script) {
        case Keep =>
          KeptIsCommon(a, b, rest, i - 1, j - 1);
          ReachesCounts(a, b, rest, i - 1, j - 1);
          AppendSubsequence(Kept(a, rest), a[..i - 1], a[i - 1]);
          AppendSubsequence(Kept(a, rest), b[..j - 1], b[j - 1]);
          TakeOne(a, i);
          TakeOne(b, j);
        case Delete =>
          KeptIsCommon(a, b, rest, i - 1, j);
          AppendSubsequence(Kept(a, rest), a[..i - 1], a[i - 1]);
          TakeOne(a, i);
        case Add =>
          KeptIsCommon(a, b, rest, i, j - 1);
          AppendSubsequence(Kept(a, rest), b[..j - 1], b[j - 1]);
          TakeOne(b, j);
      }
    }
  }

  lemma EmptySubsequence<T>(t: seq<T>)
    ensures Subsequence([], t)
  {}

  ghost predicate Complete<T>(a: seq<T>, b: seq<T>, script: seq<Edit>) {
    Reaches(a, b, script, |a|, |b|)
  }

  // A complete script with Lcs keeps keeps as many lines as any common
  // subsequence has, and so deletes and adds the fewest.
  lemma Optimal<T>(a: seq<T>, b: seq<T>, script: seq<Edit>, s: seq<T>, other: seq<Edit>)
    requires Complete(a, b, script) && Count(script, Keep) == Lcs(a, b, 0, 0)
    ensures Rewrite(a, b, script) == b
    ensures Subsequence(Kept(a, script), a) && Subsequence(Kept(a, script), b) && |Kept(a, script)| == Count(script, Keep)
    ensures Subsequence(s, a) && Subsequence(s, b) ==> |s| <= Count(script, Keep)
    ensures Complete(a, b, other) ==> |script| <= |other|
  {
    hide Subsequence, Kept, Reaches, Rewrite, Lcs, Count;
    assert a[..|a|] == a && b[..|b|] == b && a[0..] == a && b[0..] == b;
    RewriteIs(a, b, script, |a|, |b|);
    KeptIsCommon(a, b, script, |a|, |b|);
    ReachesCounts(a, b, script, |a|, |b|);
    if Subsequence(s, a) && Subsequence(s, b) { LcsUpper(a, b, 0, 0, s); }
    if Complete(a, b, other) {
      KeptIsCommon(a, b, other, |a|, |b|);
      ReachesCounts(a, b, other, |a|, |b|);
      LcsUpper(a, b, 0, 0, Kept(a, other));
    }
  }

  // Equal files have a script of keeps only, and only they do.
  lemma OnlyKeeps<T>(a: seq<T>, b: seq<T>, script: seq<Edit>)
    requires Complete(a, b, script) && Count(script, Keep) == Lcs(a, b, 0, 0)
    ensures a == b <==> Count(script, Keep) == |script|
  {
    hide Subsequence, Reaches, Lcs, Count;
    assert a[0..] == a && b[0..] == b && a[..|a|] == a && b[..|b|] == b;
    ReachesCounts(a, b, script, |a|, |b|);
    if a == b {
      SubsequenceRefl(a);
      LcsUpper(a, b, 0, 0, a);
    } else if Count(script, Keep) == |script| {
      AllKept(a, b, script, |a|, |b|);
    }
  }

  lemma {:induction false} AllKept<T>(a: seq<T>, b: seq<T>, script: seq<Edit>, i: nat, j: nat)
    requires i <= |a| && j <= |b| && Reaches(a, b, script, i, j) && Count(script, Keep) == |script|
    ensures a[..i] == b[..j]
    decreases |script|
  {
    if script != [] {
      var rest := script[..|script| - 1];
      CountBound(rest, Keep);
      assert script[|script| - 1] == Keep;
      AllKept(a, b, rest, i - 1, j - 1);
      assert a[..i] == a[..i - 1] + [a[i - 1]] && b[..j] == b[..j - 1] + [b[j - 1]];
    }
  }

  lemma CountBound(script: seq<Edit>, e: Edit)
    ensures Count(script, e) <= |script|
  {}

  function Used1(script: seq<Edit>): nat {
    Count(script, Keep) + Count(script, Delete)
  }

  function Used2(script: seq<Edit>): nat {
    Count(script, Keep) + Count(script, Add)
  }

  // Every prefix of a script leads somewhere.
  lemma {:induction false} PrefixReaches<T>(a: seq<T>, b: seq<T>, script: seq<Edit>, i: nat, j: nat, k: nat)
    requires i <= |a| && j <= |b| && Reaches(a, b, script, i, j) && k <= |script|
    ensures Used1(script[..k]) <= |a| && Used2(script[..k]) <= |b|
    ensures Reaches(a, b, script[..k], Used1(script[..k]), Used2(script[..k]))
    decreases |script|
  {
    hide Reaches, Count;
    if k == |script| {
      assert script[..k] == script;
      ReachesCounts(a, b, script, i, j);
    } else {
      LastStep(a, b, script, i, j);
      assert Front(script)[..k] == script[..k];
      match Last(script)
      case Keep => PrefixReaches(a, b, Front(script), i - 1, j - 1, k);
      case Delete => PrefixReaches(a, b, Front(script), i - 1, j, k);
      case Add => PrefixReaches(a, b, Front(script), i, j - 1, k);
    }
  }

  lemma NextUsed(script: seq<Edit>, k: nat)
    requires k < |script|
    ensures Used1(script[..k + 1]) == Used1(script[..k]) + if script[k].Add? then 0 else 1
    ensures Used2(script[..k + 1]) == Used2(script[..k]) + if script[k].Delete? then 0 else 1
    ensures Count(script[..k + 1], Keep) == Count(script[..k], Keep) + if script[k].Keep? then 1 else 0
  {
    assert script[..k + 1][..k] == script[..k];
  }

  // What step k of a complete script does.
  lemma StepAt<T>(a: seq<T>, b: seq<T>, script: seq<Edit>, k: nat)
    requires Complete(a, b, script) && k < |script|
    ensures var i, j := Used1(script[..k]), Used2(script[..k]);
            && i <= |a| && j <= |b|
            && (script[k].Keep? ==> i < |a| && j < |b| && a[i] == b[j])
            && (script[k].Delete? ==> i < |a|) && (script[k].Add? ==> j < |b|)
  {
    hide Reaches, Count;
    PrefixReaches(a, b, script, |a|, |b|, k);
    PrefixReaches(a, b, script, |a|, |b|, k + 1);
    NextUsed(script, k);
    LastStep(a, b, script[..k + 1], Used1(script[..k + 1]), Used2(script[..k + 1]));
  }

  lemma AtEnd<T>(a: seq<T>, b: seq<T>, script: seq<Edit>)
    requires Complete(a, b, script)
    ensures Used1(script) == |a| && Used2(script) == |b|
  {
    ReachesCounts(a, b, script, |a|, |b|);
  }

  // ---- Hunks ----

  // The numbers and lines of one printed hunk.
  datatype Hunk<T> =
    | ChangeHunk(d1: int, d2: int, a1: int, a2: int, dels: seq<T>, adds: seq<T>)
    | DeleteHunk(d1: int, d2: int, a0: int, dels: seq<T>)
    | AddHunk(d0: int, a1: int, a2: int, adds: seq<T>)

  // What a reader of the header knows: how many lines of file 1 come before
  // the hunk and how many it covers, and the same for file 2.
  function Before1<T>(h: Hunk<T>): int {
    if h.AddHunk? then h.d0 else h.d1 - 1
  }

  function Covers1<T>(h: Hunk<T>): int {
    if h.AddHunk? then 0 else h.d2 - h.d1 + 1
  }

  function Before2<T>(h: Hunk<T>): int {
    if h.DeleteHunk? then h.a0 else h.a1 - 1
  }

  function Covers2<T>(h: Hunk<T>): int {
    if h.DeleteHunk? then 0 else h.a2 - h.a1 + 1
  }

  function Removed<T>(h: Hunk<T>): seq<T> {
    if h.AddHunk? then [] else h.dels
  }

  function Inserted<T>(h: Hunk<T>): seq<T> {
    if h.DeleteHunk? then [] else h.adds
  }

  // A patch in progress: lines of the old file used so far, and the output.
  datatype Progress<T> = Progress(used: int, out: seq<T>)

  ghost predicate CanPatch<T>(old_: seq<T>, p: Progress<T>, h: Hunk<T>) {
    && 0 <= p.used <= Before1(h) && Before1(h) + Covers1(h) <= |old_|
    && Covers1(h) == |Removed(h)| && Covers2(h) == |Inserted(h)|
    && old_[Before1(h)..Before1(h) + Covers1(h)] == Removed(h)
    && |p.out| + Before1(h) - p.used == Before2(h)
  }

  function Slice<T>(s: seq<T>, lo: int, hi: int): seq<T> {
    if 0 <= lo <= hi <= |s| then s[lo..hi] else []
  }

  function PatchOne<T>(old_: seq<T>, p: Progress<T>, h: Hunk<T>): Progress<T> {
    Progress(Before1(h) + Covers1(h), p.out + Slice(old_, p.used, Before1(h)) + Inserted(h))
  }

  function PatchAll<T>(old_: seq<T>, hs: seq<Hunk<T>>): Progress<T>
    decreases |hs|
  {
    if hs == [] then Progress(0, [])
    else PatchOne(old_, PatchAll(old_, hs[..|hs| - 1]), hs[|hs| - 1])
  }

  // Apply the hunks at their printed line numbers.
  function Patch<T>(old_: seq<T>, hs: seq<Hunk<T>>): seq<T> {
    var p := PatchAll(old_, hs);
    p.out + Slice(old_, p.used, |old_|)
  }

  // Every hunk names the lines that are there.
  ghost predicate Applies<T>(old_: seq<T>, hs: seq<Hunk<T>>) {
    forall k :: 0 <= k < |hs| ==> CanPatch(old_, PatchAll(old_, hs[..k]), hs[k])
  }

  function Reverse<T>(h: Hunk<T>): Hunk<T> {
    match h
    case ChangeHunk(d1, d2, a1, a2, dels, adds) => ChangeHunk(a1, a2, d1, d2, adds, dels)
    case DeleteHunk(d1, d2, a0, dels) => AddHunk(a0, d1, d2, dels)
    case AddHunk(d0, a1, a2, adds) => DeleteHunk(a1, a2, d0, adds)
  }

  function ReverseAll<T>(hs: seq<Hunk<T>>): (r: seq<Hunk<T>>)
    ensures |r| == |hs| && forall k :: 0 <= k < |hs| ==> r[k] == Reverse(hs[k])
  {
    seq(|hs|, k requires 0 <= k < |hs| => Reverse(hs[k]))
  }

  // The hunks so far account for i lines of a and j lines of b.
  ghost predicate Accounts<T>(a: seq<T>, b: seq<T>, hs: seq<Hunk<T>>, i: nat, j: nat) {
    && i <= |a| && j <= |b| && Applies(a, hs)
    && var p := PatchAll(a, hs);
       0 <= p.used <= i && p.out + a[p.used..i] == b[..j]
  }

  lemma AccountsKeep<T>(a: seq<T>, b: seq<T>, hs: seq<Hunk<T>>, i: nat, j: nat)
    requires Accounts(a, b, hs, i, j) && i < |a| && j < |b| && a[i] == b[j]
    ensures Accounts(a, b, hs, i + 1, j + 1)
  {
    hide PatchAll, Applies;
    var p := PatchAll(a, hs);
    assert a[p.used..i + 1] == a[p.used..i] + [a[i]];
    assert b[..j + 1] == b[..j] + [b[j]];
  }

  lemma AccountsHunk<T>(a: seq<T>, b: seq<T>, hs: seq<Hunk<T>>, i: nat, j: nat, h: Hunk<T>, i': nat, j': nat)
    requires Accounts(a, b, hs, i, j) && i <= i' <= |a| && j <= j' <= |b|
    requires Before1(h) == i && Covers1(h) == i' - i && Removed(h) == a[i..i']
    requires Before2(h) == j && Covers2(h) == j' - j && Inserted(h) == b[j..j']
    ensures Accounts(a, b, hs + [h], i', j')
  {
    hide PatchAll;
    var p := PatchAll(a, hs);
    var hs' := hs + [h];
    AppliesMore(a, hs, h);
    assert b[..j'] == b[..j] + b[j..j'];
    assert a[i'..i'] == [];
  }

  lemma AppliesMore<T>(a: seq<T>, hs: seq<Hunk<T>>, h: Hunk<T>)
    requires Applies(a, hs) && CanPatch(a, PatchAll(a, hs), h)
    ensures Applies(a, hs + [h]) && PatchAll(a, hs + [h]) == PatchOne(a, PatchAll(a, hs), h)
  {
    var hs' := hs + [h];
    assert hs'[..|hs|] == hs;
    forall k | 0 <= k < |hs'| ensures CanPatch(a, PatchAll(a, hs'[..k]), hs'[k]) {
      if k < |hs| {
        assert hs'[..k] == hs[..k];
        assert CanPatch(a, PatchAll(a, hs[..k]), hs[k]);
      }
    }
  }

  lemma AccountsAll<T>(a: seq<T>, b: seq<T>, hs: seq<Hunk<T>>)
    requires Accounts(a, b, hs, |a|, |b|)
    ensures Applies(a, hs) && Patch(a, hs) == b
  {}

  lemma AccountsNone<T>(a: seq<T>, b: seq<T>)
    ensures Accounts(a, b, [], 0, 0)
  {}

  // The hunks do the same in both directions.
  ghost predicate Balanced<T>(a: seq<T>, b: seq<T>, hs: seq<Hunk<T>>, i: nat, j: nat) {
    Accounts(a, b, hs, i, j) && Accounts(b, a, ReverseAll(hs), j, i)
  }

  lemma BalancedKeep<T>(a: seq<T>, b: seq<T>, hs: seq<Hunk<T>>, i: nat, j: nat)
    requires Balanced(a, b, hs, i, j) && i < |a| && j < |b| && a[i] == b[j]
    ensures Balanced(a, b, hs, i + 1, j + 1)
  {
    AccountsKeep(a, b, hs, i, j);
    AccountsKeep(b, a, ReverseAll(hs), j, i);
  }

  lemma BalancedHunk<T>(a: seq<T>, b: seq<T>, hs: seq<Hunk<T>>, i: nat, j: nat, h: Hunk<T>, i': nat, j': nat)
    requires Balanced(a, b, hs, i, j) && i <= i' <= |a| && j <= j' <= |b|
    requires Before1(h) == i && Covers1(h) == i' - i && Removed(h) == a[i..i']
    requires Before2(h) == j && Covers2(h) == j' - j && Inserted(h) == b[j..j']
    ensures Balanced(a, b, hs + [h], i', j')
  {
    hide Accounts;
    AccountsHunk(a, b, hs, i, j, h, i', j');
    AccountsHunk(b, a, ReverseAll(hs), j, i, Reverse(h), j', i');
    assert ReverseAll(hs + [h]) == ReverseAll(hs) + [Reverse(h)];
  }

  lemma BalancedAll<T>(a: seq<T>, b: seq<T>, hs: seq<Hunk<T>>)
    requires Balanced(a, b, hs, |a|, |b|)
    ensures Applies(a, hs) && Patch(a, hs) == b
    ensures Applies(b, ReverseAll(hs)) && Patch(b, ReverseAll(hs)) == a
  {
    AccountsAll(a, b, hs);
    AccountsAll(b, a, ReverseAll(hs));
  }

  // ---- What the hunks of a script are ----

  // Headers of all three kinds name lines they cover.
  predicate WellFormed<T>(h: Hunk<T>) {
    match h
    case ChangeHunk(_, _, _, _, dels, adds) => |dels| > 0 && |adds| > 0
    case DeleteHunk(_, _, _, dels) => |dels| > 0
    case AddHunk(_, _, _, adds) => |adds| > 0
  }

  // At least one kept line stands between the two hunks, in both files.
  predicate Gap<T>(g: Hunk<T>, h: Hunk<T>) {
    Before1(g) + Covers1(g) < Before1(h) && Before2(g) + Covers2(g) < Before2(h)
  }

  ghost predicate Separate<T>(hs: seq<Hunk<T>>) {
    && (forall k :: 0 <= k < |hs| ==> WellFormed(hs[k]))
    && forall k: nat :: k + 1 < |hs| ==> Gap(hs[k], hs[k + 1])
  }

  lemma SeparateMeans<T>(hs: seq<Hunk<T>>)
    requires Separate(hs)
    ensures forall k :: 0 <= k < |hs| ==> |Removed(hs[k])| + |Inserted(hs[k])| > 0
    ensures forall k :: 0 <= k < |hs| - 1 ==>
              && Before1(hs[k]) + Covers1(hs[k]) < Before1(hs[k + 1])
              && Before2(hs[k]) + Covers2(hs[k]) < Before2(hs[k + 1])
  {
    hide Before1, Before2, Covers1, Covers2;
    forall k: nat | k + 1 < |hs|
      ensures Before1(hs[k]) + Covers1(hs[k]) < Before1(hs[k + 1]) && Before2(hs[k]) + Covers2(hs[k]) < Before2(hs[k + 1])
    {
      assert Gap(hs[k], hs[k + 1]);
    }
  }

  function TotalRemoved<T>(hs: seq<Hunk<T>>): nat {
    if hs == [] then 0 else TotalRemoved(hs[..|hs| - 1]) + |Removed(hs[|hs| - 1])|
  }

  function TotalInserted<T>(hs: seq<Hunk<T>>): nat {
    if hs == [] then 0 else TotalInserted(hs[..|hs| - 1]) + |Inserted(hs[|hs| - 1])|
  }

  // Some hunk removes line x of file 1, or inserts line x of file 2.
  ghost predicate Removes<T>(hs: seq<Hunk<T>>, x: int) {
    exists k :: 0 <= k < |hs| && Before1(hs[k]) <= x < Before1(hs[k]) + Covers1(hs[k])
  }

  ghost predicate Inserts<T>(hs: seq<Hunk<T>>, x: int) {
    exists k :: 0 <= k < |hs| && Before2(hs[k]) <= x < Before2(hs[k]) + Covers2(hs[k])
  }

  // The script deletes line x of file 1, or adds line x of file 2.
  ghost predicate Deletes(script: seq<Edit>, x: int) {
    exists k :: 0 <= k < |script| && script[k].Delete? && Used1(script[..k]) == x
  }

  ghost predicate Adds(script: seq<Edit>, x: int) {
    exists k :: 0 <= k < |script| && script[k].Add? && Used2(script[..k]) == x
  }

  // The hunks remove and insert exactly what the script deletes and adds.
  ghost predicate Prints<T>(script: seq<Edit>, hs: seq<Hunk<T>>) {
    && TotalRemoved(hs) == Count(script, Delete) && TotalInserted(hs) == Count(script, Add)
    && (forall x :: Removes(hs, x) <==> Deletes(script, x))
    && (forall x :: Inserts(hs, x) <==> Adds(script, x))
  }

  lemma PrintsMeans<T>(script: seq<Edit>, hs: seq<Hunk<T>>)
    requires Prints(script, hs)
    ensures TotalRemoved(hs) == Count(script, Delete) && TotalInserted(hs) == Count(script, Add)
  {}

  lemma PrefixOf(script: seq<Edit>, k: nat, m: nat)
    requires m <= k <= |script|
    ensures script[..k][..m] == script[..m]
  {}

  lemma DeletesNext(script: seq<Edit>, k: nat, x: int)
    requires k < |script|
    ensures Deletes(script[..k + 1], x) <==>
              Deletes(script[..k], x) || (script[k].Delete? && x == Used1(script[..k]))
    ensures Adds(script[..k + 1], x) <==> Adds(script[..k], x) || (script[k].Add? && x == Used2(script[..k]))
  {
    hide Used1, Used2;
    var now, then_ := script[..k], script[..k + 1];
    forall m | 0 <= m <= k ensures then_[..m] == script[..m] && then_[m] == script[m] && (m < k ==> now[..m] == script[..m] && now[m] == script[m]) {
      PrefixOf(script, k + 1, m);
      if m < k { PrefixOf(script, k, m); }
    }
    assert then_[k] == script[k] && then_[..k] == script[..k];
  }

  lemma CountNext(script: seq<Edit>, k: nat, e: Edit)
    requires k < |script|
    ensures Count(script[..k + 1], e) == Count(script[..k], e) + if script[k] == e then 1 else 0
  {
    PrefixOf(script, k + 1, k);
  }

  lemma OneMore<T>(hs: seq<Hunk<T>>, h: Hunk<T>)
    ensures TotalRemoved(hs + [h]) == TotalRemoved(hs) + |Removed(h)|
    ensures TotalInserted(hs + [h]) == TotalInserted(hs) + |Inserted(h)|
    ensures forall x :: Removes(hs + [h], x) <==> Removes(hs, x) || Before1(h) <= x < Before1(h) + Covers1(h)
    ensures forall x :: Inserts(hs + [h], x) <==> Inserts(hs, x) || Before2(h) <= x < Before2(h) + Covers2(h)
  {
    hide Before1, Before2, Covers1, Covers2, Removed, Inserted;
    var all := hs + [h];
    assert all[..|all| - 1] == hs && all[|hs|] == h;
    forall k | 0 <= k < |hs| ensures all[k] == hs[k] {}
  }

  lemma NothingPrinted<T>()
    ensures Prints<T>([], []) && Separate<T>([])
  {}

  lemma SeparateMore<T>(hs: seq<Hunk<T>>, h: Hunk<T>)
    requires Separate(hs) && WellFormed(h) && (hs != [] ==> Gap(hs[|hs| - 1], h))
    ensures Separate(hs + [h])
  {
    hide WellFormed, Gap;
    var all := hs + [h];
    forall k: nat | k + 1 < |all| ensures Gap(all[k], all[k + 1]) {
      if k + 1 < |hs| {
        assert Gap(hs[k], hs[k + 1]);
      } else {
        assert all[k] == hs[|hs| - 1] && all[k + 1] == h;
      }
    }
  }

  // ---- No hunks remove or insert fewer lines ----

  // Applied at their line numbers the hunks turn a into b.
  ghost predicate Turns<T>(a: seq<T>, b: seq<T>, hs: seq<Hunk<T>>) {
    Applies(a, hs) && Patch(a, hs) == b
  }

  lemma {:induction false} JoinSubsequences<T>(s: seq<T>, t: seq<T>, u: seq<T>, v: seq<T>)
    requires Subsequence(s, t) && Subsequence(u, v)
    ensures Subsequence(s + u, t + v)
    decreases |t|
  {
    if t == [] {
      assert s + u == u && t + v == v;
    } else {
      assert (t + v)[1..] == t[1..] + v;
      if s != [] && s[0] == t[0] && Subsequence(s[1..], t[1..]) {
        JoinSubsequences(s[1..], t[1..], u, v);
        assert (s + u)[1..] == s[1..] + u;
      } else {
        if s == [] { EmptySubsequence(t[1..]); }
        JoinSubsequences(s, t[1..], u, v);
      }
    }
  }

  // What patching leaves in place is common to both files.
  lemma {:induction false} PatchKeeps<T>(a: seq<T>, hs: seq<Hunk<T>>) returns (kept: seq<T>)
    requires Applies(a, hs)
    ensures var p := PatchAll(a, hs);
            && 0 <= p.used <= |a| && Subsequence(kept, a[..p.used]) && Subsequence(kept, p.out)
            && |kept| + TotalRemoved(hs) == p.used && |kept| + TotalInserted(hs) == |p.out|
    decreases |hs|
  {
    if hs == [] {
      kept := [];
    } else {
      var front, h := hs[..|hs| - 1], hs[|hs| - 1];
      FrontApplies(a, hs);
      kept := PatchKeeps(a, front);
      var p := PatchAll(a, front);
      hide Subsequence, PatchAll, TotalRemoved, TotalInserted, Applies, Before1, Covers1;
      LastPatch(a, hs);
      var between := a[p.used..Before1(h)];
      SubsequenceRefl(between);
      EmptySubsequence(Inserted(h));
      EmptySubsequence(Removed(h));
      JoinSubsequences(kept, p.out, between, between);
      JoinSubsequences(kept + between, p.out + between, [], Inserted(h));
      JoinSubsequences(kept, a[..p.used], between, between);
      JoinSubsequences(kept + between, a[..p.used] + between, [], Removed(h));
      kept := kept + between;
      assert kept + [] == kept;
    }
  }

  lemma FrontApplies<T>(a: seq<T>, hs: seq<Hunk<T>>)
    requires Applies(a, hs) && hs != []
    ensures Applies(a, hs[..|hs| - 1])
  {
    hide CanPatch;
    var front := hs[..|hs| - 1];
    forall k | 0 <= k < |front| ensures CanPatch(a, PatchAll(a, front[..k]), front[k]) {
      assert front[..k] == hs[..k] && front[k] == hs[k];
    }
  }

  // The last hunk's contribution.
  lemma LastPatch<T>(a: seq<T>, hs: seq<Hunk<T>>)
    requires Applies(a, hs) && hs != []
    ensures var h, p, q := hs[|hs| - 1], PatchAll(a, hs[..|hs| - 1]), PatchAll(a, hs);
            && 0 <= p.used <= Before1(h) <= q.used <= |a| && q.used == Before1(h) + |Removed(h)|
            && a[..q.used] == a[..p.used] + a[p.used..Before1(h)] + Removed(h)
            && q.out == p.out + a[p.used..Before1(h)] + Inserted(h)
    ensures TotalRemoved(hs) == TotalRemoved(hs[..|hs| - 1]) + |Removed(hs[|hs| - 1])|
    ensures TotalInserted(hs) == TotalInserted(hs[..|hs| - 1]) + |Inserted(hs[|hs| - 1])|
  {
    hide CanPatch, PatchAll, Before1, Covers1, Removed, Inserted;
    var h, p := hs[|hs| - 1], PatchAll(a, hs[..|hs| - 1]);
    assert CanPatch(a, p, h);
    PatchLast(a, hs);
    PatchStep(a, p, h);
  }

  lemma PatchLast<T>(a: seq<T>, hs: seq<Hunk<T>>)
    requires hs != []
    ensures PatchAll(a, hs) == PatchOne(a, PatchAll(a, hs[..|hs| - 1]), hs[|hs| - 1])
  {}

  lemma PatchStep<T>(a: seq<T>, p: Progress<T>, h: Hunk<T>)
    requires CanPatch(a, p, h)
    ensures var q := PatchOne(a, p, h);
            && 0 <= p.used <= Before1(h) <= q.used <= |a| && q.used == Before1(h) + |Removed(h)|
            && a[..q.used] == a[..p.used] + a[p.used..Before1(h)] + Removed(h)
            && q.out == p.out + a[p.used..Before1(h)] + Inserted(h)
  {
    var i := Before1(h);
    var e := i + Covers1(h);
    hide Before1, Covers1, Removed, Inserted;
    CutThree(a, p.used, i, e);
  }

  lemma CutThree<T>(a: seq<T>, i: nat, j: nat, k: nat)
    requires i <= j <= k <= |a|
    ensures a[..k] == a[..i] + a[i..j] + a[j..k]
  {}

  // Any hunks that turn a into b remove at least the lines of a, and insert at
  // least the lines of b, that a longest common subsequence leaves out.
  lemma TurnsCost<T>(a: seq<T>, b: seq<T>, hs: seq<Hunk<T>>)
    requires Turns(a, b, hs)
    ensures TotalRemoved(hs) >= |a| - Lcs(a, b, 0, 0) && TotalInserted(hs) >= |b| - Lcs(a, b, 0, 0)
  {
    hide Subsequence, Lcs, TotalRemoved, TotalInserted, Applies, PatchAll;
    var kept := PatchKeeps(a, hs);
    var p := PatchAll(a, hs);
    CommonCost(a, b, a[..p.used], p.out, a[p.used..], kept);
  }

  lemma CommonCost<T>(a: seq<T>, b: seq<T>, front: seq<T>, out: seq<T>, rest: seq<T>, kept: seq<T>)
    requires a == front + rest && b == out + rest && Subsequence(kept, front) && Subsequence(kept, out)
    ensures |kept| + |rest| <= Lcs(a, b, 0, 0)
  {
    hide Subsequence, Lcs;
    SubsequenceRefl(rest);
    JoinSubsequences(kept, front, rest, rest);
    JoinSubsequences(kept, out, rest, rest);
    assert a[0..] == a && b[0..] == b;
    LcsUpper(a, b, 0, 0, kept + rest);
  }

  // The hunks of a script that keeps most are the cheapest.
  lemma FewestLines<T>(a: seq<T>, b: seq<T>, script: seq<Edit>, hs: seq<Hunk<T>>, other: seq<Hunk<T>>)
    requires Complete(a, b, script) && Count(script, Keep) == Lcs(a, b, 0, 0) && Prints(script, hs)
    requires Turns(a, b, other)
    ensures TotalRemoved(hs) <= TotalRemoved(other) && TotalInserted(hs) <= TotalInserted(other)
  {
    hide Reaches, Lcs, Count, TotalRemoved, TotalInserted, Turns, Removes, Inserts, Deletes, Adds;
    ReachesCounts(a, b, script, |a|, |b|);
    TurnsCost(a, b, other);
  }

  // Of the scripts that keep most lines, the one that keeps where it can and
  // otherwise adds as long as that loses nothing.
  ghost predicate AddsFirst<T>(a: seq<T>, b: seq<T>, script: seq<Edit>) {
    forall k :: 0 <= k < |script| ==> AddsFirstAt(a, b, Used1(script[..k]), Used2(script[..k]), script[k])
  }

  ghost predicate AddsFirstAt<T>(a: seq<T>, b: seq<T>, i: nat, j: nat, e: Edit) {
    && i <= |a| && j <= |b|
    && (e.Keep? <==> i < |a| && j < |b| && a[i] == b[j])
    && (e.Add? <==> !e.Keep? && j < |b| && Lcs(a, b, i, j + 1) == Lcs(a, b, i, j))
  }
}
