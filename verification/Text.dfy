/** The string operations of the Rust standard library that the parsers use. */
module Text {
  // ----- searching

  predicate OccursAt(s: string, pat: string, i: int) {
    0 <= i <= |s| - |pat| && forall k :: 0 <= k < |pat| ==> s[i + k] == pat[k]
  }

  predicate Contains(s: string, pat: string) {
    exists i :: 0 <= i <= |s| && OccursAt(s, pat, i)
  }

  /** No occurrence starts in the first `k` positions. */
  ghost predicate NoneBefore(s: string, pat: string, k: int) {
    forall j :: 0 <= j < k ==> !OccursAt(s, pat, j)
  }

  /** The first occurrence of `pat` at or after `from`, or -1. */
  function IndexFrom(s: string, pat: string, from: nat): (i: int)
    requires from <= |s|
    ensures i == -1 || from <= i <= |s| - |pat|
    decreases |s| - from
  {
    if OccursAt(s, pat, from) then from
    else if from == |s| then -1
    else IndexFrom(s, pat, from + 1)
  }

  /** `IndexFrom` finds the least occurrence, and answers -1 exactly when there is none. */
  lemma {:induction false} IndexFromSpec(s: string, pat: string, from: nat)
    requires from <= |s| && NoneBefore(s, pat, from)
    ensures var i := IndexFrom(s, pat, from);
            if i == -1 then !Contains(s, pat) else OccursAt(s, pat, i) && NoneBefore(s, pat, i)
    decreases |s| - from
  {
    if !OccursAt(s, pat, from) && from < |s| {
      IndexFromSpec(s, pat, from + 1);
    }
  }

  /** Shifting an occurrence over a prefix. */
  lemma OccursAfter(p: string, s: string, pat: string, i: int)
    requires |p| <= i
    ensures OccursAt(p + s, pat, i) <==> OccursAt(s, pat, i - |p|)
  {
    var t := p + s;
    if OccursAt(s, pat, i - |p|) {
      forall k | 0 <= k < |pat| ensures t[i + k] == pat[k] {
        assert t[i + k] == s[i - |p| + k];
      }
    }
    if OccursAt(t, pat, i) {
      forall k | 0 <= k < |pat| ensures s[i - |p| + k] == pat[k] {
        assert t[i + k] == s[i - |p| + k];
      }
    }
  }

  /** An occurrence that ends inside a prefix is one of the prefix. */
  lemma OccursInPrefix(p: string, s: string, pat: string, i: int)
    requires i + |pat| <= |p|
    ensures OccursAt(p + s, pat, i) <==> OccursAt(p, pat, i)
  {
    var t := p + s;
    if OccursAt(p, pat, i) {
      forall k | 0 <= k < |pat| ensures t[i + k] == pat[k] {
        assert t[i + k] == p[i + k];
      }
    }
    if OccursAt(t, pat, i) {
      forall k | 0 <= k < |pat| ensures p[i + k] == pat[k] {
        assert t[i + k] == p[i + k];
      }
    }
  }

  lemma OccursWithin(s: string, t: string, pat: string, i: nat, j: nat)
    requires OccursAt(s, t, i) && OccursAt(t, pat, j)
    ensures OccursAt(s, pat, i + j)
  {
    forall k | 0 <= k < |pat| ensures s[i + j + k] == pat[k] {
      assert t[j + k] == pat[k];
    }
  }

  lemma ContainsWithin(s: string, t: string, pat: string)
    requires Contains(s, t) && Contains(t, pat)
    ensures Contains(s, pat)
  {
    var i :| 0 <= i <= |s| && OccursAt(s, t, i);
    var j :| 0 <= j <= |t| && OccursAt(t, pat, j);
    OccursWithin(s, t, pat, i, j);
  }

  // ----- replace

  function Replace(s: string, pat: string, rep: string): string
    requires pat != ""
    decreases |s|
  {
    if s == "" then ""
    else if OccursAt(s, pat, 0) then rep + Replace(s[|pat|..], pat, rep)
    else [s[0]] + Replace(s[1..], pat, rep)
  }

  lemma ReplaceHere(s: string, pat: string, rep: string)
    requires pat != ""
    ensures Replace(pat + s, pat, rep) == rep + Replace(s, pat, rep)
  {
    assert (pat + s)[|pat|..] == s;
    assert OccursAt(pat + s, pat, 0);
  }

  /** A prefix in which no occurrence starts is kept. */
  lemma {:induction false} ReplaceKeeps(p: string, s: string, pat: string, rep: string)
    requires pat != "" && NoneBefore(p + s, pat, |p|)
    ensures Replace(p + s, pat, rep) == p + Replace(s, pat, rep)
  {
    if p == "" {
      assert p + s == s;
    } else {
      NoneBeforeTail(p, s, pat);
      assert (p + s)[1..] == p[1..] + s;
      assert !OccursAt(p + s, pat, 0);
      ReplaceKeeps(p[1..], s, pat, rep);
    }
  }

  lemma NoneBeforeTail(p: string, s: string, pat: string)
    requires p != "" && NoneBefore(p + s, pat, |p|)
    ensures NoneBefore(p[1..] + s, pat, |p| - 1)
  {
    assert p + s == p[..1] + (p[1..] + s);
    forall j | 0 <= j < |p| - 1 ensures !OccursAt(p[1..] + s, pat, j) {
      OccursAfter(p[..1], p[1..] + s, pat, j + 1);
      assert !OccursAt(p + s, pat, j + 1);
    }
  }

  lemma ReplaceNothing(s: string, pat: string, rep: string)
    requires pat != "" && !Contains(s, pat)
    ensures Replace(s, pat, rep) == s
  {
    assert s + "" == s;
    assert NoneBefore(s + "", pat, |s|);
    ReplaceKeeps(s, "", pat, rep);
  }

  lemma {:induction false} ReplaceShrinks(s: string, pat: string, rep: string)
    requires |rep| < |pat|
    ensures |Replace(s, pat, rep)| <= |s|
    ensures Contains(s, pat) ==> |Replace(s, pat, rep)| < |s|
    decreases |s|
  {
    if s == "" {
    } else if OccursAt(s, pat, 0) {
      ReplaceShrinks(s[|pat|..], pat, rep);
    } else {
      ReplaceShrinks(s[1..], pat, rep);
      if Contains(s, pat) {
        var i :| 0 <= i <= |s| && OccursAt(s, pat, i);
        assert s == s[..1] + s[1..];
        OccursAfter(s[..1], s[1..], pat, i);
      }
    }
  }

  /** No occurrence starts in `p` and ends in `q`. */
  ghost predicate NoCross(p: string, q: string, pat: string) {
    forall i :: 0 <= i < |p| && OccursAt(p + q, pat, i) ==> i + |pat| <= |p|
  }

  lemma NoCrossTail(p: string, q: string, pat: string, c: nat)
    requires NoCross(p, q, pat) && c <= |p|
    ensures NoCross(p[c..], q, pat)
  {
    assert p + q == p[..c] + (p[c..] + q);
    forall i | 0 <= i < |p[c..]| && OccursAt(p[c..] + q, pat, i) ensures i + |pat| <= |p[c..]| {
      OccursAfter(p[..c], p[c..] + q, pat, i + c);
      assert OccursAt(p + q, pat, i + c);
    }
  }

  lemma OccursFirst(p: string, q: string, pat: string)
    requires pat != "" && p != "" && NoCross(p, q, pat)
    ensures OccursAt(p + q, pat, 0) <==> OccursAt(p, pat, 0)
    ensures OccursAt(p + q, pat, 0) ==> |pat| <= |p|
  {
    if |pat| <= |p| {
      OccursInPrefix(p, q, pat, 0);
    }
  }

  /** A replacement acts on two parts separately if no occurrence lies across. */
  lemma {:induction false} ReplaceAppend(p: string, q: string, pat: string, rep: string)
    requires pat != "" && NoCross(p, q, pat)
    ensures Replace(p + q, pat, rep) == Replace(p, pat, rep) + Replace(q, pat, rep)
    decreases |p|
  {
    if p == "" {
      assert p + q == q;
    } else {
      OccursFirst(p, q, pat);
      var c := if OccursAt(p, pat, 0) then |pat| else 1;
      assert (p + q)[c..] == p[c..] + q;
      NoCrossTail(p, q, pat, c);
      ReplaceAppend(p[c..], q, pat, rep);
    }
  }

  /** What contains no `--` and starts the replaced text starts the text itself. */
  lemma {:induction false} PrefixOfReplaced(x: string, pat: string, p: string)
    requires |pat| >= 2 && pat[0] == '-' && p <= Replace(x, pat, "--") && !Contains(p, "--")
    ensures p <= x
    decreases |x|
  {
    if x == "" || p == "" {
    } else if OccursAt(x, pat, 0) {
      assert x[0 + 0] == pat[0];
      if "--" <= p {
        PrefixContained(p, "--");
      }
    } else {
      if Contains(p[1..], "--") {
        ContainsShift(p, 1, "--");
      }
      PrefixOfReplaced(x[1..], pat, p[1..]);
    }
  }

  lemma LastDash(x: string, pat: string)
    requires pat != "" && pat[|pat| - 1] == '-' && OccursAt(x, pat, 0)
    ensures x[|pat| - 1..] == "-" + x[|pat|..]
  {
    assert x[0 + (|pat| - 1)] == '-';
  }

  /** A part that starts with the second of the new dashes. */
  lemma PartAtDash(x: string, u: string, pat: string, p: string, c: nat)
    requires |pat| >= 2 && pat[0] == '-' && c <= |x| && x[c..] == "-" + u
    requires p != "" && p <= "-" + Replace(u, pat, "--") && !Contains(p, "--")
    ensures Contains(x, p)
  {
    DashBefore(u, Replace(u, pat, "--"), pat, p);
    PrefixContained("-" + u, p);
    ContainsShift(x, c, p);
  }

  lemma OccursNext(c: char, s: string, p: string, i: nat)
    requires i > 0
    ensures OccursAt([c] + s, p, i) <==> OccursAt(s, p, i - 1)
  {
    OccursAfter([c], s, p, i);
  }

  /** What contains no `--` and is part of the replaced text is part of the text itself. */
  lemma {:induction false} PartOfReplaced(x: string, pat: string, p: string)
    requires |pat| >= 2 && pat[0] == '-' && pat[|pat| - 1] == '-'
    requires p != "" && Contains(Replace(x, pat, "--"), p) && !Contains(p, "--")
    ensures Contains(x, p)
    decreases |x|
  {
    var t := Replace(x, pat, "--");
    var i :| 0 <= i <= |t| && OccursAt(t, p, i);
    if i == 0 {
      StartsHere(t, p);
      PrefixOfReplaced(x, pat, p);
      PrefixContained(x, p);
    } else {
      var c := if OccursAt(x, pat, 0) then |pat| else 1;
      var r := Replace(x[c..], pat, "--");
      if OccursAt(x, pat, 0) {
        assert t == ['-'] + ("-" + r);
        OccursNext('-', "-" + r, p, i);
        if i == 1 {
          StartsHere("-" + r, p);
          LastDash(x, pat);
          PartAtDash(x, x[c..], pat, p, c - 1);
          return;
        }
        OccursNext('-', r, p, i - 1);
      } else {
        OccursNext(x[0], r, p, i);
      }
      PartOfReplaced(x[c..], pat, p);
      ContainsShift(x, c, p);
    }
  }

  lemma StartsHere(s: string, p: string)
    ensures OccursAt(s, p, 0) <==> p <= s
  {
    if OccursAt(s, p, 0) {
      forall k | 0 <= k < |p| ensures s[k] == p[k] {
        assert s[0 + k] == p[k];
      }
      assert s[..|p|] == p;
    }
  }

  lemma PrefixContained(s: string, p: string)
    requires p <= s
    ensures Contains(s, p)
  {
    assert OccursAt(s, p, 0);
  }

  lemma DashBefore(u: string, r: string, pat: string, p: string)
    requires |pat| >= 2 && pat[0] == '-' && r == Replace(u, pat, "--")
    requires p != "" && p <= "-" + r && !Contains(p, "--")
    ensures p <= "-" + u
  {
    if Contains(p[1..], "--") {
      ContainsShift(p, 1, "--");
    }
    assert p[1..] <= r;
    PrefixOfReplaced(u, pat, p[1..]);
    assert p == [p[0]] + p[1..];
  }

  /** A dash that a replaced text shows behind a word is the word's own, or another one follows. */
  lemma {:induction false} DashBehind(u: string, pat: string, w: string)
    requires pat != "" && pat[0] == '-' && '-' !in w
    requires w + "-" <= Replace(u, pat, "--")
    ensures var t := Replace(u, pat, "--");
            w + "-" <= u || (|w| + 1 < |t| && t[|w| + 1] == '-')
    decreases |w|
  {
    var t := Replace(u, pat, "--");
    assert t[|w|] == (w + "-")[|w|];
    assert OccursAt(u, pat, 0) ==> t[0] == '-';
    if w == "" {
    } else {
      assert t[0] == (w + "-")[0] == w[0];
      assert w[1..] + "-" == (w + "-")[1..];
      DashBehind(u[1..], pat, w[1..]);
    }
  }

  /** A word between single dashes. */
  ghost predicate IsMark(pat: string) {
    |pat| >= 3 && pat[0] == '-' && pat[|pat| - 1] == '-' && forall i :: 0 < i < |pat| - 1 ==> pat[i] != '-'
  }

  ghost predicate DashBeside(t: string, i: int, n: nat) {
    (0 < i <= |t| && t[i - 1] == '-') || (0 <= i && i + n < |t| && t[i + n] == '-')
  }

  lemma BesideNext(c: char, r: string, i: nat, n: nat)
    requires DashBeside(r, i, n)
    ensures DashBeside([c] + r, i + 1, n)
  {
  }

  lemma NotAtDashes(r: string, pat: string)
    requires IsMark(pat)
    ensures !OccursAt(['-'] + (['-'] + r), pat, 0)
  {
    assert (['-'] + (['-'] + r))[0 + 1] == '-' != pat[1];
  }

  /** Where a mark still occurs after its replacement by `--`, another dash is next to it. */
  lemma {:induction false} ReplacedMark(s: string, pat: string, i: nat)
    requires IsMark(pat) && OccursAt(Replace(s, pat, "--"), pat, i)
    ensures DashBeside(Replace(s, pat, "--"), i, |pat|)
    decreases |s|
  {
    if s == "" {
    } else if OccursAt(s, pat, 0) {
      var r := Replace(s[|pat|..], pat, "--");
      assert Replace(s, pat, "--") == ['-'] + (['-'] + r);
      NotAtDashes(r, pat);
      if i >= 2 {
        OccursNext('-', ['-'] + r, pat, i);
        OccursNext('-', r, pat, i - 1);
        ReplacedMark(s[|pat|..], pat, i - 2);
        BesideNext('-', r, i - 2, |pat|);
        BesideNext('-', ['-'] + r, i - 1, |pat|);
      }
    } else {
      var r := Replace(s[1..], pat, "--");
      assert s == [s[0]] + s[1..];
      if i > 0 {
        OccursNext(s[0], r, pat, i);
        ReplacedMark(s[1..], pat, i - 1);
        BesideNext(s[0], r, i - 1, |pat|);
      } else {
        MarkAtStart(s[0], s[1..], r, pat);
      }
    }
  }

  lemma PrefixStep(p: string, c: char, s: string)
    requires p != ""
    ensures p <= [c] + s <==> p[0] == c && p[1..] <= s
  {
    if p[0] == c && p[1..] <= s {
      assert p == [p[0]] + p[1..];
    }
  }

  lemma DashBehindMark(u: string, pat: string, c: char)
    requires IsMark(pat) && pat <= [c] + Replace(u, pat, "--") && !(pat <= [c] + u)
    ensures var r := Replace(u, pat, "--");
            |pat| <= |r| && r[|pat| - 1] == '-'
  {
    var w := pat[1..|pat| - 1];
    assert w + "-" == pat[1..];
    PrefixStep(pat, c, u);
    PrefixStep(pat, c, Replace(u, pat, "--"));
    DashBehind(u, pat, w);
  }

  lemma MarkAtStart(c: char, u: string, r: string, pat: string)
    requires IsMark(pat) && r == Replace(u, pat, "--")
    requires !OccursAt([c] + u, pat, 0) && OccursAt([c] + r, pat, 0)
    ensures DashBeside([c] + r, 0, |pat|)
  {
    StartsHere([c] + u, pat);
    StartsHere([c] + r, pat);
    DashBehindMark(u, pat, c);
  }

  lemma InsideHasDoubleDash(t: string, n: string, pat: string, o: nat, i: nat)
    requires IsMark(pat) && OccursAt(t, n, o) && OccursAt(n, pat, i) && DashBeside(t, o + i, |pat|)
    requires n[0] != '-' && n[|n| - 1] != '-'
    ensures Contains(n, "--")
  {
    var e := i + |pat|;
    assert n[i + 0] == '-' && n[i + (|pat| - 1)] == '-';
    assert i > 0 && e < |n|;
    assert t[o + (i - 1)] == n[i - 1] && t[o + e] == n[e];
    if n[i - 1] == '-' {
      assert OccursAt(n, "--", i - 1);
    } else {
      assert OccursAt(n, "--", e - 1);
    }
  }

  /** So no part of a replaced text without `--` has the mark in its middle. */
  lemma MarkNotInside(s: string, pat: string, p: string, n: string)
    requires IsMark(pat) && Contains(Replace(s, pat, "--"), p) && !Contains(p, "--") && Contains(p, n)
    requires n != "" && n[0] != '-' && n[|n| - 1] != '-'
    ensures !Contains(n, pat)
  {
    var t := Replace(s, pat, "--");
    if Contains(n, pat) {
      ContainsWithin(t, p, n);
      var o :| 0 <= o <= |t| && OccursAt(t, n, o);
      var i :| 0 <= i <= |n| && OccursAt(n, pat, i);
      OccursWithin(t, n, pat, o, i);
      ReplacedMark(s, pat, o + i);
      InsideHasDoubleDash(t, n, pat, o, i);
      ContainsWithin(p, n, "--");
    }
  }

  // ----- split

  function Split(s: string, pat: string): (ps: seq<string>)
    requires pat != ""
    ensures ps != []
    decreases |s|
  {
    if s == "" then [""]
    else if OccursAt(s, pat, 0) then [""] + Split(s[|pat|..], pat)
    else
      var ps := Split(s[1..], pat);
      [[s[0]] + ps[0]] + ps[1..]
  }

  lemma {:induction false} SplitHere(p: string, pat: string, s: string)
    requires pat != "" && NoneBefore(p + (pat + s), pat, |p|)
    ensures Split(p + (pat + s), pat) == [p] + Split(s, pat)
  {
    var t := p + (pat + s);
    if p == "" {
      assert t == pat + s && t[|pat|..] == s;
      assert OccursAt(t, pat, 0);
    } else {
      NoneBeforeTail(p, pat + s, pat);
      assert t[1..] == p[1..] + (pat + s);
      assert !OccursAt(t, pat, 0);
      SplitHere(p[1..], pat, s);
      assert [t[0]] + p[1..] == p;
    }
  }

  lemma {:induction false} SplitNothing(s: string, pat: string)
    requires pat != "" && NoneBefore(s, pat, |s|)
    ensures Split(s, pat) == [s]
  {
    if s != "" {
      assert s + "" == s && s[1..] + "" == s[1..];
      NoneBeforeTail(s, "", pat);
      assert !OccursAt(s, pat, 0);
      SplitNothing(s[1..], pat);
      assert [s[0]] + s[1..] == s;
    }
  }

  function AppendLast(ps: seq<string>, q: string): seq<string>
    requires ps != []
  {
    ps[..|ps| - 1] + [ps[|ps| - 1] + q]
  }

  lemma AppendBehind(ps: seq<string>, q: string, c: char)
    requires ps != []
    ensures AppendLast([""] + ps, q) == [""] + AppendLast(ps, q)
    ensures AppendLast([[c] + ps[0]] + ps[1..], q) == [[c] + AppendLast(ps, q)[0]] + AppendLast(ps, q)[1..]
  {
    if |ps| == 1 {
      assert [c] + (ps[0] + q) == ([c] + ps[0]) + q;
    }
  }

  /** A text without the delimiter behind another one is appended to its last piece. */
  lemma {:induction false} SplitAppend(p: string, q: string, pat: string)
    requires pat != "" && NoCross(p, q, pat) && NoneBefore(q, pat, |q|)
    ensures Split(p + q, pat) == AppendLast(Split(p, pat), q)
    decreases |p|
  {
    if p == "" {
      assert p + q == q;
      SplitNothing(q, pat);
    } else {
      OccursFirst(p, q, pat);
      var c := if OccursAt(p, pat, 0) then |pat| else 1;
      assert (p + q)[c..] == p[c..] + q;
      NoCrossTail(p, q, pat, c);
      SplitAppend(p[c..], q, pat);
      AppendBehind(Split(p[c..], pat), q, p[0]);
    }
  }

  /** The text starts with its first piece. */
  lemma {:induction false} FirstPiece(s: string, pat: string)
    requires pat != ""
    ensures Split(s, pat)[0] <= s
    decreases |s|
  {
    if s != "" && !OccursAt(s, pat, 0) {
      FirstPiece(s[1..], pat);
    }
  }

  lemma LongerPiece(s: string, pat: string, piece: string)
    requires pat != "" && s != "" && !OccursAt(s, pat, 0)
    requires piece <= s[1..] && !Contains(piece, pat)
    ensures !Contains([s[0]] + piece, pat)
    ensures Contains(s, [s[0]] + piece)
  {
    var longer := [s[0]] + piece;
    assert longer <= s;
    assert OccursAt(s, longer, 0);
    if Contains(longer, pat) {
      var i :| 0 <= i <= |longer| && OccursAt(longer, pat, i);
      if i > 0 {
        OccursAfter([s[0]], piece, pat, i);
      }
      assert false;
    }
  }

  /** No piece contains the delimiter, and every piece is part of the text. */
  lemma {:induction false} SplitPieces(s: string, pat: string, k: nat)
    requires pat != "" && k < |Split(s, pat)|
    ensures !Contains(Split(s, pat)[k], pat)
    ensures Contains(s, Split(s, pat)[k])
    decreases |s|
  {
    assert OccursAt(s, "", 0);
    if s == "" {
    } else if OccursAt(s, pat, 0) {
      if k > 0 {
        SplitPieces(s[|pat|..], pat, k - 1);
        ContainsShift(s, |pat|, Split(s, pat)[k]);
      }
    } else {
      SplitPieces(s[1..], pat, k);
      if k > 0 {
        ContainsShift(s, 1, Split(s[1..], pat)[k]);
      } else {
        FirstPiece(s[1..], pat);
        LongerPiece(s, pat, Split(s[1..], pat)[0]);
      }
    }
  }

  lemma ContainsShift(s: string, i: nat, t: string)
    requires i <= |s| && Contains(s[i..], t)
    ensures Contains(s, t)
  {
    var j :| 0 <= j <= |s[i..]| && OccursAt(s[i..], t, j);
    assert s == s[..i] + s[i..];
    OccursAfter(s[..i], s[i..], t, i + j);
  }

  // ----- join

  function Join(ps: seq<string>, sep: string): string {
    if ps == [] then "" else if |ps| == 1 then ps[0] else ps[0] + (sep + Join(ps[1..], sep))
  }

  lemma CharAbsent(p: string, s: string, c: char)
    requires c !in p
    ensures NoneBefore(p + s, [c], |p|)
  {
    forall j | 0 <= j < |p| ensures !OccursAt(p + s, [c], j) {
      assert (p + s)[j + 0] != [c][0];
    }
  }

  /** Splitting undoes joining, for pieces without the separator. */
  lemma {:induction false} SplitJoin(ps: seq<string>, c: char)
    requires ps != [] && forall i :: 0 <= i < |ps| ==> c !in ps[i]
    ensures Split(Join(ps, [c]), [c]) == ps
  {
    if |ps| == 1 {
      CharAbsent(ps[0], "", c);
      assert ps[0] + "" == ps[0];
      SplitNothing(ps[0], [c]);
      assert ps == [ps[0]];
    } else {
      var rest := Join(ps[1..], [c]);
      CharAbsent(ps[0], [c] + rest, c);
      SplitHere(ps[0], [c], rest);
      SplitJoin(ps[1..], c);
    }
  }

  // ----- decimal numbers

  function Decimal(n: nat): (s: string)
    ensures s != "" && forall i :: 0 <= i < |s| ==> '0' <= s[i] <= '9'
  {
    var d := (n % 10 + 48) as char;
    if n < 10 then [d] else Decimal(n / 10) + [d]
  }

  // ----- trim, reverse, letter case

  /** The characters with the Unicode property White_Space. */
  predicate IsSpace(c: char) {
    var n := c as int;
    9 <= n <= 13 || n == 0x20 || n == 0x85 || n == 0xA0 || n == 0x1680 || 0x2000 <= n <= 0x200A
    || n == 0x2028 || n == 0x2029 || n == 0x202F || n == 0x205F || n == 0x3000
  }

  function Trim(s: string): string {
    if s == "" then s
    else if IsSpace(s[0]) then Trim(s[1..])
    else if IsSpace(s[|s| - 1]) then Trim(s[..|s| - 1])
    else s
  }

  /** Trimming yields a part of the text. */
  lemma {:induction false} TrimIsPart(s: string)
    ensures Contains(s, Trim(s))
  {
    assert OccursAt(s, s, 0);
    if s == "" {
    } else if IsSpace(s[0]) {
      TrimIsPart(s[1..]);
      ContainsShift(s, 1, Trim(s));
    } else if IsSpace(s[|s| - 1]) {
      var t := s[..|s| - 1];
      TrimIsPart(t);
      assert OccursAt(s, t, 0);
      ContainsWithin(s, t, Trim(s));
    }
  }

  /** It keeps every character that is not white space. */
  lemma {:induction false} TrimKeeps(s: string, c: char)
    requires c in s && !IsSpace(c)
    ensures c in Trim(s)
  {
    if IsSpace(s[0]) {
      TrimKeeps(s[1..], c);
    } else if IsSpace(s[|s| - 1]) {
      TrimKeeps(s[..|s| - 1], c);
    }
  }

  function Reverse(s: string): (r: string)
    ensures |r| == |s| && forall i :: 0 <= i < |s| ==> r[i] == s[|s| - 1 - i]
  {
    seq(|s|, i requires 0 <= i < |s| => s[|s| - 1 - i])
  }

  lemma ReverseReverse(s: string)
    ensures Reverse(Reverse(s)) == s
  {
  }

  function LowerAscii(c: char): char {
    if 'A' <= c <= 'Z' then (c as int + 32) as char else c
  }

  /** Equality up to the case of the letters A to Z. */
  predicate SameIgnoringCase(s: string, t: string) {
    |s| == |t| && forall i :: 0 <= i < |s| ==> LowerAscii(s[i]) == LowerAscii(t[i])
  }

  /** Outside the range there is only white space, and the range does not start or end with any. */
  ghost predicate Trims(s: string, i: int, j: int) {
    && 0 <= i <= j <= |s|
    && (forall k :: 0 <= k < i ==> IsSpace(s[k]))
    && (forall k :: j <= k < |s| ==> IsSpace(s[k]))
    && (i < j ==> !IsSpace(s[i]) && !IsSpace(s[j - 1]))
  }

  lemma TrimsLeft(s: string, i: int, j: int)
    requires s != "" && IsSpace(s[0]) && Trims(s[1..], i, j)
    ensures Trims(s, i + 1, j + 1) && s[1..][i..j] == s[i + 1..j + 1]
  {
    assert forall k :: 0 < k < |s| ==> s[k] == s[1..][k - 1];
  }

  lemma TrimsRight(s: string, i: int, j: int)
    requires s != "" && IsSpace(s[|s| - 1]) && Trims(s[..|s| - 1], i, j)
    ensures Trims(s, i, j) && s[..|s| - 1][i..j] == s[i..j]
  {
    assert forall k :: 0 <= k < |s| - 1 ==> s[k] == s[..|s| - 1][k];
  }

  /** Trimming removes white space, all of it, from both ends, and nothing else. */
  lemma {:induction false} TrimExactly(s: string) returns (i: int, j: int)
    ensures Trims(s, i, j) && Trim(s) == s[i..j]
  {
    i, j := 0, |s|;
    if s == "" {
    } else if IsSpace(s[0]) {
      i, j := TrimExactly(s[1..]);
      TrimsLeft(s, i, j);
      i, j := i + 1, j + 1;
    } else if IsSpace(s[|s| - 1]) {
      i, j := TrimExactly(s[..|s| - 1]);
      TrimsRight(s, i, j);
    } else {
      assert s[0..|s|] == s;
    }
  }

  /** The digits of a number, by their values. */
  lemma DecimalDigits(n: nat)
    ensures n < 10 ==> Decimal(n) == [(n + '0' as int) as char]
    ensures n >= 10 ==> Decimal(n) == Decimal(n / 10) + Decimal(n % 10)
  {
  }

  lemma CaseIsIgnored()
    ensures SameIgnoringCase(".EXE", ".exe") && SameIgnoringCase(".eXe", ".exe") && !SameIgnoringCase("_exe", ".exe")
  {
    assert LowerAscii("_exe"[0]) != LowerAscii(".exe"[0]);
  }
}
