/**
 The licence-in-file-name codec: what the parser makes of the names the printer gives.

 The alphabet of the printed text contains '-', and '-' also delimits it in the file name. Over
 7-bit records '-' can only stand at every fourth place, so no delimiter can arise inside the text
 and every record comes back. Over other records a delimiter can arise, and then it does not.
 */
module LicenceName {
  import opened Options
  import opened Text
  import opened Base64Url
  import opened CustomServers

  // ----- what a printed name looks like

  predicate AsciiText(s: string) {
    forall i :: 0 <= i < |s| ==> s[i] as int < 128
  }

  predicate AsciiRecord(lic: CustomServer) {
    AsciiText(lic.key) && AsciiText(lic.host) && AsciiText(lic.api) && AsciiText(lic.relay)
  }

  lemma {:induction false} EscapeAllAscii(s: string)
    requires AsciiText(s)
    ensures Ascii(EscapeAll(s))
  {
    if s != "" {
      assert Ascii(Escape(s[0]));
      EscapeAllAscii(s[1..]);
    }
  }

  lemma MemberAscii(before: Byte, name: seq<Byte>, value: string)
    requires before < 128 && Ascii(name) && AsciiText(value)
    ensures Ascii(Member(before, name, value))
  {
    EscapeAllAscii(value);
  }

  lemma ToVecAscii(lic: CustomServer)
    requires AsciiRecord(lic)
    ensures Ascii(ToVec(lic))
  {
    MemberAscii(0x7B, KEY, lic.key);
    MemberAscii(0x2C, HOST, lic.host);
    MemberAscii(0x2C, API, lic.api);
    MemberAscii(0x2C, RELAY, lic.relay);
  }

  predicate PlainChar(c: char) {
    c == '-' || c == '_' || '0' <= c <= '9' || 'A' <= c <= 'Z' || 'a' <= c <= 'z'
  }

  predicate PlainText(w: string) {
    forall i :: 0 <= i < |w| ==> PlainChar(w[i])
  }

  /** A text that no delimiter before it can run into. */
  predicate NameText(n: string) {
    PlainText(n) && n != "" && n[0] != '-' && n[0] != 'l'
  }

  predicate EndsInYe(n: string) {
    |n| >= 2 && n[|n| - 2] == 'y' && n[|n| - 1] == 'e'
  }

  /** What the parser relies on, whatever the record is. */
  predicate NameShape(n: string) {
    NameText(n) && EndsInYe(n)
  }

  /** No delimiter behind the text can run into it. */
  predicate Apart(n: string, tail: string) {
    tail == "" || EndsInYe(n)
  }

  lemma ToVecBraces(lic: CustomServer)
    ensures Braced(ToVec(lic))
  {
  }

  predicate Braced(v: seq<Byte>) {
    |v| >= 2 && v[0] == 0x7B && v[1] == 0x22 && v[|v| - 1] == 0x7D
  }

  lemma EncodedEnds(v: seq<Byte>)
    requires Braced(v)
    ensures var enc := Encode(v);
            |enc| >= 2 && enc[0] == 'e' && enc[1] == 'y' && enc[|enc| - 1] in {'Q', '0', '9'}
  {
    FirstSextets(v);
    LastSextet(v);
  }

  /** A printed name decodes to its record's JSON; the braces of the JSON fix its ends. */
  lemma NameHasShape(lic: CustomServer)
    ensures NameShape(GenName(lic))
    ensures Decode(Reverse(GenName(lic))) == Some(ToVec(lic))
  {
    ToVecBraces(lic);
    BracedName(ToVec(lic));
  }

  lemma BracedName(v: seq<Byte>)
    requires Braced(v)
    ensures NameShape(Reverse(Encode(v)))
    ensures Decode(Reverse(Reverse(Encode(v)))) == Some(v)
  {
    var enc := Encode(v);
    assert Decode(Reverse(Reverse(enc))) == Some(v) by {
      DecodeEncode(v);
      ReverseReverse(enc);
    }
    assert NameShape(Reverse(enc)) by {
      DecodeEncode(v);
      EncodedEnds(v);
      ReversedShape(enc);
    }
  }

  lemma ReversedShape(enc: string)
    requires InAlphabet(enc) && |enc| >= 2
    requires enc[0] == 'e' && enc[1] == 'y' && enc[|enc| - 1] in {'Q', '0', '9'}
    ensures NameShape(Reverse(enc))
  {
    var n := Reverse(enc);
    forall i | 0 <= i < |n| ensures PlainChar(n[i]) {
      assert n[i] == enc[|n| - 1 - i];
    }
    assert n[|n| - 2] == enc[1] && n[|n| - 1] == enc[0] && n[0] == enc[|enc| - 1];
  }

  /** No delimiter of the parser occurs in the name. */
  predicate Clean(n: string) {
    !Contains(n, "--") && !Contains(n, "-licensed-")
  }

  /** Counted from the end, dashes stand only at the last place of a group of four. */
  predicate SparseDashes(n: string) {
    forall i :: 0 <= i < |n| && n[i] == '-' ==> (|n| - 1 - i) % 4 == 3
  }

  lemma EncodedDash(v: seq<Byte>, k: nat)
    requires Ascii(v) && k < |Encode(v)| && Encode(v)[k] == '-'
    ensures k % 4 == 3
  {
    assert Encode(v)[k] == Symbol(Sextets(v)[k]);
    AsciiDash(v, k);
    FourthIsModular(k);
  }

  lemma AsciiNameDashes(lic: CustomServer)
    requires AsciiRecord(lic)
    ensures SparseDashes(GenName(lic))
  {
    ToVecAscii(lic);
    var v := ToVec(lic);
    var n := GenName(lic);
    forall i | 0 <= i < |n| && n[i] == '-' ensures (|n| - 1 - i) % 4 == 3 {
      EncodedDash(v, |n| - 1 - i);
    }
  }

  lemma OccurrenceEnds(s: string, pat: string, i: int)
    requires |pat| >= 2 && pat[0] == '-' && pat[|pat| - 1] == '-' && OccursAt(s, pat, i)
    ensures s[i] == '-' && s[i + |pat| - 1] == '-'
  {
    assert s[i + 0] == pat[0] && s[i + (|pat| - 1)] == pat[|pat| - 1];
  }

  /** Then two dashes are never one or nine places apart. */
  lemma SparseIsClean(n: string)
    requires SparseDashes(n)
    ensures Clean(n)
  {
    if Contains(n, "--") {
      var i :| 0 <= i <= |n| && OccursAt(n, "--", i);
      OccurrenceEnds(n, "--", i);
      assert false;
    }
    if Contains(n, "-licensed-") {
      var i :| 0 <= i <= |n| && OccursAt(n, "-licensed-", i);
      OccurrenceEnds(n, "-licensed-", i);
      assert false;
    }
  }

  lemma AsciiNameClean(lic: CustomServer)
    requires AsciiRecord(lic)
    ensures Clean(GenName(lic))
  {
    AsciiNameDashes(lic);
    SparseIsClean(GenName(lic));
  }

  // ----- the suffixes that Windows adds to duplicates: an optional space and a number in brackets

  datatype Copy = Copy(space: bool, number: nat)

  function Space(c: Copy): string {
    if c.space then " " else ""
  }

  function Copies(cs: seq<Copy>): (s: string)
    ensures forall i :: 0 <= i < |s| ==> s[i] in {' ', '(', ')'} || '0' <= s[i] <= '9'
    ensures cs != [] ==> s != "" && s[|s| - 1] == ')'
  {
    if cs == [] then "" else Space(cs[0]) + ("(" + Decimal(cs[0].number) + ")" + Copies(cs[1..]))
  }

  /** All that the parser sees of copy numbers. */
  predicate CopyShape(dups: string) {
    && (forall i :: 0 <= i < |dups| ==> dups[i] in {' ', '(', ')'} || '0' <= dups[i] <= '9')
    && (dups == "" || (dups[|dups| - 1] == ')'
                       && (dups[0] == '(' || (dups[0] == ' ' && |dups| >= 2 && dups[1] == '('))))
  }

  lemma CopiesShape(cs: seq<Copy>)
    ensures CopyShape(Copies(cs))
  {
    if cs != [] {
      var body := "(" + Decimal(cs[0].number) + ")" + Copies(cs[1..]);
      assert Copies(cs) == Space(cs[0]) + body && body[0] == '(';
    }
  }

  /** What may follow the name and its copy numbers: nothing, or anything after `--`. */
  predicate IsTail(t: string) {
    t == "" || "--" <= t
  }

  /** A file name without its extension. */
  function Stem(app: string, d: string, n: string, dups: string, tail: string): string {
    app + (d + (n + dups + tail))
  }

  // ----- the three replacements

  function Mark(k: nat): (m: string)
    requires k <= 2
    ensures |m| == 10 + k && m[0] == '-' && m[1] == 'l'
    ensures forall j :: 0 <= j < 10 ==> m[j] == "-licensed-"[j] && m[j] != 'y'
    ensures forall j :: 0 <= j < |m| && m[j] == '-' ==> j == 0 || j >= 9
    ensures forall j :: 9 <= j < |m| ==> m[j] == '-'
  {
    if k == 0 then "-licensed-" else if k == 1 then "-licensed--" else "-licensed---"
  }

  /** No mark starts in the name and ends behind it, because the name ends in `ye` or no dash follows. */
  lemma NoMarkAcross(n: string, x: string, k: nat)
    requires k <= 2 && (EndsInYe(n) || '-' !in x)
    ensures NoCross(n, x, Mark(k))
  {
    var s, pat := n + x, Mark(k);
    forall i | 0 <= i < |n| && |n| < i + |pat| ensures !OccursAt(s, pat, i) {
      if !EndsInYe(n) {
        assert pat[|pat| - 1] == '-';
        assert i + |pat| <= |s| ==> s[i + (|pat| - 1)] == x[i + |pat| - 1 - |n|];
      } else if i == |n| - 1 {
        assert s[i + 0] == 'e';
      } else {
        var j := |n| - 2 - i;
        assert s[i + j] == 'y' && pat[j] != 'y';
      }
    }
  }

  /** `d` is a delimiter that a replacement of `Mark(k)` leaves alone. */
  predicate Passes(d: string, k: nat) {
    d == "--" || (k >= 1 && d == Mark(0)) || (k >= 2 && d == Mark(1))
  }

  lemma NoMarkInDelimiter(d: string, x: string, k: nat, i: nat)
    requires k <= 2 && Passes(d, k) && x != "" && x[0] != '-' && x[0] != 'l' && i < |d|
    ensures !OccursAt(d + x, Mark(k), i)
  {
    var s, pat := d + x, Mark(k);
    if i == 0 && d != "--" {
      assert s[0 + |d|] == x[0] && pat[|d|] == '-';
    } else if d[i] == '-' {
      assert s[i + 1] != 'l';
    } else {
      assert s[i + 0] != '-';
    }
  }

  /**
   A part before the delimiter that holds no delimiter, not even together with the dash that follows
   it: `rustdesk` and `rustdesk-1.2`, but not `rustdesk-` and not `rustdesk-licensed`.
   */
  predicate Quiet(app: string) {
    !Contains(app + "-", "--") && !Contains(app + "-", "-licensed-")
  }

  lemma NoDashIsQuiet(app: string)
    requires '-' !in app
    ensures Quiet(app)
  {
    var s := app + "-";
    forall i | 0 <= i <= |s| ensures !OccursAt(s, "--", i) && !OccursAt(s, "-licensed-", i) {
      assert "--"[0] == '-' && "-licensed-"[0] == '-';
      assert i < |app| ==> s[i + 0] == app[i];
    }
  }

  lemma NoDashesInApp(app: string, x: string)
    requires Quiet(app)
    ensures NoneBefore(app + ("-" + x), "--", |app|)
  {
    assert app + ("-" + x) == (app + "-") + x;
    forall j | 0 <= j < |app| ensures !OccursAt(app + ("-" + x), "--", j) {
      OccursInPrefix(app + "-", x, "--", j);
    }
  }

  lemma NoShortMark(s: string, k: nat, j: nat)
    requires k <= 2 && !OccursAt(s, "-licensed-", j) && j + 10 <= |s|
    ensures !OccursAt(s, Mark(k), j)
  {
    var i :| 0 <= i < 10 && s[j + i] != "-licensed-"[i];
    assert s[j + i] != Mark(k)[i];
  }

  lemma NoMarkInApp(app: string, x: string, k: nat)
    requires Quiet(app) && k <= 2
    ensures NoneBefore(app + ("-" + x), Mark(k), |app|)
  {
    var s := app + ("-" + x);
    assert s == (app + "-") + x;
    forall j | 0 <= j < |app| ensures !OccursAt(s, Mark(k), j) {
      if j + 10 <= |app| + 1 {
        OccursInPrefix(app + "-", x, "-licensed-", j);
        NoShortMark(s, k, j);
      } else {
        assert s[j + (|app| - j)] == '-' && Mark(k)[|app| - j] != '-';
      }
    }
  }

  /** A replacement acts on the name and on the tail. */
  lemma PassName(n: string, dups: string, tail: string, k: nat)
    requires k <= 2 && Apart(n, tail) && '-' !in dups
    ensures Replace(n + dups + tail, Mark(k), "--")
            == Replace(n, Mark(k), "--") + dups + Replace(tail, Mark(k), "--")
  {
    var pat := Mark(k);
    forall j | 0 <= j < |dups| ensures !OccursAt(dups + tail, pat, j) {
      assert (dups + tail)[j + 0] == dups[j];
    }
    ReplaceKeeps(dups, tail, pat, "--");
    NoMarkAcross(n, dups + tail, k);
    ReplaceAppend(n, dups + tail, pat, "--");
    assert n + dups + tail == n + (dups + tail);
  }

  lemma InApp(app: string, y: string, k: nat)
    requires Quiet(app) && k <= 2 && y != "" && y[0] == '-'
    ensures Replace(app + y, Mark(k), "--") == app + Replace(y, Mark(k), "--")
  {
    assert y == "-" + y[1..];
    NoMarkInApp(app, y[1..], k);
    ReplaceKeeps(app, y, Mark(k), "--");
  }

  /** A replacement of another mark leaves the delimiter alone. */
  lemma PassKeeps(app: string, d: string, n: string, dups: string, tail: string, k: nat)
    requires k <= 2 && Passes(d, k) && Quiet(app) && NameText(n) && Apart(n, tail) && '-' !in dups
    ensures Replace(Stem(app, d, n, dups, tail), Mark(k), "--")
            == Stem(app, d, Replace(n, Mark(k), "--"), dups, Replace(tail, Mark(k), "--"))
  {
    var pat, x := Mark(k), n + dups + tail;
    forall j | 0 <= j < |d| ensures !OccursAt(d + x, pat, j) {
      NoMarkInDelimiter(d, x, k, j);
    }
    InApp(app, d + x, k);
    ReplaceKeeps(d, x, pat, "--");
    PassName(n, dups, tail, k);
  }

  /** The replacement of the mark itself turns it into `--`. */
  lemma PassHits(app: string, n: string, dups: string, tail: string, k: nat)
    requires k <= 2 && Quiet(app) && NameText(n) && Apart(n, tail) && '-' !in dups
    ensures Replace(Stem(app, Mark(k), n, dups, tail), Mark(k), "--")
            == Stem(app, "--", Replace(n, Mark(k), "--"), dups, Replace(tail, Mark(k), "--"))
  {
    var pat, x := Mark(k), n + dups + tail;
    InApp(app, pat + x, k);
    ReplaceHere(x, pat, "--");
    PassName(n, dups, tail, k);
  }

  lemma {:induction false} PlainKept(n: string, k: nat)
    requires k <= 2 && forall i :: 0 <= i < |n| ==> PlainChar(n[i])
    ensures forall i :: 0 <= i < |Replace(n, Mark(k), "--")| ==> PlainChar(Replace(n, Mark(k), "--")[i])
    decreases |n|
  {
    if n != "" {
      PlainKept(n[if OccursAt(n, Mark(k), 0) then |Mark(k)| else 1..], k);
    }
  }

  lemma EndKept(m: string, k: nat)
    requires k <= 2
    ensures Replace(m + "ye", Mark(k), "--") == Replace(m, Mark(k), "--") + "ye"
  {
    var pat := Mark(k);
    forall i | 0 <= i < |m| && |m| < i + |pat| ensures !OccursAt(m + "ye", pat, i) {
      if i + |pat| <= |m| + 2 {
        assert pat[|pat| - 1] == '-';
        assert (m + "ye")[i + (|pat| - 1)] == "ye"[i + |pat| - 1 - |m|] != '-';
      }
    }
    ReplaceAppend(m, "ye", pat, "--");
    forall i | 0 <= i <= 2 ensures !OccursAt("ye", pat, i) {
    }
    ReplaceNothing("ye", pat, "--");
  }

  lemma StartKept(n: string, k: nat)
    requires k <= 2 && n != "" && n[0] != '-'
    ensures var r := Replace(n, Mark(k), "--");
            r != "" && r[0] == n[0]
  {
    assert n[0 + 0] != Mark(k)[0];
  }

  lemma TextKept(n: string, k: nat)
    requires k <= 2 && NameText(n)
    ensures NameText(Replace(n, Mark(k), "--"))
    ensures EndsInYe(n) ==> EndsInYe(Replace(n, Mark(k), "--"))
  {
    PlainKept(n, k);
    StartKept(n, k);
    if EndsInYe(n) {
      var m := n[..|n| - 2];
      assert n == m + "ye";
      EndKept(m, k);
    }
  }

  lemma TailPass(t: string, k: nat)
    requires k <= 2 && IsTail(t)
    ensures IsTail(Replace(t, Mark(k), "--"))
  {
    if t != "" {
      assert t[0 + 1] == '-';
      assert !OccursAt(t, Mark(k), 0);
      var u := t[1..];
      assert u[0] == '-';
      assert Replace(t, Mark(k), "--") == [t[0]] + Replace(u, Mark(k), "--");
    }
  }

  predicate IsDelimiter(d: string) {
    d == "--" || d == Mark(0) || d == Mark(1) || d == Mark(2)
  }

  /** The three replacements together: the delimiter becomes `--`, and the copy numbers stay. */
  lemma Delimited(app: string, d: string, n: string, dups: string, tail: string) returns (tail': string)
    requires IsDelimiter(d) && Quiet(app) && IsTail(tail) && NameText(n) && Apart(n, tail) && '-' !in dups
    ensures IsTail(tail') && (tail == "" ==> tail' == "") && NameText(Delimit(n))
    ensures Delimit(Stem(app, d, n, dups, tail)) == Stem(app, "--", Delimit(n), dups, tail')
  {
    var t1 := Replace(tail, Mark(2), "--");
    var t2 := Replace(t1, Mark(1), "--");
    tail' := Replace(t2, Mark(0), "--");
    TailPass(tail, 2);
    TailPass(t1, 1);
    TailPass(t2, 0);
    var n1 := Replace(n, Mark(2), "--");
    var n2 := Replace(n1, Mark(1), "--");
    TextKept(n, 2);
    TextKept(n1, 1);
    TextKept(n2, 0);
    var d1 := OnePass(app, d, n, dups, tail, 2);
    var d2 := OnePass(app, d1, n1, dups, t1, 1);
    var d3 := OnePass(app, d2, n2, dups, t2, 0);
  }

  lemma OnePass(app: string, d: string, n: string, dups: string, tail: string, k: nat) returns (d': string)
    requires k <= 2 && (d == Mark(k) || Passes(d, k)) && Quiet(app) && NameText(n) && Apart(n, tail) && '-' !in dups
    ensures if k == 0 then d' == "--" else d' == Mark(k - 1) || Passes(d', k - 1)
    ensures Replace(Stem(app, d, n, dups, tail), Mark(k), "--")
            == Stem(app, d', Replace(n, Mark(k), "--"), dups, Replace(tail, Mark(k), "--"))
  {
    if d == Mark(k) {
      d' := "--";
      PassHits(app, n, dups, tail, k);
    } else {
      d' := d;
      PassKeeps(app, d, n, dups, tail, k);
    }
  }

  /** A clean name is left alone. */
  lemma CleanDelimit(n: string)
    requires !Contains(n, "-licensed-")
    ensures Delimit(n) == n
  {
    NoMark(n, 2);
    NoMark(n, 1);
    NoMark(n, 0);
  }

  lemma NoMark(n: string, k: nat)
    requires k <= 2 && !Contains(n, "-licensed-")
    ensures Replace(n, Mark(k), "--") == n
  {
    forall j | 0 <= j <= |n| ensures !OccursAt(n, Mark(k), j) {
      if j + 10 <= |n| {
        NoShortMark(n, k, j);
      }
    }
    ReplaceNothing(n, Mark(k), "--");
  }

  // ----- the parser on such a name

  lemma CopySplit(head: string, rest: string)
    requires '(' !in head
    ensures Contains(head + ("(" + rest), "(")
    ensures Split(head + ("(" + rest), "(")[0] == head
  {
    var m := head + ("(" + rest);
    assert OccursAt(m, "(", |head|);
    forall j | 0 <= j < |head| ensures !OccursAt(m, "(", j) {
      assert m[j + 0] != "("[0];
    }
    SplitHere(head, "(", rest);
  }

  lemma CopyParses(config: Config, lic: CustomServer, head: string, rest: string)
    requires config(head + ("(" + rest)).None? && '(' !in head && config(head) == Some(lic)
    ensures ParsePiece(config, head + ("(" + rest)) == Some(lic)
  {
    CopySplit(head, rest);
  }

  lemma NoDoubleDash(n: string, dups: string, t: string)
    requires NameShape(n) && !Contains(n, "--") && '-' !in dups
    ensures NoneBefore(n + dups + t, "--", |n + dups|)
  {
    var x := n + dups + t;
    forall j | 0 <= j < |n + dups| ensures !OccursAt(x, "--", j) {
      if |n| <= j {
        assert x[j + 0] == dups[j - |n|] != "--"[0];
      } else if j == |n| - 1 {
        assert x[j + 0] == 'e' != "--"[0];
      } else {
        assert x == n + (dups + t);
        OccursInPrefix(n, dups + t, "--", j);
      }
    }
  }

  lemma FirstSplit(m: string, t: string)
    requires NoneBefore(m + t, "--", |m|) && IsTail(t)
    ensures Split(m + t, "--")[0] == m
  {
    if t == "" {
      assert m + t == m;
      SplitNothing(m, "--");
    } else {
      assert t == "--" + t[2..];
      SplitHere(m, "--", t[2..]);
    }
  }

  lemma NameSplit(n: string, dups: string, t: string)
    requires NameShape(n) && !Contains(n, "--") && '-' !in dups && IsTail(t)
    ensures Split(n + dups + t, "--")[0] == n + dups
  {
    NoDoubleDash(n, dups, t);
    FirstSplit(n + dups, t);
  }

  lemma AppSplit(app: string, x: string)
    requires Quiet(app)
    ensures Split(app + ("--" + x), "--") == [app] + Split(x, "--")
  {
    assert "--" + x == "-" + ("-" + x);
    NoDashesInApp(app, "-" + x);
    SplitHere(app, "--", x);
  }

  /** Splitting at `--` yields the name with its copy numbers as the second piece. */
  lemma SecondPiece(app: string, n: string, dups: string, t: string)
    requires Quiet(app) && NameShape(n) && !Contains(n, "--") && '-' !in dups && IsTail(t)
    ensures var ps := Split(Stem(app, "--", n, dups, t), "--");
            |ps| >= 2 && ps[0] == app && ps[1] == n + dups
  {
    NameSplit(n, dups, t);
    AppSplit(app, n + dups + t);
  }

  /** A text with no `host=` in its front part and none in its tail has none at all. */
  lemma NoHostTag(app: string, mid: string, tail: string)
    requires IsTail(tail) && !Contains(app, "host=") && !Contains(tail, "host=")
    requires '=' !in mid
    ensures !Contains(app + mid + tail, "host=")
  {
    var s, pat := app + mid + tail, "host=";
    forall i | 0 <= i <= |s| ensures !OccursAt(s, pat, i) {
      var k := |app + mid|;
      if i + 5 <= |app| {
        OccursInPrefix(app, mid + tail, pat, i);
        assert app + (mid + tail) == s;
      } else if k <= i {
        OccursAfter(app + mid, tail, pat, i);
        assert (app + mid) + tail == s;
      } else if i + 4 < |s| {
        assert pat[4] == '=';
        if i + 4 < k {
          assert s[i + 4] == mid[i + 4 - |app|];
        } else {
          assert s[i + (k - i)] == '-' && pat[k - i] != '-';
        }
      }
    }
  }

  lemma NoEqualsSign(d: string, n: string, dups: string)
    requires IsDelimiter(d) && NameText(n) && CopyShape(dups)
    ensures '=' !in d + n + dups
  {
    assert '=' !in d;
    assert '=' !in n;
  }

  lemma StemParts(app: string, d: string, n: string, dups: string, tail: string)
    ensures Stem(app, d, n, dups, tail) == app + (d + n + dups) + tail
  {
  }

  lemma NoHostTagInStem(app: string, d: string, n: string, dups: string, tail: string)
    requires IsDelimiter(d) && NameText(n) && CopyShape(dups) && IsTail(tail)
    requires !Contains(app, "host=") && !Contains(tail, "host=")
    ensures !Contains(Stem(app, d, n, dups, tail), "host=")
  {
    NoEqualsSign(d, n, dups);
    StemParts(app, d, n, dups, tail);
    NoHostTag(app, d + n + dups, tail);
  }

  lemma SecondWins(f: Config, ps: seq<string>)
    requires |ps| >= 2 && f(ps[0]).None? && f(ps[1]).Some?
    ensures FirstSome(f, ps) == f(ps[1])
  {
    assert ps[1..][0] == ps[1];
  }

  /**
   A clean name that is taken for a record, with the copy numbers that Windows appended, is found
   in its file name, whichever delimiter precedes it and whatever follows `--`.
   `app` is the part before the delimiter; it must not itself be taken for a record.
   */
  lemma CleanNameParses(config: Config, lic: CustomServer, n: string, app: string, d: string, dups: string, tail: string)
    requires ParsePiece(config, n + dups) == Some(lic) && NameShape(n) && Clean(n)
    requires Quiet(app) && !Contains(app, "host=") && ParsePiece(config, app).None?
    requires IsDelimiter(d) && CopyShape(dups) && IsTail(tail) && !Contains(tail, "host=")
    ensures ParseStem(config, Stem(app, d, n, dups, tail)) == Some(lic)
  {
    var s := Stem(app, d, n, dups, tail);
    var ps := Split(Delimit(s), "--");
    assert |ps| >= 2 && ps[0] == app && ps[1] == n + dups by {
      var t := Delimited(app, d, n, dups, tail);
      CleanDelimit(n);
      SecondPiece(app, n, dups, t);
    }
    SecondWins(Piece(config), ps);
    assert IndexFrom(s, "host=", 0) == -1 by {
      NoHostTagInStem(app, d, n, dups, tail);
      IndexFromSpec(s, "host=", 0);
    }
  }
}
