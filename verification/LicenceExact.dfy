/** What is read from any file name, with any reader; and exactly when it is the record. */
module LicenceExact {
  import opened Options
  import opened Text
  import opened Base64Url
  import opened CustomServers
  import opened Extensions
  import opened LicenceName
  import opened LicenceRoundTrip

  // ----- the first success

  lemma {:induction false} FirstSomeWitness(f: Config, ps: seq<string>, lic: CustomServer) returns (k: nat)
    requires FirstSome(f, ps) == Some(lic)
    ensures k < |ps| && f(ps[k]) == Some(lic)
  {
    if f(ps[0]).Some? {
      k := 0;
    } else {
      k := FirstSomeWitness(f, ps[1..], lic);
      k := k + 1;
    }
  }

  lemma {:induction false} FirstSomeSame(f: Config, g: Config, ps: seq<string>, qs: seq<string>)
    requires |ps| == |qs| && forall k :: 0 <= k < |ps| ==> f(ps[k]) == g(qs[k])
    ensures FirstSome(f, ps) == FirstSome(g, qs)
  {
    if ps != [] {
      FirstSomeSame(f, g, ps[1..], qs[1..]);
    }
  }

  lemma {:induction false} FirstSomeNone(f: Config, ps: seq<string>)
    requires forall k :: 0 <= k < |ps| ==> f(ps[k]).None?
    ensures FirstSome(f, ps).None?
  {
    if ps != [] {
      FirstSomeNone(f, ps[1..]);
    }
  }

  lemma FirstSomeSkips(f: Config, p: string, ps: seq<string>)
    requires f(p).None?
    ensures FirstSome(f, [p] + ps) == FirstSome(f, ps)
  {
    assert ([p] + ps)[1..] == ps;
  }

  // ----- copy numbers do not change what a piece is taken for

  /** A text, with or without a space behind it, and then parts with a closing bracket. */
  ghost predicate AreCopyParts(parts: seq<string>, w: string) {
    && parts != [] && (parts[0] == w || parts[0] == w + " ")
    && forall j :: 1 <= j < |parts| ==> ')' in parts[j]
  }

  lemma PartsBehind(parts: seq<string>, v: string, head: string, w: string)
    requires AreCopyParts(parts, v) && ')' in v && (head == w || head == w + " ")
    ensures AreCopyParts([head] + parts, w)
  {
    assert ')' in v + " ";
  }

  /** The parts of a text with copy numbers. */
  lemma {:induction false} CopyParts(w: string, cs: seq<Copy>)
    requires '(' !in w
    ensures AreCopyParts(Split(w + Copies(cs), "("), w)
    decreases |cs|
  {
    if cs == [] {
      assert w + Copies(cs) == w;
      NoBracketSplit(w);
    } else {
      var v := Numbered(cs[0].number);
      CopySplitHere(w, cs, v);
      CopyParts(v, cs[1..]);
      PartsBehind(Split(v + Copies(cs[1..]), "("), v, w + Space(cs[0]), w);
    }
  }

  function Numbered(n: nat): (v: string)
    ensures '(' !in v && ')' in v
  {
    var v := Decimal(n) + ")";
    assert v[|v| - 1] == ')';
    v
  }

  lemma NoBracketSplit(w: string)
    requires '(' !in w
    ensures Split(w, "(") == [w]
  {
    CharAbsent(w, "", '(');
    assert w + "" == w;
    SplitNothing(w, "(");
  }

  lemma CopySplitHere(w: string, cs: seq<Copy>, v: string)
    requires '(' !in w && cs != [] && v == Numbered(cs[0].number)
    ensures Split(w + Copies(cs), "(") == [w + Space(cs[0])] + Split(v + Copies(cs[1..]), "(")
    ensures w + Space(cs[0]) == w || w + Space(cs[0]) == w + " "
  {
    Bracketed(w, Space(cs[0]), Decimal(cs[0].number), Copies(cs[1..]));
    SplitAtBracket(w + Space(cs[0]), v + Copies(cs[1..]));
  }

  lemma Bracketed(w: string, space: string, number: string, rest: string)
    ensures w + (space + ("(" + number + ")" + rest)) == (w + space) + ("(" + ((number + ")") + rest))
  {
  }

  lemma SplitAtBracket(head: string, rest: string)
    requires '(' !in head
    ensures Split(head + ("(" + rest), "(") == [head] + Split(rest, "(")
  {
    CharAbsent(head, "(" + rest, '(');
    SplitHere(head, "(", rest);
  }

  lemma TrimPlain(w: string)
    requires PlainText(w)
    ensures Trim(w) == w && Trim(w + " ") == w
  {
    if w == "" {
      assert w + " " == " " && " "[1..] == "";
    } else {
      TrimName(w);
    }
  }

  lemma ClosingIsNoConfig(reader: Reader, s: string)
    requires ')' in s
    ensures Trimmed(reader)(s).None?
  {
    TrimKeeps(s, ')');
    StrangeIsNoConfig(reader, Trim(s), ')');
    TrimmedIs(reader, s, Trim(s));
  }

  lemma BareReads(reader: Reader, w: string)
    requires PlainText(w)
    ensures Trimmed(reader)(w) == ParseConfig(reader, w) && Trimmed(reader)(w + " ") == ParseConfig(reader, w)
    ensures ParsePiece(Trimmed(reader), w) == ParseConfig(reader, w)
  {
    TrimPlain(w);
    TrimmedIs(reader, w, w);
    TrimmedIs(reader, w + " ", w);
    NoBracketInPlain(w);
  }

  lemma NoBracketInPlain(w: string)
    requires PlainText(w)
    ensures '(' !in w && !Contains(w, "(")
  {
    forall i | 0 <= i <= |w| ensures !OccursAt(w, "(", i) {
      assert i < |w| ==> w[i + 0] != "("[0];
    }
  }

  lemma BracketStays(w: string, cs: seq<Copy>)
    requires cs != []
    ensures '(' in w + Copies(cs)
  {
    CopiesShape(cs);
    var c := Copies(cs);
    var i := if c[0] == '(' then 0 else 1;
    assert (w + c)[|w| + i] == '(';
  }

  lemma ClosedParts(reader: Reader, w: string, parts: seq<string>)
    requires AreCopyParts(parts, w)
    ensures forall j :: 1 <= j < |parts| ==> Trimmed(reader)(parts[j]).None?
  {
    forall j | 1 <= j < |parts| ensures Trimmed(reader)(parts[j]).None? {
      ClosingIsNoConfig(reader, parts[j]);
    }
  }

  lemma PartsRead(config: Config, w: string, parts: seq<string>)
    requires AreCopyParts(parts, w) && config(w) == config(w + " ")
    requires forall j :: 1 <= j < |parts| ==> config(parts[j]).None?
    ensures FirstSome(config, parts) == config(w)
  {
    FirstSomeNone(config, parts[1..]);
  }

  lemma PieceByParts(config: Config, p: string)
    requires config(p).None? && '(' in p
    ensures ParsePiece(config, p) == FirstSome(config, Split(p, "("))
  {
    var i :| 0 <= i < |p| && p[i] == '(';
    assert OccursAt(p, "(", i);
  }

  /** A text is taken for the same record with copy numbers as without. */
  lemma CopyReads(reader: Reader, w: string, cs: seq<Copy>)
    requires PlainText(w)
    ensures ParsePiece(Trimmed(reader), w + Copies(cs)) == ParseConfig(reader, w)
  {
    BareReads(reader, w);
    if cs == [] {
      assert w + Copies(cs) == w;
    } else {
      BracketStays(w, cs);
      TrimmedBracket(reader, w + Copies(cs));
      NoBracketInPlain(w);
      CopyParts(w, cs);
      ClosedParts(reader, w, Split(w + Copies(cs), "("));
      PartsRead(Trimmed(reader), w, Split(w + Copies(cs), "("));
      PieceByParts(Trimmed(reader), w + Copies(cs));
    }
  }

  // ----- what is read from a name

  lemma PlainPiece(m: string, k: nat)
    requires PlainText(m) && k < |Split(m, "--")|
    ensures PlainText(Split(m, "--")[k])
  {
    var w := Split(m, "--")[k];
    SplitPieces(m, "--", k);
    var o :| 0 <= o <= |m| && OccursAt(m, w, o);
    forall i | 0 <= i < |w| ensures PlainChar(w[i]) {
      assert m[o + i] == w[i];
    }
  }

  lemma NoDashInCopies(m: string, dups: string)
    requires '-' !in dups
    ensures NoCross(m, dups, "--") && NoneBefore(dups, "--", |dups|)
  {
    forall i | 0 <= i < |m| && |m| < i + 2 ensures !OccursAt(m + dups, "--", i) {
      assert i + 1 < |m + dups| ==> (m + dups)[i + 1] == dups[0];
      assert "--"[1] == '-';
    }
    forall i | 0 <= i < |dups| ensures !OccursAt(dups, "--", i) {
      assert dups[i + 0] != "--"[0];
    }
  }

  function Untrimmed(reader: Reader): Config {
    s => ParseConfig(reader, s)
  }

  lemma UntrimmedIs(reader: Reader, w: string)
    ensures Untrimmed(reader)(w) == ParseConfig(reader, w)
  {
  }

  lemma NoTagNoHost(config: Config, s: string)
    requires !Contains(s, "host=")
    ensures ParseStem(config, s) == FirstSome(Piece(config), Split(Delimit(s), "--"))
  {
    IndexFromSpec(s, "host=", 0);
  }

  lemma PieceIs(config: Config, p: string)
    ensures Piece(config)(p) == ParsePiece(config, p)
  {
  }

  /** The pieces of a stem without a tail. */
  lemma StemPieces(app: string, d: string, n: string, cs: seq<Copy>)
    requires Quiet(app) && IsDelimiter(d) && NameText(n)
    ensures Split(Delimit(Stem(app, d, n, Copies(cs), "")), "--") == [app] + Split(Delimit(n) + Copies(cs), "--")
    ensures PlainText(Delimit(n)) && '-' !in Copies(cs)
  {
    var dups := Copies(cs);
    assert '-' !in dups;
    var t := Delimited(app, d, n, dups, "");
    assert Delimit(n) + dups + "" == Delimit(n) + dups;
    AppSplit(app, Delimit(n) + dups);
  }

  lemma LastWithCopies(reader: Reader, ps: seq<string>, cs: seq<Copy>, k: nat)
    requires k < |ps| && PlainText(ps[k])
    ensures Piece(Trimmed(reader))(AppendLast(ps, Copies(cs))[k]) == Untrimmed(reader)(ps[k])
  {
    PieceIs(Trimmed(reader), AppendLast(ps, Copies(cs))[k]);
    UntrimmedIs(reader, ps[k]);
    if k == |ps| - 1 {
      CopyReads(reader, ps[k], cs);
    } else {
      BareReads(reader, ps[k]);
    }
  }

  /** The pieces of a name and its copy numbers are taken for what the pieces of the name are. */
  lemma PiecesRead(reader: Reader, m: string, cs: seq<Copy>)
    requires PlainText(m) && '-' !in Copies(cs)
    ensures FirstSome(Piece(Trimmed(reader)), Split(m + Copies(cs), "--"))
            == FirstSome(Untrimmed(reader), Split(m, "--"))
  {
    var ps := Split(m, "--");
    NoDashInCopies(m, Copies(cs));
    SplitAppend(m, Copies(cs), "--");
    forall k | 0 <= k < |ps|
      ensures Piece(Trimmed(reader))(AppendLast(ps, Copies(cs))[k]) == Untrimmed(reader)(ps[k])
    {
      PlainPiece(m, k);
      LastWithCopies(reader, ps, cs, k);
    }
    FirstSomeSame(Piece(Trimmed(reader)), Untrimmed(reader), AppendLast(ps, Copies(cs)), ps);
  }

  /** What is read from a printed text: the first of its pieces that is a configuration. */
  function FirstRead(reader: Reader, n: string): Option<CustomServer> {
    FirstSome(Untrimmed(reader), Split(Delimit(n), "--"))
  }

  lemma StemReads(reader: Reader, app: string, d: string, n: string, cs: seq<Copy>)
    requires NameText(n) && Harmless(reader, app) && IsDelimiter(d)
    ensures ParseStem(Trimmed(reader), Stem(app, d, n, Copies(cs), "")) == FirstRead(reader, n)
  {
    CopiesShape(cs);
    assert !Contains("", "host=");
    NoHostTagInStem(app, d, n, Copies(cs), "");
    NoTagNoHost(Trimmed(reader), Stem(app, d, n, Copies(cs), ""));
    StemPieces(app, d, n, cs);
    PieceIs(Trimmed(reader), app);
    FirstSomeSkips(Piece(Trimmed(reader)), app, Split(Delimit(n) + Copies(cs), "--"));
    PiecesRead(reader, Delimit(n), cs);
  }

  /** A text long enough for the extension to end before it. */
  predicate Ends(n: string) {
    EndsInYe(n) || |n| >= 4
  }

  lemma StemOfText(app: string, d: string, n: string, cs: seq<Copy>, ext: string)
    requires NameText(n) && Ends(n) && IsExe(ext)
    ensures StripExe(Stem(app, d, n, Copies(cs), "") + ext) == Stem(app, d, n, Copies(cs), "")
  {
    CopiesShape(cs);
    if EndsInYe(n) {
      var t := StemOfName(app, d, n, Copies(cs), "", ext);
    } else {
      StemJoined(app, d, n, Copies(cs));
      NoExeAtEnd(app + d, n, Copies(cs), Stem(app, d, n, Copies(cs), ""));
      NothingCut(Stem(app, d, n, Copies(cs), ""), ext);
    }
  }

  lemma StemJoined(app: string, d: string, n: string, dups: string)
    ensures Stem(app, d, n, dups, "") == app + d + n + dups
  {
  }

  lemma NothingCut(s: string, ext: string)
    requires !EndsWith(s, ".exe") && IsExe(ext)
    ensures StripExe(s + ext) == s
  {
    var k := StripCut(s, ext);
    assert s[..|s| - 0] == s;
  }

  lemma NoExeAtEnd(front: string, n: string, dups: string, s: string)
    requires PlainText(n) && |n| >= 4 && CopyShape(dups) && s == front + n + dups
    ensures !EndsWith(s, ".exe")
  {
    var t := s[|s| - 4..];
    if dups != "" {
      assert t[3] == dups[|dups| - 1] == ')' && LowerAscii(')') != LowerAscii(".exe"[3]);
    } else {
      assert t[0] == n[|n| - 4] && PlainChar(n[|n| - 4]) && LowerAscii(".exe"[0]) == '.';
    }
  }

  /**
   With every reader, what is read from a file name does not depend on its front, delimiter, copy
   numbers and extension: it is what the first piece gives into which the printed text itself falls.
   */
  lemma NameReads(reader: Reader, app: string, d: string, n: string, cs: seq<Copy>, ext: string)
    requires NameText(n) && Ends(n) && Harmless(reader, app) && IsDelimiter(d) && IsExe(ext)
    ensures ParseName(reader, Stem(app, d, n, Copies(cs), "") + ext) == FirstRead(reader, n)
  {
    StemOfText(app, d, n, cs, ext);
    StemReads(reader, app, d, n, cs);
    NameIs(reader, Stem(app, d, n, Copies(cs), "") + ext, Stem(app, d, n, Copies(cs), ""), FirstRead(reader, n));
  }

  // ----- when it is the record

  lemma ContainsIsNoLonger(s: string, t: string)
    requires Contains(s, t)
    ensures |t| <= |s|
  {
  }

  /** What the replacements leave of a name without `--` is shorter if there was anything to replace. */
  lemma DelimitShrinks(n: string)
    requires !Contains(n, "--") && Contains(n, "-licensed-")
    ensures |Delimit(n)| < |n|
  {
    NoLongMark(n, 2);
    NoLongMark(n, 1);
    ReplaceShrinks(n, Mark(0), "--");
  }

  lemma MarkEnds(k: nat)
    requires k <= 2
    ensures |Mark(k)| >= 2 && Mark(k)[0] == '-' && Mark(k)[|Mark(k)| - 1] == '-'
  {
  }

  lemma PartOfDelimited(n: string, w: string)
    requires Contains(Delimit(n), w) && !Contains(w, "--")
    ensures Contains(n, w)
  {
    if w == "" {
      assert OccursAt(n, w, 0);
    } else {
      MarkEnds(2);
      MarkEnds(1);
      MarkEnds(0);
      PartOfReplaced(Replace(Replace(n, Mark(2), "--"), Mark(1), "--"), Mark(0), w);
      PartOfReplaced(Replace(n, Mark(2), "--"), Mark(1), w);
      PartOfReplaced(n, Mark(2), w);
    }
  }

  /** The pieces into which a name falls that is not clean are proper parts of it. */
  lemma ProperPart(n: string, k: nat)
    requires !Clean(n) && k < |Split(Delimit(n), "--")|
    ensures var w := Split(Delimit(n), "--")[k];
            Contains(n, w) && w != n
  {
    var w := Split(Delimit(n), "--")[k];
    SplitPieces(Delimit(n), "--", k);
    PartOfDelimited(n, w);
    if !Contains(n, "--") {
      DelimitShrinks(n);
      ContainsIsNoLonger(Delimit(n), w);
    }
  }

  lemma CleanReads(reader: Reader, n: string)
    requires Clean(n)
    ensures FirstRead(reader, n) == ParseConfig(reader, n)
  {
    CleanDelimit(n);
    SplitNothing(n, "--");
    UntrimmedIs(reader, n);
    assert FirstSome(Untrimmed(reader), [n]) == Untrimmed(reader)(n);
  }

  /** From a text that is not clean, whatever is read is read from a proper part. */
  lemma UncleanReads(reader: Reader, n: string, lic: CustomServer) returns (t: string)
    requires !Clean(n) && FirstRead(reader, n) == Some(lic)
    ensures Contains(n, t) && t != n && !Contains(t, "--") && ParseConfig(reader, t) == Some(lic)
  {
    var ps := Split(Delimit(n), "--");
    var k := FirstSomeWitness(Untrimmed(reader), ps, lic);
    t := ps[k];
    UntrimmedIs(reader, t);
    ProperPart(n, k);
    SplitPieces(Delimit(n), "--", k);
  }

  /** `reader` takes some proper part of the text `n` for `lic`. */
  ghost predicate SomePart(reader: Reader, n: string, lic: CustomServer) {
    exists t {:trigger ParseConfig(reader, t)} :: Contains(n, t) && t != n && ParseConfig(reader, t) == Some(lic)
  }

  /** What comes back as `lic` from the file name of a text that is itself taken for `lic`. */
  ghost predicate ExactlyIfClean(reader: Reader, r: Option<CustomServer>, n: string, lic: CustomServer) {
    && (r == Some(lic) <==> Clean(n) || FirstRead(reader, n) == Some(lic))
    && (r == Some(lic) ==> Clean(n) || SomePart(reader, n, lic))
    && (!SomePart(reader, n, lic) ==> (r == Some(lic) <==> Clean(n)))
  }

  lemma TextRoundTrip(reader: Reader, lic: CustomServer, n: string, app: string, d: string, cs: seq<Copy>, ext: string)
    requires ParseConfig(reader, n) == Some(lic) && NameText(n) && Ends(n)
    requires Harmless(reader, app) && IsDelimiter(d) && IsExe(ext)
    ensures ExactlyIfClean(reader, ParseName(reader, Stem(app, d, n, Copies(cs), "") + ext), n, lic)
  {
    NameReads(reader, app, d, n, cs, ext);
    if Clean(n) {
      CleanReads(reader, n);
    } else if FirstRead(reader, n) == Some(lic) {
      var t := UncleanReads(reader, n, lic);
    }
  }

  /**
   With every reader that reads the printed JSON back, for every record, 7-bit or not, and whichever
   delimiter, copy numbers and extension its file name has: the record comes back if no delimiter
   occurs in the printed text; if one does, it can come back only from a proper part of that text.
   So unless the reader takes such a part for the record, it comes back exactly if none occurs.
   */
  lemma ExactRoundTrip(reader: Reader, lic: CustomServer, app: string, d: string, cs: seq<Copy>, ext: string)
    requires reader.fromSlice(ToVec(lic)) == Some(lic) && Harmless(reader, app) && IsDelimiter(d) && IsExe(ext)
    ensures ExactlyIfClean(reader, ParseName(reader, Stem(app, d, GenName(lic), Copies(cs), "") + ext), GenName(lic), lic)
  {
    NameHasShape(lic);
    ConfigOfName(reader, lic);
    TextRoundTrip(reader, lic, GenName(lic), app, d, cs, ext);
  }

  // ----- what is read from any file name

  lemma TrimmedText(reader: Reader, s: string, t: string)
    requires Trim(s) == t
    ensures Contains(s, t) && Trimmed(reader)(s) == ParseConfig(reader, t)
  {
    TrimIsPart(s);
  }

  lemma PieceText(reader: Reader, lic: CustomServer, p: string) returns (t: string)
    requires ParsePiece(Trimmed(reader), p) == Some(lic)
    ensures Contains(p, t) && ParseConfig(reader, t) == Some(lic)
  {
    if Trimmed(reader)(p).Some? {
      t := Trim(p);
      TrimmedText(reader, p, t);
    } else {
      var parts := Split(p, "(");
      var k := FirstSomeWitness(Trimmed(reader), parts, lic);
      t := Trim(parts[k]);
      TrimmedText(reader, parts[k], t);
      SplitPieces(p, "(", k);
      ContainsWithin(p, parts[k], t);
    }
  }

  lemma MarkIsMark()
    ensures IsMark(Mark(0))
  {
  }

  /** No piece of any text contains a whole name that is not clean. */
  lemma NotInAPiece(n: string, s: string, p: string)
    requires NameShape(n) && Contains(Delimit(s), p) && !Contains(p, "--") && Contains(p, n)
    ensures Clean(n)
  {
    if Contains(n, "--") {
      ContainsWithin(p, n, "--");
    }
    MarkIsMark();
    MarkNotInside(Replace(Replace(s, Mark(2), "--"), Mark(1), "--"), Mark(0), p, n);
  }

  lemma StemText(reader: Reader, lic: CustomServer, s: string, n: string) returns (t: string)
    requires !Contains(s, "host=") && ParseStem(Trimmed(reader), s) == Some(lic) && NameShape(n)
    ensures Contains(s, t) && !Contains(t, "--") && ParseConfig(reader, t) == Some(lic)
    ensures !Clean(n) ==> t != n
  {
    NoTagNoHost(Trimmed(reader), s);
    var ps := Split(Delimit(s), "--");
    var k := FirstSomeWitness(Piece(Trimmed(reader)), ps, lic);
    PieceIs(Trimmed(reader), ps[k]);
    t := PieceText(reader, lic, ps[k]);
    PartOfPiece(s, ps[k], t, k);
    if t == n {
      SplitPieces(Delimit(s), "--", k);
      NotInAPiece(n, s, ps[k]);
    }
  }

  lemma PartOfPiece(s: string, p: string, t: string, k: nat)
    requires k < |Split(Delimit(s), "--")| && p == Split(Delimit(s), "--")[k] && Contains(p, t)
    ensures Contains(s, t) && !Contains(t, "--")
  {
    SplitPieces(Delimit(s), "--", k);
    if Contains(t, "--") {
      ContainsWithin(p, t, "--");
    }
    ContainsWithin(Delimit(s), p, t);
    PartOfDelimited(s, t);
  }

  /**
   With every reader, from every file name without a `host=`: a record is read from a part of the
   name that holds no `--`; and never from its own printed text if a delimiter occurs in that.
   */
  lemma ReadFromPart(reader: Reader, lic: CustomServer, name: string) returns (t: string)
    requires !Contains(StripExe(name), "host=") && ParseName(reader, name) == Some(lic)
    ensures Contains(StripExe(name), t) && !Contains(t, "--") && ParseConfig(reader, t) == Some(lic)
    ensures !Clean(GenName(lic)) ==> t != GenName(lic)
  {
    NameHasShape(lic);
    t := StemText(reader, lic, StripExe(name), GenName(lic));
  }

  // ----- with a reader that takes nothing else for the record

  /** A reader that takes nothing but the printed text of `lic` for `lic`, signed or not. */
  ghost predicate Strict(reader: Reader, lic: CustomServer) {
    && (forall d {:trigger reader.fromSlice(d)} :: reader.fromSlice(d) == Some(lic) <==> d == ToVec(lic))
    && (forall d {:trigger reader.verify(d)} :: reader.verify(d).None?)
  }

  /** Only the printed name itself is taken for `lic`, because the encoding is canonical. */
  lemma OnlyTheName(data: Option<seq<Byte>>, s: string, v: seq<Byte>)
    requires Decode(Reverse(s)) == data == Some(v)
    ensures s == Reverse(Encode(v))
  {
    EncodeDecode(Reverse(s));
    ReverseReverse(s);
  }

  lemma ConfigNeeds(reader: Reader, lic: CustomServer, s: string)
    requires Strict(reader, lic) && ParseConfig(reader, s) == Some(lic)
    ensures s == GenName(lic)
  {
    OnlyTheName(Decode(Reverse(s)), s, ToVec(lic));
  }

  ghost predicate OnlyConfig(reader: Reader, n: string, lic: CustomServer) {
    forall t {:trigger ParseConfig(reader, t)} :: ParseConfig(reader, t) == Some(lic) ==> t == n
  }

  lemma StrictOnlyConfig(reader: Reader, lic: CustomServer)
    requires Strict(reader, lic)
    ensures OnlyConfig(reader, GenName(lic), lic) && !SomePart(reader, GenName(lic), lic)
  {
    forall t | ParseConfig(reader, t) == Some(lic) ensures t == GenName(lic) {
      ConfigNeeds(reader, lic, t);
    }
    assert reader.fromSlice(ToVec(lic)) == Some(lic);
  }

  /** With such a reader a record whose name is not clean comes back from no file name without a `host=`. */
  lemma UncleanIsLost(reader: Reader, lic: CustomServer, name: string)
    requires Strict(reader, lic) && !Clean(GenName(lic)) && !Contains(StripExe(name), "host=")
    ensures ParseName(reader, name) != Some(lic)
  {
    StrictOnlyConfig(reader, lic);
    if ParseName(reader, name) == Some(lic) {
      var t := ReadFromPart(reader, lic, name);
    }
  }
}
