/** The round trip of licence names, and exactly when it holds. */
module LicenceRoundTrip {
  import opened Options
  import opened Text
  import opened Base64Url
  import opened CustomServers
  import opened Extensions
  import opened LicenceName

  /** Bytes with which a JSON text can start: white space, a brace or a bracket. */
  predicate JsonStart(b: Byte) {
    b in {0x09, 0x0A, 0x0D, 0x20, 0x5B, 0x7B}
  }

  /** What the two libraries promise: no record without a JSON start, no signature of under 64 bytes. */
  ghost predicate Lawful(reader: Reader) {
    && (forall d {:trigger reader.fromSlice(d)} :: d == [] || !JsonStart(d[0]) ==> reader.fromSlice(d).None?)
    && (forall d {:trigger reader.verify(d)} :: |d| < 64 ==> reader.verify(d).None?)
  }

  // ----- the configuration reader meets the assumptions on `Config`

  lemma ConfigOfName(reader: Reader, lic: CustomServer)
    requires reader.fromSlice(ToVec(lic)) == Some(lic)
    ensures ParseConfig(reader, GenName(lic)) == Some(lic)
  {
    NameHasShape(lic);
  }

  lemma StrangeIsNoConfig(reader: Reader, s: string, c: char)
    requires c in s && Digit(c).None?
    ensures ParseConfig(reader, s).None?
  {
    var i :| 0 <= i < |s| && s[i] == c;
    assert Reverse(s)[|s| - 1 - i] == c;
    assert !InAlphabet(Reverse(s));
  }

  lemma TrimName(s: string)
    requires s != "" && !IsSpace(s[0]) && !IsSpace(s[|s| - 1])
    ensures Trim(s) == s && Trim(s + " ") == s
  {
    var t := s + " ";
    assert t[..|s|] == s && IsSpace(t[|s|]);
  }

  lemma TrimmedIs(reader: Reader, s: string, t: string)
    requires Trim(s) == t
    ensures Trimmed(reader)(s) == ParseConfig(reader, t)
  {
  }

  lemma TrimmedBracket(reader: Reader, s: string)
    requires '(' in s
    ensures Trimmed(reader)(s).None?
  {
    TrimKeeps(s, '(');
    StrangeIsNoConfig(reader, Trim(s), '(');
    TrimmedIs(reader, s, Trim(s));
  }

  lemma TrimmedCopy(reader: Reader, lic: CustomServer, n: string, head: string, rest: string)
    requires Trim(head) == n && ParseConfig(reader, n) == Some(lic) && '(' !in head
    ensures ParsePiece(Trimmed(reader), head + ("(" + rest)) == Some(lic)
  {
    var m := head + ("(" + rest);
    assert m[|head|] == '(';
    TrimmedBracket(reader, m);
    TrimmedIs(reader, head, n);
    CopyParses(Trimmed(reader), lic, head, rest);
  }

  lemma PieceBare(reader: Reader, lic: CustomServer, n: string)
    requires ParseConfig(reader, n) == Some(lic) && NameShape(n)
    ensures ParsePiece(Trimmed(reader), n) == Some(lic)
  {
    TrimName(n);
    TrimmedIs(reader, n, n);
  }

  lemma PieceCopy(reader: Reader, lic: CustomServer, n: string, rest: string)
    requires ParseConfig(reader, n) == Some(lic) && NameShape(n)
    ensures ParsePiece(Trimmed(reader), n + ("(" + rest)) == Some(lic)
  {
    TrimName(n);
    TrimmedCopy(reader, lic, n, n, rest);
  }

  lemma PieceSpaceCopy(reader: Reader, lic: CustomServer, n: string, rest: string)
    requires ParseConfig(reader, n) == Some(lic) && NameShape(n)
    ensures ParsePiece(Trimmed(reader), (n + " ") + ("(" + rest)) == Some(lic)
  {
    TrimName(n);
    TrimmedCopy(reader, lic, n, n + " ", rest);
  }

  /** A name is taken for its record, with or without copy numbers. */
  lemma TrimmedPiece(reader: Reader, lic: CustomServer, n: string, dups: string)
    requires ParseConfig(reader, n) == Some(lic) && NameShape(n) && CopyShape(dups)
    ensures ParsePiece(Trimmed(reader), n + dups) == Some(lic)
  {
    if dups == "" {
      assert n + dups == n;
      PieceBare(reader, lic, n);
    } else if dups[0] == '(' {
      assert n + dups == n + ("(" + dups[1..]);
      PieceCopy(reader, lic, n, dups[1..]);
    } else {
      assert n + dups == (n + " ") + ("(" + dups[2..]);
      PieceSpaceCopy(reader, lic, n, dups[2..]);
    }
  }

  // ----- the application's own name is not a configuration

  const APP := "rustdesk"

  lemma AppBytes()
    ensures Decode("ksedtsur").Some?
    ensures |Decode("ksedtsur").value| == 6 && Decode("ksedtsur").value[0] == 146
  {
    var s := "ksedtsur";
    assert InAlphabet(s);
    var ds := Digits(s);
    assert ds == [36, 44, 30, 29, 45, 44, 46, 43];
    assert ds[4..] == [45, 44, 46, 43] && ds[..4] == [36, 44, 30, 29];
    assert |ds[4..]| == 4;
  }

  lemma ShortRejected(reader: Reader, s: string, data: seq<Byte>)
    requires Lawful(reader) && Decode(Reverse(s)) == Some(data)
    requires 0 < |data| < 64 && !JsonStart(data[0])
    ensures ParseConfig(reader, s).None?
  {
  }

  lemma PieceRejected(reader: Reader, p: string)
    requires Trim(p) == p && ParseConfig(reader, p).None? && !Contains(p, "(")
    ensures ParsePiece(Trimmed(reader), p).None?
  {
    TrimmedIs(reader, p, p);
  }

  lemma AppIsNoConfig(reader: Reader)
    requires Lawful(reader)
    ensures ParseConfig(reader, APP).None?
  {
    assert Reverse(APP) == "ksedtsur";
    AppBytes();
    ShortRejected(reader, APP, Decode("ksedtsur").value);
  }

  /** A word of small letters is left alone by `trim` and holds no delimiter. */
  lemma PlainWord(s: string)
    requires s != "" && forall i :: 0 <= i < |s| ==> 'a' <= s[i] <= 'z'
    ensures Trim(s) == s && '-' !in s
    ensures !Contains(s, "(") && !Contains(s, "host=")
  {
    TrimName(s);
    forall i | 0 <= i <= |s| ensures !OccursAt(s, "(", i) && !OccursAt(s, "host=", i) {
      assert "("[0] == '(' && "host="[4] == '=';
      assert i < |s| ==> s[i + 0] != '(';
      assert i + 4 < |s| ==> s[i + 4] != '=';
    }
  }

  // ----- the extension

  /** What is cut off a stem beyond its extension is cut off its tail. */
  lemma StemOfName(app: string, d: string, n: string, dups: string, tail: string, ext: string) returns (tail': string)
    requires NameShape(n) && CopyShape(dups) && IsTail(tail) && IsExe(ext)
    ensures IsTail(tail') && tail' <= tail
    ensures StripExe(Stem(app, d, n, dups, tail) + ext) == Stem(app, d, n, dups, tail')
  {
    var s := Stem(app, d, n, dups, tail);
    var k := StripCut(s, ext);
    CutInTail(app, d, n, dups, tail, k);
    tail' := tail[..|tail| - k];
    assert s[..|s| - k] == Stem(app, d, n, dups, tail');
  }

  lemma CutInTail(app: string, d: string, n: string, dups: string, tail: string, k: nat)
    requires NameShape(n) && CopyShape(dups) && IsTail(tail)
    requires var s := Stem(app, d, n, dups, tail);
             k <= |s| && (k == 0 || k >= 4) && forall i :: |s| - k <= i < |s| ==> ExeChar(s[i])
    ensures if tail == "" then k == 0 else k <= |tail| - 2
  {
    var s := Stem(app, d, n, dups, tail);
    if tail != "" {
      assert s[|s| - |tail| + 1] == tail[1] == '-';
    } else if dups != "" {
      assert s[|s| - 1] == ')';
    } else {
      assert s[|s| - 2] == 'y';
    }
  }

  lemma NoTagInPart(t: string, tail: string)
    requires t <= tail && !Contains(tail, "host=")
    ensures !Contains(t, "host=")
  {
    if Contains(t, "host=") {
      PrefixContained(tail, t);
      ContainsWithin(tail, t, "host=");
    }
  }

  lemma StemParses(reader: Reader, lic: CustomServer, app: string, n: string, d: string, dups: string, tail: string)
    requires Harmless(reader, app)
    requires ParseConfig(reader, n) == Some(lic) && Clean(n) && NameShape(n) && CopyShape(dups)
    requires IsDelimiter(d) && IsTail(tail) && !Contains(tail, "host=")
    ensures ParseStem(Trimmed(reader), Stem(app, d, n, dups, tail)) == Some(lic)
  {
    TrimmedPiece(reader, lic, n, dups);
    CleanNameParses(Trimmed(reader), lic, n, app, d, dups, tail);
  }

  lemma NameParses(reader: Reader, lic: CustomServer, app: string, n: string, d: string, dups: string, tail: string, ext: string)
    requires Harmless(reader, app)
    requires ParseConfig(reader, n) == Some(lic) && Clean(n) && NameShape(n) && CopyShape(dups)
    requires IsDelimiter(d) && IsTail(tail) && !Contains(tail, "host=") && IsExe(ext)
    ensures ParseName(reader, Stem(app, d, n, dups, tail) + ext) == Some(lic)
  {
    var tail' := StemOfName(app, d, n, dups, tail, ext);
    NoTagInPart(tail', tail);
    StemParses(reader, lic, app, n, d, dups, tail');
    NameIs(reader, Stem(app, d, n, dups, tail) + ext, Stem(app, d, n, dups, tail'), Some(lic));
  }

  // ----- the theorems

  /** `app` is not itself taken for a record, and holds no delimiter; an example is `rustdesk`. */
  ghost predicate Harmless(reader: Reader, app: string) {
    Quiet(app) && !Contains(app, "host=") && ParsePiece(Trimmed(reader), app).None?
  }

  lemma WordIsHarmless(reader: Reader, app: string)
    requires app != "" && (forall i :: 0 <= i < |app| ==> 'a' <= app[i] <= 'z')
    requires ParseConfig(reader, app).None?
    ensures Harmless(reader, app)
  {
    PlainWord(app);
    NoDashIsQuiet(app);
    PieceRejected(reader, app);
  }

  lemma AppIsHarmless(reader: Reader)
    requires Lawful(reader)
    ensures Harmless(reader, APP)
  {
    AppIsNoConfig(reader);
    WordIsHarmless(reader, APP);
  }

  /**
   Any record whose printed name is clean comes back: after any of the four delimiters, with any
   copy numbers, with anything behind `--` and with any spelling of the extension.
   */
  lemma CleanRoundTrip(reader: Reader, lic: CustomServer, app: string, d: string, cs: seq<Copy>, tail: string, ext: string)
    requires reader.fromSlice(ToVec(lic)) == Some(lic) && Clean(GenName(lic)) && Harmless(reader, app)
    requires IsDelimiter(d) && IsTail(tail) && !Contains(tail, "host=") && IsExe(ext)
    ensures ParseName(reader, Stem(app, d, GenName(lic), Copies(cs), tail) + ext) == Some(lic)
  {
    NameHasShape(lic);
    ConfigOfName(reader, lic);
    CopiesShape(cs);
    NameParses(reader, lic, app, GenName(lic), d, Copies(cs), tail, ext);
  }

  /** Every 7-bit record comes back. */
  lemma AsciiRoundTrip(reader: Reader, lic: CustomServer, app: string, d: string, cs: seq<Copy>, tail: string, ext: string)
    requires reader.fromSlice(ToVec(lic)) == Some(lic) && AsciiRecord(lic) && Harmless(reader, app)
    requires IsDelimiter(d) && IsTail(tail) && !Contains(tail, "host=") && IsExe(ext)
    ensures ParseName(reader, Stem(app, d, GenName(lic), Copies(cs), tail) + ext) == Some(lic)
  {
    AsciiNameClean(lic);
    CleanRoundTrip(reader, lic, app, d, cs, tail, ext);
  }

  // ----- a file name without a record

  lemma MarkHasDoubleDash(k: nat)
    requires 1 <= k <= 2
    ensures Contains(Mark(k), "--")
  {
    assert OccursAt(Mark(k), "--", 9);
  }

  lemma NoLongMark(s: string, k: nat)
    requires 1 <= k <= 2 && !Contains(s, "--")
    ensures Replace(s, Mark(k), "--") == s
  {
    MarkHasDoubleDash(k);
    if Contains(s, Mark(k)) {
      ContainsWithin(s, Mark(k), "--");
    }
    ReplaceNothing(s, Mark(k), "--");
  }

  lemma OnePiece(config: Config, s: string)
    requires !Contains(s, "--") && !Contains(s, Mark(0)) && !Contains(s, "host=") && '(' !in s
    ensures ParseStem(config, s) == config(s)
  {
    NoLongMark(s, 2);
    NoLongMark(s, 1);
    ReplaceNothing(s, Mark(0), "--");
    SplitNothing(s, "--");
    IndexFromSpec(s, "host=", 0);
    forall i | 0 <= i <= |s| ensures !OccursAt(s, "(", i) {
      assert i < |s| ==> s[i + 0] != "("[0];
    }
    assert FirstSome(Piece(config), [s]) == ParsePiece(config, s);
  }

  lemma NoDash(s: string)
    requires '-' !in s
    ensures !Contains(s, "--") && !Contains(s, Mark(0))
  {
    forall i | 0 <= i <= |s| ensures !OccursAt(s, "--", i) && !OccursAt(s, Mark(0), i) {
      assert "--"[0] == '-' && Mark(0)[0] == '-';
      assert i < |s| ==> s[i + 0] != '-';
    }
  }

  lemma WordIsNoExe(s: string, ext: string)
    requires s != "" && (forall i :: 0 <= i < |s| ==> 'a' <= s[i] <= 'z') && IsExe(ext)
    ensures StripExe(s + ext) == s
  {
    var k := StripCut(s, ext);
    if |s| >= 4 {
      assert s[|s| - 4..][0] == s[|s| - 4];
      assert LowerAscii(".exe"[0]) == '.' && LowerAscii(s[|s| - 4]) != '.';
    }
    assert s[..|s| - 0] == s;
  }

  lemma WordHasNoRecord(reader: Reader, app: string, ext: string)
    requires app != "" && (forall i :: 0 <= i < |app| ==> 'a' <= app[i] <= 'z')
    requires ParseConfig(reader, app).None? && IsExe(ext)
    ensures ParseName(reader, app + ext).None?
  {
    PlainWord(app);
    NoDash(app);
    WordIsNoExe(app, ext);
    OnePiece(Trimmed(reader), app);
    TrimmedIs(reader, app, app);
    NameIs(reader, app + ext, app, None);
  }

  /** The application without a licence in its name: there is nothing to read. */
  lemma PlainNameHasNoRecord(reader: Reader, ext: string)
    requires Lawful(reader) && IsExe(ext)
    ensures ParseName(reader, APP + ext).None?
  {
    AppIsNoConfig(reader);
    WordHasNoRecord(reader, APP, ext);
  }
}
