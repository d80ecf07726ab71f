/** A record that is lost, whatever JSON reader and signature check are used. */
module LostName {
  import opened Options
  import opened Text
  import opened Base64Url
  import opened Base64Bits
  import opened CustomServers
  import opened Extensions
  import opened LicenceName
  import opened LicenceRoundTrip
  import opened LicenceExact

  /** A key whose third character is the halfwidth katakana U+FF80, three bytes EF BE 80. */
  const KATAKANA := CustomServer("aa\U{FF80}", "", "", "")

  lemma KatakanaKey()
    ensures EscapeAll("aa\U{FF80}") == [0x61, 0x61, 0xEF, 0xBE, 0x80]
  {
    var s := "aa\U{FF80}";
    assert s[1..] == "a\U{FF80}" && s[1..][1..] == "\U{FF80}" && s[1..][1..][1..] == "";
    assert EscapeAll("\U{FF80}") == [0xEF, 0xBE, 0x80];
    assert EscapeAll("a\U{FF80}") == [0x61, 0xEF, 0xBE, 0x80];
  }

  // The JSON text before the second letter of the key, and from the last byte of the katakana on.
  const FRONT: seq<Byte> := [0x7B, 0x22] + KEY + [0x22, 0x3A, 0x22] + [0x61]
  const REST: seq<Byte> := [0x22] + Member(0x2C, HOST, "") + Member(0x2C, API, "") + Member(0x2C, RELAY, "") + [0x7D]

  lemma KatakanaBytes()
    ensures ToVec(KATAKANA) == FRONT + ([0x61, 0xEF, 0xBE] + ([0x80] + REST))
  {
    KatakanaKey();
    Regroup([0x7B, 0x22] + KEY + [0x22, 0x3A, 0x22], Member(0x2C, HOST, ""), Member(0x2C, API, ""), Member(0x2C, RELAY, ""));
  }

  lemma Regroup(head: seq<Byte>, a: seq<Byte>, b: seq<Byte>, c: seq<Byte>)
    ensures head + [0x61, 0x61, 0xEF, 0xBE, 0x80] + [0x22] + a + b + c + [0x7D]
            == head + [0x61] + ([0x61, 0xEF, 0xBE] + ([0x80] + ([0x22] + a + b + c + [0x7D])))
  {
  }

  lemma FrontAndRest()
    ensures |FRONT| == 9 && Ascii(FRONT) && |REST| == 32 && Ascii(REST)
  {
    assert EscapeAll("") == [];
  }

  lemma MiddleGroup()
    ensures Encode([0x61, 0xEF, 0xBE]) == "Ye--"
  {
    assert Group([0x61, 0xEF, 0xBE]) == [24, 30, 62, 62];
  }

  ghost predicate DashesFourth(e: string) {
    forall k :: 0 <= k < |e| && e[k] == '-' ==> k % 4 == 3
  }

  lemma AsciiDashes(v: seq<Byte>)
    requires Ascii(v)
    ensures DashesFourth(Encode(v))
  {
    forall k | 0 <= k < |Encode(v)| && Encode(v)[k] == '-' ensures k % 4 == 3 {
      EncodedDash(v, k);
    }
  }

  lemma DashesJoin(e: string, f: string)
    requires DashesFourth(e) && DashesFourth(f) && |e| % 4 == 0
    ensures DashesFourth(e + f)
  {
    forall k | 0 <= k < |e + f| && (e + f)[k] == '-' ensures k % 4 == 3 {
      if k >= |e| {
        assert f[k - |e|] == '-';
        assert (k - |e|) % 4 == 3;
      }
    }
  }

  lemma HeadSextets(x: Byte, y: Byte)
    requires x < 128 && y < 128
    ensures var ds := Group([0x80, x, y]);
            |ds| == 4 && ds[0] != DASH && ds[1] != DASH && ds[2] != DASH
  {
  }

  lemma SymbolDashes(ds: seq<Sextet>)
    requires |ds| == 4 && ds[0] != DASH && ds[1] != DASH && ds[2] != DASH
    ensures |Symbols(ds)| == 4 && DashesFourth(Symbols(ds))
  {
  }

  lemma HeadDashes(x: Byte, y: Byte)
    requires x < 128 && y < 128
    ensures |Encode([0x80, x, y])| == 4 && DashesFourth(Encode([0x80, x, y]))
  {
    HeadSextets(x, y);
    SymbolDashes(Group([0x80, x, y]));
  }

  /** The encoding of seven-bit bytes behind one that is not has its dashes in the same places. */
  lemma RestDashes(rest: seq<Byte>)
    requires Ascii(rest) && |rest| >= 3
    ensures DashesFourth(Encode([0x80] + rest))
  {
    var head, tail := [0x80, rest[0], rest[1]], rest[2..];
    assert [0x80] + rest == head + tail;
    EncodeJoin(head, tail);
    HeadDashes(rest[0], rest[1]);
    AsciiDashes(tail);
    DashesJoin(Encode(head), Encode(tail));
  }

  lemma ReversedSparse(enc: string)
    requires DashesFourth(enc)
    ensures SparseDashes(Reverse(enc)) && Clean(Reverse(enc))
  {
    var n := Reverse(enc);
    forall i | 0 <= i < |n| && n[i] == '-' ensures (|n| - 1 - i) % 4 == 3 {
      assert enc[|n| - 1 - i] == '-';
    }
    SparseIsClean(n);
  }

  /** Two clean texts around `--` are the pieces of the whole. */
  lemma TwoPieces(a: string, b: string)
    requires SparseDashes(a) && Clean(a) && Clean(b) && |a| >= 9 && b != "" && b[0] != 'l'
    ensures Delimit(a + ("--" + b)) == a + ("--" + b)
    ensures Split(a + ("--" + b), "--") == [a, b]
  {
    NoMarkAround(a, b);
    CleanDelimit(a + ("--" + b));
    NoneInFirst(a, "--" + b);
    SplitHere(a, "--", b);
    SplitNothing(b, "--");
  }

  lemma NoneInFirst(a: string, x: string)
    requires SparseDashes(a) && !Contains(a, "--") && a != ""
    ensures NoneBefore(a + x, "--", |a|)
  {
    forall j | 0 <= j < |a| ensures !OccursAt(a + x, "--", j) {
      if j + 2 <= |a| {
        OccursInPrefix(a, x, "--", j);
      } else {
        assert "--"[0] == '-' && (|a| - 1 - j) % 4 == 0;
        assert (a + x)[j + 0] == a[j] != '-';
      }
    }
  }

  lemma NoMarkAround(a: string, b: string)
    requires SparseDashes(a) && Clean(a) && Clean(b) && |a| >= 9 && b != "" && b[0] != 'l'
    ensures !Contains(a + ("--" + b), "-licensed-")
  {
    var s, pat, m := a + ("--" + b), "-licensed-", |a|;
    forall i | 0 <= i <= |s| ensures !OccursAt(s, pat, i) {
      if i + 10 <= m {
        OccursInPrefix(a, "--" + b, pat, i);
      } else if m + 2 <= i {
        assert s == (a + "--") + b;
        OccursAfter(a + "--", b, pat, i);
      } else if i == m + 1 {
        assert s[i + 1] == b[0] != pat[1];
      } else if i == m - 9 {
        assert (m - 1 - i) % 4 == 0;
        assert s[i + 0] == a[i] != pat[0];
      } else if i == m {
        assert s[i + 1] == '-' != pat[1];
      } else {
        assert s[i + (m - i)] == '-' != pat[m - i];
      }
    }
  }

  /** The two pieces, in the order of the name. */
  lemma KatakanaPieces() returns (a: string, b: string)
    ensures GenName(KATAKANA) == a + ("--" + b) && SparseDashes(a) && Clean(a) && Clean(b)
    ensures |a| >= 9 && b != "" && b[0] != 'l'
    ensures Decode(Reverse(a)) == Some([0x80] + REST) && Decode(Reverse(b)).None?
  {
    var e1, e2 := Encode(FRONT), Encode([0x80] + REST);
    FrontAndRest();
    KatakanaBytes();
    MiddleGroup();
    EncodeJoin(FRONT, [0x61, 0xEF, 0xBE] + ([0x80] + REST));
    EncodeJoin([0x61, 0xEF, 0xBE], [0x80] + REST);
    a, b := Reverse(e2), Reverse(e1 + "Ye");
    ReversedParts(e1, e2);
    RestPiece();
    FrontPiece();
  }

  lemma ReversedParts(e1: string, e2: string)
    ensures Reverse(e1 + ("Ye--" + e2)) == Reverse(e2) + ("--" + Reverse(e1 + "Ye"))
  {
  }

  lemma RestPiece()
    ensures var e := Encode([0x80] + REST);
            |e| >= 9 && SparseDashes(Reverse(e)) && Clean(Reverse(e)) && Decode(Reverse(Reverse(e))) == Some([0x80] + REST)
  {
    var e := Encode([0x80] + REST);
    FrontAndRest();
    RestDashes(REST);
    ReversedSparse(e);
    ReverseReverse(e);
    DecodeEncode([0x80] + REST);
    SextetsLength([0x80] + REST);
  }

  lemma FrontPiece()
    ensures var b := Reverse(Encode(FRONT) + "Ye");
            b != "" && b[0] != 'l' && Clean(b) && Decode(Reverse(b)).None?
  {
    var e1 := Encode(FRONT);
    var e := e1 + "Ye";
    FrontAndRest();
    SextetsLength(FRONT);
    AsciiDashes(FRONT);
    DashesJoin(e1, "Ye");
    ReversedSparse(e);
    ReverseReverse(e);
    NoEnd(Sextets(FRONT), e);
  }

  /** The bits of the sextet behind `Y` that no byte takes are not zero. */
  lemma NoEnd(ds: seq<Sextet>, e: string)
    requires |ds| % 4 == 0 && e == Symbols(ds) + "Ye"
    ensures Decode(e).None?
  {
    var es: seq<Sextet> := [24, 30];
    assert Symbols(es) == "Ye";
    SymbolsJoin(ds, es);
    assert Digits(Symbols(ds + es)) == ds + es;
    BytesFail(ds, es);
  }

  /**
   That record does not come back from any of the names that its users may give it, with any lawful
   reader: nothing is found at all.
   */
  lemma KatakanaIsLost(reader: Reader, d: string, cs: seq<Copy>, ext: string)
    requires Lawful(reader) && IsDelimiter(d) && IsExe(ext)
    ensures ParseName(reader, Stem(APP, d, GenName(KATAKANA), Copies(cs), "") + ext).None?
  {
    var n := GenName(KATAKANA);
    var a, b := KatakanaPieces();
    TwoPieces(a, b);
    FrontAndRest();
    ShortRejected(reader, a, [0x80] + REST);
    NameHasShape(KATAKANA);
    AppIsHarmless(reader);
    NameReads(reader, APP, d, n, cs, ext);
    NothingRead(reader, a, b);
  }

  lemma NothingRead(reader: Reader, a: string, b: string)
    requires ParseConfig(reader, a).None? && Decode(Reverse(b)).None?
    ensures FirstSome(Untrimmed(reader), [a, b]).None?
  {
    UntrimmedIs(reader, a);
    UntrimmedIs(reader, b);
    FirstSomeNone(Untrimmed(reader), [a, b]);
  }
}
