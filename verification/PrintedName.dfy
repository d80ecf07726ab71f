/**
 The file name that `main` of src/naming.rs prints. Its front ends in a dash that is no delimiter, so
 the parser takes front and name for one piece.
 */
module PrintedName {
  import opened Options
  import opened Text
  import opened Base64Url
  import opened CustomServers
  import opened Extensions
  import opened LicenceName
  import opened LicenceRoundTrip
  import opened LicenceExact

  /** What `main` of src/naming.rs prints before the name; the parser has no such delimiter. */
  const PRINTED := "rustdesk-custom_serverd-"

  lemma PrintedIsOnePiece(n: string)
    requires NameShape(n) && Clean(n)
    ensures var s := PRINTED + n;
            !Contains(s, "--") && !Contains(s, Mark(0)) && !Contains(s, "host=")
  {
    var s := PRINTED + n;
    forall i | 0 <= i <= |s|
      ensures !OccursAt(s, "--", i) && !OccursAt(s, Mark(0), i) && !OccursAt(s, "host=", i)
    {
      assert "--"[0] == '-' && "--"[1] == '-' && "host="[4] == '=';
      assert i + 4 < |s| ==> s[i + 4] != '=';
      if |PRINTED| <= i {
        OccursAfter(PRINTED, n, "--", i);
        OccursAfter(PRINTED, n, Mark(0), i);
      } else if i == 8 {
        assert s[i + 1] == 'c';
      } else if i == 23 {
        assert s[i + 1] == n[0];
      } else {
        assert s[i + 0] == PRINTED[i] != '-';
      }
    }
  }

  lemma OneExtension(front: string, n: string)
    requires NameShape(n)
    ensures StripExe(front + n + ".exe") == front + n
  {
    var s := front + n;
    var k := StripCut(s, ".exe");
    assert !ExeChar('y') && s[|s| - 2] == 'y';
    assert k == 0 && s[..|s| - 0] == s;
  }

  lemma NoEqualsNoTag(s: string)
    requires '=' !in s
    ensures !Contains(s, "host=")
  {
    forall i | 0 <= i <= |s| ensures !OccursAt(s, "host=", i) {
      assert "host="[4] == '=';
      assert i + 4 < |s| ==> s[i + 4] != '=';
    }
  }

  lemma PrintedStem(n: string)
    requires NameShape(n)
    ensures StripExe(PRINTED + n + ".exe") == PRINTED + n && !Contains(PRINTED + n, "host=")
  {
    OneExtension(PRINTED, n);
    assert '=' !in PRINTED && '=' !in n;
    NoEqualsNoTag(PRINTED + n);
  }

  lemma PrintedEnds(n: string)
    requires NameShape(n)
    ensures var s := PRINTED + n;
            '(' !in s && !IsSpace(s[0]) && !IsSpace(s[|s| - 1]) && s != n
  {
  }

  lemma StemIsTaken(reader: Reader, n: string)
    requires NameShape(n) && Clean(n)
    ensures ParseName(reader, PRINTED + n + ".exe") == ParseConfig(reader, PRINTED + n)
  {
    PrintedStem(n);
    PrintedIsOnePiece(n);
    PrintedEnds(n);
    WholeIsTaken(reader, PRINTED + n);
  }

  lemma WholeIsTaken(reader: Reader, s: string)
    requires StripExe(s + ".exe") == s && !Contains(s, "--") && !Contains(s, Mark(0)) && !Contains(s, "host=")
    requires s != "" && '(' !in s && !IsSpace(s[0]) && !IsSpace(s[|s| - 1])
    ensures ParseName(reader, s + ".exe") == ParseConfig(reader, s)
  {
    OnePiece(Trimmed(reader), s);
    TrimName(s);
    TrimmedIs(reader, s, s);
    NameIs(reader, s + ".exe", s, Trimmed(reader)(s));
  }

  /**
   With every reader, for every record: if the record is read from the printed file name at all, it is
   not read from its printed text, but from another part of the file name; from the whole of it if
   no delimiter occurs in the text.
   */
  lemma PrintedNameReads(reader: Reader, lic: CustomServer) returns (t: string)
    requires ParseName(reader, PRINTED + GenName(lic) + ".exe") == Some(lic)
    ensures Contains(PRINTED + GenName(lic), t) && t != GenName(lic) && ParseConfig(reader, t) == Some(lic)
    ensures Clean(GenName(lic)) ==> t == PRINTED + GenName(lic)
  {
    var n := GenName(lic);
    NameHasShape(lic);
    PrintedStem(n);
    if Clean(n) {
      StemIsTaken(reader, n);
      t := PRINTED + n;
      PrefixContained(t, t);
      PrintedEnds(n);
    } else {
      t := ReadFromPart(reader, lic, PRINTED + n + ".exe");
    }
  }

  // ----- what stands there: the JSON text, and more behind it

  /** White space in JSON. */
  predicate Blank(b: Byte) {
    b in {0x09, 0x0A, 0x0D, 0x20}
  }

  /** `d` is `v` with something behind it that is not blank. */
  ghost predicate GoesOn(d: seq<Byte>, v: seq<Byte>) {
    |v| < |d| && d[..|v|] == v && !Blank(d[|v|])
  }

  lemma DashBytes(q: Sextet, x: Sextet)
    ensures !Blank(B0(DASH, x)) && (q % 16 == 0 ==> !Blank(B1(q, DASH))) && (q % 4 == 0 ==> !Blank(B2(q, DASH)))
  {
  }

  lemma NoneGoesOn(ys: seq<Sextet>)
    requires ys != [] && ys[0] == DASH && Bytes(ys).Some?
    ensures GoesOn(Bytes(ys).value, [])
  {
    assert |ys| >= 2;
    DashBytes(0, ys[1]);
    assert Bytes(ys).value[0] == B0(ys[0], ys[1]);
  }

  lemma OneGoesOn(x: Byte, ys: seq<Sextet>)
    requires ys != [] && ys[0] == DASH && Bytes(Sextets([x]) + ys).Some?
    ensures GoesOn(Bytes(Sextets([x]) + ys).value, [x])
  {
    var p, q := S0(x), S1(x, 0);
    PaddingBits(x);
    DashBytes(q, 0);
    var ds := [p, q] + ys;
    assert Sextets([x]) + ys == ds;
    var d := Bytes(ds).value;
    assert |ys| >= 2;
    assert d[0] == B0(p, q) && d[1] == B1(q, DASH);
    assert d[..1] == [x];
  }

  lemma TwoGoOn(x: Byte, y: Byte, ys: seq<Sextet>)
    requires ys != [] && ys[0] == DASH && Bytes(Sextets([x, y]) + ys).Some?
    ensures GoesOn(Bytes(Sextets([x, y]) + ys).value, [x, y])
  {
    var p, q, r := S0(x), S1(x, y), S2(y, 0);
    BytesBack(x, y, 0);
    PaddingBits(y);
    DashBytes(r, 0);
    var ds := [p, q, r] + ys;
    assert Sextets([x, y]) + ys == ds;
    var d := Bytes(ds).value;
    assert d[0] == B0(p, q) && d[1] == B1(q, r) && d[2] == B2(r, DASH);
    assert d[..2] == [x, y];
  }

  lemma GroupFirst(h: seq<Byte>, z: seq<Sextet>)
    requires |h| == 3
    ensures Bytes(Group(h) + z).Some? <==> Bytes(z).Some?
    ensures Bytes(z).Some? ==> Bytes(Group(h) + z).value == h + Bytes(z).value
  {
    UngroupGroup(h);
    if z == [] {
      assert Group(h) + z == Group(h);
    } else {
      assert (Group(h) + z)[..4] == Group(h) && (Group(h) + z)[4..] == z;
    }
  }

  lemma GoesOnBehind(h: seq<Byte>, d: seq<Byte>, v: seq<Byte>)
    requires GoesOn(d, v)
    ensures GoesOn(h + d, h + v)
  {
    assert (h + d)[..|h + v|] == h + d[..|v|];
  }

  /** Sextets that go on with a dash decode to the bytes and something that is not blank, if at all. */
  lemma {:induction false} BytesGoOn(v: seq<Byte>, ys: seq<Sextet>)
    requires ys != [] && ys[0] == DASH && Bytes(Sextets(v) + ys).Some?
    ensures GoesOn(Bytes(Sextets(v) + ys).value, v)
    decreases |v|
  {
    if v == [] {
      assert Sextets(v) + ys == ys;
      NoneGoesOn(ys);
    } else if |v| == 1 {
      assert v == [v[0]];
      OneGoesOn(v[0], ys);
    } else if |v| == 2 {
      assert v == [v[0], v[1]];
      TwoGoOn(v[0], v[1], ys);
    } else {
      var h, t := v[..3], v[3..];
      assert v == h + t;
      FirstGroup(h, t);
      Associates(Group(h), Sextets(t), ys);
      GroupFirst(h, Sextets(t) + ys);
      BytesGoOn(t, ys);
      GoesOnBehind(h, Bytes(Sextets(t) + ys).value, t);
    }
  }

  lemma EncodedGoesOn(v: seq<Byte>, x: string)
    requires x != "" && x[0] == '-' && Decode(Encode(v) + x).Some?
    ensures GoesOn(Decode(Encode(v) + x).value, v)
  {
    var s := Encode(v) + x;
    var ys := Digits(s)[|Encode(v)|..];
    assert s[|Encode(v)|] == '-';
    assert Digits(s) == Sextets(v) + ys;
    BytesGoOn(v, ys);
  }

  lemma ReversedFront(n: string)
    ensures Reverse(PRINTED + Reverse(n)) == n + Reverse(PRINTED)
    ensures Reverse(PRINTED) != "" && Reverse(PRINTED)[0] == '-'
  {
  }

  /** The whole printed file name decodes, if at all, to the JSON of the record and more behind it. */
  lemma PrintedBytes(lic: CustomServer)
    ensures var data := Decode(Reverse(PRINTED + GenName(lic)));
            data.Some? ==> GoesOn(data.value, ToVec(lic))
  {
    ReversedFront(Encode(ToVec(lic)));
    if Decode(Reverse(PRINTED + GenName(lic))).Some? {
      EncodedGoesOn(ToVec(lic), Reverse(PRINTED));
    }
  }

  /** No text with something behind it that is not blank is a JSON text, or a signed one. */
  ghost predicate Whole(reader: Reader) {
    forall d, v {:trigger GoesOn(d, v)} :: GoesOn(d, v) && reader.fromSlice(v).Some? ==>
      reader.fromSlice(d).None? && reader.verify(d).None?
  }

  /** So from the printed file name of a 7-bit record, or of any other with a clean name, nothing is read. */
  lemma PrintedNameIsLost(reader: Reader, lic: CustomServer)
    requires Whole(reader) && reader.fromSlice(ToVec(lic)).Some? && Clean(GenName(lic))
    ensures ParseName(reader, PRINTED + GenName(lic) + ".exe").None?
  {
    NameHasShape(lic);
    StemIsTaken(reader, GenName(lic));
    PrintedBytes(lic);
  }

  /** With a strict reader it is lost whatever the record is. */
  lemma StrictlyLost(reader: Reader, lic: CustomServer)
    requires Strict(reader, lic)
    ensures ParseName(reader, PRINTED + GenName(lic) + ".exe") != Some(lic)
  {
    StrictOnlyConfig(reader, lic);
    if ParseName(reader, PRINTED + GenName(lic) + ".exe") == Some(lic) {
      var t := PrintedNameReads(reader, lic);
    }
  }
}
