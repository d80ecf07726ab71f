/**
 The printed JSON determines its record. So there is a reader that meets every assumption which the
 licence theorems make of the JSON library, and with it the round trip holds without assumptions.
 */
module RecordReader {
  import opened Options
  import opened Base64Url
  import opened CustomServers
  import opened LicenceName
  import opened LicenceRoundTrip
  import opened LicenceExact
  import opened PrintedName
  import opened Text
  import opened Extensions

  // ----- no printed character is the start of another

  /** The number of bytes that a first byte announces. */
  function Announced(b: Byte): nat {
    if b < 0x80 then 1 else if b < 0xE0 then 2 else if b < 0xF0 then 3 else 4
  }

  lemma Utf8Length(c: char)
    ensures |Utf8(c)| == Announced(Utf8(c)[0])
  {
  }

  /** The code point behind the bytes of one character. */
  function CodePoint(b: seq<Byte>): int
    requires 1 <= |b| <= 4
  {
    if |b| == 1 then b[0]
    else if |b| == 2 then (b[0] as int - 0xC0) * 64 + (b[1] as int - 0x80)
    else if |b| == 3 then (b[0] as int - 0xE0) * 4096 + (b[1] as int - 0x80) * 64 + (b[2] as int - 0x80)
    else (b[0] as int - 0xF0) * 262144 + (b[1] as int - 0x80) * 4096 + (b[2] as int - 0x80) * 64 + (b[3] as int - 0x80)
  }

  lemma Utf8Back(c: char)
    ensures 1 <= |Utf8(c)| <= 4 && CodePoint(Utf8(c)) == c as int
  {
    Base64Digits(c as int);
  }

  lemma Base64Digits(n: nat)
    ensures n == n / 64 * 64 + n % 64
    ensures n / 64 == n / 4096 * 64 + n / 64 % 64
    ensures n / 4096 == n / 262144 * 64 + n / 4096 % 64
  {
  }

  lemma SameStart(x: seq<Byte>, y: seq<Byte>, s: seq<Byte>, t: seq<Byte>)
    requires x + s == y + t && |x| == |y|
    ensures x == y && s == t
  {
    assert x == (x + s)[..|x|] && y == (y + t)[..|y|];
    assert s == (x + s)[|x|..] && t == (y + t)[|y|..];
  }

  lemma Utf8Apart(c: char, d: char, s: seq<Byte>, t: seq<Byte>)
    requires Utf8(c) + s == Utf8(d) + t
    ensures c == d && s == t
  {
    assert (Utf8(c) + s)[0] == Utf8(c)[0] && (Utf8(d) + t)[0] == Utf8(d)[0];
    Utf8Length(c);
    Utf8Length(d);
    SameStart(Utf8(c), Utf8(d), s, t);
    Utf8Back(c);
    Utf8Back(d);
  }

  predicate IsSpecial(c: char) {
    c as int < 0x20 || c as int == 0x22 || c as int == 0x5C
  }

  /** What follows a backslash tells the special characters apart; only `u` is followed by more. */
  lemma SpecialLength(c: char)
    requires IsSpecial(c)
    ensures |Escape(c)| >= 2 && Escape(c)[0] == 0x5C
    ensures |Escape(c)| == if Escape(c)[1] == 0x75 then 6 else 2
  {
  }

  lemma SpecialApart(c: char, d: char)
    requires IsSpecial(c) && IsSpecial(d) && Escape(c) == Escape(d)
    ensures c == d
  {
    var m, n := c as int, d as int;
    if |Escape(c)| == 6 {
      assert Escape(c)[4] == HexDigit(m / 16) && Escape(d)[4] == HexDigit(n / 16);
      assert Escape(c)[5] == HexDigit(m % 16) && Escape(d)[5] == HexDigit(n % 16);
    } else {
      assert Escape(c)[1] == Escape(d)[1];
    }
  }

  lemma OrdinaryStart(c: char)
    requires !IsSpecial(c)
    ensures Escape(c) == Utf8(c) && Utf8(c)[0] != 0x5C && Utf8(c)[0] != 0x22
  {
  }

  lemma EscapeIsNoQuote(c: char)
    ensures Escape(c) != [] && Escape(c)[0] != 0x22
    ensures Escape(c)[0] == 0x5C <==> IsSpecial(c)
  {
    if IsSpecial(c) {
      SpecialLength(c);
    } else {
      OrdinaryStart(c);
    }
  }

  lemma EscapeApart(c: char, d: char, s: seq<Byte>, t: seq<Byte>)
    requires Escape(c) + s == Escape(d) + t
    ensures c == d && s == t
  {
    var x, y := Escape(c), Escape(d);
    EscapeIsNoQuote(c);
    EscapeIsNoQuote(d);
    assert (x + s)[0] == x[0] && (y + t)[0] == y[0];
    if IsSpecial(c) {
      SpecialLength(c);
      SpecialLength(d);
      assert (x + s)[1] == x[1] && (y + t)[1] == y[1];
      SameStart(x, y, s, t);
      SpecialApart(c, d);
    } else {
      OrdinaryStart(c);
      OrdinaryStart(d);
      Utf8Apart(c, d, s, t);
    }
  }

  lemma FirstOfQuoted(x: string, s: seq<Byte>)
    ensures EscapeAll(x) + ([0x22] + s) != []
    ensures (EscapeAll(x) + ([0x22] + s))[0] == 0x22 <==> x == ""
  {
    if x != "" {
      EscapeIsNoQuote(x[0]);
    }
  }

  lemma QuotedStep(x: string, q: seq<Byte>)
    requires x != ""
    ensures EscapeAll(x) + q == Escape(x[0]) + (EscapeAll(x[1..]) + q)
  {
  }

  /** A quoted text ends at its own closing quote. */
  lemma {:induction false} QuotedApart(x: string, y: string, s: seq<Byte>, t: seq<Byte>)
    requires EscapeAll(x) + ([0x22] + s) == EscapeAll(y) + ([0x22] + t)
    ensures x == y && s == t
  {
    var q, r := [0x22] + s, [0x22] + t;
    FirstOfQuoted(x, s);
    FirstOfQuoted(y, t);
    if x == "" {
      assert EscapeAll("") + q == q && EscapeAll("") + r == r;
      SameStart([0x22], [0x22], s, t);
    } else {
      QuotedStep(x, q);
      QuotedStep(y, r);
      EscapeApart(x[0], y[0], EscapeAll(x[1..]) + q, EscapeAll(y[1..]) + r);
      QuotedApart(x[1..], y[1..], s, t);
      assert x == [x[0]] + x[1..] && y == [y[0]] + y[1..];
    }
  }

  lemma MemberParts(before: Byte, name: seq<Byte>, e: seq<Byte>, s: seq<Byte>, head: seq<Byte>)
    requires head == [before, 0x22] + name + [0x22, 0x3A, 0x22]
    ensures ([before, 0x22] + name + [0x22, 0x3A, 0x22] + e + [0x22]) + s == head + (e + ([0x22] + s))
  {
  }

  lemma MemberApart(before: Byte, name: seq<Byte>, x: string, y: string, s: seq<Byte>, t: seq<Byte>)
    requires Member(before, name, x) + s == Member(before, name, y) + t
    ensures x == y && s == t
  {
    var head := [before, 0x22] + name + [0x22, 0x3A, 0x22];
    MemberParts(before, name, EscapeAll(x), s, head);
    MemberParts(before, name, EscapeAll(y), t, head);
    SameStart(head, head, EscapeAll(x) + ([0x22] + s), EscapeAll(y) + ([0x22] + t));
    QuotedApart(x, y, s, t);
  }

  /** A text that starts with the JSON of a record starts with that of no other, and is no longer JSON text. */
  lemma JsonApart(a: CustomServer, b: CustomServer, e: seq<Byte>)
    requires ToVec(a) + e == ToVec(b)
    ensures a == b && e == []
  {
    EndApart(Member(0x7B, KEY, a.key) + Member(0x2C, HOST, a.host) + Member(0x2C, API, a.api) + Member(0x2C, RELAY, a.relay), e);
    MembersApart(0x7B, KEY, a.key, b.key, HOST, a.host, b.host, API, a.api, b.api, RELAY, a.relay, b.relay,
                 [0x7D] + e, [0x7D]);
    SameStart([0x7D], [0x7D], e, []);
  }

  lemma EndApart(x: seq<Byte>, e: seq<Byte>)
    ensures (x + [0x7D]) + e == x + ([0x7D] + e)
  {
  }

  /** Two records with the same JSON are the same record. */
  lemma JsonDeterminesRecord(a: CustomServer, b: CustomServer)
    requires ToVec(a) == ToVec(b)
    ensures a == b
  {
    assert ToVec(a) + [] == ToVec(b);
    JsonApart(a, b, []);
  }

  /** Two records with the same name are the same record. */
  lemma NameDeterminesRecord(a: CustomServer, b: CustomServer)
    requires GenName(a) == GenName(b)
    ensures a == b
  {
    ReverseReverse(Encode(ToVec(a)));
    ReverseReverse(Encode(ToVec(b)));
    DecodeEncode(ToVec(a));
    DecodeEncode(ToVec(b));
    JsonDeterminesRecord(a, b);
  }

  lemma MembersApart(k: Byte, n1: seq<Byte>, a1: string, b1: string, n2: seq<Byte>, a2: string, b2: string,
                     n3: seq<Byte>, a3: string, b3: string, n4: seq<Byte>, a4: string, b4: string,
                     s: seq<Byte>, t: seq<Byte>)
    requires Member(k, n1, a1) + Member(0x2C, n2, a2) + Member(0x2C, n3, a3) + Member(0x2C, n4, a4) + s
             == Member(k, n1, b1) + Member(0x2C, n2, b2) + Member(0x2C, n3, b3) + Member(0x2C, n4, b4) + t
    ensures a1 == b1 && a2 == b2 && a3 == b3 && a4 == b4 && s == t
  {
    var x4, y4 := Member(0x2C, n4, a4) + s, Member(0x2C, n4, b4) + t;
    var x3, y3 := Member(0x2C, n3, a3) + x4, Member(0x2C, n3, b3) + y4;
    var x2, y2 := Member(0x2C, n2, a2) + x3, Member(0x2C, n2, b2) + y3;
    Regroup(Member(k, n1, a1), Member(0x2C, n2, a2), Member(0x2C, n3, a3), Member(0x2C, n4, a4), s);
    Regroup(Member(k, n1, b1), Member(0x2C, n2, b2), Member(0x2C, n3, b3), Member(0x2C, n4, b4), t);
    MemberApart(k, n1, a1, b1, x2, y2);
    MemberApart(0x2C, n2, a2, b2, x3, y3);
    MemberApart(0x2C, n3, a3, b3, x4, y4);
    MemberApart(0x2C, n4, a4, b4, s, t);
  }

  lemma Regroup(a: seq<Byte>, b: seq<Byte>, c: seq<Byte>, d: seq<Byte>, e: seq<Byte>)
    ensures a + b + c + d + e == a + (b + (c + (d + e)))
  {
  }

  // ----- a reader that meets all assumptions

  ghost function Inverse(v: seq<Byte>): Option<CustomServer> {
    if exists lic :: ToVec(lic) == v then
      var lic :| ToVec(lic) == v;
      Some(lic)
    else None
  }

  ghost function Reference(): Reader {
    Reader(v => Inverse(v), v => None)
  }

  lemma ReferenceIsLawful()
    ensures Lawful(Reference())
  {
    forall d: seq<Byte> | d == [] || !JsonStart(d[0]) ensures Reference().fromSlice(d).None? {
      if Inverse(d).Some? {
        ToVecBraces(Inverse(d).value);
      }
    }
  }

  lemma ReferenceIsStrict(lic: CustomServer)
    ensures Strict(Reference(), lic)
  {
    forall d: seq<Byte> ensures Reference().fromSlice(d) == Some(lic) <==> d == ToVec(lic) {
      if d == ToVec(lic) {
        JsonDeterminesRecord(lic, Inverse(d).value);
      }
    }
  }

  lemma ReferenceIsWhole()
    ensures Whole(Reference())
  {
    forall d: seq<Byte>, v: seq<Byte> | GoesOn(d, v) && Reference().fromSlice(v).Some?
      ensures Reference().fromSlice(d).None?
    {
      if Inverse(d).Some? {
        assert d == v + d[|v|..];
        JsonApart(Inverse(v).value, Inverse(d).value, d[|v|..]);
      }
    }
  }

  /** The round trip of every 7-bit record, with nothing assumed of the reader. */
  lemma ReferenceRoundTrip(lic: CustomServer, d: string, cs: seq<Copy>, tail: string, ext: string)
    requires AsciiRecord(lic)
    requires IsDelimiter(d) && IsTail(tail) && !Contains(tail, "host=") && IsExe(ext)
    ensures ParseName(Reference(), Stem(APP, d, GenName(lic), Copies(cs), tail) + ext) == Some(lic)
  {
    ReferenceIsLawful();
    ReferenceIsStrict(lic);
    AppIsHarmless(Reference());
    ReadsBack(Reference(), lic);
    AsciiRoundTrip(Reference(), lic, APP, d, cs, tail, ext);
  }

  /** When any record at all comes back, 7-bit or not, with nothing assumed of the reader. */
  lemma ReferenceExact(lic: CustomServer, d: string, cs: seq<Copy>, ext: string)
    requires IsDelimiter(d) && IsExe(ext)
    ensures ParseName(Reference(), Stem(APP, d, GenName(lic), Copies(cs), "") + ext) == Some(lic)
            <==> Clean(GenName(lic))
  {
    ReferenceIsLawful();
    ReferenceIsStrict(lic);
    StrictOnlyConfig(Reference(), lic);
    AppIsHarmless(Reference());
    ExactRoundTrip(Reference(), lic, APP, d, cs, ext);
  }

  /** A record whose name is not clean comes back from no file name without a `host=`. */
  lemma ReferenceUnclean(lic: CustomServer, name: string)
    requires !Clean(GenName(lic)) && !Contains(StripExe(name), "host=")
    ensures ParseName(Reference(), name) != Some(lic)
  {
    ReferenceIsStrict(lic);
    UncleanIsLost(Reference(), lic, name);
  }

  /** And from the file name that `main` prints, no record comes back. */
  lemma ReferencePrinted(lic: CustomServer)
    ensures ParseName(Reference(), PRINTED + GenName(lic) + ".exe") != Some(lic)
    ensures Clean(GenName(lic)) ==> ParseName(Reference(), PRINTED + GenName(lic) + ".exe").None?
  {
    ReferenceIsStrict(lic);
    ReadsBack(Reference(), lic);
    StrictlyLost(Reference(), lic);
    if Clean(GenName(lic)) {
      ReferenceIsWhole();
      PrintedNameIsLost(Reference(), lic);
    }
  }

  lemma ReadsBack(reader: Reader, lic: CustomServer)
    requires Strict(reader, lic)
    ensures reader.fromSlice(ToVec(lic)) == Some(lic)
  {
  }
}
