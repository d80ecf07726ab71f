/**
 Unpadded base64url (section 5 of RFC 4648), as the engine `URL_SAFE_NO_PAD` implements it:
 no padding is written, padding is rejected, and so are unused trailing bits that are not zero.
 */
module Base64Url {
  import opened Options

  type Byte = b: int | 0 <= b < 256
  type Sextet = d: int | 0 <= d < 64

  const DASH: Sextet := 62

  // ----- the alphabet

  function Symbol(d: Sextet): (c: char)
    ensures Digit(c) == Some(d)
    ensures c == '-' <==> d == DASH
  {
    if d < 26 then (d + 65) as char
    else if d < 52 then (d + 71) as char
    else if d < 62 then (d - 4) as char
    else if d == 62 then '-'
    else '_'
  }

  function Digit(c: char): (d: Option<Sextet>)
    ensures d.Some? ==> c == '-' || c == '_' || '0' <= c <= '9' || 'A' <= c <= 'Z' || 'a' <= c <= 'z'
  {
    if 'A' <= c <= 'Z' then Some(c as int - 65)
    else if 'a' <= c <= 'z' then Some(c as int - 71)
    else if '0' <= c <= '9' then Some(c as int + 4)
    else if c == '-' then Some(62)
    else if c == '_' then Some(63)
    else None
  }

  lemma SymbolOfDigit(c: char)
    requires Digit(c).Some?
    ensures Symbol(Digit(c).value) == c
  {
  }

  function Symbols(ds: seq<Sextet>): (s: string)
    ensures |s| == |ds|
    ensures forall i :: 0 <= i < |s| ==> s[i] == Symbol(ds[i])
  {
    seq(|ds|, i requires 0 <= i < |ds| => Symbol(ds[i]))
  }

  predicate InAlphabet(s: string) {
    forall i :: 0 <= i < |s| ==> Digit(s[i]).Some?
  }

  function Digits(s: string): (ds: seq<Sextet>)
    requires InAlphabet(s)
    ensures |ds| == |s|
    ensures forall i :: 0 <= i < |s| ==> Digit(s[i]) == Some(ds[i])
  {
    seq(|s|, i requires 0 <= i < |s| => Digit(s[i]).value)
  }

  // ----- groups of three bytes and four sextets

  // The four sextets of three bytes, each from the bytes it straddles ...
  function S0(x: Byte): Sextet { x / 4 }
  function S1(x: Byte, y: Byte): Sextet { (x % 4) as int * 16 + y / 16 }
  function S2(y: Byte, z: Byte): Sextet { (y % 16) as int * 4 + z / 64 }
  function S3(z: Byte): Sextet { z % 64 }

  // ... and back.
  function B0(p: Sextet, q: Sextet): Byte { p as int * 4 + q / 16 }
  function B1(q: Sextet, r: Sextet): Byte { (q % 16) as int * 16 + r / 4 }
  function B2(r: Sextet, t: Sextet): Byte { (r % 4) as int * 64 + t }

  lemma BytesBack(x: Byte, y: Byte, z: Byte)
    ensures B0(S0(x), S1(x, y)) == x
    ensures B1(S1(x, y), S2(y, z)) == y
    ensures B2(S2(y, z), S3(z)) == z
  {
  }

  // With no next byte, the bits of the last sextet that no byte fills are zero.
  lemma PaddingBits(x: Byte)
    ensures S1(x, 0) == (x % 4) as int * 16 && S1(x, 0) % 16 == 0
    ensures S2(x, 0) == (x % 16) as int * 4 && S2(x, 0) % 4 == 0
    ensures B0(S0(x), S1(x, 0)) == x
  {
  }

  lemma SextetsBack(p: Sextet, q: Sextet, r: Sextet, t: Sextet)
    ensures S0(B0(p, q)) == p
    ensures S1(B0(p, q), B1(q, r)) == q
    ensures S2(B1(q, r), B2(r, t)) == r
    ensures S3(B2(r, t)) == t
  {
  }

  function Group(b: seq<Byte>): (ds: seq<Sextet>)
    requires 1 <= |b| <= 3
    ensures |ds| == |b| + 1
  {
    if |b| == 1 then [S0(b[0]), S1(b[0], 0)]
    else if |b| == 2 then [S0(b[0]), S1(b[0], b[1]), S2(b[1], 0)]
    else [S0(b[0]), S1(b[0], b[1]), S2(b[1], b[2]), S3(b[2])]
  }

  function Ungroup(ds: seq<Sextet>): (b: Option<seq<Byte>>)
    requires 1 <= |ds| <= 4
    ensures b.Some? ==> |b.value| == |ds| - 1 >= 1
  {
    if |ds| == 1 then None
    else if |ds| == 2 then
      if ds[1] % 16 == 0 then Some([B0(ds[0], ds[1])]) else None
    else if |ds| == 3 then
      if ds[2] % 4 == 0 then Some([B0(ds[0], ds[1]), B1(ds[1], ds[2])]) else None
    else
      Some([B0(ds[0], ds[1]), B1(ds[1], ds[2]), B2(ds[2], ds[3])])
  }

  function Sextets(b: seq<Byte>): (ds: seq<Sextet>) {
    if b == [] then []
    else if |b| <= 3 then Group(b)
    else Group(b[..3]) + Sextets(b[3..])
  }

  function Bytes(ds: seq<Sextet>): (b: Option<seq<Byte>>) {
    if ds == [] then Some([])
    else if |ds| <= 4 then Ungroup(ds)
    else
      var rest := Bytes(ds[4..]);
      if rest.None? then None else Some(Ungroup(ds[..4]).value + rest.value)
  }

  // ----- the codec

  function Encode(b: seq<Byte>): string {
    Symbols(Sextets(b))
  }

  function Decode(s: string): Option<seq<Byte>> {
    if InAlphabet(s) then Bytes(Digits(s)) else None
  }

  lemma UngroupOne(x: Byte)
    ensures Ungroup(Group([x])) == Some([x])
  {
    var p, q := S0(x), S1(x, 0);
    PaddingBits(x);
    assert Group([x]) == [p, q];
  }

  lemma UngroupPair(x: Byte, y: Byte)
    ensures Ungroup(Group([x, y])) == Some([x, y])
  {
    var p, q, r := S0(x), S1(x, y), S2(y, 0);
    assert B0(p, q) == x && B1(q, r) == y && r % 4 == 0 by {
      BytesBack(x, y, 0);
      PaddingBits(y);
    }
    assert Group([x, y]) == [p, q, r];
  }

  lemma UngroupTriple(x: Byte, y: Byte, z: Byte)
    ensures Ungroup(Group([x, y, z])) == Some([x, y, z])
  {
    BytesBack(x, y, z);
  }

  lemma UngroupGroup(b: seq<Byte>)
    requires 1 <= |b| <= 3
    ensures Ungroup(Group(b)) == Some(b)
  {
    if |b| == 1 {
      assert b == [b[0]];
      UngroupOne(b[0]);
    } else if |b| == 2 {
      assert b == [b[0], b[1]];
      UngroupPair(b[0], b[1]);
    } else {
      assert b == [b[0], b[1], b[2]];
      UngroupTriple(b[0], b[1], b[2]);
    }
  }

  lemma GroupTwo(p: Sextet, q: Sextet)
    requires q % 16 == 0
    ensures Group([B0(p, q)]) == [p, q]
  {
    SextetsBack(p, q, 0, 0);
    PaddingBits(B0(p, q));
  }

  lemma GroupThree(p: Sextet, q: Sextet, r: Sextet)
    requires r % 4 == 0
    ensures Group([B0(p, q), B1(q, r)]) == [p, q, r]
  {
    SextetsBack(p, q, r, 0);
    PaddingBits(B1(q, r));
  }

  lemma GroupFour(p: Sextet, q: Sextet, r: Sextet, t: Sextet)
    ensures Group([B0(p, q), B1(q, r), B2(r, t)]) == [p, q, r, t]
  {
    SextetsBack(p, q, r, t);
  }

  lemma GroupUngroup(ds: seq<Sextet>)
    requires 1 <= |ds| <= 4 && Ungroup(ds).Some?
    ensures Group(Ungroup(ds).value) == ds
  {
    if |ds| == 2 {
      GroupTwo(ds[0], ds[1]);
      assert ds == [ds[0], ds[1]];
    } else if |ds| == 3 {
      GroupThree(ds[0], ds[1], ds[2]);
      assert ds == [ds[0], ds[1], ds[2]];
    } else {
      GroupFour(ds[0], ds[1], ds[2], ds[3]);
      assert ds == [ds[0], ds[1], ds[2], ds[3]];
    }
  }

  lemma {:induction false} BytesOfSextets(b: seq<Byte>)
    ensures Bytes(Sextets(b)) == Some(b)
  {
    if b == [] {
    } else if |b| <= 3 {
      UngroupGroup(b);
    } else {
      var ds := Sextets(b);
      assert ds[..4] == Group(b[..3]) && ds[4..] == Sextets(b[3..]);
      UngroupGroup(b[..3]);
      BytesOfSextets(b[3..]);
      assert Sextets(b[3..]) != [];
      assert b == b[..3] + b[3..];
    }
  }

  lemma {:induction false} SextetsOfBytes(ds: seq<Sextet>)
    requires Bytes(ds).Some?
    ensures Sextets(Bytes(ds).value) == ds
  {
    if ds == [] {
    } else if |ds| <= 4 {
      GroupUngroup(ds);
    } else {
      var b := Bytes(ds).value;
      var head, rest := Ungroup(ds[..4]).value, Bytes(ds[4..]).value;
      GroupUngroup(ds[..4]);
      SextetsOfBytes(ds[4..]);
      assert b == head + rest;
      assert b[..3] == head && b[3..] == rest;
      assert rest != [];
      assert ds == ds[..4] + ds[4..];
    }
  }

  /** Decoding undoes encoding, for every byte string. */
  lemma DecodeEncode(b: seq<Byte>)
    ensures InAlphabet(Encode(b))
    ensures Decode(Encode(b)) == Some(b)
  {
    var ds := Sextets(b);
    assert Digits(Symbols(ds)) == ds;
    BytesOfSextets(b);
  }

  /** Every accepted text is the encoding of what it decodes to: the decoder accepts nothing else. */
  lemma EncodeDecode(s: string)
    requires Decode(s).Some?
    ensures Encode(Decode(s).value) == s
  {
    var ds := Digits(s);
    SextetsOfBytes(ds);
    forall i | 0 <= i < |s| ensures Symbols(ds)[i] == s[i] {
      SymbolOfDigit(s[i]);
    }
    assert Symbols(ds) == s;
  }

  // ----- where '-' can occur

  predicate Ascii(b: seq<Byte>) {
    forall i :: 0 <= i < |b| ==> b[i] < 128
  }

  lemma GroupDash(b: seq<Byte>, i: nat)
    requires 1 <= |b| <= 3 && Ascii(b) && i < |Group(b)| && Group(b)[i] == DASH
    ensures i == 3
  {
  }

  /** `i` is the last position of a group of four. */
  ghost predicate Fourth(i: nat) {
    i == 3 || (i > 3 && Fourth(i - 4))
  }

  lemma {:induction false} FourthIsModular(i: nat)
    ensures Fourth(i) <==> i % 4 == 3
  {
    if i > 3 {
      FourthIsModular(i - 4);
    }
  }

  /** Over 7-bit bytes only the fourth symbol of a group can be '-'. */
  lemma {:induction false} AsciiDash(b: seq<Byte>, i: nat)
    requires Ascii(b) && i < |Sextets(b)| && Sextets(b)[i] == DASH
    ensures Fourth(i)
  {
    if |b| <= 3 {
      GroupDash(b, i);
    } else if i < 4 {
      GroupDash(b[..3], i);
    } else {
      assert Sextets(b)[i] == Sextets(b[3..])[i - 4];
      AsciiDash(b[3..], i - 4);
    }
  }

  /** The size of the last group. */
  function Tail(n: nat): (k: nat)
    requires n > 0
    ensures 1 <= k <= 3
  {
    if n <= 3 then n else Tail(n - 3)
  }

  function LastDigit(size: nat, x: Byte): Sextet {
    if size == 1 then S1(x, 0) else if size == 2 then S2(x, 0) else S3(x)
  }

  /** The last sextet is a function of the last byte and of the size of the last group. */
  lemma {:induction false} LastSextet(b: seq<Byte>)
    requires b != []
    ensures Sextets(b) != []
    ensures Sextets(b)[|Sextets(b)| - 1] == LastDigit(Tail(|b|), b[|b| - 1])
  {
    if |b| > 3 {
      LastSextet(b[3..]);
    }
  }

  lemma FirstSextets(b: seq<Byte>)
    requires |b| >= 2
    ensures |Sextets(b)| >= 2
    ensures Sextets(b)[0] == S0(b[0]) && Sextets(b)[1] == S1(b[0], b[1])
  {
    if |b| > 3 {
      assert Group(b[..3])[1] == S1(b[0], b[1]);
    }
  }

  // ----- joining

  lemma FirstGroup(b: seq<Byte>, c: seq<Byte>)
    requires |b| == 3
    ensures Sextets(b + c) == Group(b) + Sextets(c)
  {
    if c == [] {
      assert b + c == b;
    } else {
      assert (b + c)[..3] == b && (b + c)[3..] == c;
    }
  }

  lemma Associates<T>(x: seq<T>, y: seq<T>, z: seq<T>)
    ensures (x + y) + z == x + (y + z)
  {
  }

  lemma JoinStep(h: seq<Byte>, t: seq<Byte>, c: seq<Byte>)
    requires |h| == 3 && Sextets(t + c) == Sextets(t) + Sextets(c)
    ensures Sextets((h + t) + c) == Sextets(h + t) + Sextets(c)
  {
    FirstGroup(h, t);
    FirstGroup(h, t + c);
    Associates(h, t, c);
    Associates(Group(h), Sextets(t), Sextets(c));
  }

  lemma {:induction false} SextetsJoin(b: seq<Byte>, c: seq<Byte>)
    requires |b| % 3 == 0
    ensures Sextets(b + c) == Sextets(b) + Sextets(c)
  {
    if b == [] {
      assert b + c == c;
    } else {
      SextetsJoin(b[3..], c);
      JoinStep(b[..3], b[3..], c);
      assert b == b[..3] + b[3..];
    }
  }

  /** The encoding of whole groups stands before the encoding of the rest. */
  lemma EncodeJoin(b: seq<Byte>, c: seq<Byte>)
    requires |b| % 3 == 0
    ensures Encode(b + c) == Encode(b) + Encode(c)
  {
    SextetsJoin(b, c);
    SymbolsJoin(Sextets(b), Sextets(c));
  }

  lemma SymbolsJoin(ds: seq<Sextet>, es: seq<Sextet>)
    ensures Symbols(ds + es) == Symbols(ds) + Symbols(es)
  {
  }

  /** What cannot end a text cannot end a longer one. */
  lemma {:induction false} BytesFail(ds: seq<Sextet>, es: seq<Sextet>)
    requires |ds| % 4 == 0 && es != [] && Bytes(es).None?
    ensures Bytes(ds + es).None?
  {
    if ds == [] {
      assert ds + es == es;
    } else {
      assert (ds + es)[4..] == ds[4..] + es;
      BytesFail(ds[4..], es);
    }
  }

  // ----- the alphabet, by its letters

  /** Capital letters, small letters, digits, dash and underscore. */
  lemma Alphabet(k: nat)
    ensures k < 26 ==> Symbol(k) as int == 'A' as int + k && Symbol(26 + k) as int == 'a' as int + k
    ensures k < 10 ==> Symbol(52 + k) as int == '0' as int + k
    ensures Symbol(62) == '-' && Symbol(63) == '_'
  {
  }
}
