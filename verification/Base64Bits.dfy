/**
 What the encoder writes, said without groups: read as one number in base 64, the sextets are the
 bytes read as one number in base 256, with the zero bits that fill the last sextet behind it
 (section 4 of RFC 4648). The length and the number together determine the sextets.
 */
module Base64Bits {
  import opened Base64Url

  /** The number that the bytes spell behind the digits already read. */
  function ByteValue(acc: nat, b: seq<Byte>): nat
    decreases |b|
  {
    if b == [] then acc else ByteValue(acc * 256 + b[0], b[1..])
  }

  function SextetValue(acc: nat, ds: seq<Sextet>): nat
    decreases |ds|
  {
    if ds == [] then acc else SextetValue(acc * 64 + ds[0], ds[1..])
  }

  /** The factor that the filling zero bits contribute. */
  function Fill(n: nat): nat {
    if n % 3 == 0 then 1 else if n % 3 == 1 then 16 else 4
  }

  function SextetCount(n: nat): nat {
    (4 * n + 2) / 3
  }

  lemma SextetStep(acc: nat, d: Sextet, rest: seq<Sextet>)
    ensures SextetValue(acc, [d] + rest) == SextetValue(acc * 64 + d, rest)
  {
    assert ([d] + rest)[1..] == rest;
  }

  lemma ByteStep(acc: nat, x: Byte, rest: seq<Byte>)
    ensures ByteValue(acc, [x] + rest) == ByteValue(acc * 256 + x, rest)
  {
    assert ([x] + rest)[1..] == rest;
  }

  lemma {:induction false} SextetJoin(acc: nat, s: seq<Sextet>, t: seq<Sextet>)
    ensures SextetValue(acc, s + t) == SextetValue(SextetValue(acc, s), t)
    decreases |s|
  {
    if s == [] {
      assert s + t == t;
    } else {
      assert (s + t)[1..] == s[1..] + t;
      SextetJoin(acc * 64 + s[0], s[1..], t);
    }
  }

  lemma {:induction false} ByteJoin(acc: nat, s: seq<Byte>, t: seq<Byte>)
    ensures ByteValue(acc, s + t) == ByteValue(ByteValue(acc, s), t)
    decreases |s|
  {
    if s == [] {
      assert s + t == t;
    } else {
      assert (s + t)[1..] == s[1..] + t;
      ByteJoin(acc * 256 + s[0], s[1..], t);
    }
  }

  /** How often each bit of a byte is counted. */
  lemma Parts(x: Byte, y: Byte, z: Byte)
    ensures 4 * S0(x) + x % 4 == x
    ensures S1(x, y) == 16 * (x % 4) + y / 16 && S1(x, 0) == 16 * (x % 4)
    ensures S2(y, z) == 4 * (y % 16) + z / 64 && S2(y, 0) == 4 * (y % 16)
    ensures 16 * (y / 16) + y % 16 == y && 64 * (z / 64) + S3(z) == z
  {
  }

  lemma GroupValue(acc: nat, x: Byte, y: Byte, z: Byte)
    ensures (((acc * 64 + S0(x)) * 64 + S1(x, y)) * 64 + S2(y, z)) * 64 + S3(z) == ((acc * 256 + x) * 256 + y) * 256 + z
    ensures ((acc * 64 + S0(x)) * 64 + S1(x, y)) * 64 + S2(y, 0) == ((acc * 256 + x) * 256 + y) * 4
    ensures (acc * 64 + S0(x)) * 64 + S1(x, 0) == (acc * 256 + x) * 16
  {
    Parts(x, y, z);
  }

  lemma ValueOfPair(acc: nat, p: Sextet, q: Sextet)
    ensures SextetValue(acc, [p, q]) == (acc * 64 + p) * 64 + q
  {
    SextetStep(acc, p, [q]);
    SextetStep(acc * 64 + p, q, []);
    assert [p] + [q] == [p, q] && [q] + [] == [q];
  }

  lemma ValueOfTriple(acc: nat, p: Sextet, q: Sextet, r: Sextet)
    ensures SextetValue(acc, [p, q, r]) == ((acc * 64 + p) * 64 + q) * 64 + r
  {
    SextetStep(acc, p, [q, r]);
    ValueOfPair(acc * 64 + p, q, r);
    assert [p] + [q, r] == [p, q, r];
  }

  lemma ValueOfFour(acc: nat, p: Sextet, q: Sextet, r: Sextet, t: Sextet)
    ensures SextetValue(acc, [p, q, r, t]) == (((acc * 64 + p) * 64 + q) * 64 + r) * 64 + t
  {
    SextetStep(acc, p, [q, r, t]);
    ValueOfTriple(acc * 64 + p, q, r, t);
    assert [p] + [q, r, t] == [p, q, r, t];
  }

  lemma ValueOfBytes(acc: nat, x: Byte, y: Byte)
    ensures ByteValue(acc, [x]) == acc * 256 + x
    ensures ByteValue(acc, [x, y]) == (acc * 256 + x) * 256 + y
  {
    ByteStep(acc, x, []);
    ByteStep(acc, x, [y]);
    ByteStep(acc * 256 + x, y, []);
    assert [x] + [y] == [x, y] && [y] + [] == [y] && [x] + [] == [x];
  }

  lemma ValueOfThreeBytes(acc: nat, x: Byte, y: Byte, z: Byte)
    ensures ByteValue(acc, [x, y, z]) == ((acc * 256 + x) * 256 + y) * 256 + z
  {
    ByteStep(acc, x, [y, z]);
    ValueOfBytes(acc * 256 + x, y, z);
    assert [x] + [y, z] == [x, y, z];
  }

  lemma GroupOfOne(acc: nat, x: Byte)
    ensures SextetValue(acc, Group([x])) == ByteValue(acc, [x]) * 16
  {
    GroupValue(acc, x, 0, 0);
    ValueOfPair(acc, S0(x), S1(x, 0));
    ValueOfBytes(acc, x, 0);
  }

  lemma GroupOfTwo(acc: nat, x: Byte, y: Byte)
    ensures SextetValue(acc, Group([x, y])) == ByteValue(acc, [x, y]) * 4
  {
    GroupValue(acc, x, y, 0);
    ValueOfTriple(acc, S0(x), S1(x, y), S2(y, 0));
    ValueOfBytes(acc, x, y);
  }

  lemma GroupOfThree(acc: nat, x: Byte, y: Byte, z: Byte)
    ensures SextetValue(acc, Group([x, y, z])) == ByteValue(acc, [x, y, z])
  {
    GroupValue(acc, x, y, z);
    ValueOfFour(acc, S0(x), S1(x, y), S2(y, z), S3(z));
    ValueOfThreeBytes(acc, x, y, z);
  }

  lemma GroupSpells(acc: nat, b: seq<Byte>)
    requires 1 <= |b| <= 3
    ensures SextetValue(acc, Group(b)) == ByteValue(acc, b) * Fill(|b|)
  {
    if |b| == 1 {
      assert b == [b[0]];
      GroupOfOne(acc, b[0]);
    } else if |b| == 2 {
      assert b == [b[0], b[1]];
      GroupOfTwo(acc, b[0], b[1]);
    } else {
      FullGroupSpells(acc, b);
    }
  }

  lemma FullGroupSpells(acc: nat, head: seq<Byte>)
    requires |head| == 3
    ensures SextetValue(acc, Group(head)) == ByteValue(acc, head)
  {
    assert head == [head[0], head[1], head[2]];
    GroupOfThree(acc, head[0], head[1], head[2]);
  }

  /** A full group moves both readings on to the same number. */
  lemma ReadGroup(acc: nat, head: seq<Byte>, rest: seq<Byte>)
    requires |head| == 3 && rest != []
    ensures SextetValue(acc, Sextets(head + rest)) == SextetValue(ByteValue(acc, head), Sextets(rest))
    ensures ByteValue(acc, head + rest) == ByteValue(ByteValue(acc, head), rest)
  {
    assert (head + rest)[..3] == head && (head + rest)[3..] == rest;
    FullGroupSpells(acc, head);
    SextetJoin(acc, Group(head), Sextets(rest));
    ByteJoin(acc, head, rest);
  }

  lemma FillAfter(n: nat)
    ensures Fill(n + 3) == Fill(n)
  {
  }

  /** The sextets spell the number that the bytes spell, times a power of two below 64. */
  lemma {:induction false} SextetsSpellBytes(acc: nat, b: seq<Byte>)
    ensures SextetValue(acc, Sextets(b)) == ByteValue(acc, b) * Fill(|b|)
    decreases |b|
  {
    if 1 <= |b| <= 3 {
      GroupSpells(acc, b);
    } else if b != [] {
      var head, rest := b[..3], b[3..];
      assert b == head + rest;
      ReadGroup(acc, head, rest);
      FillAfter(|rest|);
      SextetsSpellBytes(ByteValue(acc, head), rest);
    }
  }

  lemma {:induction false} SextetsLength(b: seq<Byte>)
    ensures |Sextets(b)| == SextetCount(|b|)
  {
    if |b| > 3 {
      SextetsLength(b[3..]);
    }
  }

  // ----- length and number determine the sextets

  lemma SnocValue(acc: nat, ds: seq<Sextet>, d: Sextet)
    ensures SextetValue(acc, ds + [d]) == SextetValue(acc, ds) * 64 + d
    decreases |ds|
  {
    if ds != [] {
      assert (ds + [d])[1..] == ds[1..] + [d];
      SnocValue(acc * 64 + ds[0], ds[1..], d);
    } else {
      assert ds + [d] == [d];
    }
  }

  lemma {:induction false} ValueDetermines(s: seq<Sextet>, t: seq<Sextet>)
    requires |s| == |t| && SextetValue(0, s) == SextetValue(0, t)
    ensures s == t
    decreases |s|
  {
    if s != [] {
      var n := |s| - 1;
      assert s == s[..n] + [s[n]] && t == t[..n] + [t[n]];
      SnocValue(0, s[..n], s[n]);
      SnocValue(0, t[..n], t[n]);
      ValueDetermines(s[..n], t[..n]);
    }
  }

  /** The encoder's sextets are the only ones of their length that spell the number of the bytes. */
  lemma EncodeIsStandard(b: seq<Byte>, ds: seq<Sextet>)
    ensures Encode(b) == Symbols(ds)
      <==> |ds| == SextetCount(|b|) && SextetValue(0, ds) == ByteValue(0, b) * Fill(|b|)
  {
    SextetsLength(b);
    SextetsSpellBytes(0, b);
    if Encode(b) == Symbols(ds) {
      assert Digits(Encode(b)) == Sextets(b) && Digits(Symbols(ds)) == ds;
    } else if |ds| == SextetCount(|b|) && SextetValue(0, ds) == ByteValue(0, b) * Fill(|b|) {
      ValueDetermines(ds, Sextets(b));
      assert false;
    }
  }
}
