/**
 The prefix of a host name under which its confirmed key is remembered (`get_host_prefix` in
 src/rendezvous_mediator.rs): the part before the first dot, unless this is a number.
 */
module HostPrefixes {
  import opened Text

  function Label(host: string): string {
    Split(host, ".")[0]
  }

  predicate AllDigits(s: string) {
    forall i :: 0 <= i < |s| ==> '0' <= s[i] <= '9'
  }

  function Value(digits: string): nat
    requires AllDigits(digits)
  {
    if digits == "" then 0
    else Value(digits[..|digits| - 1]) * 10 + (digits[|digits| - 1] as int - '0' as int)
  }

  function Unsigned(s: string): string {
    if s != "" && (s[0] == '-' || s[0] == '+') then s[1..] else s
  }

  /** What parses as an `i32`: an optional sign and digits, within the range. */
  predicate IsI32(s: string) {
    && Unsigned(s) != "" && AllDigits(Unsigned(s))
    && Value(Unsigned(s)) <= if s[0] == '-' then 0x8000_0000 else 0x7FFF_FFFF
  }

  function HostPrefix(host: string): string {
    if IsI32(Label(host)) then host else Label(host)
  }

  lemma LabelOfLabel(host: string)
    ensures Label(Label(host)) == Label(host)
  {
    SplitPieces(host, ".", 0);
    SplitNothing(Label(host), ".");
  }

  /** Exactly when two hosts share a prefix: when they are the same, or share a label that is no number. */
  lemma SamePrefix(g: string, h: string)
    ensures HostPrefix(g) == HostPrefix(h) <==> g == h || (Label(g) == Label(h) && !IsI32(Label(g)))
  {
    LabelOfLabel(g);
    LabelOfLabel(h);
  }

  /** A host keeps its whole name exactly if its label is a number or it has no dot. */
  lemma WholeName(host: string)
    ensures HostPrefix(host) == host <==> IsI32(Label(host)) || '.' !in host
  {
    if '.' in host {
      var i :| 0 <= i < |host| && host[i] == '.';
      assert OccursAt(host, ".", i);
      SplitPieces(host, ".", 0);
    } else {
      forall j | 0 <= j < |host| ensures !OccursAt(host, ".", j) {
        assert host[j + 0] != "."[0];
      }
      SplitNothing(host, ".");
    }
  }

  lemma LabelBeforeDot(first: string, rest: string)
    requires '.' !in first
    ensures Label(first + ("." + rest)) == first
  {
    CharAbsent(first, "." + rest, '.');
    SplitHere(first, ".", rest);
  }

  lemma LetterIsNoNumber(s: string)
    requires s != "" && s[0] !in {'+', '-'} && !('0' <= s[0] <= '9')
    ensures !IsI32(s)
  {
    assert Unsigned(s)[0] == s[0];
  }

  /** Two names that start with the same letters and a dot share their prefix. */
  lemma SharedLabel(first: string, x: string, y: string)
    requires '.' !in first && first != "" && 'a' <= first[0] <= 'z'
    ensures HostPrefix(first + ("." + x)) == HostPrefix(first + ("." + y))
  {
    LabelBeforeDot(first, x);
    LabelBeforeDot(first, y);
    LetterIsNoNumber(first);
  }

  // ----- which texts are numbers

  lemma {:induction false} DecimalValue(n: nat)
    ensures AllDigits(Decimal(n)) && Value(Decimal(n)) == n
  {
    if n >= 10 {
      var s := Decimal(n);
      DecimalValue(n / 10);
      assert s[..|s| - 1] == Decimal(n / 10);
      assert s[|s| - 1] as int == n % 10 + 48;
    } else {
      var s := Decimal(n);
      assert s[..|s| - 1] == "";
    }
  }

  lemma UnsignedDecimal(n: nat)
    ensures Unsigned(Decimal(n)) == Decimal(n) && Unsigned("-" + Decimal(n)) == Decimal(n) && Unsigned("+" + Decimal(n)) == Decimal(n)
  {
    var s := Decimal(n);
    assert s[0] != '-' && s[0] != '+';
    assert ("-" + s)[1..] == s && ("+" + s)[1..] == s;
  }

  /** The printed form of a number is one exactly within the range, with either sign. */
  lemma DecimalsInRange(n: nat)
    ensures IsI32(Decimal(n)) <==> n <= 2147483647
    ensures IsI32("+" + Decimal(n)) <==> n <= 2147483647
    ensures IsI32("-" + Decimal(n)) <==> n <= 2147483648
  {
    DecimalValue(n);
    UnsignedDecimal(n);
    assert Decimal(n)[0] != '-';
  }

  /** A text with anything but digits behind an optional sign is none. */
  lemma OnlyDigits(s: string, i: nat)
    requires i < |s| && !('0' <= s[i] <= '9') && (i > 0 || (s[0] != '-' && s[0] != '+'))
    ensures !IsI32(s)
  {
    var u := Unsigned(s);
    assert u[if |u| == |s| then i else i - 1] == s[i];
  }
}
