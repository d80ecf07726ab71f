/** The JSON text of a record, written out. */
module JsonText {
  import opened Base64Url
  import opened CustomServers

  /** The codes of a text of 7-bit characters. */
  function Codes(s: string): (b: seq<Byte>)
    requires forall i :: 0 <= i < |s| ==> s[i] as int < 128
    ensures |b| == |s| && forall i :: 0 <= i < |s| ==> b[i] == s[i] as int
  {
    seq(|s|, i requires 0 <= i < |s| => s[i] as int)
  }

  /** For every record: the members in the order of their declaration, each value between quotes. */
  lemma TextOfRecord(lic: CustomServer)
    ensures ToVec(lic) ==
            Codes("{\"key\":\"") + EscapeAll(lic.key)
            + Codes("\",\"host\":\"") + EscapeAll(lic.host)
            + Codes("\",\"api\":\"") + EscapeAll(lic.api)
            + Codes("\",\"relay\":\"") + EscapeAll(lic.relay)
            + Codes("\"}")
  {
    assert Codes("{\"key\":\"") == [0x7B, 0x22] + KEY + [0x22, 0x3A, 0x22];
    assert Codes("\",\"host\":\"") == [0x22] + ([0x2C, 0x22] + HOST + [0x22, 0x3A, 0x22]);
    assert Codes("\",\"api\":\"") == [0x22] + ([0x2C, 0x22] + API + [0x22, 0x3A, 0x22]);
    assert Codes("\",\"relay\":\"") == [0x22] + ([0x2C, 0x22] + RELAY + [0x22, 0x3A, 0x22]);
    assert Codes("\"}") == [0x22] + [0x7D];
    Regroup([0x7B, 0x22] + KEY + [0x22, 0x3A, 0x22], EscapeAll(lic.key), [0x2C, 0x22] + HOST + [0x22, 0x3A, 0x22],
            EscapeAll(lic.host), [0x2C, 0x22] + API + [0x22, 0x3A, 0x22], EscapeAll(lic.api),
            [0x2C, 0x22] + RELAY + [0x22, 0x3A, 0x22], EscapeAll(lic.relay));
  }

  lemma Regroup(k: seq<Byte>, v: seq<Byte>, h: seq<Byte>, w: seq<Byte>, a: seq<Byte>, x: seq<Byte>, r: seq<Byte>, y: seq<Byte>)
    ensures (k + v + [0x22]) + (h + w + [0x22]) + (a + x + [0x22]) + (r + y + [0x22]) + [0x7D]
            == k + v + ([0x22] + h) + w + ([0x22] + a) + x + ([0x22] + r) + y + ([0x22] + [0x7D])
  {
  }

  /** A value is printed character by character. */
  lemma {:induction false} ValueJoins(s: string, t: string)
    ensures EscapeAll(s + t) == EscapeAll(s) + EscapeAll(t)
    ensures |s| == 1 ==> EscapeAll(s) == Escape(s[0])
  {
    if s == "" {
      assert s + t == t;
    } else {
      assert (s + t)[1..] == s[1..] + t;
      ValueJoins(s[1..], t);
    }
  }

  /** The characters that JSON escapes. */
  lemma Escapes()
    ensures Escape('"') == Codes("\\\"") && Escape('\\') == Codes("\\\\")
    ensures Escape('\n') == Codes("\\n") && Escape('\r') == Codes("\\r") && Escape('\t') == Codes("\\t")
    ensures Escape('\U{8}') == Codes("\\b") && Escape('\U{C}') == Codes("\\f")
    ensures Escape('\U{1}') == Codes("\\u0001") && Escape('\U{1F}') == Codes("\\u001f")
  {
  }

  /** All others are printed as they are, in UTF-8. */
  lemma Unescaped(c: char)
    requires c as int >= 0x20 && c != '"' && c != '\\'
    ensures c as int < 128 ==> Escape(c) == [c as int]
  {
  }

  lemma Utf8Examples()
    ensures Escape('\U{E9}') == [0xC3, 0xA9] && Escape('\U{20AC}') == [0xE2, 0x82, 0xAC]
    ensures Escape('\U{1F600}') == [0xF0, 0x9F, 0x98, 0x80]
  {
  }
}
