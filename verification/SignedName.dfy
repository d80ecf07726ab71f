/**
 Signed licences: the bytes behind the name are a signature followed by the JSON text. They are no
 JSON text themselves; the parser reads what the signature check returns.
 */
module SignedName {
  import opened Options
  import opened Text
  import opened Base64Url
  import opened Base64Bits
  import opened CustomServers
  import opened Extensions
  import opened LicenceName
  import opened LicenceRoundTrip
  import opened LicenceExact

  const SIGNATURE_BYTES := 64

  /** The text that a file name carries for these bytes. */
  function Carried(data: seq<Byte>): string {
    Reverse(Encode(data))
  }

  /** The bytes are a signed licence: 64 bytes and a text behind them that the check finds to be signed by them. */
  ghost predicate IsSigned(reader: Reader, data: seq<Byte>, json: seq<Byte>) {
    && |data| == SIGNATURE_BYTES + |json| && data[SIGNATURE_BYTES..] == json
    && reader.verify(data) == Some(json)
  }

  lemma LastDigits(size: nat)
    requires 1 <= size <= 3
    ensures LastDigit(size, 0x7D) in {16, 52, 61}
  {
  }

  lemma EncodedLast(data: seq<Byte>, x: Sextet)
    requires Sextets(data) != [] && Sextets(data)[|Sextets(data)| - 1] == x
    ensures |Encode(data)| == |Sextets(data)| && Encode(data)[|Encode(data)| - 1] == Symbol(x)
  {
  }

  lemma LastSymbol(data: seq<Byte>)
    requires |data| >= 3 && data[|data| - 1] == 0x7D
    ensures var enc := Encode(data);
            |enc| >= 4 && enc[|enc| - 1] in {'Q', '0', '9'}
  {
    var x := LastDigit(Tail(|data|), 0x7D);
    LastSextet(data);
    LastDigits(Tail(|data|));
    EncodedLast(data, x);
    SextetsLength(data);
    LastSymbols(x);
  }

  lemma LastSymbols(x: Sextet)
    requires x in {16, 52, 61}
    ensures Symbol(x) in {'Q', '0', '9'}
  {
  }

  lemma CarriedDecodes(data: seq<Byte>)
    ensures Decode(Reverse(Carried(data))) == Some(data) && InAlphabet(Encode(data))
  {
    DecodeEncode(data);
    ReverseReverse(Encode(data));
  }

  /** The encoding, seen as a mere text. */
  lemma EncodedText(data: seq<Byte>) returns (enc: string)
    requires |data| >= 3 && data[|data| - 1] == 0x7D
    ensures Encode(data) == enc && InAlphabet(enc) && |enc| >= 4 && enc[|enc| - 1] in {'Q', '0', '9'}
  {
    enc := Encode(data);
    DecodeEncode(data);
    LastSymbol(data);
  }

  lemma CarriedShape(data: seq<Byte>)
    requires |data| >= 3 && data[|data| - 1] == 0x7D
    ensures NameText(Carried(data)) && Ends(Carried(data))
  {
    var enc := EncodedText(data);
    ReversedText(enc);
  }

  lemma ReversedText(enc: string)
    requires InAlphabet(enc) && |enc| >= 4 && enc[|enc| - 1] in {'Q', '0', '9'}
    ensures NameText(Reverse(enc)) && Ends(Reverse(enc))
  {
    var n := Reverse(enc);
    forall i | 0 <= i < |n| ensures PlainChar(n[i]) {
      assert n[i] == enc[|n| - 1 - i];
    }
    assert n[0] == enc[|enc| - 1];
  }

  /**
   With every reader: a text whose bytes are not read as JSON, but whose signed content is, comes back
   if it contains no delimiter, and otherwise only from a proper part.
   */
  lemma SignedTextReads(reader: Reader, lic: CustomServer, data: seq<Byte>, json: seq<Byte>,
                        app: string, d: string, cs: seq<Copy>, ext: string)
    requires reader.fromSlice(data).None? && reader.verify(data) == Some(json) && reader.fromSlice(json) == Some(lic)
    requires NameText(Carried(data)) && Ends(Carried(data))
    requires Harmless(reader, app) && IsDelimiter(d) && IsExe(ext)
    ensures ExactlyIfClean(reader, ParseName(reader, Stem(app, d, Carried(data), Copies(cs), "") + ext), Carried(data), lic)
  {
    CarriedDecodes(data);
    TextRoundTrip(reader, lic, Carried(data), app, d, cs, ext);
  }

  /**
   With every reader, for every record, delimiter, copy numbers and extension: a signed licence whose
   bytes are not read as JSON themselves comes back if its text contains no delimiter, and otherwise
   only from a proper part of the text.
   */
  lemma SignedRoundTrip(reader: Reader, lic: CustomServer, data: seq<Byte>, app: string, d: string, cs: seq<Copy>, ext: string)
    requires IsSigned(reader, data, ToVec(lic)) && reader.fromSlice(ToVec(lic)) == Some(lic) && reader.fromSlice(data).None?
    requires Harmless(reader, app) && IsDelimiter(d) && IsExe(ext)
    ensures ExactlyIfClean(reader, ParseName(reader, Stem(app, d, Carried(data), Copies(cs), "") + ext), Carried(data), lic)
  {
    ToVecBraces(lic);
    CarriedShape(data);
    SignedTextReads(reader, lic, data, ToVec(lic), app, d, cs, ext);
  }

  /** Neither the bytes nor what the signature check returns for them are read as a record. */
  ghost predicate Refused(reader: Reader, data: seq<Byte>) {
    && reader.fromSlice(data).None?
    && (reader.verify(data).Some? ==> reader.fromSlice(reader.verify(data).value).None?)
  }

  /** The text fails to decode, or its bytes are refused. */
  ghost predicate RefusedText(reader: Reader, p: string) {
    var data := Decode(Reverse(p));
    data.Some? ==> Refused(reader, data.value)
  }

  lemma NoConfig(reader: Reader, p: string)
    requires RefusedText(reader, p)
    ensures ParseConfig(reader, p).None?
  {
  }

  lemma NonePiece(reader: Reader, ps: seq<string>)
    requires forall k :: 0 <= k < |ps| ==> RefusedText(reader, ps[k])
    ensures FirstSome(Untrimmed(reader), ps).None?
  {
    forall k | 0 <= k < |ps| ensures Untrimmed(reader)(ps[k]).None? {
      NoConfig(reader, ps[k]);
      UntrimmedIs(reader, ps[k]);
    }
    FirstSomeNone(Untrimmed(reader), ps);
  }

  /** Every piece of the text is refused. */
  ghost predicate RefusedPieces(reader: Reader, n: string) {
    forall k :: 0 <= k < |Split(Delimit(n), "--")| ==> RefusedText(reader, Split(Delimit(n), "--")[k])
  }

  lemma RefusedIsUnread(reader: Reader, n: string)
    requires RefusedPieces(reader, n)
    ensures FirstRead(reader, n).None?
  {
    NonePiece(reader, Split(Delimit(n), "--"));
  }

  /** With every reader: if every piece of the text fails to decode or is refused, nothing is read. */
  lemma AllRefused(reader: Reader, n: string, app: string, d: string, cs: seq<Copy>, ext: string)
    requires NameText(n) && Ends(n) && Harmless(reader, app) && IsDelimiter(d) && IsExe(ext)
    requires RefusedPieces(reader, n)
    ensures ParseName(reader, Stem(app, d, n, Copies(cs), "") + ext).None?
  {
    RefusedIsUnread(reader, n);
    NameReads(reader, app, d, n, cs, ext);
  }

  /** A signed licence whose signature does not hold gives nothing, if its text contains no delimiter. */
  lemma ForgedIsRefused(reader: Reader, data: seq<Byte>, app: string, d: string, cs: seq<Copy>, ext: string)
    requires |data| >= 3 && data[|data| - 1] == 0x7D && Clean(Carried(data))
    requires reader.fromSlice(data).None? && reader.verify(data).None?
    requires Harmless(reader, app) && IsDelimiter(d) && IsExe(ext)
    ensures ParseName(reader, Stem(app, d, Carried(data), Copies(cs), "") + ext).None?
  {
    CarriedShape(data);
    CarriedDecodes(data);
    CleanReads(reader, Carried(data));
    NameReads(reader, app, d, Carried(data), cs, ext);
  }
}
