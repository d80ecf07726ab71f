/**
 The server record that an installer's file name carries, its printer (src/naming.rs) and its
 parser (src/custom_server.rs).

 A record is printed as JSON, encoded in base64url and reversed. The two library calls that are
 not modelled, the JSON reader and the signature check, are the fields of a `Reader`.
 */
module CustomServers {
  import opened Options
  import opened Text
  import opened Base64Url

  datatype CustomServer = CustomServer(key: string, host: string, api: string, relay: string)

  datatype Reader = Reader(fromSlice: seq<Byte> -> Option<CustomServer>, verify: seq<Byte> -> Option<seq<Byte>>)

  // ----- the JSON text of a record

  function Utf8(c: char): (b: seq<Byte>)
    ensures b != []
    ensures c as int < 128 ==> b == [c as int]
  {
    var n := c as int;
    if n < 0x80 then [n]
    else if n < 0x800 then [0xC0 + n / 64, 0x80 + n % 64]
    else if n < 0x10000 then [0xE0 + n / 4096, 0x80 + n / 64 % 64, 0x80 + n % 64]
    else [0xF0 + n / 262144, 0x80 + n / 4096 % 64, 0x80 + n / 64 % 64, 0x80 + n % 64]
  }

  function HexDigit(d: int): Byte
    requires 0 <= d < 16
  {
    if d < 10 then 0x30 + d else 0x57 + d
  }

  function Escape(c: char): seq<Byte> {
    var n := c as int;
    if n == 0x22 || n == 0x5C then [0x5C, n]
    else if n == 0x08 then [0x5C, 0x62]
    else if n == 0x09 then [0x5C, 0x74]
    else if n == 0x0A then [0x5C, 0x6E]
    else if n == 0x0C then [0x5C, 0x66]
    else if n == 0x0D then [0x5C, 0x72]
    else if n < 0x20 then [0x5C, 0x75, 0x30, 0x30, HexDigit(n / 16), HexDigit(n % 16)]
    else Utf8(c)
  }

  function EscapeAll(s: string): seq<Byte> {
    if s == "" then [] else Escape(s[0]) + EscapeAll(s[1..])
  }

  // The names of the fields, in the order in which they are declared.
  const KEY: seq<Byte> := [0x6B, 0x65, 0x79]
  const HOST: seq<Byte> := [0x68, 0x6F, 0x73, 0x74]
  const API: seq<Byte> := [0x61, 0x70, 0x69]
  const RELAY: seq<Byte> := [0x72, 0x65, 0x6C, 0x61, 0x79]

  /** `"name":"value"`, preceded by an opening brace or a comma. */
  function Member(before: Byte, name: seq<Byte>, value: string): seq<Byte> {
    [before, 0x22] + name + [0x22, 0x3A, 0x22] + EscapeAll(value) + [0x22]
  }

  function ToVec(lic: CustomServer): seq<Byte> {
    Member(0x7B, KEY, lic.key) + Member(0x2C, HOST, lic.host) + Member(0x2C, API, lic.api)
    + Member(0x2C, RELAY, lic.relay) + [0x7D]
  }

  /** `gen_name` in src/naming.rs. */
  function GenName(lic: CustomServer): string {
    Reverse(Encode(ToVec(lic)))
  }

  // ----- the parser, on values

  function ParseConfig(reader: Reader, s: string): Option<CustomServer> {
    var data := Decode(Reverse(s));
    if data.None? then None
    else
      var plain := reader.fromSlice(data.value);
      if plain.Some? then plain
      else
        var signed := reader.verify(data.value);
        if signed.Some? then reader.fromSlice(signed.value) else None
  }

  /** How the rest of the parser sees `get_custom_server_from_config_string(s.trim())`. */
  type Config = string -> Option<CustomServer>

  /** The first success of `f` on the pieces. */
  function FirstSome(f: Config, ps: seq<string>): Option<CustomServer> {
    if ps == [] then None
    else
      var r := f(ps[0]);
      if r.Some? then r else FirstSome(f, ps[1..])
  }

  function ParsePiece(config: Config, p: string): Option<CustomServer> {
    var r := config(p);
    if r.Some? then r
    else if Contains(p, "(") then FirstSome(config, Split(p, "("))
    else None
  }

  function Piece(config: Config): Config {
    p => ParsePiece(config, p)
  }

  function Delimit(s: string): string {
    Replace(Replace(Replace(s, "-licensed---", "--"), "-licensed--", "--"), "-licensed-", "--")
  }

  function EndsWith(s: string, ext: string): bool {
    |s| >= |ext| && SameIgnoringCase(s[|s| - |ext|..], ext)
  }

  function StripExe(s: string): string {
    if EndsWith(s, ".exe.exe") then s[..|s| - 8]
    else if EndsWith(s, ".exe") then s[..|s| - 4]
    else s
  }

  /** What follows the first `cut` characters of the last piece that starts with `tag`. */
  function LastValue(ps: seq<string>, tag: string, cut: nat): string
    requires cut <= |tag|
  {
    if ps == [] then ""
    else
      var p := ps[|ps| - 1];
      if tag <= p then p[cut..] else LastValue(ps[..|ps| - 1], tag, cut)
  }

  /** The tag `relay=` has six characters, but the code cuts off four. */
  function HostRecord(ps: seq<string>): CustomServer {
    CustomServer(LastValue(ps, "key=", 4), LastValue(ps, "host=", 5), LastValue(ps, "api=", 4),
                 LastValue(ps, "relay=", 4))
  }

  function ParseStem(config: Config, s: string): Option<CustomServer> {
    var i := IndexFrom(s, "host=", 0);
    if i != -1 then Some(HostRecord(Split(s[i..], ",")))
    else FirstSome(Piece(config), Split(Delimit(s), "--"))
  }

  function Trimmed(reader: Reader): Config {
    s => ParseConfig(reader, Trim(s))
  }

  function ParseName(reader: Reader, s: string): Option<CustomServer> {
    ParseStem(Trimmed(reader), StripExe(s))
  }

  // ----- the parser, as the code runs it

  method GetFieldsFromPieces(strs: seq<string>) returns (r: CustomServer)
    ensures r == HostRecord(strs)
  {
    var host, key, api, relay := "", "", "", "";
    for i := 0 to |strs|
      invariant host == LastValue(strs[..i], "host=", 5)
      invariant key == LastValue(strs[..i], "key=", 4)
      invariant api == LastValue(strs[..i], "api=", 4)
      invariant relay == LastValue(strs[..i], "relay=", 4)
    {
      var el := strs[i];
      assert strs[..i + 1][..i] == strs[..i];
      if "host=" <= el {
        host := el[5..];
      }
      if "key=" <= el {
        key := el[4..];
      }
      if "api=" <= el {
        api := el[4..];
      }
      if "relay=" <= el {
        relay := el[4..];
      }
    }
    assert strs[..|strs|] == strs;
    r := CustomServer(key, host, api, relay);
  }

  method GetFirstConfig(config: Config, parts: seq<string>) returns (r: Option<CustomServer>)
    ensures r == FirstSome(config, parts)
  {
    for j := 0 to |parts|
      invariant FirstSome(config, parts) == FirstSome(config, parts[j..])
    {
      r := config(parts[j]);
      if r.Some? {
        return;
      }
    }
    r := None;
  }

  method GetCustomServerFromPieces(config: Config, strs: seq<string>) returns (r: Option<CustomServer>)
    ensures r == FirstSome(Piece(config), strs)
  {
    for i := 0 to |strs|
      invariant FirstSome(Piece(config), strs) == FirstSome(Piece(config), strs[i..])
    {
      var s := strs[i];
      r := config(s);
      if r.Some? {
        return;
      } else if Contains(s, "(") {
        r := GetFirstConfig(config, Split(s, "("));
        if r.Some? {
          return;
        }
      }
    }
    r := None;
  }

  method GetCustomServerFromStem(config: Config, s: string) returns (r: Option<CustomServer>)
    ensures r == ParseStem(config, s)
  {
    var at := IndexFrom(s, "host=", 0);
    if at != -1 {
      var fields := GetFieldsFromPieces(Split(s[at..], ","));
      r := Some(fields);
    } else {
      r := GetCustomServerFromPieces(config, Split(Delimit(s), "--"));
    }
  }

  /** `get_custom_server_from_string`. */
  method GetCustomServerFromString(reader: Reader, s: string) returns (r: Option<CustomServer>)
    ensures r == ParseName(reader, s)
  {
    if EndsWith(s, ".exe.exe") {
      r := GetCustomServerFromStem(Trimmed(reader), s[..|s| - 8]);
    } else if EndsWith(s, ".exe") {
      r := GetCustomServerFromStem(Trimmed(reader), s[..|s| - 4]);
    } else {
      r := GetCustomServerFromStem(Trimmed(reader), s);
    }
  }
}
