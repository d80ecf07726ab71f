/**
 The readable form of a server's file name: `host=`, `key=`, `api=` and `relay=` with commas
 between them. All fields come back but `relay`, of whose tag the parser cuts off four characters
 although it has six.
 */
module HostForm {
  import opened Options
  import opened Text
  import opened CustomServers
  import opened Extensions

  lemma TagStartsHere(app: string, s: string)
    requires !Contains(app, "host=") && "host=" <= s
    ensures IndexFrom(app + s, "host=", 0) == |app|
  {
    var t, pat := app + s, "host=";
    assert OccursAt(t, pat, |app|) by {
      forall k | 0 <= k < 5 ensures t[|app| + k] == pat[k] {
        assert t[|app| + k] == s[k];
      }
    }
    assert NoneBefore(t, pat, |app|) by {
      forall j | 0 <= j < |app| ensures !OccursAt(t, pat, j) {
        if j + 5 <= |app| {
          OccursInPrefix(app, s, pat, j);
        } else {
          assert t[j + (|app| - j)] == 'h' != pat[|app| - j];
        }
      }
    }
    IndexFromSpec(t, pat, 0);
  }

  /** The parser finds exactly the pieces that were joined. */
  lemma HostFormParses(config: Config, app: string, ps: seq<string>)
    requires !Contains(app, "host=")
    requires ps != [] && "host=" <= ps[0] && forall i :: 0 <= i < |ps| ==> ',' !in ps[i]
    ensures ParseStem(config, app + Join(ps, ",")) == Some(HostRecord(ps))
  {
    var s := Join(ps, ",");
    assert ps[0] <= s;
    TagStartsHere(app, s);
    assert (app + s)[|app|..] == s;
    SplitJoin(ps, ',');
  }

  // ----- the record behind the pieces

  predicate Untagged(p: string) {
    !("host=" <= p) && !("key=" <= p) && !("api=" <= p) && !("relay=" <= p)
  }

  /** A piece without a tag, such as the `(1)` behind a final comma, changes nothing. */
  lemma UntaggedIsIgnored(ps: seq<string>, junk: string)
    requires Untagged(junk)
    ensures HostRecord(ps + [junk]) == HostRecord(ps)
  {
    assert (ps + [junk])[..|ps|] == ps;
  }

  /** Of several pieces with one tag the last one wins, and it disturbs no other field. */
  lemma HostWins(ps: seq<string>, v: string)
    ensures HostRecord(ps + ["host=" + v]) == HostRecord(ps).(host := v)
  {
    var p := "host=" + v;
    assert (ps + [p])[..|ps|] == ps;
    assert p[5..] == v && p[0] == 'h';
  }

  lemma KeyWins(ps: seq<string>, v: string)
    ensures HostRecord(ps + ["key=" + v]) == HostRecord(ps).(key := v)
  {
    var p := "key=" + v;
    assert (ps + [p])[..|ps|] == ps;
    assert p[4..] == v && p[0] == 'k';
  }

  lemma ApiWins(ps: seq<string>, v: string)
    ensures HostRecord(ps + ["api=" + v]) == HostRecord(ps).(api := v)
  {
    var p := "api=" + v;
    assert (ps + [p])[..|ps|] == ps;
    assert p[4..] == v && p[0] == 'a';
  }

  lemma RelayIsGarbled(ps: seq<string>, v: string)
    ensures HostRecord(ps + ["relay=" + v]) == HostRecord(ps).(relay := "y=" + v)
  {
    var p := "relay=" + v;
    assert (ps + [p])[..|ps|] == ps;
    assert p[4..] == "y=" + v && p[0] == 'r';
  }

  // ----- any written form of a record

  datatype Field = Host | Key | Api | Relay

  function Tag(f: Field): string {
    match f
    case Host => "host="
    case Key => "key="
    case Api => "api="
    case Relay => "relay="
  }

  function Value(lic: CustomServer, f: Field): string {
    match f
    case Host => lic.host
    case Key => lic.key
    case Api => lic.api
    case Relay => lic.relay
  }

  function With(lic: CustomServer, f: Field, v: string): CustomServer {
    match f
    case Host => lic.(host := v)
    case Key => lic.(key := v)
    case Api => lic.(api := v)
    case Relay => lic.(relay := v)
  }

  /** What the parser makes of the value. */
  function Read(f: Field, v: string): string {
    if f == Relay then "y=" + v else v
  }

  lemma TagWins(ps: seq<string>, f: Field, v: string)
    ensures HostRecord(ps + [Tag(f) + v]) == With(HostRecord(ps), f, Read(f, v))
  {
    match f
    case Host => HostWins(ps, v);
    case Key => KeyWins(ps, v);
    case Api => ApiWins(ps, v);
    case Relay => RelayIsGarbled(ps, v);
  }

  function Pieces(lic: CustomServer, fs: seq<Field>): (ps: seq<string>)
    ensures |ps| == |fs| && forall i :: 0 <= i < |fs| ==> ps[i] == Tag(fs[i]) + Value(lic, fs[i])
  {
    seq(|fs|, i requires 0 <= i < |fs| => Tag(fs[i]) + Value(lic, fs[i]))
  }

  lemma PieceBack(ps: seq<string>, g: Field, v: string, f: Field)
    ensures Value(HostRecord(ps + [Tag(g) + v]), f) == if f == g then Read(f, v) else Value(HostRecord(ps), f)
  {
    TagWins(ps, g, v);
  }

  lemma PiecesLast(lic: CustomServer, front: seq<Field>, g: Field)
    ensures Pieces(lic, front + [g]) == Pieces(lic, front) + [Tag(g) + Value(lic, g)]
  {
  }

  lemma {:induction false} PiecesBack(lic: CustomServer, fs: seq<Field>, f: Field)
    ensures Value(HostRecord(Pieces(lic, fs)), f) == if f in fs then Read(f, Value(lic, f)) else ""
  {
    if fs != [] {
      var front, g := fs[..|fs| - 1], fs[|fs| - 1];
      assert fs == front + [g];
      PiecesBack(lic, front, f);
      PiecesLast(lic, front, g);
      PieceBack(Pieces(lic, front), g, Value(lic, g), f);
    }
  }

  /** The fields may come in any order, the host first, and empty ones may be left out. */
  ghost predicate Writes(lic: CustomServer, fs: seq<Field>) {
    fs != [] && fs[0] == Host && forall f :: f !in fs ==> Value(lic, f) == ""
  }

  predicate CommaFree(lic: CustomServer) {
    ',' !in lic.host && ',' !in lic.key && ',' !in lic.api && ',' !in lic.relay
  }

  lemma NoCommas(lic: CustomServer, fs: seq<Field>)
    requires CommaFree(lic)
    ensures forall i :: 0 <= i < |fs| ==> ',' !in Pieces(lic, fs)[i]
  {
    forall i | 0 <= i < |fs| ensures ',' !in Tag(fs[i]) + Value(lic, fs[i]) {
      assert ',' !in Tag(fs[i]) && ',' !in Value(lic, fs[i]);
    }
  }

  lemma RecordBack(lic: CustomServer, fs: seq<Field>)
    requires Writes(lic, fs)
    ensures HostRecord(Pieces(lic, fs)) == lic <==> Relay !in fs
  {
    PiecesBack(lic, fs, Host);
    PiecesBack(lic, fs, Key);
    PiecesBack(lic, fs, Api);
    PiecesBack(lic, fs, Relay);
    assert |"y=" + lic.relay| != |lic.relay|;
  }

  lemma {:induction false} JoinLast(ps: seq<string>, sep: string, p: string)
    requires ps != []
    ensures Join(ps + [p], sep) == Join(ps, sep) + (sep + p)
  {
    if |ps| == 1 {
      assert (ps + [p])[1..] == [p];
    } else {
      assert (ps + [p])[1..] == ps[1..] + [p];
      JoinLast(ps[1..], sep, p);
    }
  }

  /** What is cut off a text that ends in `c` and more is cut off behind the `c`. */
  lemma CutBehind(front: string, c: char, v: string, k: nat)
    requires !ExeChar(c) && k <= |front + [c] + v|
    requires var s := front + [c] + v;
             forall i :: |s| - k <= i < |s| ==> ExeChar(s[i])
    ensures k <= |v| && (front + [c] + v)[..|front + [c] + v| - k] == front + [c] + v[..|v| - k]
  {
    var s := front + [c] + v;
    assert s[|front|] == c;
    assert k <= |v|;
  }

  lemma PartOfUntagged(junk: string, cut: string)
    requires Untagged(junk) && cut <= junk && ',' !in junk
    ensures Untagged(cut) && ',' !in cut
  {
  }

  lemma CommaStem(app: string, ps: seq<string>, junk: string, ext: string) returns (cut: string)
    requires ps != [] && IsExe(ext)
    ensures cut <= junk && StripExe(app + Join(ps + [junk], ",") + ext) == app + Join(ps + [cut], ",")
  {
    var s, front := app + Join(ps + [junk], ","), app + Join(ps, ",");
    JoinLast(ps, ",", junk);
    assert s == front + [','] + junk;
    var k := StripCut(s, ext);
    CutBehind(front, ',', junk, k);
    cut := junk[..|junk| - k];
    JoinLast(ps, ",", cut);
    assert front + [','] + cut == app + Join(ps + [cut], ",");
  }

  lemma CommaParses(config: Config, app: string, ps: seq<string>, cut: string)
    requires !Contains(app, "host=") && ps != [] && "host=" <= ps[0] && forall i :: 0 <= i < |ps| ==> ',' !in ps[i]
    requires Untagged(cut) && ',' !in cut
    ensures ParseStem(config, app + Join(ps + [cut], ",")) == Some(HostRecord(ps))
  {
    var qs := ps + [cut];
    assert qs[0] == ps[0] && forall i :: 0 <= i < |qs| ==> ',' !in qs[i];
    HostFormParses(config, app, qs);
    UntaggedIsIgnored(ps, cut);
  }

  /** Copy numbers behind a final comma, or nothing, are cut off without harm. */
  lemma CommaForm(reader: Reader, app: string, ps: seq<string>, junk: string, ext: string)
    requires !Contains(app, "host=") && ps != [] && "host=" <= ps[0] && forall i :: 0 <= i < |ps| ==> ',' !in ps[i]
    requires Untagged(junk) && ',' !in junk && IsExe(ext)
    ensures ParseName(reader, app + Join(ps + [junk], ",") + ext) == Some(HostRecord(ps))
  {
    var cut := CommaStem(app, ps, junk, ext);
    PartOfUntagged(junk, cut);
    CommaParses(Trimmed(reader), app, ps, cut);
    NameIs(reader, app + Join(ps + [junk], ",") + ext, app + Join(ps + [cut], ","), Some(HostRecord(ps)));
  }

  // ----- a value with a comma is lost

  lemma {:induction false} LastValueIsPart(ps: seq<string>, tag: string, cut: nat)
    requires cut <= |tag| && forall i :: 0 <= i < |ps| ==> ',' !in ps[i]
    ensures ',' !in LastValue(ps, tag, cut)
  {
    if ps != [] {
      LastValueIsPart(ps[..|ps| - 1], tag, cut);
    }
  }

  lemma NoCommaInPiece(s: string, k: nat)
    requires k < |Split(s, ",")|
    ensures ',' !in Split(s, ",")[k]
  {
    var p := Split(s, ",")[k];
    SplitPieces(s, ",", k);
    if ',' in p {
      var i :| 0 <= i < |p| && p[i] == ',';
      assert OccursAt(p, ",", i);
    }
  }

  lemma SplitIsCommaFree(s: string)
    ensures CommaFree(HostRecord(Split(s, ",")))
  {
    var ps := Split(s, ",");
    forall k | 0 <= k < |ps| ensures ',' !in ps[k] {
      NoCommaInPiece(s, k);
    }
    LastValueIsPart(ps, "host=", 5);
    LastValueIsPart(ps, "key=", 4);
    LastValueIsPart(ps, "api=", 4);
    LastValueIsPart(ps, "relay=", 4);
  }

  /** Whatever record is read from a stem with a `host=` has no comma in any value. */
  lemma ReadIsCommaFree(config: Config, s: string, lic: CustomServer)
    requires Contains(s, "host=") && ParseStem(config, s) == Some(lic)
    ensures CommaFree(lic)
  {
    IndexFromSpec(s, "host=", 0);
    SplitIsCommaFree(s[IndexFrom(s, "host=", 0)..]);
  }

  /** The first tag stays when an extension is cut off. */
  lemma TagStays(app: string, s: string, ext: string)
    requires "host=" <= s && IsExe(ext)
    ensures Contains(StripExe(app + s + ext), "host=")
  {
    var t := app + s;
    var k := StripCut(t, ext);
    assert t[|app| + 4] == s[4] == '=' && !ExeChar('=');
    assert |app| + 4 < |t| - k;
    TagInside(t[..|t| - k], app, s);
  }

  lemma TagInside(u: string, app: string, s: string)
    requires "host=" <= s && u <= app + s && |app| + 5 <= |u|
    ensures Contains(u, "host=")
  {
    forall i | 0 <= i < 5 ensures u[|app| + i] == "host="[i] {
      assert u[|app| + i] == (app + s)[|app| + i] == s[i];
    }
    assert OccursAt(u, "host=", |app|);
  }

  lemma CommaIsLost(reader: Reader, app: string, s: string, ext: string, lic: CustomServer)
    requires "host=" <= s && IsExe(ext) && ParseName(reader, app + s + ext) == Some(lic)
    ensures CommaFree(lic)
  {
    TagStays(app, s, ext);
    ReadIsCommaFree(Trimmed(reader), StripExe(app + s + ext), lic);
  }

  lemma JoinStarts(ps: seq<string>)
    requires ps != [] && "host=" <= ps[0]
    ensures "host=" <= Join(ps, ",")
  {
    assert ps[0] <= Join(ps, ",");
  }

  /**
   With a final comma, which the source recommends against copy numbers: a record comes back from
   any written form if and only if no value has a comma and its relay is not written.
   */
  lemma HostRoundTripComma(reader: Reader, app: string, lic: CustomServer, fs: seq<Field>, junk: string, ext: string)
    requires !Contains(app, "host=") && Writes(lic, fs)
    requires Untagged(junk) && ',' !in junk && IsExe(ext)
    ensures ParseName(reader, app + Join(Pieces(lic, fs) + [junk], ",") + ext) == Some(lic)
            <==> CommaFree(lic) && Relay !in fs
  {
    if CommaFree(lic) {
      NoCommas(lic, fs);
      CommaForm(reader, app, Pieces(lic, fs), junk, ext);
      RecordBack(lic, fs);
    } else if ParseName(reader, app + Join(Pieces(lic, fs) + [junk], ",") + ext) == Some(lic) {
      JoinStarts(Pieces(lic, fs) + [junk]);
      CommaIsLost(reader, app, Join(Pieces(lic, fs) + [junk], ","), ext, lic);
    }
  }

  // ----- without a final comma

  function TagName(f: Field): string {
    Tag(f)[..|Tag(f)| - 1]
  }

  lemma TagParts(f: Field, v: string)
    ensures Tag(f) + v == TagName(f) + ['='] + v
  {
    assert Tag(f) == TagName(f) + ['='];
  }

  function BeforeValue(app: string, ps: seq<string>, f: Field): string {
    app + (if ps == [] then "" else Join(ps, ",") + ",") + TagName(f)
  }

  lemma Regroup(a: string, j: string, n: string, v: string)
    ensures a + (j + ("," + (n + ['='] + v))) == a + (j + ",") + n + ['='] + v
    ensures a + (n + ['='] + v) == a + "" + n + ['='] + v
  {
  }

  /** The name ends in the value of its last field. */
  lemma LastField(app: string, ps: seq<string>, f: Field, v: string)
    ensures app + Join(ps + [Tag(f) + v], ",") == BeforeValue(app, ps, f) + ['='] + v
  {
    var p := Tag(f) + v;
    TagParts(f, v);
    Regroup(app, Join(ps, ","), TagName(f), v);
    if ps == [] {
      assert ps + [p] == [p];
    } else {
      JoinLast(ps, ",", p);
    }
  }

  lemma EndOfValue(front: string, v: string)
    ensures EndsWith(front + ['='] + v, ".exe") <==> EndsWith(v, ".exe")
  {
    var s := front + ['='] + v;
    if |v| >= 4 {
      assert s[|s| - 4..] == v[|v| - 4..];
    } else if |s| >= 4 {
      assert s[|s| - 4..][3 - |v|] == '=';
      assert ".exe"[3 - |v|] != '=' && LowerAscii('=') == '=';
      assert LowerAscii(".exe"[3 - |v|]) != '=';
    }
  }

  lemma PlainStem(app: string, ps: seq<string>, f: Field, v: string, ext: string) returns (cut: string)
    requires IsExe(ext)
    ensures cut <= v && (cut == v || |cut| <= |v| - 4) && (cut != v <==> EndsWith(v, ".exe") && |ext| != 8)
    ensures StripExe(app + Join(ps + [Tag(f) + v], ",") + ext) == app + Join(ps + [Tag(f) + cut], ",")
  {
    var front := BeforeValue(app, ps, f);
    LastField(app, ps, f, v);
    var s := front + ['='] + v;
    var k := StripCut(s, ext);
    EndOfValue(front, v);
    CutBehind(front, '=', v, k);
    cut := v[..|v| - k];
    LastField(app, ps, f, cut);
  }

  lemma NoCommaInTag(f: Field)
    ensures ',' !in Tag(f)
  {
  }

  lemma PlainPieces(ps: seq<string>, f: Field, v: string)
    requires ',' !in v && forall i :: 0 <= i < |ps| ==> ',' !in ps[i]
    requires if ps == [] then f == Host else "host=" <= ps[0]
    ensures var qs := ps + [Tag(f) + v];
            "host=" <= qs[0] && forall i :: 0 <= i < |qs| ==> ',' !in qs[i]
  {
    NoCommaInTag(f);
  }

  lemma PlainParses(config: Config, app: string, ps: seq<string>, f: Field, v: string)
    requires !Contains(app, "host=") && ',' !in v && forall i :: 0 <= i < |ps| ==> ',' !in ps[i]
    requires if ps == [] then f == Host else "host=" <= ps[0]
    ensures ParseStem(config, app + Join(ps + [Tag(f) + v], ",")) == Some(HostRecord(ps + [Tag(f) + v]))
  {
    PlainPieces(ps, f, v);
    HostFormParses(config, app, ps + [Tag(f) + v]);
  }

  lemma PlainForm(reader: Reader, app: string, ps: seq<string>, f: Field, v: string, ext: string) returns (cut: string)
    requires !Contains(app, "host=") && IsExe(ext) && ',' !in v && forall i :: 0 <= i < |ps| ==> ',' !in ps[i]
    requires if ps == [] then f == Host else "host=" <= ps[0]
    ensures (cut == v || |cut| <= |v| - 4) && (cut != v <==> EndsWith(v, ".exe") && |ext| != 8)
    ensures ParseName(reader, app + Join(ps + [Tag(f) + v], ",") + ext) == Some(HostRecord(ps + [Tag(f) + cut]))
  {
    cut := PlainStem(app, ps, f, v, ext);
    PlainParses(Trimmed(reader), app, ps, f, cut);
    NameIs(reader, app + Join(ps + [Tag(f) + v], ",") + ext, app + Join(ps + [Tag(f) + cut], ","),
           Some(HostRecord(ps + [Tag(f) + cut])));
  }

  /** A record that is read with a shorter value is another one, whether or not `y=` is put before it. */
  lemma ShorterIsOther(ps: seq<string>, f: Field, v: string, cut: string)
    requires |cut| <= |v| - 4
    ensures Value(HostRecord(ps + [Tag(f) + cut]), f) != v
  {
    TagWins(ps, f, cut);
    assert |Read(f, cut)| < |v|;
  }

  lemma LastPiece(lic: CustomServer, fs: seq<Field>)
    requires Writes(lic, fs)
    ensures var ps := Pieces(lic, fs[..|fs| - 1]);
            var f := fs[|fs| - 1];
            && Pieces(lic, fs) == ps + [Tag(f) + Value(lic, f)]
            && if ps == [] then f == Host else "host=" <= ps[0]
  {
  }

  lemma NoComma(lic: CustomServer, f: Field)
    requires CommaFree(lic)
    ensures ',' !in Value(lic, f)
  {
  }

  /** The last value is not cut: it does not end in `.exe` itself, or the extension is doubled. */
  predicate Uncut(v: string, ext: string) {
    EndsWith(v, ".exe") ==> |ext| == 8
  }

  lemma PlainRoundTrip(reader: Reader, app: string, lic: CustomServer, fs: seq<Field>, ext: string)
    requires !Contains(app, "host=") && CommaFree(lic) && Writes(lic, fs) && IsExe(ext)
    ensures ParseName(reader, app + Join(Pieces(lic, fs), ",") + ext) == Some(lic)
            <==> Relay !in fs && Uncut(Value(lic, fs[|fs| - 1]), ext)
  {
    var f := fs[|fs| - 1];
    var ps, v := Pieces(lic, fs[..|fs| - 1]), Value(lic, f);
    NoCommas(lic, fs[..|fs| - 1]);
    NoComma(lic, f);
    LastPiece(lic, fs);
    var cut := PlainForm(reader, app, ps, f, v, ext);
    RecordUnlessCut(lic, fs, ps, f, cut);
  }

  /**
   Without a final comma: a record comes back from any written form if and only if no value has a
   comma, its relay is not written and its last value is not cut.
   */
  lemma HostRoundTrip(reader: Reader, app: string, lic: CustomServer, fs: seq<Field>, ext: string)
    requires !Contains(app, "host=") && Writes(lic, fs) && IsExe(ext)
    ensures ParseName(reader, app + Join(Pieces(lic, fs), ",") + ext) == Some(lic)
            <==> CommaFree(lic) && Relay !in fs && Uncut(Value(lic, fs[|fs| - 1]), ext)
  {
    if CommaFree(lic) {
      PlainRoundTrip(reader, app, lic, fs, ext);
    } else if ParseName(reader, app + Join(Pieces(lic, fs), ",") + ext) == Some(lic) {
      JoinStarts(Pieces(lic, fs));
      CommaIsLost(reader, app, Join(Pieces(lic, fs), ","), ext, lic);
    }
  }

  lemma RecordUnlessCut(lic: CustomServer, fs: seq<Field>, ps: seq<string>, f: Field, cut: string)
    requires Writes(lic, fs) && Pieces(lic, fs) == ps + [Tag(f) + Value(lic, f)]
    requires cut == Value(lic, f) || |cut| <= |Value(lic, f)| - 4
    ensures HostRecord(ps + [Tag(f) + cut]) == lic <==> Relay !in fs && cut == Value(lic, f)
  {
    if cut == Value(lic, f) {
      RecordBack(lic, fs);
    } else {
      ShorterIsOther(ps, f, Value(lic, f), cut);
    }
  }

  /** The readable file name of a record. */
  function Readable(app: string, lic: CustomServer, fs: seq<Field>, ext: string): string {
    app + Join(Pieces(lic, fs), ",") + ext
  }

  /** A record with nothing but a host. */
  function OnlyHost(host: string): CustomServer {
    CustomServer("", host, "", "")
  }

  lemma HostAlone(reader: Reader, app: string, host: string, ext: string)
    requires !Contains(app, "host=") && IsExe(ext)
    ensures ParseName(reader, Readable(app, OnlyHost(host), [Host], ext)) == Some(OnlyHost(host))
            <==> ',' !in host && Uncut(host, ext)
  {
    var fs := [Host];
    assert Relay !in fs && fs[|fs| - 1] == Host;
    assert Writes(OnlyHost(host), fs);
    HostRoundTrip(reader, app, OnlyHost(host), fs, ext);
  }

  /** Two hosts that do not come back: one with a comma, and one that is cut. */
  lemma LostHosts(reader: Reader, app: string)
    requires !Contains(app, "host=")
    ensures ParseName(reader, Readable(app, OnlyHost("a,b"), [Host], ".exe")) != Some(OnlyHost("a,b"))
    ensures ParseName(reader, Readable(app, OnlyHost("a.exe"), [Host], ".exe")) != Some(OnlyHost("a.exe"))
  {
    HostAlone(reader, app, "a,b", ".exe");
    HostAlone(reader, app, "a.exe", ".exe");
    assert "a,b"[1] == ',';
    assert "a.exe"[1..] == ".exe";
  }
}
