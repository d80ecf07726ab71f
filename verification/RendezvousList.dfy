/**
 The list of rendezvous servers: how it crosses the process boundary (src/ipc.rs) and how a server
 is chosen from it (src/common.rs). The regular expression that recognizes IPv6 addresses is a
 parameter.
 */
module RendezvousList {
  import opened Text

  // ----- the text between the processes

  /** The value of `rendezvous_server`: the preferred server, a comma, and the joined list. */
  function Encode(a: string, b: seq<string>): string {
    a + ("," + Join(b, ","))
  }

  function Decode(v: string): (string, seq<string>) {
    var urls := Split(v, ",");
    (urls[0], urls[1..])
  }

  /** The number of commas. */
  function Commas(s: string): nat {
    if s == "" then 0 else (if s[0] == ',' then 1 else 0) + Commas(s[1..])
  }

  lemma {:induction false} CommasAdd(s: string, t: string)
    ensures Commas(s + t) == Commas(s) + Commas(t)
  {
    if s == "" {
      assert s + t == t;
    } else {
      assert (s + t)[1..] == s[1..] + t;
      CommasAdd(s[1..], t);
    }
  }

  lemma {:induction false} CommasAbsent(s: string)
    ensures Commas(s) == 0 <==> ',' !in s
  {
    if s != "" {
      CommasAbsent(s[1..]);
      assert s == [s[0]] + s[1..];
    }
  }

  lemma {:induction false} SplitCounts(s: string)
    ensures |Split(s, ",")| == Commas(s) + 1
    decreases |s|
  {
    if s != "" {
      assert OccursAt(s, ",", 0) <==> s[0] == ',' by {
        assert s[0 + 0] == s[0] && ","[0] == ',';
      }
      SplitCounts(s[1..]);
    }
  }

  function Total(b: seq<string>): nat {
    if b == [] then 0 else Commas(b[0]) + Total(b[1..])
  }

  lemma {:induction false} JoinCounts(b: seq<string>)
    requires b != []
    ensures Commas(Join(b, ",")) == Total(b) + |b| - 1
  {
    if |b| == 1 {
      assert b[1..] == [];
    } else {
      JoinCounts(b[1..]);
      CommasAdd(b[0], "," + Join(b[1..], ","));
      CommasAdd(",", Join(b[1..], ","));
      assert Commas(",") == 1 by {
        assert ","[1..] == "";
      }
    }
  }

  lemma {:induction false} TotalZero(b: seq<string>)
    ensures Total(b) == 0 <==> forall i :: 0 <= i < |b| ==> ',' !in b[i]
  {
    if b != [] {
      TotalZero(b[1..]);
      CommasAbsent(b[0]);
      assert b == [b[0]] + b[1..];
    }
  }

  ghost predicate CommaFree(a: string, b: seq<string>) {
    ',' !in a && forall i :: 0 <= i < |b| ==> ',' !in b[i]
  }

  lemma DecodeEncode(a: string, b: seq<string>)
    requires CommaFree(a, b) && b != []
    ensures Decode(Encode(a, b)) == (a, b)
  {
    SplitJoin(b, ',');
    CharAbsent(a, "," + Join(b, ","), ',');
    SplitHere(a, ",", Join(b, ","));
  }

  lemma EncodedCommas(a: string, b: seq<string>)
    ensures |Decode(Encode(a, b)).1| == Commas(a) + 1 + Commas(Join(b, ","))
  {
    SplitCounts(Encode(a, b));
    CommasAdd(a, "," + Join(b, ","));
    CommasAdd(",", Join(b, ","));
    assert Commas(",") == 1 by {
      assert ","[1..] == "";
    }
  }

  /** Exactly when the list survives the trip: when it is not empty and no name contains a comma. */
  lemma RoundTripExact(a: string, b: seq<string>)
    ensures Decode(Encode(a, b)) == (a, b) <==> b != [] && CommaFree(a, b)
  {
    EncodedCommas(a, b);
    CommasAbsent(a);
    TotalZero(b);
    if b != [] {
      JoinCounts(b);
      if CommaFree(a, b) {
        DecodeEncode(a, b);
      }
    }
  }

  /** What the two failures look like: an empty list arrives as one empty name, a comma cuts a name. */
  lemma ListsThatChange(a: string)
    requires ',' !in a
    ensures Decode(Encode(a, [])) == (a, [""])
    ensures Decode(Encode(a, ["x,y"])) == (a, ["x", "y"])
  {
    assert Encode(a, []) == Encode(a, [""]);
    DecodeEncode(a, [""]);
    assert Join(["x", "y"], ",") == "x,y" by {
      assert ["x", "y"][1..] == ["y"];
    }
    DecodeEncode(a, ["x", "y"]);
  }

  // ----- the choice of a server

  const PORT := ":21116"

  function CheckPort(isIpv6: string -> bool, host: string): string {
    if isIpv6(host) then (if "[" <= host then host else "[" + host + "]" + PORT)
    else if ':' !in host then host + PORT
    else host
  }

  function Normalized(isIpv6: string -> bool, b: seq<string>): (c: seq<string>)
    ensures |c| == |b| && forall i :: 0 <= i < |b| ==> c[i] == CheckPort(isIpv6, b[i])
  {
    seq(|b|, i requires 0 <= i < |b| => CheckPort(isIpv6, b[i]))
  }

  function Others(b: seq<string>, a: string): seq<string> {
    if b == [] then []
    else
      var rest := Others(b[..|b| - 1], a);
      if b[|b| - 1] == a then rest else rest + [b[|b| - 1]]
  }

  datatype Choice = Choice(chosen: string, others: seq<string>, contained: bool)

  method Normalize(isIpv6: string -> bool, list: seq<string>) returns (b: seq<string>)
    ensures b == Normalized(isIpv6, list)
  {
    b := [];
    for i := 0 to |list|
      invariant |b| == i && forall j :: 0 <= j < i ==> b[j] == CheckPort(isIpv6, list[j])
    {
      b := b + [CheckPort(isIpv6, list[i])];
    }
  }

  method Filter(b: seq<string>, a: string) returns (kept: seq<string>)
    ensures kept == Others(b, a)
  {
    kept := [];
    for i := 0 to |b|
      invariant kept == Others(b[..i], a)
    {
      assert b[..i + 1][..i] == b[..i];
      if b[i] != a {
        kept := kept + [b[i]];
      }
    }
    assert b[..|b|] == b;
  }

  /** `get_rendezvous_server`, after the list has arrived. */
  method GetRendezvousServer(isIpv6: string -> bool, preferred: string, list: seq<string>) returns (r: Choice)
    ensures r == Choose(preferred, Normalized(isIpv6, list))
  {
    var a := preferred;
    var b := Normalize(isIpv6, list);
    if a in b {
      b := Filter(b, a);
      r := Choice(a, b, true);
    } else {
      if b != [] {
        a, b := b[|b| - 1], b[..|b| - 1];
      }
      r := Choice(a, b, false);
    }
  }

  function Choose(a: string, b: seq<string>): Choice {
    if a in b then Choice(a, Others(b, a), true)
    else if b != [] then Choice(b[|b| - 1], b[..|b| - 1], false)
    else Choice(a, b, false)
  }

  lemma {:induction false} OthersSpec(b: seq<string>, a: string, x: string)
    ensures x in Others(b, a) <==> x in b && x != a
  {
    if b != [] {
      OthersSpec(b[..|b| - 1], a, x);
      assert b == b[..|b| - 1] + [b[|b| - 1]];
    }
  }

  /** Choosing neither invents nor forgets a server of the list; it forgets a preference outside it. */
  lemma ServersConserved(a: string, b: seq<string>, x: string)
    requires b != []
    ensures var r := Choose(a, b);
            x == r.chosen || x in r.others <==> x in b
  {
    OthersSpec(b, a, x);
    assert b == b[..|b| - 1] + [b[|b| - 1]];
  }

  /**
   Exactly when the assertion of the client (src/client.rs) holds, that the chosen server is not among
   the others: when the preference is in the list, or the last name of the list stands in it once.
   */
  lemma ChosenNotAmongOthers(a: string, b: seq<string>)
    ensures var r := Choose(a, b);
            r.chosen !in r.others <==> a in b || b == [] || b[|b| - 1] !in b[..|b| - 1]
  {
    OthersSpec(b, a, a);
  }

  /** With a list of one name twice and another preference it fails. */
  lemma RepeatedNameChosenTwice()
    ensures var r := Choose("a:1", ["b:1", "b:1"]);
            r.chosen == "b:1" && "b:1" in r.others
  {
    assert "a:1"[0] != "b:1"[0];
    assert "b:1" in ["b:1", "b:1"][..1] by {
      assert ["b:1", "b:1"][..1][0] == "b:1";
    }
  }

  // ----- ports, order and repetitions

  /** Exactly when a name is left as it is, and what it becomes otherwise. */
  lemma PortIsAdded(isIpv6: string -> bool, host: string)
    ensures CheckPort(isIpv6, host) == host <==> if isIpv6(host) then "[" <= host else ':' in host
    ensures CheckPort(isIpv6, host) != host ==>
              CheckPort(isIpv6, host) == if isIpv6(host) then "[" + host + "]:21116" else host + ":21116"
    ensures ':' in CheckPort(isIpv6, host) || (isIpv6(host) && "[" <= host)
  {
    var r := CheckPort(isIpv6, host);
    if r != host {
      assert r[|r| - 6] == ':';
    }
    assert |host + PORT| != |host| && |"[" + host + "]" + PORT| != |host|;
  }

  /** A second pass changes nothing, unless a plain name with its port is taken for an IPv6 address. */
  lemma PortIsAddedOnce(isIpv6: string -> bool, host: string)
    requires isIpv6(host) || "[" <= host || !isIpv6(host + PORT)
    ensures CheckPort(isIpv6, CheckPort(isIpv6, host)) == CheckPort(isIpv6, host)
  {
    var r := CheckPort(isIpv6, host);
    PortIsAdded(isIpv6, host);
    PortIsAdded(isIpv6, r);
    assert isIpv6(host) && r != host ==> r[0] == '[';
  }

  /** Filtering acts name by name, so that order and repetitions are kept. */
  lemma {:induction false} OthersJoin(b: seq<string>, c: seq<string>, a: string)
    ensures Others(b + c, a) == Others(b, a) + Others(c, a)
    decreases |c|
  {
    if c == [] {
      assert b + c == b;
    } else {
      assert (b + c)[..|b + c| - 1] == b + c[..|c| - 1];
      OthersJoin(b, c[..|c| - 1], a);
    }
  }

  lemma OthersOfOne(x: string, a: string)
    ensures Others([x], a) == if x == a then [] else [x]
  {
    assert [x][..0] == [];
  }

  /** Every other name stands as often among the others as in the list. */
  lemma {:induction false} OthersCount(b: seq<string>, a: string, x: string)
    ensures multiset(Others(b, a))[x] == if x == a then 0 else multiset(b)[x]
  {
    if b != [] {
      OthersCount(b[..|b| - 1], a, x);
      assert b == b[..|b| - 1] + [b[|b| - 1]];
    }
  }

  /** The choice, case by case. */
  lemma ChoiceExactly(a: string, b: seq<string>)
    ensures var r := Choose(a, b);
            && (r.contained <==> a in b)
            && (a in b ==> r.chosen == a)
            && (a !in b && b != [] ==> b == r.others + [r.chosen])
            && (b == [] ==> r == Choice(a, [], false))
  {
    if a !in b && b != [] {
      assert b == b[..|b| - 1] + [b[|b| - 1]];
    }
  }

  /** What passes between the processes. */
  lemma EncodedText()
    ensures Encode("a", ["b", "c"]) == "a,b,c"
  {
    assert ["b", "c"][1..] == ["c"];
  }
}
