/**
 Merging the answers of a LAN discovery into the stored list of peers (`handle_received_peers` in
 src/lan.rs). Two entries are the same peer when id and user name agree
 (libs/hbb_common/src/config.rs); the set of responders, however, holds ids only.
 */
module LanMerge {
  datatype Peer = Peer(id: string, username: string, info: string, online: bool, ipMac: map<string, string>)

  datatype Key = Key(id: string, username: string)

  function KeyOf(p: Peer): Key {
    Key(p.id, p.username)
  }

  function Offline(ps: seq<Peer>): (qs: seq<Peer>)
    ensures |qs| == |ps| && forall i :: 0 <= i < |ps| ==> qs[i] == ps[i].(online := false)
  {
    seq(|ps|, i requires 0 <= i < |ps| => ps[i].(online := false))
  }

  /** The first position of the key, or -1. */
  function Find(ps: seq<Peer>, k: Key): (i: int)
    ensures -1 <= i < |ps|
    ensures i >= 0 ==> KeyOf(ps[i]) == k
  {
    if ps == [] then -1
    else if KeyOf(ps[0]) == k then 0
    else
      var i := Find(ps[1..], k);
      if i == -1 then -1 else i + 1
  }

  function Without(ps: seq<Peer>, i: int): seq<Peer>
    requires -1 <= i < |ps|
  {
    if i == -1 then ps else ps[..i] + ps[i + 1..]
  }

  /** The entry that an answer becomes; what the earlier entry knows wins. */
  function Updated(ps: seq<Peer>, responded: set<string>, r: Peer): Peer {
    var i := Find(ps, KeyOf(r));
    if i != -1 && r.id in responded then r.(ipMac := r.ipMac + ps[i].ipMac, online := true) else r
  }

  function MergeOne(ps: seq<Peer>, responded: set<string>, r: Peer): seq<Peer> {
    [Updated(ps, responded, r)] + Without(ps, Find(ps, KeyOf(r)))
  }

  function Ids(rs: seq<Peer>): set<string> {
    if rs == [] then {} else Ids(rs[..|rs| - 1]) + {rs[|rs| - 1].id}
  }

  function Merge(loaded: seq<Peer>, rs: seq<Peer>): seq<Peer> {
    if rs == [] then Offline(loaded)
    else
      var front := rs[..|rs| - 1];
      MergeOne(Merge(loaded, front), Ids(front), rs[|rs| - 1])
  }

  /** The body of the receive loop. */
  method Receive(peers: seq<Peer>, responded: set<string>, answer: Peer) returns (merged: seq<Peer>)
    ensures merged == MergeOne(peers, responded, answer)
  {
    var peer := answer;
    merged := peers;
    var inResponseSet := peer.id in responded;
    var pos := Find(merged, KeyOf(peer));
    if pos != -1 {
      var peer1 := merged[pos];
      merged := merged[..pos] + merged[pos + 1..];
      if inResponseSet {
        peer := peer.(ipMac := peer.ipMac + peer1.ipMac);
        peer := peer.(online := true);
      }
    }
    merged := [peer] + merged;
  }

  /** The receive loop, over the answers that arrive until the channel closes. */
  method HandleReceivedPeers(loaded: seq<Peer>, rx: seq<Peer>) returns (peers: seq<Peer>)
    ensures peers == Merge(loaded, rx)
  {
    peers := Offline(loaded);
    var responseSet := {};
    for n := 0 to |rx|
      invariant peers == Merge(loaded, rx[..n])
      invariant responseSet == Ids(rx[..n])
    {
      assert rx[..n + 1][..n] == rx[..n];
      peers := Receive(peers, responseSet, rx[n]);
      responseSet := responseSet + {rx[n].id};
    }
    assert rx[..|rx|] == rx;
  }

  // ----- what the result is, independently of the loop

  /** The position of the last answer with the key, or -1. */
  function LastAnswer(rs: seq<Peer>, k: Key): (i: int)
    ensures -1 <= i < |rs|
    ensures i >= 0 ==> KeyOf(rs[i]) == k
  {
    if rs == [] then -1
    else if KeyOf(rs[|rs| - 1]) == k then |rs| - 1
    else LastAnswer(rs[..|rs| - 1], k)
  }

  /** The addresses in all answers with the key; of two entries for one address the earlier wins. */
  function Addresses(rs: seq<Peer>, k: Key): map<string, string> {
    if rs == [] then map[]
    else
      var front, r := rs[..|rs| - 1], rs[|rs| - 1];
      if KeyOf(r) == k then r.ipMac + Addresses(front, k) else Addresses(front, k)
  }

  /** Before the first answer with the key there was one with the same id and another user name. */
  predicate Shadowed(rs: seq<Peer>, k: Key) {
    if rs == [] then false
    else
      var front, r := rs[..|rs| - 1], rs[|rs| - 1];
      if KeyOf(r) == k && LastAnswer(front, k) == -1 then k.id in Ids(front) else Shadowed(front, k)
  }

  function Stored(loaded: seq<Peer>, k: Key): map<string, string> {
    if Find(loaded, k) == -1 then map[] else loaded[Find(loaded, k)].ipMac
  }

  ghost predicate Distinct(ps: seq<Peer>) {
    forall i, j :: 0 <= i < j < |ps| ==> KeyOf(ps[i]) != KeyOf(ps[j])
  }

  ghost predicate Has(ps: seq<Peer>, k: Key) {
    exists i :: 0 <= i < |ps| && KeyOf(ps[i]) == k
  }

  /**
   An entry of the result: the last answer with its key, with the addresses of all of them; or the
   stored entry, offline. Stored addresses get into an answered entry only behind a shadow.
   */
  ghost predicate Exact(loaded: seq<Peer>, rs: seq<Peer>, p: Peer) {
    var k := KeyOf(p);
    var n := LastAnswer(rs, k);
    if n >= 0 then
      p == rs[n].(online := true,
                  ipMac := Addresses(rs, k) + if Shadowed(rs, k) then Stored(loaded, k) else map[])
    else
      Find(loaded, k) != -1 && p == loaded[Find(loaded, k)].(online := false)
  }

  /** `p` was answered more recently than `q`; or neither was, and `p` was stored before `q`. */
  ghost predicate Precedes(loaded: seq<Peer>, rs: seq<Peer>, p: Peer, q: Peer) {
    var m, n := LastAnswer(rs, KeyOf(p)), LastAnswer(rs, KeyOf(q));
    m > n || (m == n == -1 && Find(loaded, KeyOf(p)) < Find(loaded, KeyOf(q)))
  }

  /** Answered entries come first, the most recently answered at the front; the others keep their order. */
  ghost predicate InOrder(loaded: seq<Peer>, rs: seq<Peer>, ps: seq<Peer>) {
    forall i, j :: 0 <= i < j < |ps| ==> Precedes(loaded, rs, ps[i], ps[j])
  }

  ghost predicate AllOnline(rs: seq<Peer>) {
    forall i :: 0 <= i < |rs| ==> rs[i].online
  }

  // ----- proof

  /** `Find` answers -1 exactly when the key is missing. */
  lemma {:induction false} FindMissing(ps: seq<Peer>, k: Key)
    ensures Find(ps, k) == -1 <==> !Has(ps, k)
  {
    if ps != [] {
      FindMissing(ps[1..], k);
      if Has(ps, k) && KeyOf(ps[0]) != k {
        var i :| 0 <= i < |ps| && KeyOf(ps[i]) == k;
        assert KeyOf(ps[1..][i - 1]) == k;
      }
      if Has(ps[1..], k) {
        var i :| 0 <= i < |ps[1..]| && KeyOf(ps[1..][i]) == k;
        assert KeyOf(ps[i + 1]) == k;
      }
      assert KeyOf(ps[0]) == k ==> Has(ps, k);
    }
  }

  lemma FindDistinct(ps: seq<Peer>, i: nat)
    requires Distinct(ps) && i < |ps|
    ensures Find(ps, KeyOf(ps[i])) == i
  {
    FindMissing(ps, KeyOf(ps[i]));
  }

  /** Where the entry at position `j` of the merged list, after the first, stood before. */
  function Before(ps: seq<Peer>, k: Key, j: int): int {
    if Find(ps, k) == -1 || j <= Find(ps, k) then j - 1 else j
  }

  lemma MovedEntry(ps: seq<Peer>, responded: set<string>, r: Peer, j: int)
    requires Distinct(ps) && 0 < j < |MergeOne(ps, responded, r)|
    ensures var i := Before(ps, KeyOf(r), j);
            0 <= i < |ps| && MergeOne(ps, responded, r)[j] == ps[i] && KeyOf(ps[i]) != KeyOf(r)
  {
    FindMissing(ps, KeyOf(r));
    var i, f := Before(ps, KeyOf(r), j), Find(ps, KeyOf(r));
    if f == -1 {
      assert KeyOf(ps[i]) == KeyOf(r) ==> Has(ps, KeyOf(r));
    }
  }

  lemma OneDistinct(ps: seq<Peer>, responded: set<string>, r: Peer)
    requires Distinct(ps)
    ensures Distinct(MergeOne(ps, responded, r))
  {
    var qs := MergeOne(ps, responded, r);
    assert KeyOf(qs[0]) == KeyOf(r);
    forall i, j | 0 <= i < j < |qs| ensures KeyOf(qs[i]) != KeyOf(qs[j]) {
      MovedEntry(ps, responded, r, j);
      if i > 0 {
        MovedEntry(ps, responded, r, i);
      }
    }
  }

  lemma OneHas(ps: seq<Peer>, responded: set<string>, r: Peer, k: Key)
    requires Distinct(ps)
    ensures Has(MergeOne(ps, responded, r), k) <==> Has(ps, k) || k == KeyOf(r)
  {
    var qs, f := MergeOne(ps, responded, r), Find(ps, KeyOf(r));
    assert KeyOf(qs[0]) == KeyOf(r);
    if Has(ps, k) && k != KeyOf(r) {
      var i :| 0 <= i < |ps| && KeyOf(ps[i]) == k;
      var j := if f == -1 || i < f then i + 1 else i;
      assert qs[j] == ps[i];
    }
    if Has(qs, k) && k != KeyOf(r) {
      var j :| 0 <= j < |qs| && KeyOf(qs[j]) == k;
      MovedEntry(ps, responded, r, j);
    }
  }

  /** No peer appears twice, and none of the stored or answered ones is lost. */
  lemma {:induction false} NothingLost(loaded: seq<Peer>, rs: seq<Peer>, k: Key)
    requires Distinct(loaded)
    ensures Distinct(Merge(loaded, rs))
    ensures Has(Merge(loaded, rs), k) <==> Has(loaded, k) || LastAnswer(rs, k) >= 0
  {
    if rs == [] {
      var ps := Offline(loaded);
      assert forall i :: 0 <= i < |ps| ==> KeyOf(ps[i]) == KeyOf(loaded[i]);
    } else {
      var front, r := rs[..|rs| - 1], rs[|rs| - 1];
      NothingLost(loaded, front, k);
      OneDistinct(Merge(loaded, front), Ids(front), r);
      OneHas(Merge(loaded, front), Ids(front), r, k);
    }
  }

  lemma {:induction false} AnsweredIds(rs: seq<Peer>, k: Key)
    requires LastAnswer(rs, k) >= 0
    ensures k.id in Ids(rs)
  {
    if KeyOf(rs[|rs| - 1]) != k {
      AnsweredIds(rs[..|rs| - 1], k);
    }
  }

  lemma {:induction false} NoAnswerNoAddress(rs: seq<Peer>, k: Key)
    requires LastAnswer(rs, k) == -1
    ensures Addresses(rs, k) == map[] && !Shadowed(rs, k)
  {
    if rs != [] {
      NoAnswerNoAddress(rs[..|rs| - 1], k);
    }
  }

  lemma OldEntryExact(loaded: seq<Peer>, front: seq<Peer>, r: Peer, p: Peer)
    requires Exact(loaded, front, p) && KeyOf(p) != KeyOf(r)
    ensures Exact(loaded, front + [r], p)
  {
    assert (front + [r])[..|front|] == front;
  }

  lemma MapAssociates(a: map<string, string>, b: map<string, string>, c: map<string, string>)
    ensures a + (b + c) == (a + b) + c
    ensures a + map[] == a
  {
  }

  /** The entry that an answer becomes, when its peer had answered before. */
  lemma AgainExact(loaded: seq<Peer>, front: seq<Peer>, r: Peer, p: Peer)
    requires Exact(loaded, front, p) && KeyOf(p) == KeyOf(r) && LastAnswer(front, KeyOf(r)) >= 0
    ensures Exact(loaded, front + [r], r.(ipMac := r.ipMac + p.ipMac, online := true))
  {
    var rs, k := front + [r], KeyOf(r);
    assert rs[..|front|] == front;
    var extra := if Shadowed(front, k) then Stored(loaded, k) else map[];
    MapAssociates(r.ipMac, Addresses(front, k), extra);
    assert Shadowed(rs, k) == Shadowed(front, k);
    assert Addresses(rs, k) == r.ipMac + Addresses(front, k);
  }

  /** And when it answers for the first time. */
  lemma FirstExact(loaded: seq<Peer>, front: seq<Peer>, r: Peer)
    requires LastAnswer(front, KeyOf(r)) == -1 && r.online
    ensures var k := KeyOf(r);
            var extra := if r.id in Ids(front) then Stored(loaded, k) else map[];
            Exact(loaded, front + [r], r.(ipMac := r.ipMac + extra, online := true))
  {
    var rs, k := front + [r], KeyOf(r);
    assert rs[..|front|] == front;
    NoAnswerNoAddress(front, k);
    MapAssociates(r.ipMac, map[], map[]);
    assert Shadowed(rs, k) == (r.id in Ids(front));
    assert Addresses(rs, k) == r.ipMac;
  }

  lemma NewEntryExact(loaded: seq<Peer>, front: seq<Peer>, ps: seq<Peer>, r: Peer)
    requires Distinct(loaded) && r.online
    requires Has(ps, KeyOf(r)) <==> Has(loaded, KeyOf(r)) || LastAnswer(front, KeyOf(r)) >= 0
    requires Find(ps, KeyOf(r)) != -1 ==> Exact(loaded, front, ps[Find(ps, KeyOf(r))])
    ensures Exact(loaded, front + [r], Updated(ps, Ids(front), r))
  {
    var k := KeyOf(r);
    var i := Find(ps, k);
    FindMissing(ps, k);
    FindMissing(loaded, k);
    MapAssociates(r.ipMac, map[], map[]);
    if LastAnswer(front, k) >= 0 {
      AnsweredIds(front, k);
      AgainExact(loaded, front, r, ps[i]);
    } else {
      FirstExact(loaded, front, r);
    }
  }

  ghost predicate AllExact(loaded: seq<Peer>, rs: seq<Peer>, ps: seq<Peer>) {
    forall i :: 0 <= i < |ps| ==> Exact(loaded, rs, ps[i])
  }

  lemma StepExact(loaded: seq<Peer>, front: seq<Peer>, ps: seq<Peer>, r: Peer)
    requires Distinct(ps) && AllExact(loaded, front, ps)
    requires Exact(loaded, front + [r], Updated(ps, Ids(front), r))
    ensures AllExact(loaded, front + [r], MergeOne(ps, Ids(front), r))
  {
    var qs := MergeOne(ps, Ids(front), r);
    forall i | 0 <= i < |qs| ensures Exact(loaded, front + [r], qs[i]) {
      if i > 0 {
        MovedEntry(ps, Ids(front), r, i);
        OldEntryExact(loaded, front, r, ps[Before(ps, KeyOf(r), i)]);
      }
    }
  }

  lemma OfflineExact(loaded: seq<Peer>)
    requires Distinct(loaded)
    ensures AllExact(loaded, [], Offline(loaded))
  {
    var qs := Offline(loaded);
    forall i | 0 <= i < |qs| ensures Exact(loaded, [], qs[i]) {
      FindDistinct(loaded, i);
    }
  }

  lemma MergeLast(loaded: seq<Peer>, front: seq<Peer>, r: Peer)
    ensures Merge(loaded, front + [r]) == MergeOne(Merge(loaded, front), Ids(front), r)
  {
    assert (front + [r])[..|front|] == front;
  }

  /** Every entry of the result is exactly what the answers and the stored list say. */
  lemma {:induction false} MergeExact(loaded: seq<Peer>, rs: seq<Peer>)
    requires Distinct(loaded) && AllOnline(rs)
    ensures AllExact(loaded, rs, Merge(loaded, rs))
  {
    if rs == [] {
      OfflineExact(loaded);
    } else {
      var front, r := rs[..|rs| - 1], rs[|rs| - 1];
      MergeExact(loaded, front);
      ExactGrows(loaded, front, Merge(loaded, front), r);
      MergeLast(loaded, front, r);
      assert front + [r] == rs;
    }
  }

  lemma ExactGrows(loaded: seq<Peer>, front: seq<Peer>, ps: seq<Peer>, r: Peer)
    requires Distinct(loaded) && r.online && ps == Merge(loaded, front) && AllExact(loaded, front, ps)
    ensures AllExact(loaded, front + [r], MergeOne(ps, Ids(front), r))
  {
    NothingLost(loaded, front, KeyOf(r));
    NewEntryExact(loaded, front, ps, r);
    StepExact(loaded, front, ps, r);
  }

  /** In particular exactly the peers that answered are online. */
  lemma OnlineAreAnswered(loaded: seq<Peer>, rs: seq<Peer>, i: nat)
    requires Distinct(loaded) && AllOnline(rs) && i < |Merge(loaded, rs)|
    ensures Merge(loaded, rs)[i].online <==> LastAnswer(rs, KeyOf(Merge(loaded, rs)[i])) >= 0
  {
    MergeExact(loaded, rs);
    assert Exact(loaded, rs, Merge(loaded, rs)[i]);
  }

  lemma StepPrecedes(loaded: seq<Peer>, front: seq<Peer>, ps: seq<Peer>, responded: set<string>, r: Peer, i: nat, j: nat)
    requires Distinct(ps) && InOrder(loaded, front, ps) && i < j < |MergeOne(ps, responded, r)|
    ensures Precedes(loaded, front + [r], MergeOne(ps, responded, r)[i], MergeOne(ps, responded, r)[j])
  {
    var k := KeyOf(r);
    assert (front + [r])[..|front|] == front;
    MovedEntry(ps, responded, r, j);
    if i > 0 {
      MovedEntry(ps, responded, r, i);
      assert Before(ps, k, i) < Before(ps, k, j);
    }
  }

  lemma StepInOrder(loaded: seq<Peer>, front: seq<Peer>, ps: seq<Peer>, responded: set<string>, r: Peer)
    requires Distinct(ps) && InOrder(loaded, front, ps)
    ensures InOrder(loaded, front + [r], MergeOne(ps, responded, r))
  {
    var qs := MergeOne(ps, responded, r);
    forall i, j | 0 <= i < j < |qs| ensures Precedes(loaded, front + [r], qs[i], qs[j]) {
      StepPrecedes(loaded, front, ps, responded, r, i, j);
    }
  }

  lemma OfflineInOrder(loaded: seq<Peer>)
    requires Distinct(loaded)
    ensures InOrder(loaded, [], Offline(loaded))
  {
    var qs := Offline(loaded);
    forall i, j | 0 <= i < j < |qs| ensures Precedes(loaded, [], qs[i], qs[j]) {
      FindDistinct(loaded, i);
      FindDistinct(loaded, j);
      assert KeyOf(qs[i]) == KeyOf(loaded[i]) && KeyOf(qs[j]) == KeyOf(loaded[j]);
    }
  }

  /** The result is in order. */
  lemma {:induction false} MergeInOrder(loaded: seq<Peer>, rs: seq<Peer>)
    requires Distinct(loaded)
    ensures InOrder(loaded, rs, Merge(loaded, rs))
  {
    if rs == [] {
      OfflineInOrder(loaded);
    } else {
      var front, r := rs[..|rs| - 1], rs[|rs| - 1];
      MergeInOrder(loaded, front);
      NothingLost(loaded, front, KeyOf(r));
      StepInOrder(loaded, front, Merge(loaded, front), Ids(front), r);
      MergeLast(loaded, front, r);
      assert front + [r] == rs;
    }
  }

  // ----- when the addresses are those of this discovery alone

  ghost predicate OneUserPerId(rs: seq<Peer>) {
    forall i, j :: 0 <= i < |rs| && 0 <= j < |rs| && rs[i].id == rs[j].id ==> rs[i].username == rs[j].username
  }

  lemma {:induction false} IdsOfAnswers(rs: seq<Peer>, id: string) returns (i: nat)
    requires id in Ids(rs)
    ensures i < |rs| && rs[i].id == id
  {
    var n := |rs| - 1;
    if rs[n].id == id {
      i := n;
    } else {
      i := IdsOfAnswers(rs[..n], id);
    }
  }

  lemma {:induction false} NoShadow(rs: seq<Peer>, k: Key)
    requires OneUserPerId(rs)
    ensures !Shadowed(rs, k)
  {
    if rs != [] {
      var n := |rs| - 1;
      var front, r := rs[..n], rs[n];
      NoShadow(front, k);
      if KeyOf(r) == k && LastAnswer(front, k) == -1 && k.id in Ids(front) {
        var i := IdsOfAnswers(front, k.id);
        assert rs[i].username == rs[n].username;
        LaterThan(front, k, i);
        assert false;
      }
    }
  }

  lemma {:induction false} LaterThan(rs: seq<Peer>, k: Key, i: nat)
    requires i < |rs| && KeyOf(rs[i]) == k
    ensures LastAnswer(rs, k) >= i
  {
    if KeyOf(rs[|rs| - 1]) != k {
      LaterThan(rs[..|rs| - 1], k, i);
    }
  }

  /**
   Exactly when an answered entry has the addresses of this discovery alone: unless a shadow brings
   a stored address back. `NoShadow` tells when there is none.
   */
  lemma AddressesOfThisRun(loaded: seq<Peer>, rs: seq<Peer>, i: nat)
    requires Distinct(loaded) && AllOnline(rs) && i < |Merge(loaded, rs)|
    requires LastAnswer(rs, KeyOf(Merge(loaded, rs)[i])) >= 0
    ensures var p := Merge(loaded, rs)[i];
            var seen, stored := Addresses(rs, KeyOf(p)), Stored(loaded, KeyOf(p));
            p.ipMac == seen <==> (Shadowed(rs, KeyOf(p)) ==> seen + stored == seen)
  {
    var p := Merge(loaded, rs)[i];
    MergeExact(loaded, rs);
    assert Exact(loaded, rs, p);
    MapAssociates(Addresses(rs, KeyOf(p)), map[], map[]);
  }

  /** One does come back here: user "b" answers after user "a" of the same id. */
  lemma StaleAddress()
    ensures var b := Peer("1", "b", "", true, map["new" := "m"]);
            var loaded, rs := [b.(ipMac := map["old" := "m"])], [b.(username := "a"), b];
            var p := Merge(loaded, rs)[0];
            KeyOf(p) == KeyOf(b) && p.ipMac == map["new" := "m", "old" := "m"]
  {
    var b := Peer("1", "b", "", true, map["new" := "m"]);
    var a := b.(username := "a");
    var loaded, rs := [b.(ipMac := map["old" := "m"])], [a, b];
    var k := KeyOf(b);
    assert rs[..1] == [a] && [a][..0] == [];
    assert KeyOf(a) != k;
    assert LastAnswer([a], k) == -1 && Ids([a]) == {"1"};
    assert Shadowed(rs, k) && LastAnswer(rs, k) == 1;
    assert Addresses([a], k) == map[] && Addresses(rs, k) == map["new" := "m"];
    assert Find(loaded, k) == 0;
    MergeExact(loaded, rs);
    assert Exact(loaded, rs, Merge(loaded, rs)[0]);
  }

  /** The addresses of all answers: the first answer of the peer that has an address gives its value. */
  lemma {:induction false} EarliestWins(rs: seq<Peer>, k: Key, a: string) returns (i: int)
    ensures a in Addresses(rs, k) ==>
              && 0 <= i < |rs| && KeyOf(rs[i]) == k && a in rs[i].ipMac && Addresses(rs, k)[a] == rs[i].ipMac[a]
              && forall j :: 0 <= j < i && KeyOf(rs[j]) == k ==> a !in rs[j].ipMac
    ensures a !in Addresses(rs, k) ==> forall j :: 0 <= j < |rs| && KeyOf(rs[j]) == k ==> a !in rs[j].ipMac
  {
    i := -1;
    if rs != [] {
      var n := |rs| - 1;
      i := EarliestWins(rs[..n], k, a);
      if a !in Addresses(rs[..n], k) {
        i := n;
      }
    }
  }
}
