/**
 The registry of user-interface sessions (module `sessions` in src/flutter.rs): for each peer and
 connection type one session with the ids of the interfaces that show it. Every operation is one
 atomic step.
 */
module SessionRegistry {
  import opened Options

  datatype ConnType = DefaultConn | FileTransfer | PortForward | Rdp

  datatype PeerKey = PeerKey(peer: string, conn: ConnType)

  /** A session object and the keys of its map of handlers. */
  datatype Entry = Entry(session: int, handlers: set<int>)

  type Registry = map<PeerKey, Entry>

  // ----- the operations on values

  /** Some entry shows the interface. */
  predicate Shows(m: Registry, ui: int) {
    exists k :: k in m && ui in m[k].handlers
  }

  function Insert(m: Registry, k: PeerKey, session: int, ui: int): Registry {
    m[k := if k in m then m[k].(handlers := m[k].handlers + {ui}) else Entry(session, {ui})]
  }

  /** `session_add`: refused when the id is already in use. */
  function Add(m: Registry, k: PeerKey, session: int, ui: int): Registry {
    if Shows(m, ui) then m else Insert(m, k, session, ui)
  }

  /** `session_add_existed`: does nothing without a session for the peer, and checks nothing. */
  function AddExisted(m: Registry, k: PeerKey, ui: int): Registry {
    if k in m then m[k := m[k].(handlers := m[k].handlers + {ui})] else m
  }

  // ----- what the registry keeps

  /** Every session is shown by some interface. */
  predicate NoneEmpty(m: Registry) {
    forall k :: k in m ==> m[k].handlers != {}
  }

  /** Every interface shows one session at most. */
  ghost predicate Unique(m: Registry) {
    forall k, l, ui :: k in m && l in m && ui in m[k].handlers && ui in m[l].handlers ==> k == l
  }

  /** The id leaves one entry, which disappears if it was its last. */
  function RemoveAt(m: Registry, k: PeerKey, ui: int): Registry
    requires k in m
  {
    if m[k].handlers == {ui} then m - {k} else m[k := m[k].(handlers := m[k].handlers - {ui})]
  }

  // ----- as the code runs them

  class Sessions {
    var sessions: Registry

    method SessionAdd(key: PeerKey, session: int, ui: int) returns (ok: bool)
      modifies this
      ensures sessions == Add(old(sessions), key, session, ui)
      ensures ok == !Shows(old(sessions), ui)
    {
      var found := GetKeyBySessionId(ui);
      if found.Some? {
        return false;
      }
      InsertSession(key, session, ui);
      ok := true;
    }

    /** The search of `get_session_by_session_id` through the values, in the order they come. */
    method GetKeyBySessionId(ui: int) returns (r: Option<PeerKey>)
      ensures r.Some? <==> Shows(sessions, ui)
      ensures r.Some? ==> r.value in sessions && ui in sessions[r.value].handlers
    {
      var rest := sessions.Keys;
      while rest != {}
        invariant rest <= sessions.Keys
        invariant forall k :: k in sessions && k !in rest ==> ui !in sessions[k].handlers
        decreases rest
      {
        var k :| k in rest;
        if ui in sessions[k].handlers {
          return Some(k);
        }
        rest := rest - {k};
      }
      r := None;
    }

    method InsertSession(key: PeerKey, session: int, ui: int)
      modifies this
      ensures sessions == Insert(old(sessions), key, session, ui)
    {
      if key !in sessions {
        sessions := sessions[key := Entry(session, {})];
        assert {} + {ui} == {ui};
      }
      sessions := sessions[key := sessions[key].(handlers := sessions[key].handlers + {ui})];
    }

    method InsertPeerSessionId(key: PeerKey, ui: int) returns (ok: bool)
      modifies this
      ensures sessions == AddExisted(old(sessions), key, ui)
      ensures ok == (key in old(sessions))
    {
      if key in sessions {
        sessions := sessions[key := sessions[key].(handlers := sessions[key].handlers + {ui})];
        ok := true;
      } else {
        ok := false;
      }
    }

    /** Stops at the first entry that shows the interface, in whatever order the map is traversed. */
    method RemoveSessionBySessionId(ui: int) returns (r: Option<int>, ghost at: PeerKey)
      modifies this
      ensures sessions == Step(old(sessions), OpRemove(ui, at))
      ensures Finds(old(sessions), ui, at) <==> Shows(old(sessions), ui)
      ensures r == if Finds(old(sessions), ui, at) && old(sessions)[at].handlers == {ui}
                   then Some(old(sessions)[at].session) else None
    {
      var removePeerKey := GetKeyBySessionId(ui);
      r := None;
      at := PeerKey("", DefaultConn);
      if removePeerKey.Some? {
        var k := removePeerKey.value;
        at := k;
        var entry := sessions[k];
        sessions := sessions[k := entry.(handlers := entry.handlers - {ui})];
        if sessions[k].handlers == {} {
          assert entry.handlers == {ui};
          r := Some(entry.session);
          sessions := sessions - {k};
        }
      }
    }
  }

  // ----- runs

  datatype Op =
    | OpAdd(key: PeerKey, session: int, ui: int)
    | OpAddExisted(key: PeerKey, ui: int)
    | OpRemove(ui: int, at: PeerKey)

  /** A search for the interface can stop at this entry. */
  predicate Finds(m: Registry, ui: int, at: PeerKey) {
    at in m && ui in m[at].handlers
  }

  /** A removal stops at the entry `at`; the order in which the map is traversed decides which it is. */
  function Step(m: Registry, op: Op): Registry {
    match op
    case OpAdd(k, session, ui) => Add(m, k, session, ui)
    case OpAddExisted(k, ui) => AddExisted(m, k, ui)
    case OpRemove(ui, at) => if Finds(m, ui, at) then RemoveAt(m, at, ui) else m
  }

  function After(ops: seq<Op>): Registry {
    if ops == [] then map[] else Step(After(ops[..|ops| - 1]), ops[|ops| - 1])
  }

  /** The id is not shown for any other peer; the code relies on it and does not check it. */
  predicate NotElsewhere(m: Registry, k: PeerKey, ui: int) {
    forall l :: l in m && ui in m[l].handlers ==> l == k
  }

  /** Exactly then does `session_add_existed` keep every interface at one session. */
  lemma AddExistedExact(m: Registry, k: PeerKey, ui: int)
    requires Unique(m) && k in m
    ensures Unique(AddExisted(m, k, ui)) <==> NotElsewhere(m, k, ui)
  {
    var n := AddExisted(m, k, ui);
    if !NotElsewhere(m, k, ui) {
      var l :| l in m && ui in m[l].handlers && l != k;
      assert ui in n[k].handlers && ui in n[l].handlers;
    }
  }

  ghost predicate Fresh(ops: seq<Op>) {
    forall i :: 0 <= i < |ops| && ops[i].OpAddExisted? ==> NotElsewhere(After(ops[..i]), ops[i].key, ops[i].ui)
  }

  /** In every run with fresh ids no session is left without an interface, and no interface has two. */
  lemma {:induction false} RegistryHolds(ops: seq<Op>)
    requires Fresh(ops)
    ensures NoneEmpty(After(ops)) && Unique(After(ops))
  {
    if ops != [] {
      var n := |ops| - 1;
      var front, op := ops[..n], ops[n];
      forall i | 0 <= i < n && front[i].OpAddExisted?
        ensures NotElsewhere(After(front[..i]), front[i].key, front[i].ui)
      {
        assert front[..i] == ops[..i];
        assert ops[i].OpAddExisted?;
      }
      RegistryHolds(front);
      if op.OpAddExisted? {
        assert NotElsewhere(After(ops[..n]), op.key, op.ui);
        if op.key in After(front) {
          AddExistedExact(After(front), op.key, op.ui);
        }
      }
    }
  }

  const A := PeerKey("a", DefaultConn)
  const B := PeerKey("b", DefaultConn)
  const TWICE := [OpAdd(A, 1, 7), OpAdd(B, 2, 8), OpAddExisted(B, 7)]

  /** A run after which interface 7 shows two sessions; one removal leaves it at the other. */
  lemma TwoSessionsForOne()
    ensures !Unique(After(TWICE)) && Finds(After(TWICE), 7, A) && Finds(After(TWICE), 7, B)
    ensures Shows(Step(After(TWICE), OpRemove(7, A)), 7)
  {
    assert TWICE[..2] == [OpAdd(A, 1, 7), OpAdd(B, 2, 8)];
    assert TWICE[..2][..1] == [OpAdd(A, 1, 7)];
    assert TWICE[..2][..1][..0] == [];
    assert A != B by {
      assert "a"[0] != "b"[0];
    }
    assert After([]) == map[] && !Shows(map[], 7);
    var m1 := After(TWICE[..2][..1]);
    assert m1 == map[A := Entry(1, {7})];
    var m2 := After(TWICE[..2]);
    assert m2 == map[A := Entry(1, {7}), B := Entry(2, {8})];
    var m := After(TWICE);
    assert 7 in m[A].handlers && 7 in m[B].handlers;
    assert Finds(RemoveAt(m, A, 7), 7, B);
  }

  /** Who shows whom after an id is added: the id at its peer, if it was not in use, and all as before. */
  lemma AddIsExact(m: Registry, k: PeerKey, session: int, ui: int, l: PeerKey, other: int)
    ensures var n := Add(m, k, session, ui);
            && (Finds(n, other, l) <==> Finds(m, other, l) || (other == ui && l == k && !Shows(m, ui)))
            && (l in m ==> l in n && n[l].session == m[l].session)
            && (l in n && l !in m ==> l == k && n[l].session == session)
  {
  }

  lemma AddExistedIsExact(m: Registry, k: PeerKey, ui: int, l: PeerKey, other: int)
    ensures var n := AddExisted(m, k, ui);
            && n.Keys == m.Keys
            && (Finds(n, other, l) <==> Finds(m, other, l) || (other == ui && l == k && k in m))
            && (l in m ==> n[l].session == m[l].session)
  {
  }

  /** Removing an id afterwards undoes adding it: the entry is back as it was, or gone if it was new. */
  lemma RemoveUndoesAdd(m: Registry, k: PeerKey, session: int, ui: int, at: PeerKey)
    requires NoneEmpty(m) && !Shows(m, ui) && Finds(Add(m, k, session, ui), ui, at)
    ensures at == k && Step(Add(m, k, session, ui), OpRemove(ui, at)) == m
  {
    var n := Add(m, k, session, ui);
    if k in m {
      assert ui !in m[k].handlers;
      assert n[k].handlers - {ui} == m[k].handlers;
      assert n[k].handlers != {ui};
    } else {
      assert n - {k} == m;
    }
  }

  /**
   In every run with fresh ids: a removal can find only one entry; it takes the session away exactly
   if this was its last interface, and leaves every other interface where it was.
   */
  lemma RemovalIsLocal(ops: seq<Op>, ui: int, at: PeerKey, other: int, k: PeerKey)
    requires Fresh(ops) && Finds(After(ops), ui, at)
    ensures var m := After(ops);
            var n := Step(m, OpRemove(ui, at));
            && (Finds(m, ui, k) <==> k == at)
            && !Shows(n, ui)
            && (at !in n <==> m[at].handlers == {ui})
            && (other != ui ==> (Finds(m, other, k) <==> Finds(n, other, k)))
  {
    RegistryHolds(ops);
  }
}
