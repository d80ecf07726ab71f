/**
 Registration with several rendezvous servers (src/rendezvous_mediator.rs).

 One mediator task per server shares the identity, the confirmed-key flags of the configuration
 and the flag SOLVING_PK_MISMATCH, which names the server whose UUID_MISMATCH is being solved.
 Every handler is one atomic step.
 */
module Mediators {
  import opened HostPrefixes

  type Name = s: string | s != "" witness "h"

  /** The fields `host` and `host_prefix` of a mediator. */
  datatype Mediator = Mediator(host: Name, prefix: string)

  function New(host: Name): Mediator {
    Mediator(host, HostPrefix(host))
  }

  datatype Message = RegisterPk(id: string) | RegisterPeer(id: string)

  datatype Sent = Sent(who: Mediator, message: Message)

  /** What the tasks share. `solving` is empty when no mismatch is being solved. */
  datatype State = State(solving: string, confirmed: bool, keys: map<string, bool>, id: string) {
    predicate HostConfirmed(prefix: string) {
      prefix in keys && keys[prefix]
    }

    // Config::set_key_confirmed and Config::set_host_key_confirmed
    function SetConfirmed(v: bool): State {
      if confirmed == v then this else this.(confirmed := v, keys := if v then keys else map[])
    }

    function SetHostConfirmed(prefix: string): State {
      if HostConfirmed(prefix) then this else this.(keys := keys[prefix := true])
    }

    function WithdrawHost(prefix: string): State {
      if HostConfirmed(prefix) then this.(keys := keys[prefix := false]) else this
    }

    /** Whether a mediator may act although a mismatch may be being solved. */
    predicate Admits(m: Mediator) {
      solving == "" || solving == m.host
    }
  }

  /**
   One step: a timer tick, a response, a restart of all mediators, or one of the two places outside
   the mediators that withdraw the confirmation. `newId` is the identity drawn at random or chosen
   by the user. A confirmation does not say which request it answers; `request` is the step of the
   run that sent it. Over TCP a mediator starts with `TcpStart` and has another timer, which acts if
   the interval since its last request is over.
   */
  datatype Event =
    | Tick(who: Mediator)
    | PeerResponse(who: Mediator, requestPk: bool)
    | PkOk(who: Mediator, request: nat)
    | PkMismatch(who: Mediator, newId: string)
    | PkOther(who: Mediator)
    | Restart
    | ForcePk
    | UserId(newId: string)
    | TcpStart(who: Mediator)
    | TcpTick(who: Mediator, isDue: bool)

  function Step(s: State, e: Event): State {
    match e
    case PkOk(m, _) => s.SetConfirmed(true).SetHostConfirmed(m.prefix).(solving := "")
    case PkMismatch(m, newId) =>
      if s.Admits(m) then s.SetConfirmed(false).(id := newId, solving := m.host) else s
    case Restart => s.(solving := "")
    case ForcePk => s.SetConfirmed(false)
    case UserId(newId) => s.SetConfirmed(false).(id := newId)
    case TcpStart(m) => s.WithdrawHost(m.host)
    case _ => s
  }

  function Sends(s: State, e: Event): seq<Sent> {
    match e
    case Tick(m) =>
      if !s.Admits(m) then []
      else if s.confirmed && s.HostConfirmed(m.prefix) then [Sent(m, RegisterPeer(s.id))]
      else [Sent(m, RegisterPk(s.id))]
    case PeerResponse(m, requestPk) => if requestPk then [Sent(m, RegisterPk(s.id))] else []
    case PkMismatch(m, newId) => if s.Admits(m) then [Sent(m, RegisterPk(newId))] else []
    case TcpTick(m, isDue) =>
      if (!s.confirmed || !s.HostConfirmed(m.host)) && isDue then [Sent(m, RegisterPk(s.id))] else []
    case _ => []
  }

  // ----- the handlers, as the code runs them

  class Shared {
    var solving: string
    var confirmed: bool
    var keys: map<string, bool>
    var id: string
    var sent: seq<Sent>

    function View(): State
      reads this
    {
      State(solving, confirmed, keys, id)
    }

    method SetKeyConfirmed(v: bool)
      modifies `confirmed, `keys
      ensures View() == old(View()).SetConfirmed(v)
    {
      if confirmed == v {
        return;
      }
      confirmed := v;
      if !v {
        keys := map[];
      }
    }

    method SetHostKeyConfirmed(prefix: string, v: bool)
      modifies `keys
      ensures View() == if v then old(View()).SetHostConfirmed(prefix) else old(View()).WithdrawHost(prefix)
    {
      if (prefix in keys && keys[prefix]) == v {
        return;
      }
      keys := keys[prefix := v];
    }

    method SendRegisterPk(m: Mediator)
      modifies `sent
      ensures sent == old(sent) + [Sent(m, RegisterPk(id))]
    {
      sent := sent + [Sent(m, RegisterPk(id))];
    }

    /** `register_peer`, called by the timer. */
    method OnTick(m: Mediator)
      modifies this
      ensures View() == Step(old(View()), Tick(m))
      ensures sent == old(sent) + Sends(old(View()), Tick(m))
    {
      if !(solving == "" || solving == m.host) {
        return;
      }
      if !confirmed || !(m.prefix in keys && keys[m.prefix]) {
        SendRegisterPk(m);
        return;
      }
      sent := sent + [Sent(m, RegisterPeer(id))];
    }

    /** `handle_resp` on a RegisterPeerResponse. */
    method OnPeerResponse(m: Mediator, requestPk: bool)
      modifies this
      ensures View() == Step(old(View()), PeerResponse(m, requestPk))
      ensures sent == old(sent) + Sends(old(View()), PeerResponse(m, requestPk))
    {
      if requestPk {
        SendRegisterPk(m);
      }
    }

    /** `handle_resp` on a RegisterPkResponse with result OK. */
    method OnPkOk(m: Mediator, ghost request: nat)
      modifies this
      ensures View() == Step(old(View()), PkOk(m, request)) && sent == old(sent)
    {
      SetKeyConfirmed(true);
      SetHostKeyConfirmed(m.prefix, true);
      solving := "";
    }

    /** `handle_uuid_mismatch`. */
    method OnPkMismatch(m: Mediator, newId: string)
      modifies this
      ensures View() == Step(old(View()), PkMismatch(m, newId))
      ensures sent == old(sent) + Sends(old(View()), PkMismatch(m, newId))
    {
      if solving == "" || solving == m.host {
        SetKeyConfirmed(false);
        id := newId;
        solving := m.host;
      } else {
        return;
      }
      SendRegisterPk(m);
    }

    /** What `start_tcp` does before its loop: it uses the whole host name, not the prefix. */
    method OnTcpStart(m: Mediator)
      modifies this
      ensures View() == Step(old(View()), TcpStart(m)) && sent == old(sent)
    {
      SetHostKeyConfirmed(m.host, false);
    }

    /** The timer of `start_tcp`, which does not look at the solving flag. */
    method OnTcpTick(m: Mediator, isDue: bool)
      modifies this
      ensures View() == Step(old(View()), TcpTick(m, isDue))
      ensures sent == old(sent) + Sends(old(View()), TcpTick(m, isDue))
    {
      if (!confirmed || !(m.host in keys && keys[m.host])) && isDue {
        SendRegisterPk(m);
      }
    }
  }

  // ----- runs

  function After(s: State, es: seq<Event>): State {
    if es == [] then s else Step(After(s, es[..|es| - 1]), es[|es| - 1])
  }

  /** No host is confirmed unless the key is, and the key is not while a mismatch is being solved. */
  ghost predicate Inv(s: State) {
    && (s.solving != "" ==> !s.confirmed)
    && (!s.confirmed ==> forall p :: p in s.keys ==> !s.keys[p])
  }

  lemma {:induction false} InvHolds(s: State, es: seq<Event>)
    requires Inv(s)
    ensures Inv(After(s, es))
  {
    if es != [] {
      InvHolds(s, es[..|es| - 1]);
    }
  }

  /** In every run: while a mismatch is being solved, nothing that any task does sends RegisterPeer. */
  lemma {:induction false} NoPeerWhileSolving(s: State, es: seq<Event>, e: Event)
    requires Inv(s) && After(s, es).solving != ""
    ensures !After(s, es).confirmed
    ensures forall x :: x in Sends(After(s, es), e) ==> x.message.RegisterPk?
  {
    InvHolds(s, es);
  }

  /** The mismatch at position `i` of a run is acted upon: it changes the identity. */
  ghost predicate SolvesAt(s: State, es: seq<Event>, i: int) {
    0 <= i < |es| && es[i].PkMismatch? && After(s, es[..i]).Admits(es[i].who)
  }

  predicate Clears(e: Event) {
    e.PkOk? || e.Restart?
  }

  lemma {:induction false} SolverStays(s: State, es: seq<Event>, i: nat)
    requires i <= |es| && After(s, es[..i]).solving != ""
    requires forall k :: i <= k < |es| ==> !Clears(es[k])
    ensures After(s, es).solving == After(s, es[..i]).solving
  {
    if i == |es| {
      assert es[..i] == es;
    } else {
      var front := es[..|es| - 1];
      assert front[..i] == es[..i];
      SolverStays(s, front, i);
    }
  }

  /** In every run, all identity changes by a mismatch between two clearings of the flag are one host's. */
  lemma OneSolver(s: State, es: seq<Event>, i: nat, j: nat)
    requires i < j && SolvesAt(s, es, i) && SolvesAt(s, es, j)
    requires forall k :: i < k < j ==> !Clears(es[k])
    ensures es[i].who.host == es[j].who.host
  {
    var front := es[..j];
    assert front[..i + 1] == es[..i + 1];
    assert es[..i + 1][..i] == es[..i];
    assert After(s, es[..i + 1]).solving == es[i].who.host;
    SolverStays(s, front, i + 1);
  }

  // ----- whoever announces itself has had its key confirmed since the identity last changed

  /** The step at position `i` withdraws the confirmation; only such steps change the identity. */
  ghost predicate ResetsAt(s: State, es: seq<Event>, i: int) {
    0 <= i < |es| && (SolvesAt(s, es, i) || es[i].ForcePk? || es[i].UserId?)
  }

  /** The step withdraws the confirmation under this prefix: with all others, or over TCP by itself. */
  ghost predicate WithdrawsAt(s: State, es: seq<Event>, i: int, p: string) {
    ResetsAt(s, es, i) || (0 <= i < |es| && es[i].TcpStart? && es[i].who.host == p)
  }

  ghost predicate NotWithdrawnSince(s: State, es: seq<Event>, j: int, p: string) {
    forall i :: j < i < |es| ==> !WithdrawsAt(s, es, i, p)
  }

  ghost predicate NoResetSince(s: State, es: seq<Event>, j: int) {
    forall i :: j < i < |es| ==> !ResetsAt(s, es, i)
  }

  /**
   The confirmation at `j` concerns the prefix and has not been withdrawn; -1 stands for one that
   the run starts with.
   */
  ghost predicate Backs(s: State, es: seq<Event>, p: string, j: int) {
    && NotWithdrawnSince(s, es, j, p)
    && if j == -1 then s.HostConfirmed(p) else 0 <= j < |es| && es[j].PkOk? && es[j].who.prefix == p
  }

  /** The identity in use when the confirmation at `j` arrives. */
  ghost function IdAt(s: State, es: seq<Event>, j: int): string
    requires -1 <= j < |es|
  {
    if j == -1 then s.id else After(s, es[..j]).id
  }

  lemma ResetsInPrefix(s: State, es: seq<Event>, i: int)
    requires 0 <= i < |es| - 1
    ensures ResetsAt(s, es, i) <==> ResetsAt(s, es[..|es| - 1], i)
  {
    assert es[..|es| - 1][..i] == es[..i];
  }

  lemma {:induction false} KeyIsBacked(s: State, es: seq<Event>, p: string) returns (j: int)
    requires Inv(s) && After(s, es).HostConfirmed(p)
    ensures Backs(s, es, p, j)
  {
    var n := |es| - 1;
    if es == [] {
      j := -1;
    } else {
      var front, e := es[..n], es[n];
      InvHolds(s, front);
      if e.PkOk? && e.who.prefix == p {
        j := n;
      } else {
        assert !WithdrawsAt(s, es, n, p);
        j := KeyIsBacked(s, front, p);
        forall i | j < i < |es| ensures !WithdrawsAt(s, es, i, p) {
          if i < n {
            assert !WithdrawsAt(s, front, i, p);
            ResetsInPrefix(s, es, i);
          }
        }
      }
    }
  }

  lemma {:induction false} IdKept(s: State, es: seq<Event>, j: int)
    requires -1 <= j < |es| && NoResetSince(s, es, j) && (j >= 0 ==> es[j].PkOk?)
    ensures After(s, es).id == IdAt(s, es, j)
  {
    var n := |es| - 1;
    if j < n {
      var front := es[..n];
      assert j >= 0 ==> front[..j] == es[..j];
      forall i | j < i < |front| ensures !ResetsAt(s, front, i) {
        ResetsInPrefix(s, es, i);
      }
      IdKept(s, front, j);
      assert !ResetsAt(s, es, n);
    }
  }

  lemma NothingWithdrawn(s: State, es: seq<Event>, j: int, p: string)
    requires NotWithdrawnSince(s, es, j, p)
    ensures NoResetSince(s, es, j)
  {
    forall i | j < i < |es| ensures !ResetsAt(s, es, i) {
      assert !WithdrawsAt(s, es, i, p);
    }
  }

  /**
   In every run: a host that sends RegisterPeer has been confirmed, under its prefix, since the
   identity last changed, and announces the identity in use then.
   */
  lemma PeerIsBacked(s: State, es: seq<Event>, e: Event, x: Sent) returns (j: int)
    requires Inv(s) && x in Sends(After(s, es), e) && x.message.RegisterPeer?
    ensures Backs(s, es, x.who.prefix, j)
    ensures x.message.id == IdAt(s, es, j)
  {
    j := KeyIsBacked(s, es, x.who.prefix);
    NothingWithdrawn(s, es, j, x.who.prefix);
    IdKept(s, es, j);
  }

  // ----- which identity a confirmation is for

  /** The step at position `r` asks for a confirmation of `id`. */
  ghost predicate Requests(s: State, es: seq<Event>, r: int, who: Mediator, id: string) {
    0 <= r < |es| && Sent(who, RegisterPk(id)) in Sends(After(s, es[..r]), es[r])
  }

  /** The confirmation at `j` answers a request for `id`. */
  ghost predicate Confirms(s: State, es: seq<Event>, j: int, id: string) {
    0 <= j < |es| && es[j].PkOk? && es[j].request < j && Requests(s, es, es[j].request, es[j].who, id)
  }

  /** Every confirmation answers an earlier request of the same mediator. */
  ghost predicate Causal(s: State, es: seq<Event>) {
    forall j :: 0 <= j < |es| && es[j].PkOk? ==> exists id :: Confirms(s, es, j, id)
  }

  /** The step at position `k` sets the identity. */
  ghost predicate SetsIdAt(s: State, es: seq<Event>, k: int) {
    0 <= k < |es| && (SolvesAt(s, es, k) || es[k].UserId?)
  }

  ghost predicate NoIdSet(s: State, es: seq<Event>, r: int, j: int) {
    forall k :: r < k < j ==> !SetsIdAt(s, es, k)
  }

  /** The last step between `r` and `j` that sets the identity, if there is one, sets it to `id`. */
  ghost predicate LastSetTo(s: State, es: seq<Event>, r: int, j: int, id: string) {
    forall k :: r < k < j && SetsIdAt(s, es, k) && NoIdSet(s, es, k, j) ==> es[k].newId == id
  }

  lemma RequestCarriesId(s: State, e: Event, x: Sent)
    requires x in Sends(s, e)
    ensures x.message.id == Step(s, e).id
  {
  }

  lemma OneStep(s: State, es: seq<Event>, k: nat)
    requires k < |es|
    ensures After(s, es[..k + 1]) == Step(After(s, es[..k]), es[k])
  {
    assert es[..k + 1][..k] == es[..k];
  }

  lemma IdOfStep(s: State, e: Event)
    ensures Step(s, e).id == if (e.PkMismatch? && s.Admits(e.who)) || e.UserId? then e.newId else s.id
  {
  }

  lemma {:induction false} NoSetKeepsId(s: State, es: seq<Event>, r: nat, j: nat)
    requires r < j <= |es| && NoIdSet(s, es, r, j)
    ensures After(s, es[..j]).id == After(s, es[..r + 1]).id
    decreases j
  {
    if r + 1 < j {
      assert !SetsIdAt(s, es, j - 1);
      NoSetKeepsId(s, es, r, j - 1);
      OneStep(s, es, j - 1);
      IdOfStep(After(s, es[..j - 1]), es[j - 1]);
    }
  }

  lemma {:induction false} LastSet(s: State, es: seq<Event>, r: nat, j: nat) returns (k: nat)
    requires r < j <= |es|
    ensures r <= k < j && NoIdSet(s, es, k, j) && (k == r || SetsIdAt(s, es, k))
    decreases j
  {
    if r + 1 == j || SetsIdAt(s, es, j - 1) {
      k := j - 1;
    } else {
      k := LastSet(s, es, r, j - 1);
    }
  }

  /** The identity at `j` is `id`, which was in use after `r`, exactly if it was last set to it. */
  lemma SameIdExactly(s: State, es: seq<Event>, r: nat, j: nat, id: string)
    requires r < j <= |es| && After(s, es[..r + 1]).id == id
    ensures After(s, es[..j]).id == id <==> LastSetTo(s, es, r, j, id)
  {
    forall k | r < k < j && SetsIdAt(s, es, k) && NoIdSet(s, es, k, j)
      ensures es[k].newId == After(s, es[..j]).id
    {
      NoSetKeepsId(s, es, k, j);
      OneStep(s, es, k);
      IdOfStep(After(s, es[..k]), es[k]);
    }
    var k := LastSet(s, es, r, j);
    if k == r {
      NoSetKeepsId(s, es, r, j);
    }
  }

  /** Every identity that is set has not been in use before. */
  ghost predicate FreshIds(s: State, es: seq<Event>) {
    forall i, k :: 0 <= i <= k && SetsIdAt(s, es, k) ==> es[k].newId != After(s, es[..i]).id
  }

  lemma FreshIdsDecide(s: State, es: seq<Event>, r: nat, j: nat, id: string)
    requires FreshIds(s, es) && r < j <= |es| && After(s, es[..r + 1]).id == id
    ensures LastSetTo(s, es, r, j, id) <==> NoIdSet(s, es, r, j)
  {
    var k := LastSet(s, es, r, j);
    assert SetsIdAt(s, es, k) && r < k ==> es[k].newId != After(s, es[..r + 1]).id;
  }

  /**
   In every run: the identity that a host announces is the one that was confirmed if and only if the
   identity was not set between the request and the confirmation, or was last set back to it. If
   no identity ever comes back, if and only if it was not set in between.
   */
  lemma ConfirmedIsAnnounced(s: State, es: seq<Event>, e: Event, x: Sent, id: string) returns (j: int)
    requires Inv(s) && x in Sends(After(s, es), e) && x.message.RegisterPeer?
    ensures Backs(s, es, x.who.prefix, j) && x.message.id == IdAt(s, es, j)
    ensures Confirms(s, es, j, id) ==> (x.message.id == id <==> LastSetTo(s, es, es[j].request, j, id))
    ensures Confirms(s, es, j, id) && FreshIds(s, es) ==> (x.message.id == id <==> NoIdSet(s, es, es[j].request, j))
  {
    j := PeerIsBacked(s, es, e, x);
    if Confirms(s, es, j, id) {
      var r := es[j].request;
      OneStep(s, es, r);
      RequestCarriesId(After(s, es[..r]), es[r], Sent(es[j].who, RegisterPk(id)));
      SameIdExactly(s, es, r, j, id);
      if FreshIds(s, es) {
        FreshIdsDecide(s, es, r, j, id);
      }
    }
  }

  // ----- exactly what is sent

  /** The host acted on a mismatch at position `i`, or before the run, and nothing has cleared the flag since. */
  ghost predicate SolvesSince(s: State, es: seq<Event>, i: int, host: string) {
    && -1 <= i < |es|
    && (forall k :: i < k < |es| ==> !Clears(es[k]))
    && if i == -1 then s.solving == host else SolvesAt(s, es, i) && es[i].who.host == host
  }

  lemma SolvesInFront(s: State, es: seq<Event>, i: int, host: string)
    requires es != [] && -1 <= i < |es| - 1 && !Clears(es[|es| - 1])
    ensures SolvesSince(s, es[..|es| - 1], i, host) <==> SolvesSince(s, es, i, host)
  {
    var n := |es| - 1;
    assert i >= 0 ==> es[..n][..i] == es[..i];
    assert forall k :: i < k < n ==> es[..n][k] == es[k];
  }

  /** The flag names the host that is solving. */
  lemma {:induction false} SolverByPosition(s: State, es: seq<Event>) returns (i: int)
    ensures After(s, es).solving != "" ==> SolvesSince(s, es, i, After(s, es).solving)
  {
    var n := |es| - 1;
    if es == [] || SolvesAt(s, es, n) {
      i := n;
    } else {
      i := SolverByPosition(s, es[..n]);
      if After(s, es).solving != "" {
        assert !Clears(es[n]);
        SolvesInFront(s, es, i, After(s, es).solving);
      }
    }
  }

  lemma {:induction false} SolverIsNamed(s: State, es: seq<Event>, i: int, host: string)
    requires host != "" && SolvesSince(s, es, i, host)
    ensures After(s, es).solving == host
  {
    var n := |es| - 1;
    if i < n {
      assert !Clears(es[n]);
      SolvesInFront(s, es, i, host);
      SolverIsNamed(s, es[..n], i, host);
    }
  }

  /** A host other than `m` is solving a mismatch. */
  ghost predicate AnotherSolves(s: State, es: seq<Event>, m: Mediator) {
    exists i, host :: host != "" && host != m.host && SolvesSince(s, es, i, host)
  }

  lemma AdmitsByPosition(s: State, es: seq<Event>, m: Mediator)
    ensures After(s, es).Admits(m) <==> !AnotherSolves(s, es, m)
  {
    var i := SolverByPosition(s, es);
    if i', host :| host != "" && host != m.host && SolvesSince(s, es, i', host) {
      SolverIsNamed(s, es, i', host);
    }
  }

  lemma StepKeepsConfirmed(s: State, es: seq<Event>, p: string)
    requires es != [] && After(s, es[..|es| - 1]).confirmed && After(s, es[..|es| - 1]).HostConfirmed(p)
    requires !WithdrawsAt(s, es, |es| - 1, p)
    ensures After(s, es).confirmed && After(s, es).HostConfirmed(p)
  {
  }

  lemma BacksInFront(s: State, es: seq<Event>, p: string, j: int)
    requires es != [] && -1 <= j < |es| - 1 && Backs(s, es, p, j)
    ensures Backs(s, es[..|es| - 1], p, j) && !WithdrawsAt(s, es, |es| - 1, p)
  {
    var n := |es| - 1;
    forall i | j < i < n ensures !WithdrawsAt(s, es[..n], i, p) {
      assert !WithdrawsAt(s, es, i, p);
      ResetsInPrefix(s, es, i);
    }
  }

  /** The converse of `KeyIsBacked`: a confirmation that has not been withdrawn counts. */
  lemma {:induction false} BackedIsConfirmed(s: State, es: seq<Event>, p: string, j: int)
    requires Inv(s) && -1 <= j < |es| && Backs(s, es, p, j)
    ensures After(s, es).confirmed && After(s, es).HostConfirmed(p)
  {
    var n := |es| - 1;
    if j < n {
      BacksInFront(s, es, p, j);
      BackedIsConfirmed(s, es[..n], p, j);
      StepKeepsConfirmed(s, es, p);
    }
  }

  /** A confirmation under the prefix stands. */
  ghost predicate Backed(s: State, es: seq<Event>, p: string) {
    exists j :: -1 <= j < |es| && Backs(s, es, p, j)
  }

  lemma ConfirmedByPosition(s: State, es: seq<Event>, p: string)
    requires Inv(s)
    ensures After(s, es).confirmed && After(s, es).HostConfirmed(p) <==> Backed(s, es, p)
    ensures After(s, es).HostConfirmed(p) ==> After(s, es).confirmed
  {
    InvHolds(s, es);
    if After(s, es).HostConfirmed(p) {
      var j := KeyIsBacked(s, es, p);
      assert -1 <= j < |es|;
    }
    if j :| -1 <= j < |es| && Backs(s, es, p, j) {
      BackedIsConfirmed(s, es, p, j);
    }
  }

  /** The identity that was set last, or the first one. */
  ghost predicate IsLastId(s: State, es: seq<Event>, id: string) {
    && LastSetTo(s, es, -1, |es|, id)
    && (NoIdSet(s, es, -1, |es|) ==> id == s.id)
  }

  lemma {:induction false} IdByPosition(s: State, es: seq<Event>)
    ensures IsLastId(s, es, After(s, es).id)
  {
    forall k | -1 < k < |es| && SetsIdAt(s, es, k) && NoIdSet(s, es, k, |es|)
      ensures es[k].newId == After(s, es).id
    {
      assert es[..|es|] == es;
      NoSetKeepsId(s, es, k, |es|);
      OneStep(s, es, k);
      IdOfStep(After(s, es[..k]), es[k]);
    }
    if es != [] && NoIdSet(s, es, -1, |es|) {
      assert es[..|es|] == es && es[..0] == [];
      assert !SetsIdAt(s, es, 0);
      OneStep(s, es, 0);
      IdOfStep(s, es[0]);
      NoSetKeepsId(s, es, 0, |es|);
    }
  }

  lemma OneLastId(s: State, es: seq<Event>, id: string)
    requires IsLastId(s, es, id)
    ensures id == After(s, es).id
  {
    IdByPosition(s, es);
    if es != [] {
      var k := LastSet(s, es, 0, |es|);
      if !SetsIdAt(s, es, k) {
        assert NoIdSet(s, es, -1, |es|);
      }
    }
  }

  /** What is sent in a state, by whether another host is solving and which confirmations stand. */
  ghost predicate SendsBy(t: State, m: Mediator, id: string, newId: string, other: bool, prefix: bool, whole: bool) {
    var ask := [Sent(m, RegisterPk(id))];
    && Sends(t, Tick(m)) == (if other then [] else if prefix then [Sent(m, RegisterPeer(id))] else ask)
    && Sends(t, PeerResponse(m, true)) == ask && Sends(t, PeerResponse(m, false)) == []
    && Sends(t, PkMismatch(m, newId)) == (if other then [] else [Sent(m, RegisterPk(newId))])
    && Sends(t, TcpTick(m, true)) == (if whole then [] else ask)
    && Sends(t, TcpTick(m, false)) == []
  }

  lemma SendsOfState(t: State, m: Mediator, newId: string)
    ensures SendsBy(t, m, t.id, newId, !t.Admits(m), t.confirmed && t.HostConfirmed(m.prefix), t.confirmed && t.HostConfirmed(m.host))
  {
  }

  /**
   In every run, exactly what a mediator sends. A timer tick is silent if and only if another host is
   solving a mismatch; otherwise it announces the identity set last if a confirmation under the prefix
   stands, and asks for its confirmation if none does. A request for the key is always answered. A
   mismatch makes it ask for the new identity unless another host is solving. Over TCP a due tick asks
   unless a confirmation under the whole name stands.
   */
  lemma SendsExactly(s: State, es: seq<Event>, m: Mediator, id: string, newId: string)
    requires Inv(s) && IsLastId(s, es, id)
    ensures SendsBy(After(s, es), m, id, newId, AnotherSolves(s, es, m), Backed(s, es, m.prefix), Backed(s, es, m.host))
  {
    OneLastId(s, es, id);
    AdmitsByPosition(s, es, m);
    ConfirmedByPosition(s, es, m.prefix);
    ConfirmedByPosition(s, es, m.host);
    SendsOfState(After(s, es), m, newId);
  }

  /** The second of two servers asks for its key although the first has confirmed it. */
  lemma SecondServerAsks()
    ensures Sends(After(NEW, [Tick(A), PkOk(A, 0)]), Tick(B)) == [Sent(B, RegisterPk("1"))]
  {
    var es := [Tick(A), PkOk(A, 0)];
    PrefixOfRun(es, 0);
    OneStep(NEW, es, 0);
    OneStep(NEW, es, 1);
    PrefixesDiffer();
  }

  lemma PrefixesDiffer()
    ensures A.prefix == "a" && B.prefix == "b"
  {
    WholeName("a");
    WholeName("b");
  }

  const A := New("a")
  const B := New("b")
  const LATE := [Tick(A), Tick(B), PkMismatch(A, "2"), PkOk(B, 1)]

  lemma PrefixOfRun(es: seq<Event>, k: nat)
    requires k < |es|
    ensures es[..k + 1] == es[..k] + [es[k]] && es[..0] == [] && es[..|es|] == es
  {
  }

  /** A late confirmation: host B then announces identity 2, of which no server has heard. */
  lemma LateConfirmation()
    ensures var s := State("", false, map[], "1");
            && Causal(s, LATE) && Confirms(s, LATE, 3, "1")
            && After(s, LATE).solving == ""
            && Sends(After(s, LATE), Tick(B)) == [Sent(B, RegisterPeer("2"))]
  {
    var s := State("", false, map[], "1");
    PrefixOfRun(LATE, 0);
    OneStep(s, LATE, 0);
    OneStep(s, LATE, 1);
    OneStep(s, LATE, 2);
    OneStep(s, LATE, 3);
    assert After(s, LATE[..3]) == State("a", false, map[], "2");
    assert Confirms(s, LATE, 3, "1");
  }

  // ----- whose confirmation it is

  ghost predicate Unconfirmed(s: State) {
    Inv(s) && forall p :: p in s.keys ==> !s.keys[p]
  }

  /** All mediators that are confirmed in the run are among these. */
  ghost predicate RunOf(hosts: set<Mediator>, es: seq<Event>) {
    forall j :: 0 <= j < |es| && es[j].PkOk? ==> es[j].who in hosts
  }

  /** The mediator has itself been confirmed, and the confirmation has not been withdrawn. */
  ghost predicate OwnConfirmation(s: State, es: seq<Event>, m: Mediator) {
    exists j :: 0 <= j < |es| && es[j].PkOk? && es[j].who == m && NotWithdrawnSince(s, es, j, m.prefix)
  }

  /** A possible run, after which the mediator announces itself. */
  ghost predicate AnnouncesAfter(hosts: set<Mediator>, s: State, es: seq<Event>, m: Mediator) {
    && m in hosts && Unconfirmed(s) && Causal(s, es) && RunOf(hosts, es)
    && exists x :: x in Sends(After(s, es), Tick(m)) && x.message.RegisterPeer?
  }

  ghost predicate DistinctPrefixes(hosts: set<Mediator>) {
    forall a, b :: a in hosts && b in hosts && a.prefix == b.prefix ==> a == b
  }

  lemma OwnIfDistinct(hosts: set<Mediator>, s: State, es: seq<Event>, m: Mediator)
    requires DistinctPrefixes(hosts) && AnnouncesAfter(hosts, s, es, m)
    ensures OwnConfirmation(s, es, m)
  {
    var j := KeyIsBacked(s, es, m.prefix);
    assert es[j].who == m;
  }

  const NEW := State("", false, map[], "1")

  /** If two mediators share a prefix, the confirmation of one lets the other announce itself. */
  lemma Borrowed(hosts: set<Mediator>, a: Mediator, b: Mediator)
    requires a in hosts && b in hosts && a != b && a.prefix == b.prefix
    ensures AnnouncesAfter(hosts, NEW, [Tick(a), PkOk(a, 0)], b)
    ensures !OwnConfirmation(NEW, [Tick(a), PkOk(a, 0)], b)
  {
    var es := [Tick(a), PkOk(a, 0)];
    PrefixOfRun(es, 0);
    OneStep(NEW, es, 0);
    OneStep(NEW, es, 1);
    assert Confirms(NEW, es, 1, "1");
    assert Sends(After(NEW, es), Tick(b)) == [Sent(b, RegisterPeer("1"))];
    assert Sent(b, RegisterPeer("1")) in Sends(After(NEW, es), Tick(b));
  }

  /**
   Exactly when in every run whoever announces itself has been confirmed itself: when no two hosts
   have the same prefix.
   */
  lemma OwnConfirmationExact(hosts: set<Mediator>)
    ensures DistinctPrefixes(hosts)
            <==> forall s, es, m :: AnnouncesAfter(hosts, s, es, m) ==> OwnConfirmation(s, es, m)
  {
    if DistinctPrefixes(hosts) {
      forall s, es, m | AnnouncesAfter(hosts, s, es, m) ensures OwnConfirmation(s, es, m) {
        OwnIfDistinct(hosts, s, es, m);
      }
    } else {
      var a, b :| a in hosts && b in hosts && a.prefix == b.prefix && a != b;
      Borrowed(hosts, a, b);
    }
  }

  /** Two servers whose names differ only behind the first dot, as rs.a.net and rs.b.net, share it. */
  lemma SharedPrefix(first: string, x: string, y: string)
    requires '.' !in first && first != "" && 'a' <= first[0] <= 'z' && x != y
    ensures !DistinctPrefixes({New(first + ("." + x)), New(first + ("." + y))})
  {
    var g, h := first + ("." + x), first + ("." + y);
    SharedLabel(first, x, y);
    assert g[|first| + 1..] == x && h[|first| + 1..] == y;
    assert New(g) in {New(g), New(h)} && New(h) in {New(g), New(h)};
  }

  // ----- over TCP

  /** A possible run, after which a due tick of the mediator over TCP asks for nothing. */
  ghost predicate SettledAfter(hosts: set<Mediator>, s: State, es: seq<Event>, m: Mediator) {
    Unconfirmed(s) && Causal(s, es) && RunOf(hosts, es) && Sends(After(s, es), TcpTick(m, true)) == []
  }

  lemma SettledHasPrefix(hosts: set<Mediator>, s: State, es: seq<Event>, m: Mediator)
    requires SettledAfter(hosts, s, es, m)
    ensures exists a :: a in hosts && a.prefix == m.host
  {
    var j := KeyIsBacked(s, es, m.host);
    assert es[j].who in hosts;
  }

  lemma PrefixSettles(hosts: set<Mediator>, a: Mediator, m: Mediator)
    requires a in hosts && a.prefix == m.host
    ensures SettledAfter(hosts, NEW, [TcpTick(a, true), PkOk(a, 0)], m)
  {
    var es := [TcpTick(a, true), PkOk(a, 0)];
    PrefixOfRun(es, 0);
    OneStep(NEW, es, 0);
    OneStep(NEW, es, 1);
    assert Confirms(NEW, es, 1, "1");
  }

  /**
   Over TCP the flag is set under the prefix and looked up under the whole name. A mediator can come
   to rest in some run if and only if its whole name is some host's prefix; otherwise it asks again
   at every due tick of every run, whatever has been confirmed.
   */
  lemma TcpSettlesExact(hosts: set<Mediator>, m: Mediator)
    ensures (exists s, es :: SettledAfter(hosts, s, es, m)) <==> exists a :: a in hosts && a.prefix == m.host
  {
    if s, es :| SettledAfter(hosts, s, es, m) {
      SettledHasPrefix(hosts, s, es, m);
    }
    if a :| a in hosts && a.prefix == m.host {
      PrefixSettles(hosts, a, m);
    }
  }

  /** So a single host comes to rest exactly if its name has no dot or starts with a number. */
  lemma TcpSettlesAlone(host: Name)
    ensures (exists s, es :: SettledAfter({New(host)}, s, es, New(host))) <==> IsI32(Label(host)) || '.' !in host
  {
    TcpSettlesExact({New(host)}, New(host));
    WholeName(host);
    assert New(host) in {New(host)};
  }
}
