/**
 The host's services and the connections subscribed to them (src/server.rs, src/server/service.rs).
 A service with snapshots keeps new subscribers apart until it has sent them one.
 */
module ServiceHub {
  import opened Text

  // ----- one service

  datatype Service = Service(needSnapshot: bool, subscribes: set<int>, newSubscribes: set<int>) {
    predicate IsSubed(id: int) {
      id in subscribes || id in newSubscribes
    }

    function OnSubscribe(id: int): Service {
      if id in subscribes then this
      else if needSnapshot then this.(newSubscribes := newSubscribes + {id})
      else this.(subscribes := subscribes + {id})
    }

    /** Looks among the new subscribers only if the id is not among the others. */
    function OnUnsubscribe(id: int): Service {
      if id in subscribes then this.(subscribes := subscribes - {id})
      else this.(newSubscribes := newSubscribes - {id})
    }

    /** `swap_new_subscribes`, by the service's own thread. */
    function Swap(): Service {
      this.(subscribes := subscribes + newSubscribes, newSubscribes := {})
    }

    /** Nobody is both old and new, and without snapshots nobody is new. */
    predicate Valid() {
      subscribes !! newSubscribes && (!needSnapshot ==> newSubscribes == {})
    }
  }

  /** Unsubscribing fails for exactly the ids that are in both sets. */
  lemma UnsubscribeExact(s: Service, id: int)
    ensures s.OnUnsubscribe(id).IsSubed(id) <==> id in s.subscribes && id in s.newSubscribes
  {
  }

  // ----- the server on values

  type Services = map<string, Service>

  predicate IsVideo(name: string) {
    "video" <= name
  }

  function ServiceName(display: nat): string {
    "video" + Decimal(display)
  }

  predicate Subed(m: Services, name: string, id: int) {
    name in m && m[name].IsSubed(id)
  }

  function Subscribe(s: Service, id: int, sub: bool): Service {
    if s.IsSubed(id) == sub then s else if sub then s.OnSubscribe(id) else s.OnUnsubscribe(id)
  }

  function Captured(name: string, s: Service, id: int, names: set<string>, including: bool, excluding: bool): Service {
    if !IsVideo(name) then s
    else if name in names then (if including then Subscribe(s, id, true) else s)
    else if excluding then Subscribe(s, id, false) else s
  }

  function Capture(m: Services, id: int, names: set<string>, including: bool, excluding: bool): Services {
    map name | name in m :: Captured(name, m[name], id, names, including, excluding)
  }

  predicate Joins(name: string, primary: string, noperms: set<string>) {
    !(IsVideo(name) && name != primary) && name !in noperms
  }

  function AddTo(m: Services, id: int, primary: string, noperms: set<string>): Services {
    map name | name in m :: if Joins(name, primary, noperms) then m[name].OnSubscribe(id) else m[name]
  }

  function RemoveFrom(m: Services, id: int): Services {
    map name | name in m :: m[name].OnUnsubscribe(id)
  }

  // ----- the server, as the code runs it

  class Server {
    var connections: set<int>
    var services: Services
    var connCount: int

    /** A single server in the process, so that nobody else writes the global CONN_COUNT. */
    ghost predicate Valid()
      reads this
    {
      && connCount == |connections|
      && forall name :: name in services ==> services[name].Valid()
    }

    constructor ()
      ensures Valid() && connections == {} && services == map[]
    {
      connections, services, connCount := {}, map[], 0;
    }

    method AddService(name: string, needSnapshot: bool)
      requires Valid()
      modifies `services
      ensures Valid() && services == old(services)[name := Service(needSnapshot, {}, {})]
    {
      services := services[name := Service(needSnapshot, {}, {})];
    }

    /** The snapshot of a service's thread. */
    method SwapNewSubscribes(name: string)
      requires Valid()
      modifies `services
      ensures Valid()
      ensures services == if name in old(services)
                          then old(services)[name := old(services)[name].Swap()] else old(services)
    {
      if name in services {
        services := services[name := services[name].Swap()];
      }
    }

    method AddConnection(id: int, noperms: set<string>, primary: string)
      requires Valid()
      modifies this
      ensures Valid() && connections == old(connections) + {id}
      ensures services == AddTo(old(services), id, primary, noperms)
    {
      var rest := services.Keys;
      ghost var before := services;
      while rest != {}
        invariant rest <= services.Keys == before.Keys
        invariant forall name :: name in rest ==> services[name] == before[name]
        invariant forall name :: name in before && name !in rest ==>
          services[name] == if Joins(name, primary, noperms) then before[name].OnSubscribe(id) else before[name]
        invariant connections == old(connections)
        decreases rest
      {
        var name :| name in rest;
        rest := rest - {name};
        if IsVideo(name) && name != primary {
          continue;
        }
        if name !in noperms {
          services := services[name := services[name].OnSubscribe(id)];
        }
      }
      connections := connections + {id};
      connCount := |connections|;
    }

    method RemoveConnection(id: int)
      requires Valid()
      modifies this
      ensures Valid() && connections == old(connections) - {id}
      ensures services == RemoveFrom(old(services), id)
    {
      var rest := services.Keys;
      ghost var before := services;
      while rest != {}
        invariant rest <= services.Keys == before.Keys
        invariant forall name :: name in rest ==> services[name] == before[name]
        invariant forall name :: name in before && name !in rest ==> services[name] == before[name].OnUnsubscribe(id)
        invariant connections == old(connections)
        decreases rest
      {
        var name :| name in rest;
        services := services[name := services[name].OnUnsubscribe(id)];
        rest := rest - {name};
      }
      connections := connections - {id};
      connCount := |connections|;
    }

    method SubscribeTo(name: string, id: int, sub: bool)
      requires Valid()
      modifies `services
      ensures Valid()
      ensures services == if name in old(services)
                          then old(services)[name := Subscribe(old(services)[name], id, sub)] else old(services)
    {
      if name in services {
        var s := services[name];
        if s.IsSubed(id) == sub {
          return;
        }
        if sub {
          services := services[name := s.OnSubscribe(id)];
        } else {
          services := services[name := s.OnUnsubscribe(id)];
        }
      }
    }

    method CaptureDisplays(id: int, displays: seq<nat>, including: bool, excluding: bool)
      requires Valid()
      modifies `services
      ensures Valid()
      ensures services == Capture(old(services), id, Names(displays), including, excluding)
    {
      var names := Names(displays);
      var rest := services.Keys;
      ghost var before := services;
      while rest != {}
        invariant rest <= services.Keys == before.Keys
        invariant forall name :: name in rest ==> services[name] == before[name]
        invariant forall name :: name in before && name !in rest ==>
          services[name] == Captured(name, before[name], id, names, including, excluding)
        decreases rest
      {
        var name :| name in rest;
        rest := rest - {name};
        if IsVideo(name) {
          if name in names {
            if including {
              SubscribeTo(name, id, true);
            }
          } else {
            if excluding {
              SubscribeTo(name, id, false);
            }
          }
        }
      }
    }
  }

  function Names(displays: seq<nat>): set<string> {
    set i | 0 <= i < |displays| :: ServiceName(displays[i])
  }

  // ----- runs of all operations of a server

  datatype Op =
    | NewService(name: string, needSnapshot: bool)
    | Snapshot(name: string)
    | Add(id: int, noperms: set<string>, primary: string)
    | Remove(id: int)
    | Sub(name: string, id: int, sub: bool)
    | CaptureAll(id: int, displays: seq<nat>, including: bool, excluding: bool)

  function Step(m: Services, op: Op): Services {
    match op
    case NewService(name, needSnapshot) => m[name := Service(needSnapshot, {}, {})]
    case Snapshot(name) => if name in m then m[name := m[name].Swap()] else m
    case Add(id, noperms, primary) => AddTo(m, id, primary, noperms)
    case Remove(id) => RemoveFrom(m, id)
    case Sub(name, id, sub) => if name in m then m[name := Subscribe(m[name], id, sub)] else m
    case CaptureAll(id, displays, including, excluding) => Capture(m, id, Names(displays), including, excluding)
  }

  function After(ops: seq<Op>): Services {
    if ops == [] then map[] else Step(After(ops[..|ops| - 1]), ops[|ops| - 1])
  }

  ghost predicate AllValid(m: Services) {
    forall name :: name in m ==> m[name].Valid()
  }

  lemma StepValid(m: Services, op: Op)
    requires AllValid(m)
    ensures AllValid(Step(m, op))
  {
  }

  /** In every run no subscriber is both old and new anywhere, so that unsubscribing always works. */
  lemma {:induction false} ServicesValid(ops: seq<Op>)
    ensures AllValid(After(ops))
  {
    if ops != [] {
      var front, op := ops[..|ops| - 1], ops[|ops| - 1];
      ServicesValid(front);
      StepValid(After(front), op);
    }
  }

  /** In every run a removed connection is in no service. */
  lemma RemovedIsGone(ops: seq<Op>, id: int, name: string)
    ensures !Subed(After(ops + [Remove(id)]), name, id)
  {
    ServicesValid(ops);
    assert (ops + [Remove(id)])[..|ops|] == ops;
    if name in After(ops) {
      UnsubscribeExact(After(ops)[name], id);
    }
  }

  predicate Acts(op: Op, id: int) {
    (op.Add? || op.Sub? || op.CaptureAll?) && op.id == id
  }

  /** And it stays in none until it is added or subscribed again. */
  lemma {:induction false} GoneStaysGone(ops: seq<Op>, id: int, name: string, n: nat)
    requires n < |ops| && ops[n] == Remove(id)
    requires forall i :: n < i < |ops| ==> !Acts(ops[i], id)
    ensures !Subed(After(ops), name, id)
  {
    var last := |ops| - 1;
    var front := ops[..last];
    if n == last {
      assert front + [Remove(id)] == ops;
      RemovedIsGone(front, id, name);
    } else {
      GoneStaysGone(front, id, name, n);
      StaysOut(After(front), ops[last], id, name);
    }
  }

  lemma StaysOut(m: Services, op: Op, id: int, name: string)
    requires !Subed(m, name, id) && !Acts(op, id)
    ensures !Subed(Step(m, op), name, id)
  {
  }

  /**
   In every run: a new connection is subscribed to exactly the services it is permitted, of the video
   services only to the primary one, besides those it was subscribed to; no other connection is.
   */
  lemma AddIsExact(ops: seq<Op>, id: int, noperms: set<string>, primary: string, name: string, other: int)
    requires other != id
    ensures var m := After(ops);
            var n := After(ops + [Add(id, noperms, primary)]);
            && (Subed(n, name, id) <==>
                Subed(m, name, id) || (name in m && name !in noperms && ("video" <= name ==> name == primary)))
            && (Subed(n, name, other) <==> Subed(m, name, other))
  {
    assert (ops + [Add(id, noperms, primary)])[..|ops|] == ops;
  }

  /** In every run: subscribing and unsubscribing do so, at the named service if it exists, and touch nothing else. */
  lemma SubIsExact(ops: seq<Op>, id: int, sub: bool, at: string, name: string, other: int)
    ensures var m := After(ops);
            var n := After(ops + [Sub(at, id, sub)]);
            Subed(n, name, other) <==> if name == at && other == id then name in m && sub else Subed(m, name, other)
  {
    ServicesValid(ops);
    assert (ops + [Sub(at, id, sub)])[..|ops|] == ops;
  }

  /** In every run a snapshot keeps all subscribers, makes them all old, and touches no other service. */
  lemma SnapshotIsExact(ops: seq<Op>, at: string, name: string, id: int)
    ensures var m := After(ops);
            var n := After(ops + [Snapshot(at)]);
            && (Subed(n, name, id) <==> Subed(m, name, id))
            && (name == at && Subed(n, name, id) ==> id in n[name].subscribes)
  {
    assert (ops + [Snapshot(at)])[..|ops|] == ops;
  }

  /** In every run, a subscriber of a service with snapshots is old only if there was one. */
  lemma {:induction false} OldHasSnapshot(ops: seq<Op>, name: string, id: int) returns (i: nat)
    requires name in After(ops) && After(ops)[name].needSnapshot && id in After(ops)[name].subscribes
    ensures i < |ops| && ops[i] == Snapshot(name)
  {
    var n := |ops| - 1;
    if ops[n] == Snapshot(name) {
      i := n;
    } else {
      OldBefore(After(ops[..n]), ops[n], name, id);
      i := OldHasSnapshot(ops[..n], name, id);
    }
  }

  lemma OldBefore(m: Services, op: Op, name: string, id: int)
    requires op != Snapshot(name) && name in Step(m, op)
    requires Step(m, op)[name].needSnapshot && id in Step(m, op)[name].subscribes
    ensures name in m && m[name].needSnapshot && id in m[name].subscribes
  {
  }

  /** In every run, capturing with any flags: inclusion adds the named video services, exclusion removes the others. */
  lemma CaptureByFlags(ops: seq<Op>, id: int, displays: seq<nat>, including: bool, excluding: bool, name: string)
    requires IsVideo(name)
    ensures var m := After(ops);
            var n := After(ops + [CaptureAll(id, displays, including, excluding)]);
            Subed(n, name, id) <==>
            if name in Names(displays) then Subed(m, name, id) || (including && name in m)
            else Subed(m, name, id) && !excluding
  {
    ServicesValid(ops);
    assert (ops + [CaptureAll(id, displays, including, excluding)])[..|ops|] == ops;
  }

  /** The video service of a display. */
  lemma NamesOfDisplays()
    ensures ServiceName(0) == "video0" && ServiceName(12) == "video12"
    ensures IsVideo("video12") && !IsVideo("audio")
  {
    DecimalDigits(0);
    DecimalDigits(12);
    DecimalDigits(1);
    DecimalDigits(2);
    assert "audio"[0] != "video"[0];
  }

  /**
   In every run, capturing displays with inclusion and exclusion leaves the connection subscribed to
   exactly the existing video services of those displays, and touches neither the other services nor
   the other connections.
   */
  lemma CaptureIsExact(ops: seq<Op>, id: int, displays: seq<nat>, name: string, other: int)
    requires other != id
    ensures var m := After(ops);
            var n := After(ops + [CaptureAll(id, displays, true, true)]);
            && (IsVideo(name) ==> (Subed(n, name, id) <==> name in m && name in Names(displays)))
            && (!IsVideo(name) ==> (Subed(n, name, id) <==> Subed(m, name, id)))
            && (Subed(n, name, other) <==> Subed(m, name, other))
  {
    ServicesValid(ops);
    assert (ops + [CaptureAll(id, displays, true, true)])[..|ops|] == ops;
  }
}
