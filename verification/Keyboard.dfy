/**
 Key states on the controlling side (src/keyboard.rs): the table of modifiers, the table of keys to
 release, and the sweep that releases them when the grab ends. The translation of scan codes for
 the peer and the key events of the modes other than map mode are parameters.
 */
module Keyboards {
  import opened Options

  datatype Key =
    | ShiftLeft | ShiftRight | ControlLeft | ControlRight | Alt | AltGr | MetaLeft | MetaRight
    | Other(code: int)

  const MODIFIERS := {ShiftLeft, ShiftRight, ControlLeft, ControlRight, Alt, AltGr, MetaLeft, MetaRight}

  /** An event of the hook; the last constructor stands for mouse and other events. */
  datatype Event = KeyPress(key: Key, position: int) | KeyRelease(key: Key, position: int) | OtherEvent

  datatype KeyEvent = KeyEvent(chr: int, down: bool)

  datatype Mode = MapMode | OtherMode

  /** The peer's key codes, and what the other modes emit. */
  datatype Peer = Peer(code: int -> Option<int>, emit: Event -> seq<KeyEvent>)

  datatype State = State(modifiers: map<Key, bool>, toRelease: map<Key, Event>, sent: seq<KeyEvent>)

  function Start(): State {
    State(map k | k in MODIFIERS :: false, map[], [])
  }

  // ----- one event

  predicate IsLongPress(s: State, e: Event) {
    e.KeyPress? && e.key in s.modifiers && s.modifiers[e.key]
  }

  function Mark(m: map<Key, bool>, k: Key, v: bool): map<Key, bool> {
    if k in m then m[k := v] else m
  }

  /** `map_keyboard_mode`. */
  function MapEvents(peer: Peer, e: Event): seq<KeyEvent> {
    if e.OtherEvent? || peer.code(e.position).None? then []
    else [KeyEvent(peer.code(e.position).value, e.KeyPress?)]
  }

  function Emitted(peer: Peer, mode: Mode, e: Event): seq<KeyEvent> {
    if mode == MapMode then MapEvents(peer, e) else peer.emit(e)
  }

  function Process(peer: Peer, s: State, mode: Mode, e: Event): State {
    if IsLongPress(s, e) then s
    else
      var sent := s.sent + Emitted(peer, mode, e);
      match e
      case KeyPress(k, _) => State(Mark(s.modifiers, k, true), s.toRelease[k := e], sent)
      case KeyRelease(k, _) => State(Mark(s.modifiers, k, false), s.toRelease - {k}, sent)
      case OtherEvent => s.(sent := sent)
  }

  // ----- the sweep, in the order in which the table happens to be traversed

  /** What the sweep does with one key; Alt is pressed and released once more. */
  function ReleaseOne(peer: Peer, s: State, mode: Mode, e: Event): State
    requires e.KeyPress?
  {
    var k, p := e.key, e.position;
    var t := Process(peer, s, mode, KeyRelease(k, p));
    if k == Alt || k == AltGr
    then Process(peer, Process(peer, t, mode, KeyPress(k, p)), mode, KeyRelease(k, p))
    else t
  }

  /** Every entry remembers the press of its own key. */
  predicate Matching(m: map<Key, Event>) {
    forall k :: k in m ==> m[k].KeyPress? && m[k].key == k
  }

  function SweepKeys(peer: Peer, s: State, mode: Mode, held: map<Key, Event>, order: seq<Key>): State
    requires Matching(held) && forall i :: 0 <= i < |order| ==> order[i] in held
  {
    if order == [] then s
    else
      var n := |order| - 1;
      ReleaseOne(peer, SweepKeys(peer, s, mode, held, order[..n]), mode, held[order[n]])
  }

  ghost predicate IsOrder(order: seq<Key>, held: map<Key, Event>) {
    && (forall i :: 0 <= i < |order| ==> order[i] in held)
    && (forall k :: k in held ==> k in order)
    && (forall i, j :: 0 <= i < j < |order| ==> order[i] != order[j])
  }

  /** `release_remote_keys`. */
  function Sweep(peer: Peer, s: State, mode: Mode, order: seq<Key>): State
    requires Matching(s.toRelease) && forall i :: 0 <= i < |order| ==> order[i] in s.toRelease
  {
    SweepKeys(peer, s.(toRelease := map[]), mode, s.toRelease, order)
  }

  // ----- the tables, as the code changes them

  class Keyboard {
    const peer: Peer
    var modifiers: map<Key, bool>
    var toRelease: map<Key, Event>
    var sent: seq<KeyEvent>

    function View(): State
      reads this
    {
      State(modifiers, toRelease, sent)
    }

    constructor (peer: Peer)
      ensures this.peer == peer && View() == Start()
    {
      this.peer := peer;
      modifiers, toRelease, sent := map k | k in MODIFIERS :: false, map[], [];
    }

    method UpdateModifiersState(e: Event)
      modifies `modifiers
      ensures modifiers ==
              if e.OtherEvent? then old(modifiers) else Mark(old(modifiers), e.key, e.KeyPress?)
    {
      match e
      case KeyPress(k, _) =>
        if k in modifiers {
          modifiers := modifiers[k := true];
        }
      case KeyRelease(k, _) =>
        if k in modifiers {
          modifiers := modifiers[k := false];
        }
      case OtherEvent =>
    }

    method ProcessEvent(mode: Mode, e: Event)
      modifies this
      ensures View() == Process(peer, old(View()), mode, e)
    {
      if IsLongPress(View(), e) {
        return;
      }
      UpdateModifiersState(e);
      match e {
        case KeyPress(k, _) => toRelease := toRelease[k := e];
        case KeyRelease(k, _) => toRelease := toRelease - {k};
        case OtherEvent =>
      }
      sent := sent + Emitted(peer, mode, e);
    }

    /** The body of the loop in `release_remote_keys`. */
    method ReleaseKey(mode: Mode, e: Event)
      requires e.KeyPress?
      modifies this
      ensures View() == ReleaseOne(peer, old(View()), mode, e)
    {
      ProcessEvent(mode, KeyRelease(e.key, e.position));
      if e.key == Alt || e.key == AltGr {
        ProcessEvent(mode, KeyPress(e.key, e.position));
        ProcessEvent(mode, KeyRelease(e.key, e.position));
      }
    }

    /** `release_remote_keys`; `order` is the order in which the table was traversed. */
    method ReleaseRemoteKeys(mode: Mode) returns (ghost order: seq<Key>)
      requires Matching(toRelease)
      modifies this
      ensures IsOrder(order, old(toRelease))
      ensures View() == Sweep(peer, old(View()), mode, order)
    {
      var held := toRelease;
      toRelease := map[];
      var rest := held.Keys;
      order := [];
      ghost var start := View();
      while rest != {}
        invariant rest <= held.Keys
        invariant forall i :: 0 <= i < |order| ==> order[i] in held.Keys - rest
        invariant forall k :: k in held.Keys - rest ==> k in order
        invariant forall i, j :: 0 <= i < j < |order| ==> order[i] != order[j]
        invariant View() == SweepKeys(peer, start, mode, held, order)
        decreases rest
      {
        var k :| k in rest;
        ghost var before := order;
        order := order + [k];
        assert order[..|order| - 1] == before;
        ReleaseKey(mode, held[k]);
        rest := rest - {k};
      }
    }
  }

  // ----- runs

  datatype Action = Input(mode: Mode, event: Event) | ReleaseAll(mode: Mode, order: seq<Key>)

  /** A modifier is marked exactly while it is to be released. */
  ghost predicate Agree(s: State) {
    && s.modifiers.Keys == MODIFIERS
    && Matching(s.toRelease)
    && forall k :: k in MODIFIERS ==> (s.modifiers[k] <==> k in s.toRelease)
  }

  ghost predicate Possible(s: State, a: Action) {
    a.ReleaseAll? ==> IsOrder(a.order, s.toRelease)
  }

  function Step(peer: Peer, s: State, a: Action): State
    requires Matching(s.toRelease) && Possible(s, a)
  {
    match a
    case Input(mode, e) => Process(peer, s, mode, e)
    case ReleaseAll(mode, order) => Sweep(peer, s, mode, order)
  }

  /** The states of a run: each follows from the one before it. */
  ghost predicate IsRun(peer: Peer, ss: seq<State>, acts: seq<Action>) {
    && |ss| == |acts| + 1 && ss[0] == Start()
    && forall i :: 0 <= i < |acts| ==>
         Matching(ss[i].toRelease) && Possible(ss[i], acts[i]) && ss[i + 1] == Step(peer, ss[i], acts[i])
  }

  // ----- the two tables agree

  lemma ProcessAgrees(peer: Peer, s: State, mode: Mode, e: Event)
    requires Agree(s)
    ensures Agree(Process(peer, s, mode, e))
  {
  }

  /** In the middle of a sweep the table of keys is empty, and the marks of the keys to come remain. */
  ghost predicate Swept(s: State, held: map<Key, Event>, order: seq<Key>) {
    && s.toRelease == map[]
    && s.modifiers.Keys == MODIFIERS
    && forall k :: k in MODIFIERS ==> (s.modifiers[k] <==> k in held && k !in order)
  }

  lemma ReleaseOneSweeps(peer: Peer, s: State, mode: Mode, held: map<Key, Event>, order: seq<Key>, k: Key)
    requires Matching(held) && Swept(s, held, order) && k in held
    ensures Swept(ReleaseOne(peer, s, mode, held[k]), held, order + [k])
  {
    var p := held[k].position;
    var t := Process(peer, s, mode, KeyRelease(k, p));
    assert t.toRelease == map[];
    assert k in MODIFIERS ==> !t.modifiers[k];
    if k == Alt || k == AltGr {
      var u := Process(peer, t, mode, KeyPress(k, p));
      assert u.toRelease == map[k := KeyPress(k, p)];
      assert Process(peer, u, mode, KeyRelease(k, p)).toRelease == map[];
    }
  }

  lemma {:induction false} SweepKeysSweeps(peer: Peer, s: State, mode: Mode, held: map<Key, Event>, order: seq<Key>)
    requires Matching(held) && Swept(s, held, []) && forall i :: 0 <= i < |order| ==> order[i] in held
    ensures Swept(SweepKeys(peer, s, mode, held, order), held, order)
  {
    if order != [] {
      var n := |order| - 1;
      SweepKeysSweeps(peer, s, mode, held, order[..n]);
      ReleaseOneSweeps(peer, SweepKeys(peer, s, mode, held, order[..n]), mode, held, order[..n], order[n]);
      assert order[..n] + [order[n]] == order;
    }
  }

  /** After a sweep, in whatever order, nothing is left to release and no modifier is marked. */
  lemma SweepClears(peer: Peer, s: State, mode: Mode, order: seq<Key>)
    requires Agree(s) && IsOrder(order, s.toRelease)
    ensures var t := Sweep(peer, s, mode, order);
            && t.toRelease == map[] && t.modifiers.Keys == MODIFIERS
            && forall k :: k in MODIFIERS ==> !t.modifiers[k]
  {
    var t := s.(toRelease := map[]);
    assert Swept(t, s.toRelease, []);
    SweepKeysSweeps(peer, t, mode, s.toRelease, order);
  }

  /** In every run, in any mixture of modes: a modifier is marked exactly while it is to be released. */
  lemma {:induction false} RunAgrees(peer: Peer, ss: seq<State>, acts: seq<Action>, i: nat)
    requires IsRun(peer, ss, acts) && i < |ss|
    ensures Agree(ss[i])
  {
    if i > 0 {
      RunAgrees(peer, ss, acts, i - 1);
      var s, a := ss[i - 1], acts[i - 1];
      if a.Input? {
        ProcessAgrees(peer, s, a.mode, a.event);
      } else {
        SweepClears(peer, s, a.mode, a.order);
      }
    }
  }

  // ----- nothing is left held down at the peer

  /** The last event sent for the code is a press. */
  predicate Down(sent: seq<KeyEvent>, c: int) {
    if sent == [] then false
    else
      var last := sent[|sent| - 1];
      if last.chr == c then last.down else Down(sent[..|sent| - 1], c)
  }

  lemma DownAfter(sent: seq<KeyEvent>, e: KeyEvent, c: int)
    ensures Down(sent + [e], c) == if e.chr == c then e.down else Down(sent, c)
  {
    assert (sent + [e])[..|sent|] == sent;
  }

  /** The layout: a key determines its code, so a press and its release have the same one. */
  type Layout = Key -> Option<int>

  predicate Follows(peer: Peer, at: Layout, e: Event) {
    e.OtherEvent? || peer.code(e.position) == at(e.key)
  }

  /** Every code that is down belongs to one of the keys. */
  ghost predicate Covered(at: Layout, sent: seq<KeyEvent>, keys: set<Key>) {
    forall c :: Down(sent, c) ==> exists k :: k in keys && at(k) == Some(c)
  }

  function Pressed(keys: set<Key>, e: Event): set<Key> {
    match e
    case KeyPress(k, _) => keys + {k}
    case KeyRelease(k, _) => keys - {k}
    case OtherEvent => keys
  }

  lemma EventCovered(peer: Peer, at: Layout, sent: seq<KeyEvent>, keys: set<Key>, e: Event)
    requires Covered(at, sent, keys) && Follows(peer, at, e)
    ensures Covered(at, sent + MapEvents(peer, e), Pressed(keys, e))
  {
    var out := sent + MapEvents(peer, e);
    forall c | Down(out, c) ensures exists k :: k in Pressed(keys, e) && at(k) == Some(c) {
      if MapEvents(peer, e) == [] {
        assert out == sent;
      } else {
        DownAfter(sent, MapEvents(peer, e)[0], c);
      }
      if e.KeyPress? && at(e.key) == Some(c) {
        assert e.key in Pressed(keys, e);
      } else {
        assert Down(sent, c);
        var k :| k in keys && at(k) == Some(c);
        assert k in Pressed(keys, e);
      }
    }
  }

  lemma ProcessCovered(peer: Peer, at: Layout, s: State, keys: set<Key>, e: Event)
    requires Covered(at, s.sent, keys) && Follows(peer, at, e) && (IsLongPress(s, e) ==> e.key in keys)
    ensures Covered(at, Process(peer, s, MapMode, e).sent, Pressed(keys, e))
  {
    if IsLongPress(s, e) {
      assert Pressed(keys, e) == keys;
    } else {
      EventCovered(peer, at, s.sent, keys, e);
    }
  }

  lemma ReleaseOneCovered(peer: Peer, at: Layout, s: State, keys: set<Key>, e: Event)
    requires Covered(at, s.sent, keys) && e.KeyPress? && peer.code(e.position) == at(e.key)
    ensures Covered(at, ReleaseOne(peer, s, MapMode, e).sent, keys - {e.key})
  {
    var k, p := e.key, e.position;
    ProcessCovered(peer, at, s, keys, KeyRelease(k, p));
    if k == Alt || k == AltGr {
      var t := Process(peer, s, MapMode, KeyRelease(k, p));
      var u := Process(peer, t, MapMode, KeyPress(k, p));
      assert !IsLongPress(t, KeyPress(k, p));
      ProcessCovered(peer, at, t, keys - {k}, KeyPress(k, p));
      ProcessCovered(peer, at, u, keys - {k} + {k}, KeyRelease(k, p));
      assert keys - {k} + {k} - {k} == keys - {k};
    }
  }

  ghost function Elements(order: seq<Key>): set<Key> {
    set k | k in order
  }

  lemma {:induction false} SweepCovered(peer: Peer, at: Layout, s: State, held: map<Key, Event>, order: seq<Key>)
    requires Matching(held) && (forall i :: 0 <= i < |order| ==> order[i] in held)
    requires Covered(at, s.sent, held.Keys) && forall k :: k in held ==> peer.code(held[k].position) == at(k)
    ensures Covered(at, SweepKeys(peer, s, MapMode, held, order).sent, held.Keys - Elements(order))
  {
    if order == [] {
      assert held.Keys - Elements(order) == held.Keys;
    } else {
      var n := |order| - 1;
      var front, k := order[..n], order[n];
      SweepCovered(peer, at, s, held, front);
      var t := SweepKeys(peer, s, MapMode, held, front);
      ReleaseOneCovered(peer, at, t, held.Keys - Elements(front), held[k]);
      assert held.Keys - Elements(front) - {k} == held.Keys - Elements(order);
    }
  }

  ghost predicate Ordinary(peer: Peer, at: Layout, a: Action) {
    a.mode == MapMode && (a.Input? ==> Follows(peer, at, a.event))
  }

  /** All that a run keeps in map mode. */
  ghost predicate Tracked(peer: Peer, at: Layout, s: State) {
    && Agree(s)
    && Covered(at, s.sent, s.toRelease.Keys)
    && forall k :: k in s.toRelease ==> peer.code(s.toRelease[k].position) == at(k)
  }

  lemma InputTracked(peer: Peer, at: Layout, s: State, e: Event)
    requires Tracked(peer, at, s) && Follows(peer, at, e)
    ensures Tracked(peer, at, Process(peer, s, MapMode, e))
  {
    ProcessAgrees(peer, s, MapMode, e);
    ProcessCovered(peer, at, s, s.toRelease.Keys, e);
    var t := Process(peer, s, MapMode, e);
    assert t.toRelease.Keys == Pressed(s.toRelease.Keys, e);
  }

  lemma SweepTracked(peer: Peer, at: Layout, s: State, order: seq<Key>)
    requires Tracked(peer, at, s) && IsOrder(order, s.toRelease)
    ensures Tracked(peer, at, Sweep(peer, s, MapMode, order))
    ensures forall c :: !Down(Sweep(peer, s, MapMode, order).sent, c)
  {
    SweepClears(peer, s, MapMode, order);
    SweepCovered(peer, at, s.(toRelease := map[]), s.toRelease, order);
    assert s.toRelease.Keys - Elements(order) == {};
  }

  lemma {:induction false} RunTracked(peer: Peer, at: Layout, ss: seq<State>, acts: seq<Action>, i: nat)
    requires IsRun(peer, ss, acts) && i < |ss| && forall j :: 0 <= j < |acts| ==> Ordinary(peer, at, acts[j])
    ensures Tracked(peer, at, ss[i])
  {
    if i > 0 {
      RunTracked(peer, at, ss, acts, i - 1);
      var s, a := ss[i - 1], acts[i - 1];
      if a.Input? {
        InputTracked(peer, at, s, a.event);
      } else {
        SweepTracked(peer, at, s, a.order);
      }
    }
  }

  /** In every run in map mode, a sweep leaves no key held down at the peer: the last event of every code is an up. */
  lemma NothingHeldAfterSweep(peer: Peer, at: Layout, ss: seq<State>, acts: seq<Action>, i: nat)
    requires IsRun(peer, ss, acts) && i < |acts| && acts[i].ReleaseAll?
    requires forall j :: 0 <= j < |acts| ==> Ordinary(peer, at, acts[j])
    ensures var sent := ss[i + 1].sent;
            forall c :: !Down(sent, c)
  {
    RunTracked(peer, at, ss, acts, i);
    SweepTracked(peer, at, ss[i], acts[i].order);
  }

  // ----- what reaches the peer

  /** All named keys are modifiers. */
  lemma EightModifiers(k: Key)
    ensures k in MODIFIERS <==> !k.Other?
  {
  }

  /** The event of one key at a position, if the peer has a code for it. */
  function Reaches(peer: Peer, position: int, down: bool): seq<KeyEvent> {
    var c := peer.code(position);
    if c.Some? then [KeyEvent(c.value, down)] else []
  }

  lemma InputSends(peer: Peer, s: State, mode: Mode, e: Event)
    ensures var out := Process(peer, s, mode, e).sent;
            if IsLongPress(s, e) then out == s.sent
            else if mode == OtherMode then out == s.sent + peer.emit(e)
            else match e
              case KeyPress(_, p) => out == s.sent + Reaches(peer, p, true)
              case KeyRelease(_, p) => out == s.sent + Reaches(peer, p, false)
              case OtherEvent => out == s.sent
  {
  }

  /**
   In every run: an input sends nothing if it presses a modifier that is held already; otherwise, in map
   mode, a press sends one press and a release one release, if the peer has a code for the position;
   in the other modes whatever these emit.
   */
  lemma InputSendsExactly(peer: Peer, ss: seq<State>, acts: seq<Action>, i: nat)
    requires IsRun(peer, ss, acts) && i < |acts| && acts[i].Input?
    ensures var e, s, out := acts[i].event, ss[i], ss[i + 1].sent;
            if e.KeyPress? && !e.key.Other? && e.key in s.toRelease then out == s.sent
            else if acts[i].mode == OtherMode then out == s.sent + peer.emit(e)
            else match e
              case KeyPress(_, p) => out == s.sent + Reaches(peer, p, true)
              case KeyRelease(_, p) => out == s.sent + Reaches(peer, p, false)
              case OtherEvent => out == s.sent
  {
    RunAgrees(peer, ss, acts, i);
    if acts[i].event.KeyPress? {
      EightModifiers(acts[i].event.key);
    }
    InputSends(peer, ss[i], acts[i].mode, acts[i].event);
  }

  /** What a sweep sends for one key: a release, and for Alt a press and a release more. */
  function Released(peer: Peer, e: Event): seq<KeyEvent>
    requires e.KeyPress?
  {
    var up, down := Reaches(peer, e.position, false), Reaches(peer, e.position, true);
    if e.key == Alt || e.key == AltGr then up + down + up else up
  }

  function AllReleased(peer: Peer, held: map<Key, Event>, order: seq<Key>): seq<KeyEvent>
    requires Matching(held) && forall i :: 0 <= i < |order| ==> order[i] in held
  {
    if order == [] then []
    else AllReleased(peer, held, order[..|order| - 1]) + Released(peer, held[order[|order| - 1]])
  }

  lemma ReleaseOneSends(peer: Peer, s: State, e: Event)
    requires e.KeyPress?
    ensures ReleaseOne(peer, s, MapMode, e).sent == s.sent + Released(peer, e)
  {
    var k, p := e.key, e.position;
    InputSends(peer, s, MapMode, KeyRelease(k, p));
    if k == Alt || k == AltGr {
      var t := Process(peer, s, MapMode, KeyRelease(k, p));
      var u := Process(peer, t, MapMode, KeyPress(k, p));
      InputSends(peer, t, MapMode, KeyPress(k, p));
      InputSends(peer, u, MapMode, KeyRelease(k, p));
    }
  }

  lemma Associates(x: seq<KeyEvent>, y: seq<KeyEvent>, z: seq<KeyEvent>)
    ensures (x + y) + z == x + (y + z)
  {
  }

  lemma {:induction false} SweepSends(peer: Peer, s: State, held: map<Key, Event>, order: seq<Key>)
    requires Matching(held) && forall i :: 0 <= i < |order| ==> order[i] in held
    ensures SweepKeys(peer, s, MapMode, held, order).sent == s.sent + AllReleased(peer, held, order)
  {
    if order != [] {
      var n := |order| - 1;
      SweepSends(peer, s, held, order[..n]);
      var t := SweepKeys(peer, s, MapMode, held, order[..n]);
      assert SweepKeys(peer, s, MapMode, held, order) == ReleaseOne(peer, t, MapMode, held[order[n]]);
      ReleaseOneSends(peer, t, held[order[n]]);
      Associates(s.sent, AllReleased(peer, held, order[..n]), Released(peer, held[order[n]]));
    }
  }

  /** In every run a sweep in map mode sends this for every held key, in the order of the traversal, and nothing else. */
  lemma SweepSendsExactly(peer: Peer, ss: seq<State>, acts: seq<Action>, i: nat)
    requires IsRun(peer, ss, acts) && i < |acts| && acts[i].ReleaseAll? && acts[i].mode == MapMode
    ensures ss[i + 1].sent == ss[i].sent + AllReleased(peer, ss[i].toRelease, acts[i].order)
  {
    SweepSends(peer, ss[i].(toRelease := map[]), ss[i].toRelease, acts[i].order);
  }

  // ----- a held key is down at the peer

  /** The action releases a key with the code. */
  predicate Lifts(at: Layout, a: Action, c: int) {
    a.ReleaseAll? || (a.event.KeyRelease? && at(a.event.key) == Some(c))
  }

  lemma StaysDown(peer: Peer, at: Layout, s: State, e: Event, c: int)
    requires Follows(peer, at, e) && !Lifts(at, Input(MapMode, e), c) && Down(s.sent, c)
    ensures Down(Process(peer, s, MapMode, e).sent, c)
  {
    if !IsLongPress(s, e) {
      if MapEvents(peer, e) == [] {
        assert s.sent + MapEvents(peer, e) == s.sent;
      } else {
        DownAfter(s.sent, MapEvents(peer, e)[0], c);
      }
    }
  }

  lemma GoesDown(peer: Peer, at: Layout, s: State, e: Event, c: int)
    requires Follows(peer, at, e) && e.KeyPress? && !IsLongPress(s, e) && at(e.key) == Some(c)
    ensures Down(Process(peer, s, MapMode, e).sent, c)
  {
    DownAfter(s.sent, KeyEvent(c, true), c);
  }

  /**
   In every run in map mode: a press, unless it repeats that of a held modifier, puts its code down at
   the peer, and the code stays down until a key with that code is released or a sweep comes.
   */
  lemma {:induction false} PressIsDown(peer: Peer, at: Layout, ss: seq<State>, acts: seq<Action>, i: nat, n: nat, c: int)
    requires IsRun(peer, ss, acts) && i < n <= |acts| && forall j :: 0 <= j < |acts| ==> Ordinary(peer, at, acts[j])
    requires acts[i].Input? && acts[i].event.KeyPress? && at(acts[i].event.key) == Some(c)
    requires acts[i].event.key.Other? || acts[i].event.key !in ss[i].toRelease
    requires forall j :: i < j < n ==> !Lifts(at, acts[j], c)
    ensures Down(ss[n].sent, c)
  {
    if n == i + 1 {
      RunAgrees(peer, ss, acts, i);
      EightModifiers(acts[i].event.key);
      GoesDown(peer, at, ss[i], acts[i].event, c);
    } else {
      PressIsDown(peer, at, ss, acts, i, n - 1, c);
      assert Ordinary(peer, at, acts[n - 1]);
      StaysDown(peer, at, ss[n - 1], acts[n - 1].event, c);
    }
  }

  /** No two keys have the same code. */
  ghost predicate Injective(at: Layout) {
    forall j, k :: at(j).Some? && at(j) == at(k) ==> j == k
  }

  ghost predicate HeldIsDown(at: Layout, s: State) {
    forall k :: k in s.toRelease && at(k).Some? ==> Down(s.sent, at(k).value)
  }

  lemma InputHeld(peer: Peer, at: Layout, s: State, e: Event)
    requires Injective(at) && HeldIsDown(at, s) && Agree(s) && Follows(peer, at, e)
    ensures HeldIsDown(at, Process(peer, s, MapMode, e))
  {
    var t := Process(peer, s, MapMode, e);
    forall k | k in t.toRelease && at(k).Some? ensures Down(t.sent, at(k).value) {
      if e.KeyPress? && e.key == k && !IsLongPress(s, e) {
        GoesDown(peer, at, s, e, at(k).value);
      } else {
        assert k in s.toRelease;
        StaysDown(peer, at, s, e, at(k).value);
      }
    }
  }

  lemma {:induction false} RunHeld(peer: Peer, at: Layout, ss: seq<State>, acts: seq<Action>, i: nat)
    requires Injective(at) && IsRun(peer, ss, acts) && i < |ss|
    requires forall j :: 0 <= j < |acts| ==> Ordinary(peer, at, acts[j])
    ensures HeldIsDown(at, ss[i])
  {
    if i > 0 {
      RunHeld(peer, at, ss, acts, i - 1);
      RunAgrees(peer, ss, acts, i - 1);
      var a := acts[i - 1];
      assert Ordinary(peer, at, a);
      if a.Input? {
        InputHeld(peer, at, ss[i - 1], a.event);
      } else {
        SweepClears(peer, ss[i - 1], a.mode, a.order);
      }
    }
  }

  /** In every run in map mode in which keys have different codes, a code is down at the peer exactly while its key is held. */
  lemma DownExactlyWhileHeld(peer: Peer, at: Layout, ss: seq<State>, acts: seq<Action>, i: nat, c: int)
    requires Injective(at) && IsRun(peer, ss, acts) && i < |ss|
    requires forall j :: 0 <= j < |acts| ==> Ordinary(peer, at, acts[j])
    ensures Down(ss[i].sent, c) <==> exists k :: k in ss[i].toRelease && at(k) == Some(c)
  {
    RunTracked(peer, at, ss, acts, i);
    RunHeld(peer, at, ss, acts, i);
  }
}
