/**
 Port forwarding (src/port_forward.rs): what the local side sends before the login is accepted is
 kept back, and everything is forwarded afterwards. The events are those that the two `select!`
 loops receive, in order. A send that fails is ignored, and the loops go on: each event says how much
 of what it makes the loop send gets through.
 */
module PortForward {
  type Bytes = seq<int>

  datatype Event =
    | Local(bytes: Bytes, through: nat)      // a chunk from the local socket
    | LocalClosed
    | Answered(isSent: bool)                 // a message that is answered: the hash, a delay test
    | LoginError(tryAgain: bool) | PeerInfo(through: nat) | OtherMessage
    | FromPeer(bytes: Bytes, through: nat)   // raw bytes of the peer after the login
    | PeerClosed                             // or a timeout, or an error on the peer's stream
    | UiMessage(isSent: bool)                // a login or message of the user interface

  /** What is written to the peer's stream: a framed message, or raw bytes. */
  datatype Out = Framed | Raw(bytes: Bytes)

  datatype Phase = LoggingIn | Forwarding | Done(ok: bool)

  datatype State = State(phase: Phase, buffer: Bytes, peer: seq<Out>, local: Bytes)

  const START := State(LoggingIn, [], [], [])

  function Send(s: State, o: Out): State {
    s.(peer := s.peer + [o])
  }

  /** What gets through of a chunk: all of it, or a first part. */
  function Through(b: Bytes, n: nat): (c: Bytes)
    ensures c <= b && (c == b <==> n >= |b|)
  {
    if n < |b| then b[..n] else b
  }

  /** The login is accepted: the stream becomes raw, and what was kept back goes first. */
  function Accept(s: State, n: nat): State {
    var t := s.(phase := Forwarding, buffer := []);
    if s.buffer == [] then t else Send(t, Raw(Through(s.buffer, n)))
  }

  function Step(s: State, e: Event): State {
    match s.phase
    case LoggingIn => (
      match e
      case Local(b, _) => s.(buffer := s.buffer + b)
      case Answered(isSent) => if isSent then Send(s, Framed) else s
      case UiMessage(isSent) => if isSent then Send(s, Framed) else s
      case LoginError(tryAgain) => if tryAgain then s else s.(phase := Done(false))
      case PeerInfo(n) => Accept(s, n)
      case LocalClosed => s.(phase := Done(false))
      case PeerClosed => s.(phase := Done(false))
      case _ => s)
    case Forwarding => (
      match e
      case Local(b, n) => Send(s, Raw(Through(b, n)))
      case FromPeer(b, n) => s.(local := s.local + Through(b, n))
      case LocalClosed => s.(phase := Done(true))
      case PeerClosed => s.(phase := Done(true))
      case _ => s)
    case Done(_) => s
  }

  function After(es: seq<Event>): State {
    if es == [] then START else Step(After(es[..|es| - 1]), es[|es| - 1])
  }

  // ----- as the code runs it

  class Forward {
    var phase: Phase
    var buffer: Bytes
    var peer: seq<Out>
    var local: Bytes

    function View(): State
      reads this
    {
      State(phase, buffer, peer, local)
    }

    constructor ()
      ensures View() == START
    {
      phase, buffer, peer, local := LoggingIn, [], [], [];
    }

    /** The loop of `connect_and_login`; `n` events are consumed. */
    method ConnectAndLogin(es: seq<Event>) returns (n: nat)
      requires View() == START
      modifies this
      ensures n <= |es| && View() == After(es[..n])
      ensures phase == LoggingIn ==> n == |es|
    {
      n := 0;
      while n < |es| && phase == LoggingIn
        invariant n <= |es| && View() == After(es[..n])
      {
        var e := es[n];
        assert es[..n + 1][..n] == es[..n];
        match e {
          case Answered(isSent) =>
            if isSent {
              peer := peer + [Framed];
            }
          case LoginError(tryAgain) =>
            if !tryAgain {
              phase := Done(false);
            }
          case PeerInfo(k) =>
            phase := Forwarding;
            if buffer != [] {
              peer := peer + [Raw(Through(buffer, k))];
            }
            buffer := [];
          case UiMessage(isSent) =>
            if isSent {
              peer := peer + [Framed];
            }
          case Local(b, _) => buffer := buffer + b;
          case LocalClosed => phase := Done(false);
          case PeerClosed => phase := Done(false);
          case OtherMessage =>
          case FromPeer(_, _) =>
        }
        n := n + 1;
      }
    }

    /** The loop of `run_forward`, from event `from` on. */
    method RunForward(es: seq<Event>, from: nat) returns (n: nat)
      requires from <= |es| && View() == After(es[..from]) && phase == Forwarding
      modifies this
      ensures from <= n <= |es| && View() == After(es[..n])
      ensures phase == Forwarding ==> n == |es|
    {
      n := from;
      while n < |es| && phase == Forwarding
        invariant from <= n <= |es| && View() == After(es[..n])
      {
        var e := es[n];
        assert es[..n + 1][..n] == es[..n];
        match e {
          case Local(b, k) => peer := peer + [Raw(Through(b, k))];
          case FromPeer(b, k) => local := local + Through(b, k);
          case LocalClosed => phase := Done(true);
          case PeerClosed => phase := Done(true);
          case _ =>
        }
        n := n + 1;
      }
    }
  }

  // ----- nothing is lost, repeated or reordered

  /** The raw bytes on the peer's stream, in order. */
  function RawBytes(out: seq<Out>): Bytes {
    if out == [] then []
    else
      var front, o := RawBytes(out[..|out| - 1]), out[|out| - 1];
      if o.Raw? then front + o.bytes else front
  }

  lemma RawAfter(out: seq<Out>, o: Out)
    ensures RawBytes(out + [o]) == RawBytes(out) + if o.Raw? then o.bytes else []
  {
    assert (out + [o])[..|out|] == out;
  }

  function Ended(s: State): bool {
    s.phase.Done?
  }

  /** All chunks that the local side has sent while somebody was listening. */
  function LocalBytes(es: seq<Event>): Bytes {
    if es == [] then []
    else
      var front, e := es[..|es| - 1], es[|es| - 1];
      if e.Local? && !Ended(After(front)) then LocalBytes(front) + e.bytes else LocalBytes(front)
  }

  function PeerBytes(es: seq<Event>): Bytes {
    if es == [] then []
    else
      var front, e := es[..|es| - 1], es[|es| - 1];
      if e.FromPeer? && After(front).phase == Forwarding then PeerBytes(front) + e.bytes else PeerBytes(front)
  }

  ghost predicate NoRaw(out: seq<Out>) {
    forall i :: 0 <= i < |out| ==> out[i] == Framed
  }

  lemma {:induction false} NoRawNoBytes(out: seq<Out>)
    requires NoRaw(out)
    ensures RawBytes(out) == []
  {
    if out != [] {
      NoRawNoBytes(out[..|out| - 1]);
    }
  }

  /** The login was accepted at some point of the run. */
  predicate LoggedIn(s: State) {
    s.phase == Forwarding || s.phase == Done(true)
  }

  // ----- what failed sends cost

  /** The bytes that the step does not get through to the peer. */
  function Lost(s: State, e: Event): nat {
    if s.phase == LoggingIn && e.PeerInfo? then |s.buffer| - |Through(s.buffer, e.through)|
    else if s.phase == Forwarding && e.Local? then |e.bytes| - |Through(e.bytes, e.through)|
    else 0
  }

  /** The bytes of the peer that the step does not get through to the local side. */
  function LostBack(s: State, e: Event): nat {
    if s.phase == Forwarding && e.FromPeer? then |e.bytes| - |Through(e.bytes, e.through)| else 0
  }

  function TotalLost(es: seq<Event>): nat {
    if es == [] then 0
    else TotalLost(es[..|es| - 1]) + Lost(After(es[..|es| - 1]), es[|es| - 1])
  }

  function TotalLostBack(es: seq<Event>): nat {
    if es == [] then 0
    else TotalLostBack(es[..|es| - 1]) + LostBack(After(es[..|es| - 1]), es[|es| - 1])
  }

  ghost predicate FallsShortAt(es: seq<Event>, k: int) {
    0 <= k < |es| && Lost(After(es[..k]), es[k]) != 0
  }

  ghost predicate FallsShortBackAt(es: seq<Event>, k: int) {
    0 <= k < |es| && LostBack(After(es[..k]), es[k]) != 0
  }

  /** No send of the run fell short. */
  ghost predicate AllSent(es: seq<Event>) {
    forall k :: !FallsShortAt(es, k)
  }

  ghost predicate AllSentBack(es: seq<Event>) {
    forall k :: !FallsShortBackAt(es, k)
  }

  lemma InFront(es: seq<Event>, k: int)
    requires 0 <= k < |es| - 1
    ensures FallsShortAt(es[..|es| - 1], k) <==> FallsShortAt(es, k)
    ensures FallsShortBackAt(es[..|es| - 1], k) <==> FallsShortBackAt(es, k)
  {
    assert es[..|es| - 1][..k] == es[..k];
  }

  lemma {:induction false} NothingLost(es: seq<Event>)
    ensures TotalLost(es) == 0 <==> AllSent(es)
  {
    if es != [] {
      var n := |es| - 1;
      NothingLost(es[..n]);
      assert FallsShortAt(es, n) <==> Lost(After(es[..n]), es[n]) != 0;
      forall k | 0 <= k < n ensures FallsShortAt(es[..n], k) <==> FallsShortAt(es, k) {
        InFront(es, k);
      }
    }
  }

  lemma {:induction false} NothingLostBack(es: seq<Event>)
    ensures TotalLostBack(es) == 0 <==> AllSentBack(es)
  {
    if es != [] {
      var n := |es| - 1;
      NothingLostBack(es[..n]);
      assert FallsShortBackAt(es, n) <==> LostBack(After(es[..n]), es[n]) != 0;
      forall k | 0 <= k < n ensures FallsShortBackAt(es[..n], k) <==> FallsShortBackAt(es, k) {
        InFront(es, k);
      }
    }
  }

  /** `xs` is `ys` with some elements left out, in the same order. */
  ghost predicate Subsequence(xs: Bytes, ys: Bytes)
    decreases |ys|
  {
    || xs == []
    || (ys != [] && Subsequence(xs, ys[..|ys| - 1]))
    || (ys != [] && xs[|xs| - 1] == ys[|ys| - 1] && Subsequence(xs[..|xs| - 1], ys[..|ys| - 1]))
  }

  lemma {:induction false} SubsequenceLength(xs: Bytes, ys: Bytes)
    requires Subsequence(xs, ys)
    ensures |xs| <= |ys| && (|xs| == |ys| ==> xs == ys)
    decreases |ys|
  {
    if xs != [] {
      var x, y := xs[..|xs| - 1], ys[..|ys| - 1];
      if Subsequence(xs, y) {
        SubsequenceLength(xs, y);
      } else {
        SubsequenceLength(x, y);
        assert xs == x + [xs[|xs| - 1]] && ys == y + [ys[|ys| - 1]];
      }
    }
  }

  lemma SubsequenceSnoc(xs: Bytes, ys: Bytes, b: int)
    requires Subsequence(xs, ys)
    ensures Subsequence(xs, ys + [b]) && Subsequence(xs + [b], ys + [b])
  {
    assert (ys + [b])[..|ys|] == ys && (xs + [b])[..|xs|] == xs;
  }

  lemma {:induction false} SubsequenceThrough(xs: Bytes, ys: Bytes, b: Bytes, n: nat)
    requires Subsequence(xs, ys)
    ensures Subsequence(xs + Through(b, n), ys + b)
    decreases |b|
  {
    if b == [] {
      assert xs + Through(b, n) == xs && ys + b == ys;
    } else {
      var f, x := b[..|b| - 1], b[|b| - 1];
      SubsequenceThrough(xs, ys, f, n);
      SubsequenceSnoc(xs + Through(f, n), ys + f, x);
      assert ys + b == (ys + f) + [x];
      if n < |b| {
        assert Through(b, n) == Through(f, n);
      } else {
        assert xs + Through(b, n) == (xs + Through(f, n)) + [x];
      }
    }
  }

  // ----- the balance

  /** What the peer has got, followed by what is kept back. */
  function Got(s: State): Bytes {
    RawBytes(s.peer) + s.buffer
  }

  /** Got by the peer, kept back and lost, against what the local side has sent. */
  ghost predicate Balanced(s: State, bytes: Bytes, lost: nat) {
    && Subsequence(Got(s), bytes)
    && |Got(s)| + lost == |bytes|
    && (!LoggedIn(s) ==> NoRaw(s.peer) && lost == 0)
    && (LoggedIn(s) ==> s.buffer == [])
  }

  lemma ReleasedBytes(buffer: Bytes, bytes: Bytes, n: nat)
    requires Subsequence(buffer, bytes) && |buffer| == |bytes|
    ensures Subsequence(Through(buffer, n), bytes)
  {
    SubsequenceLength(buffer, bytes);
    SubsequenceThrough([], [], buffer, n);
    assert [] + Through(buffer, n) == Through(buffer, n) && [] + buffer == buffer;
  }

  /** The peer gets the first raw bytes. */
  lemma FirstRaw(s: State, n: nat)
    requires NoRaw(s.peer)
    ensures Got(s) == s.buffer && Got(Accept(s, n)) == Through(s.buffer, n)
  {
    var got := Through(s.buffer, n);
    NoRawNoBytes(s.peer);
    RawAfter(s.peer, Raw(got));
    assert got + [] == got;
  }

  lemma AcceptBalanced(s: State, bytes: Bytes, n: nat)
    requires Balanced(s, bytes, 0) && s.phase == LoggingIn
    ensures Balanced(Accept(s, n), bytes, |s.buffer| - |Through(s.buffer, n)|)
  {
    FirstRaw(s, n);
    ReleasedBytes(s.buffer, bytes, n);
  }

  lemma FramedBalanced(s: State, bytes: Bytes, lost: nat)
    requires Balanced(s, bytes, lost)
    ensures Balanced(Send(s, Framed), bytes, lost)
  {
    RawAfter(s.peer, Framed);
  }

  /** The chunk is forwarded as far as the send goes, or kept back. */
  lemma GotLocal(s: State, e: Event)
    requires !Ended(s) && e.Local? && (LoggedIn(s) ==> s.buffer == [])
    ensures Got(Step(s, e)) == Got(s) + Through(e.bytes, if s.phase == Forwarding then e.through else |e.bytes|)
  {
    if s.phase == Forwarding {
      RawAfter(s.peer, Raw(Through(e.bytes, e.through)));
    }
  }

  lemma LocalBalanced(s: State, bytes: Bytes, lost: nat, e: Event)
    requires Balanced(s, bytes, lost) && !Ended(s) && e.Local?
    ensures Balanced(Step(s, e), bytes + e.bytes, lost + Lost(s, e))
  {
    GotLocal(s, e);
    SubsequenceThrough(Got(s), bytes, e.bytes, if s.phase == Forwarding then e.through else |e.bytes|);
  }

  lemma StepBalanced(s: State, bytes: Bytes, lost: nat, e: Event)
    requires Balanced(s, bytes, lost)
    ensures Balanced(Step(s, e), if e.Local? && !Ended(s) then bytes + e.bytes else bytes, lost + Lost(s, e))
  {
    if e.Local? && !Ended(s) {
      LocalBalanced(s, bytes, lost, e);
    } else if s.phase == LoggingIn {
      if e.PeerInfo? {
        AcceptBalanced(s, bytes, e.through);
      } else if e.Answered? || e.UiMessage? {
        FramedBalanced(s, bytes, lost);
      }
    }
  }

  /**
   In every run, at every moment: the raw bytes that the peer has got, followed by those kept back,
   are in the order in which the local side has sent them, and only those are missing that failed
   sends have lost; before the login is accepted the peer has got none, and afterwards none are kept
   back.
   */
  lemma {:induction false} Conserved(es: seq<Event>)
    ensures Balanced(After(es), LocalBytes(es), TotalLost(es))
  {
    if es != [] {
      var front, e := es[..|es| - 1], es[|es| - 1];
      Conserved(front);
      StepBalanced(After(front), LocalBytes(front), TotalLost(front), e);
    }
  }

  lemma DeliverStep(s: State, bytes: Bytes, e: Event)
    requires Subsequence(s.local, bytes)
    ensures var all := if e.FromPeer? && s.phase == Forwarding then bytes + e.bytes else bytes;
            && Subsequence(Step(s, e).local, all)
            && |Step(s, e).local| + LostBack(s, e) - |s.local| == |all| - |bytes|
  {
    if e.FromPeer? {
      SubsequenceThrough(s.local, bytes, e.bytes, e.through);
    }
  }

  /** The same for the bytes of the peer. */
  lemma {:induction false} Delivered(es: seq<Event>)
    ensures Subsequence(After(es).local, PeerBytes(es))
    ensures |After(es).local| + TotalLostBack(es) == |PeerBytes(es)|
  {
    if es != [] {
      var front, e := es[..|es| - 1], es[|es| - 1];
      Delivered(front);
      DeliverStep(After(front), PeerBytes(front), e);
    }
  }

  /**
   In every run in which the login was accepted: the peer has got exactly the local chunks, in order,
   if and only if no send to it fell short; and the local side the peer's, if and only if none to it
   did. In any case nothing is repeated or reordered.
   */
  lemma ForwardedExactly(es: seq<Event>)
    requires LoggedIn(After(es))
    ensures Subsequence(RawBytes(After(es).peer), LocalBytes(es)) && Subsequence(After(es).local, PeerBytes(es))
    ensures RawBytes(After(es).peer) == LocalBytes(es) <==> AllSent(es)
    ensures After(es).local == PeerBytes(es) <==> AllSentBack(es)
  {
    var s := After(es);
    Conserved(es);
    Delivered(es);
    NothingLost(es);
    NothingLostBack(es);
    assert RawBytes(s.peer) + [] == RawBytes(s.peer);
    SubsequenceLength(RawBytes(s.peer), LocalBytes(es));
    SubsequenceLength(s.local, PeerBytes(es));
  }

  /** A run in which the send of a chunk fails, and the peer never gets it. */
  lemma FailedSend()
    ensures var es := [PeerInfo(0), Local([1], 0)];
            LoggedIn(After(es)) && !AllSent(es) && LocalBytes(es) == [1] && RawBytes(After(es).peer) == []
  {
    var es := [PeerInfo(0), Local([1], 0)];
    assert es[..1] == [PeerInfo(0)] && es[..1][..0] == [];
    assert After(es[..1]) == State(Forwarding, [], [], []);
    assert FallsShortAt(es, 1);
    RawAfter([], Raw([]));
    assert [] + [Raw([])] == [Raw([])];
  }

  /** In every run: no raw bytes precede the acceptance, wherever it comes. */
  lemma {:induction false} NothingBeforeLogin(es: seq<Event>, n: nat)
    requires n <= |es| && After(es[..n]).phase == LoggingIn
    ensures NoRaw(After(es[..n]).peer)
    ensures After(es[..n]).peer <= After(es).peer
  {
    if n == |es| {
      assert es[..n] == es;
      Conserved(es);
    } else {
      var front := es[..|es| - 1];
      assert front[..n] == es[..n];
      NothingBeforeLogin(front, n);
    }
  }

  // ----- where the loops stand, and what else they send

  /** The event decides the login. */
  predicate Decides(e: Event) {
    e.PeerInfo? || e.LocalClosed? || e.PeerClosed? || (e.LoginError? && !e.tryAgain)
  }

  predicate Closes(e: Event) {
    e.LocalClosed? || e.PeerClosed?
  }

  /** The event at `i` decides the login. */
  ghost predicate DecidesAt(es: seq<Event>, i: int) {
    0 <= i < |es| && Decides(es[i]) && forall k :: 0 <= k < i ==> !Decides(es[k])
  }

  /**
   In every run: the login lasts until the first event that decides it; it succeeds exactly if this is
   the peer's information, and the forwarding then lasts until one side closes.
   */
  lemma {:induction false} PhaseByEvents(es: seq<Event>) returns (i: int)
    ensures After(es).phase == LoggingIn ==> forall k :: 0 <= k < |es| ==> !Decides(es[k])
    ensures After(es).phase != LoggingIn ==> DecidesAt(es, i)
    ensures After(es).phase != LoggingIn ==>
              After(es).phase == if !es[i].PeerInfo? then Done(false)
                                 else if exists k :: i < k < |es| && Closes(es[k]) then Done(true) else Forwarding
  {
    i := 0;
    if es != [] {
      var n := |es| - 1;
      var front := es[..n];
      i := PhaseByEvents(front);
      if After(front).phase == LoggingIn {
        i := n;
      } else if k :| i < k < n && Closes(front[k]) {
        assert Closes(es[k]);
      }
    }
  }

  /** The messages that are answered or passed on while logging in. */
  ghost function Messages(es: seq<Event>): nat {
    if es == [] then 0
    else
      var front, e := es[..|es| - 1], es[|es| - 1];
      Messages(front)
      + if After(front).phase == LoggingIn && ((e.Answered? && e.isSent) || (e.UiMessage? && e.isSent)) then 1 else 0
  }

  function Frames(out: seq<Out>): nat {
    if out == [] then 0 else Frames(out[..|out| - 1]) + if out[|out| - 1].Framed? then 1 else 0
  }

  lemma FramesAfter(out: seq<Out>, o: Out)
    ensures Frames(out + [o]) == Frames(out) + if o.Framed? then 1 else 0
  {
    assert (out + [o])[..|out|] == out;
  }

  lemma StepFrames(s: State, e: Event)
    ensures Frames(Step(s, e).peer) == Frames(s.peer)
            + if s.phase == LoggingIn && ((e.Answered? && e.isSent) || (e.UiMessage? && e.isSent)) then 1 else 0
  {
    FramesAfter(s.peer, Framed);
    if e.PeerInfo? {
      FramesAfter(s.peer, Raw(Through(s.buffer, e.through)));
    } else if e.Local? {
      FramesAfter(s.peer, Raw(Through(e.bytes, e.through)));
    }
  }

  /** In every run each such message puts one framed message on the peer's stream, and nothing else does. */
  lemma {:induction false} MessagesAreFramed(es: seq<Event>)
    ensures Frames(After(es).peer) == Messages(es)
  {
    if es != [] {
      MessagesAreFramed(es[..|es| - 1]);
      StepFrames(After(es[..|es| - 1]), es[|es| - 1]);
    }
  }
}
