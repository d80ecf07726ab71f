/**
 The loop that keeps one UDP registration alive (`start_udp` in src/rendezvous_mediator.rs):
 backoff, fail counter, smoothed latency and the latency it publishes. The clock counts
 microseconds. Rebinding the socket after a DNS change is not part of this model.
 */
module UdpLoops {
  import opened Options

  const MIN_REG_TIMEOUT := 3_000
  const MAX_REG_TIMEOUT := 30_000
  const REG_INTERVAL := 15_000
  const MAX_FAILS1 := 2
  const MAX_FAILS2 := 4
  const MAX_LATENCY := 1_000_000

  /**
   The local variables of the loop, the values it has passed to `Config::update_latency`, and the
   times at which it has called `register_peer`.
   */
  datatype Loop = Loop(timeout: int, fails: int, resp: Option<int>, sent: Option<int>,
                       lately: int, ema: int, published: seq<int>, registrations: seq<int>)

  const START := Loop(MIN_REG_TIMEOUT, 0, None, None, 0, 0, [], [])

  /** `backoff` says that the public server is used, on a desktop. */
  datatype Event = Tick(now: int, backoff: bool) | Response(now: int)

  // ----- what a step does

  predicate TimedOut(s: Loop, now: int) {
    s.sent.Some? && (now - s.sent.value) / 1000 >= s.timeout
  }

  predicate Expired(s: Loop, now: int) {
    s.resp.None? || (now - s.resp.value) / 1000 >= REG_INTERVAL
  }

  /** A tick at `now` sends a registration. */
  predicate Registers(s: Loop, now: int) {
    TimedOut(s, now) || (s.sent.None? && Expired(s, now))
  }

  function Sample(s: Loop, now: int): int {
    if s.sent.Some? then now - s.sent.value else 0
  }

  /** The response at `now` counts towards the latency. */
  predicate Accepted(s: Loop, now: int) {
    0 <= Sample(s, now) <= MAX_LATENCY
  }

  function Smooth(ema: int, sample: int): int {
    if ema == 0 then sample else sample / 30 + ema * 29 / 30
  }

  function Tolerance(latency: int): int {
    if latency / 5 < 3000 then 3000 else latency / 5
  }

  function Abs(x: int): int {
    if x < 0 then -x else x
  }

  function Published(s: Loop, latency: int): Loop {
    s.(published := s.published + [latency])
  }

  /** The latency is published when it differs enough from what was published, or nothing was. */
  function Settle(s: Loop, latency: int): Loop {
    if Abs(latency - s.lately) > Tolerance(latency) || s.lately <= 0
    then Published(s, latency).(lately := latency)
    else s
  }

  function Respond(s: Loop, now: int): Loop {
    var t := s.(resp := Some(now), fails := 0, timeout := MIN_REG_TIMEOUT, sent := None);
    if Accepted(s, now)
    then Settle(t.(ema := Smooth(s.ema, Sample(s, now))), Smooth(s.ema, Sample(s, now)))
    else t
  }

  function Fail(s: Loop): Loop {
    var t := s.(fails := s.fails + 1);
    if t.fails >= MAX_FAILS2 then Published(t, -1).(lately := 0)
    else if t.fails >= MAX_FAILS1 then Published(t, 0).(lately := 0)
    else t
  }

  function Back(s: Loop): Loop {
    if s.timeout < MAX_REG_TIMEOUT then s.(timeout := s.timeout + MIN_REG_TIMEOUT) else s
  }

  function Register(s: Loop, now: int): Loop {
    s.(sent := Some(now), registrations := s.registrations + [now])
  }

  function OnTick(s: Loop, now: int, backoff: bool): Loop {
    if TimedOut(s, now) then Register(Fail(if backoff then Back(s) else s), now)
    else if Registers(s, now) then Register(s, now)
    else s
  }

  function Step(s: Loop, e: Event): Loop {
    match e
    case Tick(now, backoff) => OnTick(s, now, backoff)
    case Response(now) => Respond(s, now)
  }

  // ----- the loop body, as the code runs it

  class UdpLoop {
    var timeout: int
    var fails: int
    var resp: Option<int>
    var sent: Option<int>
    var oldLatency: int
    var emaLatency: int
    var published: seq<int>
    var registrations: seq<int>

    function View(): Loop
      reads this
    {
      Loop(timeout, fails, resp, sent, oldLatency, emaLatency, published, registrations)
    }

    constructor ()
      ensures View() == START
    {
      timeout, fails, resp, sent := MIN_REG_TIMEOUT, 0, None, None;
      oldLatency, emaLatency, published, registrations := 0, 0, [], [];
    }

    /** The closure `update_latency`. */
    method UpdateLatency(now: int)
      modifies this
      ensures View() == Respond(old(View()), now)
    {
      resp := Some(now);
      fails := 0;
      timeout := MIN_REG_TIMEOUT;
      var latency := if sent.Some? then now - sent.value else 0;
      sent := None;
      if latency < 0 || latency > MAX_LATENCY {
        return;
      }
      if emaLatency == 0 {
        emaLatency := latency;
      } else {
        emaLatency := latency / 30 + emaLatency * 29 / 30;
        latency := emaLatency;
      }
      var n := latency / 5;
      if n < 3000 {
        n := 3000;
      }
      if Abs(latency - oldLatency) > n || oldLatency <= 0 {
        published := published + [latency];
        oldLatency := latency;
      }
    }

    method CountFail()
      modifies `fails, `published, `oldLatency
      ensures View() == Fail(old(View()))
    {
      fails := fails + 1;
      if fails >= MAX_FAILS2 {
        published := published + [-1];
        oldLatency := 0;
      } else if fails >= MAX_FAILS1 {
        published := published + [0];
        oldLatency := 0;
      }
    }

    /** The branch of the timer. */
    method TimerTick(now: int, backoff: bool)
      modifies this
      ensures View() == OnTick(old(View()), now, backoff)
    {
      var expired := resp.None? || (now - resp.value) / 1000 >= REG_INTERVAL;
      var late := sent.Some? && (now - sent.value) / 1000 >= timeout;
      if backoff {
        if late && timeout < MAX_REG_TIMEOUT {
          timeout := timeout + MIN_REG_TIMEOUT;
        }
      }
      if late || (sent.None? && expired) {
        if late {
          CountFail();
        }
        registrations := registrations + [now];
        sent := Some(now);
      }
    }
  }

  // ----- runs

  function After(s: Loop, es: seq<Event>): Loop {
    if es == [] then s else Step(After(s, es[..|es| - 1]), es[|es| - 1])
  }

  function Backoff(fails: int): int {
    if 3000 * (fails + 1) < 30_000 then 3000 * (fails + 1) else 30_000
  }

  ghost predicate Inv(s: Loop) {
    && s.timeout % 3000 == 0
    && 0 <= s.fails
    && MIN_REG_TIMEOUT <= s.timeout <= Backoff(s.fails)
    && (s.fails > 0 ==> s.sent.Some?)
    && (s.fails >= MAX_FAILS1 ==> s.lately == 0)
    && 0 <= s.lately && 0 <= s.ema
    && (s.lately > 0 ==> s.published != [] && s.published[|s.published| - 1] == s.lately)
  }

  lemma StepInv(s: Loop, e: Event)
    requires Inv(s)
    ensures Inv(Step(s, e))
  {
  }

  /** In every run the timeout is a multiple of 3000, bounded by the number of fails and by 30000. */
  lemma {:induction false} InvHolds(es: seq<Event>)
    ensures Inv(After(START, es))
  {
    if es != [] {
      InvHolds(es[..|es| - 1]);
      StepInv(After(START, es[..|es| - 1]), es[|es| - 1]);
    }
  }

  /** With the public server throughout, the timeout is a function of the number of fails. */
  lemma {:induction false} BackoffIsExact(es: seq<Event>)
    requires forall i :: 0 <= i < |es| && es[i].Tick? ==> es[i].backoff
    ensures After(START, es).timeout == Backoff(After(START, es).fails)
  {
    if es != [] {
      BackoffIsExact(es[..|es| - 1]);
      InvHolds(es[..|es| - 1]);
    }
  }

  // ----- when the loop registers, by positions of the run

  ghost predicate Monotone(es: seq<Event>) {
    forall i, j :: 0 <= i < j < |es| ==> es[i].now <= es[j].now
  }

  /** The step at position `i` calls `register_peer`. */
  ghost predicate RegistersAt(es: seq<Event>, i: int) {
    0 <= i < |es| && After(START, es[..i + 1]).registrations != After(START, es[..i]).registrations
  }

  /** The registration at `j` is the last one, and nothing has come back since. */
  ghost predicate Unanswered(es: seq<Event>, j: int) {
    RegistersAt(es, j) && forall k :: j < k < |es| ==> !es[k].Response? && !RegistersAt(es, k)
  }

  ghost predicate LastResponse(es: seq<Event>, j: int) {
    0 <= j < |es| && es[j].Response? && forall k :: j < k < |es| ==> !es[k].Response?
  }

  lemma StepRegisters(s: Loop, e: Event)
    ensures Step(s, e).registrations
            == if e.Tick? && Registers(s, e.now) then s.registrations + [e.now] else s.registrations
  {
  }

  lemma OneStep(es: seq<Event>, i: nat)
    requires i < |es|
    ensures After(START, es[..i + 1]) == Step(After(START, es[..i]), es[i])
    ensures RegistersAt(es, i) <==> es[i].Tick? && Registers(After(START, es[..i]), es[i].now)
  {
    assert es[..i + 1][..i] == es[..i];
    StepRegisters(After(START, es[..i]), es[i]);
  }

  lemma InFront(es: seq<Event>, n: nat, k: int)
    requires 0 <= k < n <= |es|
    ensures RegistersAt(es[..n], k) <==> RegistersAt(es, k)
  {
    assert es[..n][..k] == es[..k] && es[..n][..k + 1] == es[..k + 1];
  }

  lemma UnansweredInFront(es: seq<Event>, j: int)
    requires es != [] && j < |es| - 1 && es[|es| - 1].Tick? && !RegistersAt(es, |es| - 1)
    ensures Unanswered(es[..|es| - 1], j) <==> Unanswered(es, j)
  {
    var n := |es| - 1;
    forall k | 0 <= k < n ensures RegistersAt(es[..n], k) <==> RegistersAt(es, k) {
      InFront(es, n, k);
    }
  }

  /** What the loop remembers as sent is the unanswered registration, if there is one. */
  lemma {:induction false} SentByPosition(es: seq<Event>) returns (j: int)
    ensures j >= 0 ==> Unanswered(es, j) && After(START, es).sent == Some(es[j].now)
    ensures j < 0 ==> After(START, es).sent == None && forall k :: !Unanswered(es, k)
  {
    var n := |es| - 1;
    if es == [] {
      j := -1;
    } else {
      assert es[..n + 1] == es;
      OneStep(es, n);
      if es[n].Response? {
        j := -1;
      } else if RegistersAt(es, n) {
        j := n;
      } else {
        j := SentByPosition(es[..n]);
        forall k | k < n ensures Unanswered(es[..n], k) <==> Unanswered(es, k) {
          UnansweredInFront(es, k);
        }
      }
    }
  }

  lemma {:induction false} RespByPosition(es: seq<Event>) returns (j: int)
    ensures j >= 0 ==> LastResponse(es, j) && After(START, es).resp == Some(es[j].now)
    ensures j < 0 ==> After(START, es).resp == None && forall k :: !LastResponse(es, k)
  {
    var n := |es| - 1;
    if es == [] {
      j := -1;
    } else if es[n].Response? {
      j := n;
    } else {
      var front := es[..n];
      j := RespByPosition(front);
      assert forall k :: LastResponse(es, k) ==> LastResponse(front, k);
    }
  }

  /**
   In every run, exactly when a tick registers: while a registration is unanswered, once that is as
   old as the timeout; otherwise, once the last response, if there was any, is fifteen seconds old.
   */
  lemma RegistersExactly(es: seq<Event>, i: nat)
    requires i < |es|
    ensures RegistersAt(es, i) <==>
            && es[i].Tick?
            && (forall j :: Unanswered(es[..i], j) ==> es[i].now - es[j].now >= 1000 * After(START, es[..i]).timeout)
            && ((exists j :: Unanswered(es[..i], j))
                || forall k :: LastResponse(es[..i], k) ==> es[i].now - es[k].now >= 15_000_000)
  {
    var front := es[..i];
    OneStep(es, i);
    var j := SentByPosition(front);
    var k := RespByPosition(front);
    Elapsed(es[i].now, if j >= 0 then front[j].now else 0, After(START, front).timeout);
    Elapsed(es[i].now, if k >= 0 then front[k].now else 0, REG_INTERVAL);
    assert j >= 0 ==> forall l :: Unanswered(front, l) ==> l == j;
    assert k >= 0 ==> forall l :: LastResponse(front, l) ==> l == k;
  }

  /** Whole milliseconds. */
  lemma Elapsed(now: int, before: int, ms: int)
    ensures (now - before) / 1000 >= ms <==> now - before >= 1000 * ms
  {
  }

  lemma FirstTickRegisters(es: seq<Event>)
    requires es != [] && es[0].Tick?
    ensures RegistersAt(es, 0)
  {
    RegistersExactly(es, 0);
  }

  /**
   In every run with a monotone clock: any span of thirty seconds in which nothing comes back and
   which ends with a tick has a registration in it.
   */
  lemma SpanRegisters(es: seq<Event>, a: nat, b: nat)
    requires Monotone(es) && a < b < |es| && es[b].Tick? && es[b].now - es[a].now >= 1000 * MAX_REG_TIMEOUT
    requires forall k :: a < k < b ==> !es[k].Response?
    ensures exists k :: a < k <= b && RegistersAt(es, k)
  {
    if forall k :: a < k < b ==> !RegistersAt(es, k) {
      OldEnough(es, a, b);
      RegistersExactly(es, b);
      assert RegistersAt(es, b);
    }
  }

  lemma OldEnough(es: seq<Event>, a: nat, b: nat)
    requires Monotone(es) && a < b < |es| && es[b].now - es[a].now >= 1000 * MAX_REG_TIMEOUT
    requires forall k :: a < k < b ==> !es[k].Response? && !RegistersAt(es, k)
    ensures forall j :: Unanswered(es[..b], j) ==> es[b].now - es[j].now >= 1000 * After(START, es[..b]).timeout
    ensures forall k :: LastResponse(es[..b], k) ==> es[b].now - es[k].now >= 15_000_000
  {
    InvHolds(es[..b]);
    forall j | Unanswered(es[..b], j) ensures es[b].now - es[j].now >= 1000 * After(START, es[..b]).timeout {
      InFront(es, b, j);
      assert j <= a;
      Earlier(es, j, a);
    }
    forall k | LastResponse(es[..b], k) ensures es[b].now - es[k].now >= 15_000_000 {
      assert k <= a;
      Earlier(es, k, a);
    }
  }

  lemma Earlier(es: seq<Event>, i: nat, j: nat)
    requires Monotone(es) && i <= j < |es|
    ensures es[i].now <= es[j].now
  {
  }

  // ----- registrations are spaced

  /** The loop remembers a time that is not before `t`: of the request under way or of the last answer. */
  predicate Remembers(s: Loop, t: int) {
    if s.sent.Some? then t <= s.sent.value else s.resp.Some? && t <= s.resp.value
  }

  lemma StepRemembers(s: Loop, e: Event, t: int)
    requires t <= e.now && (Remembers(s, t) || (e.Tick? && Registers(s, e.now)))
    ensures Remembers(Step(s, e), t)
  {
  }

  lemma {:induction false} RegistrationRemembered(es: seq<Event>, i: int)
    requires Monotone(es) && RegistersAt(es, i)
    ensures Remembers(After(START, es), es[i].now)
  {
    var n := |es| - 1;
    OneStep(es, i);
    if i < n {
      InFront(es, n, i);
      RegistrationRemembered(es[..n], i);
    }
    StepRemembers(After(START, es[..n]), es[n], es[i].now);
  }

  /** In every run with a monotone clock, two registrations are at least three seconds apart. */
  lemma RegistrationsAreSpaced(es: seq<Event>, i: int, j: int)
    requires Monotone(es) && i < j && RegistersAt(es, i) && RegistersAt(es, j)
    ensures es[j].now - es[i].now >= 1000 * MIN_REG_TIMEOUT
  {
    var front := es[..j];
    InFront(es, j, i);
    OneStep(es, j);
    RegistrationRemembered(front, i);
    InvHolds(front);
  }

  // ----- what the fails are

  /** A registration because the one before it was not answered in time. */
  ghost predicate LateAt(es: seq<Event>, i: int) {
    RegistersAt(es, i) && exists j :: Unanswered(es[..i], j)
  }

  /** The late registrations since the last response; only those with backoff, or all. */
  ghost function Lates(es: seq<Event>, all: bool): nat {
    if es == [] || es[|es| - 1].Response? then 0
    else Lates(es[..|es| - 1], all) + if LateAt(es, |es| - 1) && (all || es[|es| - 1].backoff) then 1 else 0
  }

  lemma LateIsTimeout(es: seq<Event>, i: nat)
    requires i < |es|
    ensures LateAt(es, i) <==> es[i].Tick? && TimedOut(After(START, es[..i]), es[i].now)
  {
    OneStep(es, i);
    var j := SentByPosition(es[..i]);
  }

  lemma CountStep(s: Loop, e: Event, late: bool)
    requires late <==> e.Tick? && TimedOut(s, e.now)
    ensures Step(s, e).fails == if e.Response? then 0 else s.fails + if late then 1 else 0
    ensures Step(s, e).timeout ==
            if e.Response? then MIN_REG_TIMEOUT
            else if late && e.backoff && s.timeout < MAX_REG_TIMEOUT then s.timeout + MIN_REG_TIMEOUT else s.timeout
  {
  }

  /**
   In every run: the fail counter is the number of late registrations since the last response, and the
   timeout is three seconds and three more for each of those under backoff, up to thirty.
   */
  lemma {:induction false} CountsExactly(es: seq<Event>)
    ensures After(START, es).fails == Lates(es, true) && After(START, es).timeout == Backoff(Lates(es, false))
  {
    if es != [] {
      var n := |es| - 1;
      CountsExactly(es[..n]);
      LateIsTimeout(es, n);
      CountStep(After(START, es[..n]), es[n], LateAt(es, n));
    }
  }

  /** What a step publishes. */
  ghost predicate Publishes(es: seq<Event>, i: int, values: seq<int>) {
    0 <= i < |es| && After(START, es[..i + 1]).published == After(START, es[..i]).published + values
  }

  lemma TickPublishes(s: Loop, now: int, backoff: bool)
    ensures OnTick(s, now, backoff).published ==
            if TimedOut(s, now) && s.fails >= 3 then s.published + [-1]
            else if TimedOut(s, now) && s.fails >= 1 then s.published + [0]
            else s.published
  {
  }

  /** In every run a tick publishes 0 at the second and third late registration in a row, -1 at each further one. */
  lemma FailuresPublished(es: seq<Event>, i: nat)
    requires i < |es| && es[i].Tick?
    ensures var late := if LateAt(es, i) then Lates(es[..i], true) + 1 else 0;
            Publishes(es, i, if late >= 4 then [-1] else if late >= 2 then [0] else [])
  {
    OneStep(es, i);
    LateIsTimeout(es, i);
    CountsExactly(es[..i]);
    TickPublishes(After(START, es[..i]), es[i].now, es[i].backoff);
  }

  // ----- smoothing

  function Ema(xs: seq<int>): int {
    if xs == [] then 0 else Smooth(Ema(xs[..|xs| - 1]), xs[|xs| - 1])
  }

  lemma SmoothBounds(e: int, x: int, lo: int, hi: int)
    requires 0 <= lo && lo <= x <= hi && (e == 0 || 30 * (lo / 30) <= e <= hi)
    ensures 30 * (lo / 30) <= Smooth(e, x) <= hi
  {
    var q := lo / 30;
    if e != 0 {
      assert x / 30 >= q;
      assert e * 29 >= 30 * (29 * q);
      assert e * 29 / 30 >= 29 * q;
      assert 30 * (x / 30) <= x && 30 * (e * 29 / 30) <= e * 29;
    }
  }

  /**
   Samples in [lo, hi] keep the average in [30 * (lo / 30), hi], although it is truncated twice at
   every step and starts afresh whenever it is zero.
   */
  lemma {:induction false} EmaBounds(xs: seq<int>, lo: int, hi: int)
    requires xs != [] && 0 <= lo && forall i :: 0 <= i < |xs| ==> lo <= xs[i] <= hi
    ensures 30 * (lo / 30) <= Ema(xs) <= hi
  {
    var front := xs[..|xs| - 1];
    if front != [] {
      EmaBounds(front, lo, hi);
    }
    SmoothBounds(Ema(front), xs[|xs| - 1], lo, hi);
  }

  function Samples(s: Loop, es: seq<Event>): seq<int> {
    if es == [] then []
    else
      var front, e := es[..|es| - 1], es[|es| - 1];
      Samples(s, front)
      + if e.Response? && Accepted(After(s, front), e.now) then [Sample(After(s, front), e.now)] else []
  }

  /** What the loop keeps is this average of the samples it has accepted. */
  lemma {:induction false} LoopComputesEma(es: seq<Event>)
    ensures After(START, es).ema == Ema(Samples(START, es))
  {
    if es != [] {
      var front, e := es[..|es| - 1], es[|es| - 1];
      LoopComputesEma(front);
      var xs, ys := Samples(START, front), Samples(START, es);
      if e.Response? && Accepted(After(START, front), e.now) {
        assert ys[..|ys| - 1] == xs;
      } else {
        assert ys == xs;
      }
    }
  }

  function Constant(x: int, n: nat): (xs: seq<int>)
    ensures |xs| == n && forall i :: 0 <= i < n ==> xs[i] == x
  {
    seq(n, i => x)
  }

  lemma SmoothDrifts(e: int, x: int)
    requires 30 <= x && 30 * (x / 30) <= e <= x
    ensures Smooth(e, x) == if e == 30 * (x / 30) then e else e - 1
  {
    var q := x / 30;
    var r := e - 30 * q;
    assert 0 <= r < 30;
    assert e * 29 == 30 * (29 * q + r) - r;
    assert r == 0 ==> e * 29 / 30 == 29 * q;
    assert r > 0 ==> e * 29 / 30 == 29 * q + r - 1;
  }

  /** Under a constant sample the average drifts down by one a step to the lower bound, and stays there. */
  lemma {:induction false} ConstantDrifts(x: int, n: nat)
    requires 30 <= x
    ensures Ema(Constant(x, n + 1)) == if n <= x % 30 then x - n else 30 * (x / 30)
  {
    var xs := Constant(x, n + 1);
    assert xs[..n] == Constant(x, n);
    if n > 0 {
      ConstantDrifts(x, n - 1);
      SmoothDrifts(Ema(xs[..n]), x);
    } else {
      assert Ema(xs[..n]) == 0;
    }
  }

  /** Counts `n` steps round a cycle of `x + 1`. */
  function Phase(n: nat, x: nat): (p: nat)
    ensures p <= x
  {
    if n == 0 || Phase(n - 1, x) == x then 0 else Phase(n - 1, x) + 1
  }

  /** Below 30 it drifts to zero, where it starts afresh: it never settles, but cycles. */
  lemma {:induction false} SmallSampleCycles(x: nat, n: nat)
    requires 0 < x < 30
    ensures Ema(Constant(x, n + 1)) == x - Phase(n, x)
  {
    var xs := Constant(x, n + 1);
    assert xs[..n] == Constant(x, n);
    if n > 0 {
      SmallSampleCycles(x, n - 1);
      var e := Ema(xs[..n]);
      assert e > 0 ==> e * 29 / 30 == e - 1;
    } else {
      assert Ema(xs[..n]) == 0;
    }
  }

  // ----- publishing

  function Last(s: Loop): int
    requires s.published != []
  {
    s.published[|s.published| - 1]
  }

  /** What the loop compares with: the last published latency, or nothing. */
  ghost predicate ComparesWithLast(s: Loop) {
    s.lately == if s.published == [] || Last(s) < 0 then 0 else Last(s)
  }

  lemma StepCompares(s: Loop, e: Event)
    requires ComparesWithLast(s) && Inv(s)
    ensures ComparesWithLast(Step(s, e))
  {
  }

  lemma {:induction false} RunCompares(es: seq<Event>)
    ensures ComparesWithLast(After(START, es))
  {
    if es != [] {
      RunCompares(es[..|es| - 1]);
      InvHolds(es[..|es| - 1]);
      StepCompares(After(START, es[..|es| - 1]), es[|es| - 1]);
    }
  }

  /** The latency that the response at `i` shows: since the unanswered registration, or zero without one. */
  ghost predicate Shows(es: seq<Event>, i: int, x: int) {
    && 0 <= i < |es| && es[i].Response?
    && (forall j :: Unanswered(es[..i], j) ==> x == es[i].now - es[j].now)
    && ((exists j :: Unanswered(es[..i], j)) || x == 0)
  }

  lemma SampleByPosition(es: seq<Event>, i: nat, x: int)
    requires Shows(es, i, x)
    ensures Sample(After(START, es[..i]), es[i].now) == x
  {
    var j := SentByPosition(es[..i]);
  }

  /**
   What a response that shows the latency `x` changes: one of more than a second is ignored; any other
   enters the average, and this is published exactly if no latency was published last, or it is
   further from that than a fifth of itself and than three milliseconds.
   */
  ghost predicate Reacts(s: Loop, t: Loop, x: int) {
    var a := Smooth(s.ema, x);
    if x < 0 || x > 1_000_000 then t.ema == s.ema && t.published == s.published
    else
      && t.ema == a
      && t.published == if s.published == [] || Last(s) <= 0 || Abs(a - Last(s)) > (if a / 5 < 3000 then 3000 else a / 5)
                        then s.published + [a] else s.published
  }

  lemma ResponseReacts(s: Loop, now: int, x: int)
    requires Inv(s) && ComparesWithLast(s) && Sample(s, now) == x
    ensures Reacts(s, Respond(s, now), x)
  {
  }

  /** In every run a response has exactly this effect. */
  lemma ResponsesExactly(es: seq<Event>, i: nat, x: int)
    requires Shows(es, i, x)
    ensures Reacts(After(START, es[..i]), After(START, es[..i + 1]), x)
  {
    OneStep(es, i);
    InvHolds(es[..i]);
    RunCompares(es[..i]);
    SampleByPosition(es, i, x);
    ResponseReacts(After(START, es[..i]), es[i].now, x);
  }

  /** In every run, after an accepted response what is published is close to the average. */
  lemma PublishedIsClose(es: seq<Event>, now: int)
    requires Accepted(After(START, es), now)
    ensures var t := Respond(After(START, es), now);
            t.published != [] && Abs(Last(t) - t.ema) <= Tolerance(t.ema)
  {
    InvHolds(es);
  }

  ghost predicate AcceptedAt(es: seq<Event>, i: int) {
    0 <= i < |es| && es[i].Response? && Accepted(After(START, es[..i]), es[i].now)
  }

  lemma {:induction false} SilentSince(es: seq<Event>, i: nat)
    requires i <= |es| && After(START, es[..i]).fails >= MAX_FAILS1
    requires forall k :: i <= k < |es| ==> !AcceptedAt(es, k)
    ensures After(START, es).lately == 0
  {
    if i == |es| {
      assert es[..i] == es;
      InvHolds(es);
    } else {
      var n := |es| - 1;
      var front := es[..n];
      assert front[..i] == es[..i];
      forall k | i <= k < n ensures !AcceptedAt(front, k) {
        assert front[..k] == es[..k];
        assert !AcceptedAt(es, k);
      }
      SilentSince(front, i);
      assert !AcceptedAt(es, n);
    }
  }

  /**
   In every run, the first accepted response after two or more fails publishes the latency,
   whatever rejected responses and further fails lie between.
   */
  lemma RecoveryPublishes(es: seq<Event>, i: nat, now: int)
    requires i <= |es| && After(START, es[..i]).fails >= MAX_FAILS1
    requires forall k :: i <= k < |es| ==> !AcceptedAt(es, k)
    requires Accepted(After(START, es), now)
    ensures var s := After(START, es);
            Respond(s, now).published == s.published + [Respond(s, now).ema]
  {
    SilentSince(es, i);
  }
}
