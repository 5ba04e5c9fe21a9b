/**
 * The transfer with a clock: what time each side stamps its progress with, and which
 * transfers the watchdog ends.  The watchdog is a thread of its own and takes the
 * lock twice, to look for idle receives and to fail those it found.
 */
module X11Watchdog {
  import opened Basics
  import opened X11Transfer

  /** Milliseconds that a reader waits for the next chunk, and that an owner lets a send run. */
  const INCR_CHUNK_TIMEOUT: nat := 500
  const INCR_SEND_TIMEOUT: nat := 10_000

  /** When the receive was last served, and when the send was registered. */
  datatype Stamps = Stamps(receiveAt: Option<nat>, sendAt: Option<nat>)

  // ----- progress, seen from outside -----

  /** A read that was waiting for its answer has begun to receive. */
  predicate Begun(t: Transfer, t': Transfer) {
    t.pending && !t'.pending && t'.read == IncrInProgress && t'.receive == Some([])
  }

  /** A chunk in hand has joined the buffer. */
  predicate Grew(t: Transfer, t': Transfer) {
    t.taken.Some? && t'.taken.None? && t.receive.Some? && t'.receive.Some? && |t'.receive.value| > |t.receive.value|
  }

  /** The second look has found a text to send. */
  predicate Registered(t: Transfer, t': Transfer) {
    t.request.Some? && t'.request.None? && t.owned.Some? && t'.send.Some?
  }

  /** The stamps after a handler that ran at `now`: new where there was progress, gone with what they belong to, else as before. */
  function Restamp(t: Transfer, t': Transfer, now: nat, at: Stamps): Stamps {
    Stamps(
      if t'.receive.None? then None else if Begun(t, t') || Grew(t, t') then Some(now) else at.receiveAt,
      if t'.send.None? then None else if Registered(t, t') then Some(now) else at.sendAt)
  }

  // ----- runs with a clock -----

  /** `doomed`: the watchdog found the receive idle and has not come to fail it yet. */
  datatype Timed = Timed(s: State, at: Stamps, doomed: bool, clock: nat)

  datatype Tick =
    | Do(action: Action, now: nat)
    | Look(now: nat)
    | Fail(now: nat)
    | SweepSends(now: nat)

  predicate IsIdle(at: Stamps, now: nat) {
    at.receiveAt.Some? && now > at.receiveAt.value + INCR_CHUNK_TIMEOUT
  }

  predicate HasRunOut(at: Stamps, now: nat) {
    at.sendAt.Some? && now >= at.sendAt.value + INCR_SEND_TIMEOUT
  }

  /** Time does not run backwards; only the watchdog times transfers out. */
  predicate Possible(utf8: Bytes -> bool, w: Timed, k: Tick) {
    w.clock <= k.now && (k.Do? ==> Enabled(utf8, w.s, k.action) && !k.action.ReceiveTimeout? && !k.action.SendTimeout?)
  }

  function Ticked(utf8: Bytes -> bool, w: Timed, k: Tick): Timed
    requires Possible(utf8, w, k)
  {
    match k
    case Do(a, now) => var s' := Step(utf8, w.s, a); Timed(s', Restamp(w.s.t, s'.t, now, w.at), w.doomed, now)
    case Look(now) => w.(doomed := IsIdle(w.at, now), clock := now)
    case Fail(now) =>
      if w.doomed then Timed(Step(utf8, w.s, ReceiveTimeout), w.at.(receiveAt := None), false, now) else w.(clock := now)
    case SweepSends(now) =>
      if HasRunOut(w.at, now) then Timed(Step(utf8, w.s, SendTimeout), w.at.(sendAt := None), w.doomed, now) else w.(clock := now)
  }

  ghost predicate TickAt(utf8: Bytes -> bool, ws: seq<Timed>, ticks: seq<Tick>, i: nat)
    requires i < |ticks| < |ws|
  {
    Possible(utf8, ws[i], ticks[i]) && ws[i + 1] == Ticked(utf8, ws[i], ticks[i])
  }

  /** A state before and after each tick, from the start of a read. */
  ghost predicate IsTimedRun(utf8: Bytes -> bool, ws: seq<Timed>, ticks: seq<Tick>) {
    && |ws| == |ticks| + 1 && Start(utf8, ws[0].s) && ws[0].at == Stamps(None, None) && !ws[0].doomed
    && forall i {:trigger TickAt(utf8, ws, ticks, i)} :: 0 <= i < |ticks| ==> TickAt(utf8, ws, ticks, i)
  }

  /** Tick i registers the receive or adds a chunk to it. */
  ghost predicate BeatAt(ws: seq<Timed>, ticks: seq<Tick>, i: nat)
    requires i < |ticks| < |ws|
  {
    ticks[i].Do? && (Begun(ws[i].s.t, ws[i + 1].s.t) || Grew(ws[i].s.t, ws[i + 1].s.t))
  }

  /** Tick i registers the send. */
  ghost predicate SendBeginsAt(ws: seq<Timed>, ticks: seq<Tick>, i: nat)
    requires i < |ticks| < |ws|
  {
    ticks[i].Do? && Registered(ws[i].s.t, ws[i + 1].s.t)
  }

  // ----- what the stamps say -----

  ghost predicate ReceiveStamped(ws: seq<Timed>, ticks: seq<Tick>, n: nat)
    requires n <= |ticks| < |ws|
  {
    var w := ws[n];
    && (w.at.receiveAt.Some? <==> w.s.t.receive.Some?)
    && (w.at.receiveAt.Some? ==>
          && (exists i :: 0 <= i < n && BeatAt(ws, ticks, i) && ticks[i].now == w.at.receiveAt.value)
          && (forall i :: 0 <= i < n && BeatAt(ws, ticks, i) ==> ticks[i].now <= w.at.receiveAt.value))
  }

  ghost predicate SendStamped(ws: seq<Timed>, ticks: seq<Tick>, n: nat)
    requires n <= |ticks| < |ws|
  {
    var w := ws[n];
    && (w.at.sendAt.Some? <==> w.s.t.send.Some?)
    && (w.at.sendAt.Some? ==>
          && (exists i :: 0 <= i < n && SendBeginsAt(ws, ticks, i) && ticks[i].now == w.at.sendAt.value)
          && (forall i :: 0 <= i < n && SendBeginsAt(ws, ticks, i) ==> ticks[i].now <= w.at.sendAt.value))
  }

  /** A handler's step makes a receive only by beginning one, and a send only by registering one. */
  lemma {:induction false} OnlyBeats(utf8: Bytes -> bool, s: State, a: Action)
    requires Enabled(utf8, s, a)
    ensures var t, t' := s.t, Step(utf8, s, a).t;
            && (t.receive.None? && t'.receive.Some? ==> Begun(t, t'))
            && (t.send.None? && t'.send.Some? ==> Registered(t, t'))
  {
  }

  lemma {:induction false} ClockAt(utf8: Bytes -> bool, ws: seq<Timed>, ticks: seq<Tick>, n: nat)
    requires IsTimedRun(utf8, ws, ticks) && n <= |ticks|
    ensures forall i :: 0 <= i < n ==> ticks[i].now <= ws[n].clock
  {
    if n > 0 {
      ClockAt(utf8, ws, ticks, n - 1);
      assert TickAt(utf8, ws, ticks, n - 1);
    }
  }

  /** One tick keeps the receive's stamp the time of its last beat. */
  lemma {:induction false} ReceiveStampedNext(utf8: Bytes -> bool, ws: seq<Timed>, ticks: seq<Tick>, n: nat)
    requires IsTimedRun(utf8, ws, ticks) && n < |ticks| && ReceiveStamped(ws, ticks, n)
    ensures ReceiveStamped(ws, ticks, n + 1)
  {
    assert TickAt(utf8, ws, ticks, n);
    ClockAt(utf8, ws, ticks, n);
    var w, w', k := ws[n], ws[n + 1], ticks[n];
    if k.Do? {
      OnlyBeats(utf8, w.s, k.action);
    }
    if w'.at.receiveAt.Some? {
      if BeatAt(ws, ticks, n) {
        assert ticks[n].now == w'.at.receiveAt.value;
      } else {
        var i :| 0 <= i < n && BeatAt(ws, ticks, i) && ticks[i].now == w.at.receiveAt.value;
        assert BeatAt(ws, ticks, i) && ticks[i].now == w'.at.receiveAt.value;
      }
    }
  }

  /** ... and the send's stamp the time of its registration. */
  lemma {:induction false} SendStampedNext(utf8: Bytes -> bool, ws: seq<Timed>, ticks: seq<Tick>, n: nat)
    requires IsTimedRun(utf8, ws, ticks) && n < |ticks| && SendStamped(ws, ticks, n)
    ensures SendStamped(ws, ticks, n + 1)
  {
    assert TickAt(utf8, ws, ticks, n);
    ClockAt(utf8, ws, ticks, n);
    var w, w', k := ws[n], ws[n + 1], ticks[n];
    if k.Do? {
      OnlyBeats(utf8, w.s, k.action);
    }
    if w'.at.sendAt.Some? {
      if SendBeginsAt(ws, ticks, n) {
        assert ticks[n].now == w'.at.sendAt.value;
      } else {
        var i :| 0 <= i < n && SendBeginsAt(ws, ticks, i) && ticks[i].now == w.at.sendAt.value;
        assert SendBeginsAt(ws, ticks, i) && ticks[i].now == w'.at.sendAt.value;
      }
    }
  }

  lemma {:induction false} StampsHold(utf8: Bytes -> bool, ws: seq<Timed>, ticks: seq<Tick>, n: nat)
    requires IsTimedRun(utf8, ws, ticks) && n <= |ticks|
    ensures ReceiveStamped(ws, ticks, n) && SendStamped(ws, ticks, n)
  {
    if n > 0 {
      StampsHold(utf8, ws, ticks, n - 1);
      ReceiveStampedNext(utf8, ws, ticks, n - 1);
      SendStampedNext(utf8, ws, ticks, n - 1);
    }
  }

  // ----- which transfers the watchdog ends -----

  /** At tick m a receive is registered that was neither begun nor served a chunk in the last half second. */
  ghost predicate IdleAt(ws: seq<Timed>, ticks: seq<Tick>, m: nat)
    requires m < |ticks| < |ws|
  {
    && ws[m].s.t.receive.Some?
    && forall i :: 0 <= i < m && BeatAt(ws, ticks, i) ==> ticks[m].now > 500 + ticks[i].now
  }

  /** A look dooms the receive exactly if it is idle. */
  lemma {:induction false} LookDecides(utf8: Bytes -> bool, ws: seq<Timed>, ticks: seq<Tick>, m: nat)
    requires IsTimedRun(utf8, ws, ticks) && m < |ticks| && ticks[m].Look?
    ensures ws[m + 1].doomed <==> IdleAt(ws, ticks, m)
    ensures ws[m + 1].s == ws[m].s && ws[m + 1].at == ws[m].at
  {
    StampsHold(utf8, ws, ticks, m);
    assert TickAt(utf8, ws, ticks, m);
  }

  /** Only handlers and the other sweep come between the two. */
  ghost predicate NoWatchdogBetween(ticks: seq<Tick>, m: nat, n: nat)
    requires m < n <= |ticks|
  {
    forall i :: m < i < n ==> ticks[i].Do? || ticks[i].SweepSends?
  }

  lemma {:induction false} DoomStays(utf8: Bytes -> bool, ws: seq<Timed>, ticks: seq<Tick>, m: nat, n: nat)
    requires IsTimedRun(utf8, ws, ticks) && m < n <= |ticks| && NoWatchdogBetween(ticks, m, n)
    ensures ws[n].doomed == ws[m + 1].doomed
  {
    if m + 1 < n {
      DoomStays(utf8, ws, ticks, m, n - 1);
      assert TickAt(utf8, ws, ticks, n - 1);
      assert ticks[n - 1].Do? || ticks[n - 1].SweepSends?;
    }
  }

  /**
   * Over every run: when the watchdog fails what it found, a receive that is registered
   * then ends in failure if and only if at the look before one was registered that had
   * been neither begun nor served a chunk in the 500 milliseconds up to the look; and
   * otherwise the transfer is left as it is.
   */
  lemma {:induction false} WatchdogEndsIdle(utf8: Bytes -> bool, ws: seq<Timed>, ticks: seq<Tick>, m: nat, n: nat)
    requires IsTimedRun(utf8, ws, ticks) && m < n < |ticks| && ticks[m].Look? && ticks[n].Fail? && NoWatchdogBetween(ticks, m, n)
    ensures var t := ws[n].s.t;
            ws[n + 1].s.t == if t.receive.Some? && IdleAt(ws, ticks, m) then t.(receive := None, read := Done(ReadFailed)) else t
  {
    LookDecides(utf8, ws, ticks, m);
    DoomStays(utf8, ws, ticks, m, n);
    assert TickAt(utf8, ws, ticks, n);
  }

  /** Over every run: a send is dropped if and only if it was registered ten seconds ago or earlier. */
  lemma {:induction false} SweepDropsOld(utf8: Bytes -> bool, ws: seq<Timed>, ticks: seq<Tick>, n: nat)
    requires IsTimedRun(utf8, ws, ticks) && n < |ticks| && ticks[n].SweepSends?
    ensures var t := ws[n].s.t;
            var old10 := forall i :: 0 <= i < n && SendBeginsAt(ws, ticks, i) ==> ticks[n].now >= 10_000 + ticks[i].now;
            ws[n + 1].s.t == if t.send.Some? && old10 then t.(send := None) else t
  {
    StampsHold(utf8, ws, ticks, n);
    assert TickAt(utf8, ws, ticks, n);
  }

  /** With the clock taken away, such a run is a run of the transfer and keeps its invariant. */
  lemma {:induction false} TimedKeepsInv(utf8: Bytes -> bool, ws: seq<Timed>, ticks: seq<Tick>, n: nat)
    requires IsTimedRun(utf8, ws, ticks) && n <= |ticks|
    ensures Inv(utf8, ws[n].s)
  {
    if n == 0 {
      assert Legal(utf8, ws[0].s, []);
      InvRun(utf8, ws[0].s, []);
    } else {
      TimedKeepsInv(utf8, ws, ticks, n - 1);
      assert TickAt(utf8, ws, ticks, n - 1);
      var w, k := ws[n - 1], ticks[n - 1];
      match k
      case Do(a, _) => InvStep(utf8, w.s, a);
      case Fail(_) => InvStep(utf8, w.s, ReceiveTimeout);
      case SweepSends(_) => InvStep(utf8, w.s, SendTimeout);
      case Look(_) =>
    }
  }

  /** A chunk put away between the look and the failing comes too late. */
  lemma {:induction false} PutAwayTooLate(utf8: Bytes -> bool, w: Timed, look: nat, put: nat, fail: nat)
    requires w.clock <= look <= put <= fail && IsIdle(w.at, look) && w.s.t.receive.Some?
    requires w.s.t.taken.Some? && w.s.t.taken.value != [] && |w.s.t.receive.value| + |w.s.t.taken.value| <= MAX_CLIPBOARD_BYTES
    ensures var w1 := Ticked(utf8, w, Look(look));
            var w2 := Ticked(utf8, w1, Do(PutAway, put));
            && Grew(w1.s.t, w2.s.t) && w2.at.receiveAt == Some(put)
            && Ticked(utf8, w2, Fail(fail)).s.t.read == Done(ReadFailed)
  {
  }
}
