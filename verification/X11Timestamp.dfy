/**
 * The one-slot rendezvous by which any number of writers fetch a server
 * timestamp.  Each critical section on the slot is one step.
 */
module X11Timestamp {
  import opened Basics

  type Call = nat

  /**
   * A PropertyNotify for the fetch property: which one it is, the server's time, and,
   * for the onlooker, the call whose request caused it.
   */
  datatype Stamp = Stamp(serial: nat, time: nat, origin: Call)

  type Slot = Option<Option<Stamp>>

  /** Milliseconds that a writer waits for its notification. */
  const FETCH_TIMEOUT: nat := 500

  class PendingTimestamp {
    var slot: Slot

    constructor ()
      ensures slot == None
    {
      slot := None;
    }

    /** One look of a waiting writer at the slot: take it if it is free. */
    method Claim() returns (claimed: bool)
      modifies this
      ensures claimed == old(slot).None?
      ensures slot == if claimed then Some(None) else old(slot)
    {
      claimed := slot.None?;
      if claimed {
        slot := Some(None);
      }
    }

    /** The event thread's PropertyNotify handler. */
    method Fill(stamp: Stamp)
      modifies this
      ensures slot == Filled(old(slot), stamp)
    {
      if slot.Some? && slot.value.None? {
        slot := Some(Some(stamp));
      }
    }

    /** One look of the holder, which began to wait at `began`: leave with the stamp, leave after half a second, or keep waiting. */
    method Collect(began: nat, now: nat) returns (stamp: Option<Stamp>)
      modifies this
      ensures stamp == if old(slot).Some? then old(slot).value else None
      ensures slot == if stamp.Some? || now >= began + 500 then None else old(slot)
    {
      stamp := None;
      if slot.Some? && slot.value.Some? {
        stamp := slot.value;
        slot := None;
      } else if now >= began + FETCH_TIMEOUT {
        slot := None;
      }
    }
  }

  function Filled(slot: Slot, stamp: Stamp): Slot {
    if slot == Some(None) then Some(Some(stamp)) else slot
  }

  // ----- runs -----

  datatype Progress = Claimed | Triggered | Returned(stamp: Stamp) | TimedOut | RequestFailed

  datatype Delivery = Delivery(stamp: Stamp, holder: Call)

  /**
   * `holder` is the latest call that claimed the slot; `events` are on their way;
   * `serials` and `clock` are the server's; the rest is the onlooker's record: what
   * was delivered and returned, and which calls claimed while no stamp was on its way.
   */
  datatype State = State(
    slot: Slot,
    calls: map<Call, Progress>,
    holder: Call,
    events: seq<Stamp>,
    serials: nat,
    clock: nat,
    delivered: seq<Delivery>,
    returned: seq<Delivery>,
    quiet: set<Call>)

  datatype Action =
    | DoClaim(call: Call)
    | DoTrigger(call: Call, time: nat)
    | DoFail(call: Call)
    | DoDeliver
    | DoReturn(call: Call)
    | DoTimeOut(call: Call)

  predicate Holds(s: State, call: Call) {
    call in s.calls && (s.calls[call] == Claimed || s.calls[call] == Triggered)
  }

  /** The server's clock does not run backwards. */
  predicate Enabled(s: State, a: Action) {
    match a
    case DoClaim(c) => c !in s.calls && s.slot.None?
    case DoTrigger(c, time) => c in s.calls && s.calls[c] == Claimed && s.clock <= time
    case DoFail(c) => c in s.calls && s.calls[c] == Claimed
    case DoDeliver => s.events != []
    case DoReturn(c) => c in s.calls && s.calls[c] == Triggered && s.slot.Some? && s.slot.value.Some?
    case DoTimeOut(c) => c in s.calls && s.calls[c] == Triggered && s.slot == Some(None)
  }

  function Step(s: State, a: Action): State
    requires Enabled(s, a)
  {
    match a
    case DoClaim(c) =>
      s.(slot := Some(None), calls := s.calls[c := Claimed], holder := c,
         quiet := if s.events == [] then s.quiet + {c} else s.quiet)
    case DoTrigger(c, time) =>
      s.(calls := s.calls[c := Triggered], events := s.events + [Stamp(s.serials, time, c)],
         serials := s.serials + 1, clock := time)
    case DoFail(c) => s.(calls := s.calls[c := RequestFailed])
    case DoDeliver =>
      s.(slot := Filled(s.slot, s.events[0]),
         events := s.events[1..],
         delivered := if s.slot == Some(None) then s.delivered + [Delivery(s.events[0], s.holder)] else s.delivered)
    case DoReturn(c) =>
      s.(slot := None, calls := s.calls[c := Returned(s.slot.value.value)],
         returned := s.returned + [Delivery(s.slot.value.value, c)])
    case DoTimeOut(c) => s.(slot := None, calls := s.calls[c := TimedOut])
  }

  ghost predicate Legal(s: State, actions: seq<Action>)
    decreases |actions|
  {
    actions != [] ==> Enabled(s, actions[0]) && Legal(Step(s, actions[0]), actions[1..])
  }

  ghost function Run(s: State, actions: seq<Action>): State
    requires Legal(s, actions)
    decreases |actions|
  {
    if actions == [] then s else Run(Step(s, actions[0]), actions[1..])
  }

  ghost predicate Start(s: State) {
    s.slot == None && s.calls == map[] && s.events == [] && s.delivered == [] && s.returned == [] && s.quiet == {}
  }

  /** Later stamps are newer: higher serial, and a time that is not earlier. */
  predicate Before(a: Stamp, b: Stamp) {
    a.serial < b.serial && a.time <= b.time
  }

  ghost function Stamps(ds: seq<Delivery>): (r: seq<Stamp>)
    ensures |r| == |ds| && forall i :: 0 <= i < |ds| ==> r[i] == ds[i].stamp
  {
    seq(|ds|, i requires 0 <= i < |ds| => ds[i].stamp)
  }

  ghost function InSlot(s: State): seq<Stamp> {
    if s.slot.Some? && s.slot.value.Some? then [s.slot.value.value] else []
  }

  /** Returned, then waiting in the slot, then on their way. */
  ghost function Chain(s: State): seq<Stamp> {
    Stamps(s.returned) + InSlot(s) + s.events
  }

  ghost predicate Ordered(chain: seq<Stamp>, serials: nat, clock: nat) {
    && (forall i, j :: 0 <= i < j < |chain| ==> Before(chain[i], chain[j]))
    && (forall i :: 0 <= i < |chain| ==> chain[i].serial < serials && chain[i].time <= clock)
  }

  /** Only the latest claimant is between claim and release, and then the slot is taken. */
  ghost predicate AtMostOneHolder(s: State) {
    forall c :: Holds(s, c) ==> s.slot.Some? && c == s.holder
  }

  /** A taken slot has a caller that will free it. */
  ghost predicate SlotHasHolder(s: State) {
    s.slot.Some? ==> Holds(s, s.holder)
  }

  ghost predicate Inv(s: State) {
    && AtMostOneHolder(s)
    && Ordered(Chain(s), s.serials, s.clock)
    && (forall d :: d in s.returned ==> d in s.delivered)
    && (forall e :: e in InSlot(s) ==> Delivery(e, s.holder) in s.delivered)
  }

  lemma HolderStep(s: State, a: Action)
    requires AtMostOneHolder(s) && Enabled(s, a)
    ensures AtMostOneHolder(Step(s, a))
    ensures SlotHasHolder(s) && !a.DoFail? ==> SlotHasHolder(Step(s, a))
  {
    var s' := Step(s, a);
    if a.DoDeliver? {
      assert forall c :: Holds(s', c) == Holds(s, c);
    } else {
      assert forall c :: c != a.call ==> Holds(s', c) == Holds(s, c);
      assert a.DoClaim? || Holds(s, a.call);
    }
  }

  lemma OrderedGrows(chain: seq<Stamp>, serials: nat, clock: nat, time: nat, origin: Call)
    requires Ordered(chain, serials, clock) && clock <= time
    ensures Ordered(chain + [Stamp(serials, time, origin)], serials + 1, time)
  {
  }

  lemma OrderedShrinks(chain: seq<Stamp>, serials: nat, clock: nat, n: nat)
    requires Ordered(chain, serials, clock) && n < |chain|
    ensures Ordered(chain[..n] + chain[n + 1..], serials, clock)
  {
    var rest := chain[..n] + chain[n + 1..];
    assert forall i :: 0 <= i < |rest| ==> rest[i] == chain[if i < n then i else i + 1];
  }

  /** A trigger adds the newest stamp, an unwanted delivery drops one, nothing else moves. */
  lemma ChainStep(s: State, a: Action)
    requires Enabled(s, a)
    ensures var chain, chain', n := Chain(s), Chain(Step(s, a)), |s.returned| + |InSlot(s)|;
            if a.DoTrigger? then chain' == chain + [Stamp(s.serials, a.time, a.call)]
            else if a.DoDeliver? then n < |chain| && (chain' == chain || chain' == chain[..n] + chain[n + 1..])
            else chain' == chain
  {
    if a.DoReturn? {
      assert Stamps(Step(s, a).returned) == Stamps(s.returned) + [s.slot.value.value];
    }
  }

  lemma OrderedStep(s: State, a: Action)
    requires Ordered(Chain(s), s.serials, s.clock) && Enabled(s, a)
    ensures Ordered(Chain(Step(s, a)), Step(s, a).serials, Step(s, a).clock)
  {
    ChainStep(s, a);
    if a.DoTrigger? {
      OrderedGrows(Chain(s), s.serials, s.clock, a.time, a.call);
    } else if a.DoDeliver? {
      OrderedShrinks(Chain(s), s.serials, s.clock, |s.returned| + |InSlot(s)|);
    }
  }

  lemma InvStep(s: State, a: Action)
    requires Inv(s) && Enabled(s, a)
    ensures Inv(Step(s, a))
  {
    HolderStep(s, a);
    OrderedStep(s, a);
    if a.DoReturn? {
      assert Holds(s, a.call);
      assert s.slot.value.value in InSlot(s);
    }
  }

  lemma {:induction false} InvRun(s: State, actions: seq<Action>)
    requires Inv(s) && Legal(s, actions)
    ensures Inv(Run(s, actions))
    decreases |actions|
  {
    if actions != [] {
      InvStep(s, actions[0]);
      InvRun(Step(s, actions[0]), actions[1..]);
    }
  }

  /**
   * In every run, failed requests included: one call at a time is between claim
   * and release; a stamp is returned at most once, to the call that held the slot
   * when it came; and returned times never go backwards.
   */
  lemma Rendezvous(s: State, actions: seq<Action>)
    requires Start(s) && Legal(s, actions)
    ensures var r := Run(s, actions);
            && (forall c, d :: Holds(r, c) && Holds(r, d) ==> c == d)
            && (forall i, j :: 0 <= i < j < |r.returned| ==>
                  && r.returned[i].stamp.serial < r.returned[j].stamp.serial
                  && r.returned[i].stamp.time <= r.returned[j].stamp.time)
            && (forall d :: d in r.returned ==> d in r.delivered)
  {
    assert Inv(s);
    InvRun(s, actions);
    var r := Run(s, actions);
    var chain := Chain(r);
    forall i, j | 0 <= i < j < |r.returned|
      ensures Before(r.returned[i].stamp, r.returned[j].stamp)
    {
      assert chain[i] == r.returned[i].stamp && chain[j] == r.returned[j].stamp;
    }
  }

  // ----- whose stamp a call gets -----

  /** The stamp is the holder's own exactly if the holder claimed in quiet. */
  ghost predicate OwnIffQuiet(s: State, stamp: Stamp, holder: Call) {
    stamp.origin == holder <==> holder in s.quiet
  }

  /** What will fill the slot: a stamp of the holder if it claimed in quiet, else one that was on its way before. */
  ghost predicate NextIsOwnIffQuiet(s: State) {
    if s.holder in s.quiet then forall e :: e in s.events ==> e.origin == s.holder
    else s.events != [] && s.events[0].origin != s.holder
  }

  ghost predicate Origins(s: State) {
    && (forall e :: e in s.events ==> e.origin in s.calls)
    && (forall d :: d in s.returned ==> d.holder in s.calls && OwnIffQuiet(s, d.stamp, d.holder))
    && (s.slot.Some? ==> s.holder in s.calls)
    && (s.slot == Some(None) ==> NextIsOwnIffQuiet(s))
    && (forall e :: e in InSlot(s) ==> OwnIffQuiet(s, e, s.holder))
    && s.quiet <= s.calls.Keys
  }

  lemma {:induction false} OriginsClaim(s: State, c: Call)
    requires Inv(s) && Origins(s) && Enabled(s, DoClaim(c))
    ensures Origins(Step(s, DoClaim(c)))
  {
    var s' := Step(s, DoClaim(c));
    if s.events != [] {
      assert s.events[0] in s.events;
    }
    forall d | d in s'.returned
      ensures d.holder in s'.calls && OwnIffQuiet(s', d.stamp, d.holder)
    {
      assert OwnIffQuiet(s, d.stamp, d.holder) && d.holder != c;
    }
  }

  lemma {:induction false} OriginsDeliver(s: State)
    requires Inv(s) && Origins(s) && Enabled(s, DoDeliver)
    ensures Origins(Step(s, DoDeliver))
  {
    var s' := Step(s, DoDeliver);
    assert s.events[0] in s.events && forall e :: e in s'.events ==> e in s.events;
    assert forall d :: d in s.returned ==> OwnIffQuiet(s, d.stamp, d.holder) && OwnIffQuiet(s', d.stamp, d.holder);
    if s.slot == Some(None) {
      assert InSlot(s') == [s.events[0]];
    } else {
      assert InSlot(s') == InSlot(s);
      assert forall e :: e in InSlot(s) ==> OwnIffQuiet(s, e, s.holder) && OwnIffQuiet(s', e, s.holder);
    }
  }

  lemma {:induction false} OriginsReturn(s: State, c: Call)
    requires Inv(s) && Origins(s) && Enabled(s, DoReturn(c))
    ensures Origins(Step(s, DoReturn(c)))
  {
    var s', stamp := Step(s, DoReturn(c)), s.slot.value.value;
    assert Holds(s, c) && stamp in InSlot(s);
    assert OwnIffQuiet(s, stamp, s.holder);
    forall d | d in s'.returned
      ensures d.holder in s'.calls && OwnIffQuiet(s', d.stamp, d.holder)
    {
      assert d in s.returned ==> OwnIffQuiet(s, d.stamp, d.holder);
    }
  }

  lemma {:induction false} OriginsRest(s: State, a: Action)
    requires Inv(s) && Origins(s) && Enabled(s, a) && (a.DoTrigger? || a.DoFail? || a.DoTimeOut?)
    ensures Origins(Step(s, a))
  {
    var s' := Step(s, a);
    assert Holds(s, a.call);
    assert forall d :: d in s.returned ==> OwnIffQuiet(s, d.stamp, d.holder) && OwnIffQuiet(s', d.stamp, d.holder);
    assert forall e :: e in InSlot(s') ==> e in InSlot(s) && OwnIffQuiet(s, e, s.holder) && OwnIffQuiet(s', e, s.holder);
    assert s.events != [] ==> s'.events[0] == s.events[0];
  }

  lemma {:induction false} OriginsRun(s: State, actions: seq<Action>)
    requires Inv(s) && Origins(s) && Legal(s, actions)
    ensures Origins(Run(s, actions))
    decreases |actions|
  {
    if actions != [] {
      var a := actions[0];
      InvStep(s, a);
      match a {
        case DoClaim(c) => OriginsClaim(s, c);
        case DoDeliver => OriginsDeliver(s);
        case DoReturn(c) => OriginsReturn(s, c);
        case _ => OriginsRest(s, a);
      }
      OriginsRun(Step(s, a), actions[1..]);
    }
  }

  /**
   * In every run a call that returns gets the stamp of its own request if and only
   * if no stamp was on its way when it claimed the slot.
   */
  lemma OwnStampIff(s: State, actions: seq<Action>, d: Delivery)
    requires Start(s) && Legal(s, actions) && d in Run(s, actions).returned
    ensures d.stamp.origin == d.holder <==> d.holder in Run(s, actions).quiet
  {
    assert Inv(s);
    OriginsRun(s, actions);
    assert OwnIffQuiet(Run(s, actions), d.stamp, d.holder);
  }

  lemma {:induction false} FirstOf(s: State, a: Action, rest: seq<Action>)
    requires Enabled(s, a) && Legal(Step(s, a), rest)
    ensures Legal(s, [a] + rest) && Run(s, [a] + rest) == Run(Step(s, a), rest)
  {
    assert ([a] + rest)[1..] == rest;
  }

  /** A call that timed out leaves its stamp to the next one. */
  lemma {:induction false} LateStampGoesToNext(s: State) returns (actions: seq<Action>)
    requires s == State(None, map[], 0, [], 0, 0, [], [], {})
    ensures Start(s) && Legal(s, actions)
    ensures Run(s, actions).returned == [Delivery(Stamp(0, 5, 0), 1)]
  {
    var s1 := Step(s, DoClaim(0));
    var s2 := Step(s1, DoTrigger(0, 5));
    var s3 := Step(s2, DoTimeOut(0));
    var s4 := Step(s3, DoClaim(1));
    var s5 := Step(s4, DoDeliver);
    var s6 := Step(s5, DoTrigger(1, 9));
    FirstOf(s6, DoReturn(1), []);
    actions := [DoReturn(1)] + [];
    FirstOf(s5, DoTrigger(1, 9), actions);
    actions := [DoTrigger(1, 9)] + actions;
    FirstOf(s4, DoDeliver, actions);
    actions := [DoDeliver] + actions;
    FirstOf(s3, DoClaim(1), actions);
    actions := [DoClaim(1)] + actions;
    FirstOf(s2, DoTimeOut(0), actions);
    actions := [DoTimeOut(0)] + actions;
    FirstOf(s1, DoTrigger(0, 5), actions);
    actions := [DoTrigger(0, 5)] + actions;
    FirstOf(s, DoClaim(0), actions);
    actions := [DoClaim(0)] + actions;
  }

  // ----- what a failed request breaks -----

  /**
   * The early return on a failed request leaves the slot taken with nobody to free
   * it, so from then on no call ever claims or returns.
   */
  lemma {:induction false} FailedRequestWedges(s: State, c: Call, actions: seq<Action>)
    requires Inv(s) && Enabled(s, DoFail(c)) && Legal(Step(s, DoFail(c)), actions)
    ensures var r := Run(Step(s, DoFail(c)), actions);
            && r.slot.Some? && !SlotHasHolder(r)
            && r.returned == s.returned && r.calls == s.calls[c := RequestFailed]
  {
    assert Holds(s, c);
    var s' := Step(s, DoFail(c));
    assert forall d :: Holds(s', d) ==> d != c && Holds(s, d);
    Wedged(s', actions);
  }

  lemma {:induction false} Wedged(s: State, actions: seq<Action>)
    requires s.slot.Some? && (forall c :: !Holds(s, c)) && Legal(s, actions)
    ensures var r := Run(s, actions);
            r.slot.Some? && r.returned == s.returned && r.calls == s.calls && !SlotHasHolder(r)
    decreases |actions|
  {
    if actions != [] {
      assert forall c :: c in s.calls ==> !Holds(s, c);
      assert actions[0].DoDeliver?;
      var s' := Step(s, actions[0]);
      assert forall c :: Holds(s', c) ==> Holds(s, c);
      Wedged(s', actions[1..]);
    }
  }

  /** A taken slot has a caller that will free it exactly as long as no request has failed. */
  lemma {:induction false} SlotHasHolderIff(s: State, actions: seq<Action>)
    requires Inv(s) && SlotHasHolder(s) && Legal(s, actions)
    ensures SlotHasHolder(Run(s, actions)) <==> forall a :: a in actions ==> !a.DoFail?
    decreases |actions|
  {
    if actions != [] {
      var a, rest := actions[0], actions[1..];
      InvStep(s, a);
      HolderStep(s, a);
      assert forall b :: b in actions <==> b == a || b in rest;
      if a.DoFail? {
        FailedRequestWedges(s, a.call, rest);
      } else {
        SlotHasHolderIff(Step(s, a), rest);
      }
    }
  }

  /** The shortest such run: one caller claims, its request fails, and every later run leaves the slot taken. */
  lemma {:induction false} OneFailedRequest(s: State, later: seq<Action>)
    requires s == State(None, map[], 0, [], 0, 0, [], [], {})
    ensures Start(s) && Legal(s, [DoClaim(0), DoFail(0)])
    ensures var r := Run(s, [DoClaim(0), DoFail(0)]);
            && r.slot == Some(None)
            && (Legal(r, later) ==> Run(r, later).slot.Some? && Run(r, later).returned == [] && Run(r, later).calls.Keys == {0})
  {
    var actions := [DoClaim(0), DoFail(0)];
    var s1 := Step(s, DoClaim(0));
    var s2 := Step(s1, DoFail(0));
    assert actions[1..] == [DoFail(0)] && [DoFail(0)][1..] == [];
    assert Legal(s2, []) && Legal(s1, [DoFail(0)]);
    assert Run(s1, [DoFail(0)]) == s2;
    if Legal(s2, later) {
      FailedRequestWedges(s1, 0, later);
    }
  }
}
