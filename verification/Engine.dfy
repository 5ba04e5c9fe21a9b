/** The engine: scrubbing, stateless restore and session restore. */
module Engine {
  import opened Basics
  import opened Text
  import opened Alphabets
  import opened Fpe
  import opened ExactMatcher
  import opened SessionMaps
  import opened Idempotence
  import Mac

  datatype RegisteredValue = FpeValue(fpe: FpeRegistration) | SessionMapped(session: SessionRegistration)
  datatype RegistrationRef = FpeRef(index: nat) | SessionRef(index: nat)

  datatype Engine = Engine(
    ff1: Ff1,
    hashes: Mac.Hashes,
    macKey: Bytes,
    fpe: seq<FpeRegistration>,
    session: seq<SessionRegistration>,
    retired: seq<FpeRegistration>,
    values: seq<string>,
    refs: seq<RegistrationRef>)

  const REDACTION_PLACEHOLDER := "[INVISIBOOL_UNRESTORABLE]"

  datatype Notice =
    | SessionMappedUnrestorable(name: string, kind: SessionFakeKind)
    | RedactedFormatless(name: string)
    | RedactedInternalFailure(name: string)

  // ----- construction -----

  function ValueOf(r: RegisteredValue): string {
    if r.FpeValue? then r.fpe.value else r.session.value
  }

  /** The FF1 registrations in order. */
  function FpesOf(registered: seq<RegisteredValue>): seq<FpeRegistration> {
    if registered == [] then []
    else
      var n := |registered| - 1;
      FpesOf(registered[..n]) + (if registered[n].FpeValue? then [registered[n].fpe] else [])
  }

  /** The session-mapped registrations, in order. */
  function SessionsOf(registered: seq<RegisteredValue>): seq<SessionRegistration> {
    if registered == [] then []
    else
      var n := |registered| - 1;
      SessionsOf(registered[..n]) + (if registered[n].SessionMapped? then [registered[n].session] else [])
  }

  predicate RefersTo(e: Engine, ref: RegistrationRef, r: RegisteredValue) {
    match ref
    case FpeRef(i) => i < |e.fpe| && r == FpeValue(e.fpe[i])
    case SessionRef(i) => i < |e.session| && r == SessionMapped(e.session[i])
  }

  /** Position i of the engine stands for registration i. */
  ghost predicate Places(e: Engine, registered: seq<RegisteredValue>, i: nat)
    requires i < |registered| && |e.values| == |e.refs| == |registered|
  {
    e.values[i] == ValueOf(registered[i]) && RefersTo(e, e.refs[i], registered[i])
  }

  /** What construction promises: the two lists hold exactly the registrations of their kind, and each is found again. */
  ghost predicate BuiltFrom(e: Engine, registered: seq<RegisteredValue>) {
    && e.fpe == FpesOf(registered) && e.session == SessionsOf(registered)
    && |e.values| == |e.refs| == |registered|
    && forall i :: 0 <= i < |registered| ==> Places(e, registered, i)
  }

  /** One registration more: its value for the matcher, and its place in the list of its kind. */
  function WithRegistration(e: Engine, r: RegisteredValue): Engine {
    match r
    case FpeValue(f) =>
      e.(values := e.values + [f.value], refs := e.refs + [FpeRef(|e.fpe|)], fpe := e.fpe + [f])
    case SessionMapped(s) =>
      e.(values := e.values + [s.value], refs := e.refs + [SessionRef(|e.session|)], session := e.session + [s])
  }

  lemma {:induction false} BuiltOneMore(e: Engine, registered: seq<RegisteredValue>, r: RegisteredValue)
    requires BuiltFrom(e, registered)
    ensures BuiltFrom(WithRegistration(e, r), registered + [r])
  {
    var e', all := WithRegistration(e, r), registered + [r];
    assert all[..|registered|] == registered;
    forall i | 0 <= i < |all|
      ensures Places(e', all, i)
    {
      if i < |registered| {
        assert Places(e, registered, i);
      }
    }
  }

  /** Sorts the registrations into the two lists and remembers where each one went. */
  method NewEngine(ff1: Ff1, hashes: Mac.Hashes, registered: seq<RegisteredValue>,
                   retired: seq<FpeRegistration>, macKey: Bytes) returns (e: Engine)
    ensures e.ff1 == ff1 && e.hashes == hashes && e.macKey == macKey && e.retired == retired
    ensures BuiltFrom(e, registered)
  {
    e := Engine(ff1, hashes, macKey, [], [], retired, [], []);
    for i := 0 to |registered|
      invariant e.ff1 == ff1 && e.hashes == hashes && e.macKey == macKey && e.retired == retired
      invariant BuiltFrom(e, registered[..i])
    {
      BuiltOneMore(e, registered[..i], registered[i]);
      assert registered[..i + 1] == registered[..i] + [registered[i]];
      e := WithRegistration(e, registered[i]);
    }
    assert registered[..|registered|] == registered;
  }

  /** What the generators demand of a registration. */
  ghost predicate Registrable(r: RegisteredValue) {
    && ValueOf(r) != []
    && match r
       case FpeValue(f) => Valid(f.alphabet)
       case SessionMapped(s) => s.kind == Formatless ==> |s.value| <= Mac.HKDF_CEILING + BASE62_TAIL
  }

  /** What construction gives, for non-empty values within the generators' limits. */
  ghost predicate WellFormed(e: Engine) {
    && Fpe.Lawful(e.ff1) && Mac.Lawful(e.hashes)
    && |e.values| == |e.refs|
    && (forall i :: 0 <= i < |e.refs| ==>
          && e.values[i] != []
          && match e.refs[i]
             case FpeRef(k) => k < |e.fpe| && e.values[i] == e.fpe[k].value
             case SessionRef(k) => k < |e.session| && e.values[i] == e.session[k].value)
    && (forall k :: 0 <= k < |e.fpe| ==> Valid(e.fpe[k].alphabet))
    && (forall k :: 0 <= k < |e.session| && e.session[k].kind == Formatless ==>
          |e.session[k].value| <= Mac.HKDF_CEILING + BASE62_TAIL)
  }

  /** The registration behind a hit, when all registrations take the FF1 path. */
  ghost predicate AllFpe(e: Engine) {
    forall id :: 0 <= id < |e.refs| ==> e.refs[id].FpeRef?
  }

  /** No registration takes the FF1 path. */
  ghost predicate AllSession(e: Engine) {
    e.fpe == [] && forall id :: 0 <= id < |e.refs| ==> e.refs[id].SessionRef?
  }

  /** Each list holds a registration exactly if it was registered. */
  lemma {:induction false} ListsHoldRegistered(registered: seq<RegisteredValue>)
    ensures forall f :: f in FpesOf(registered) <==> FpeValue(f) in registered
    ensures forall s :: s in SessionsOf(registered) <==> SessionMapped(s) in registered
    decreases |registered|
  {
    if registered != [] {
      var n := |registered| - 1;
      ListsHoldRegistered(registered[..n]);
      assert registered == registered[..n] + [registered[n]];
    }
  }

  lemma {:induction false} RegistrableIsWellFormed(e: Engine, registered: seq<RegisteredValue>)
    requires BuiltFrom(e, registered) && Fpe.Lawful(e.ff1) && Mac.Lawful(e.hashes) && forall r :: r in registered ==> Registrable(r)
    ensures WellFormed(e)
  {
    ListsHoldRegistered(registered);
    forall i | 0 <= i < |e.refs|
      ensures e.values[i] != [] && e.values[i] == ValueOf(registered[i]) && RefersTo(e, e.refs[i], registered[i])
    {
      assert Places(e, registered, i) && registered[i] in registered;
    }
    forall k | 0 <= k < |e.fpe|
      ensures Valid(e.fpe[k].alphabet)
    {
      assert e.fpe[k] in e.fpe && FpeValue(e.fpe[k]) in registered;
    }
    forall k | 0 <= k < |e.session| && e.session[k].kind == Formatless
      ensures |e.session[k].value| <= Mac.HKDF_CEILING + BASE62_TAIL
    {
      assert e.session[k] in e.session && SessionMapped(e.session[k]) in registered;
    }
  }

  lemma {:induction false} KindsOfRegistered(e: Engine, registered: seq<RegisteredValue>)
    requires BuiltFrom(e, registered)
    ensures AllFpe(e) <==> forall r :: r in registered ==> r.FpeValue?
    ensures AllSession(e) <==> forall r :: r in registered ==> r.SessionMapped?
  {
    ListsHoldRegistered(registered);
    forall i | 0 <= i < |e.refs|
      ensures registered[i] in registered && RefersTo(e, e.refs[i], registered[i])
    {
      assert Places(e, registered, i);
    }
    if e.fpe != [] {
      assert e.fpe[0] in e.fpe && FpeValue(e.fpe[0]) in registered;
    }
  }

  /** An engine built from registrable values is well formed; its kinds are those of its registrations. */
  lemma NewEngineIsWellFormed(e: Engine, registered: seq<RegisteredValue>)
    requires BuiltFrom(e, registered) && Fpe.Lawful(e.ff1) && Mac.Lawful(e.hashes)
    ensures WellFormed(e) <==> forall r :: r in registered ==> Registrable(r)
    ensures AllFpe(e) <==> forall r :: r in registered ==> r.FpeValue?
    ensures AllSession(e) <==> forall r :: r in registered ==> r.SessionMapped?
  {
    KindsOfRegistered(e, registered);
    if forall r :: r in registered ==> Registrable(r) {
      RegistrableIsWellFormed(e, registered);
    }
    if WellFormed(e) {
      forall i | 0 <= i < |registered|
        ensures Registrable(registered[i])
      {
        assert Places(e, registered, i);
      }
    }
  }

  // ----- scrub -----

  /** What scrubbing does with one hit; `fake` is what goes into a session map. */
  datatype Emission = Emission(text: string, counted: bool, fake: Option<string>, notices: seq<Notice>)

  function ContextOf(e: Engine): Context {
    Context(e.fpe, e.retired, e.ff1, e.hashes, e.macKey)
  }

  function Emit(e: Engine, stateful: bool, candidate: string, id: nat): Emission
    requires WellFormed(e) && id < |e.refs|
  {
    match e.refs[id]
    case FpeRef(k) =>
      var reg := e.fpe[k];
      if Classify(ContextOf(e), candidate, reg.alphabet).NoOp? then Emission(candidate, false, None, [])
      else (
        match ScrubValue(e.ff1, reg)
        case Some(fake) => Emission(fake, true, None, [])
        case None => Emission(REDACTION_PLACEHOLDER, true, None, [RedactedInternalFailure(reg.name)])
      )
    case SessionRef(k) =>
      var reg := e.session[k];
      match SessionFake(e.hashes, e.macKey, reg)
      case Some(fake) =>
        Emission(fake, true, Some(fake), if stateful then [] else [SessionMappedUnrestorable(reg.name, reg.kind)])
      case None =>
        Emission(REDACTION_PLACEHOLDER, true, None,
                 [if reg.kind == Formatless then RedactedFormatless(reg.name) else RedactedInternalFailure(reg.name)])
  }

  /** What a hit of each registered value becomes. */
  ghost function Plan(e: Engine, stateful: bool): (plan: seq<Emission>)
    requires WellFormed(e)
    ensures |plan| == |e.refs|
    ensures forall id :: 0 <= id < |plan| ==> plan[id] == Emit(e, stateful, e.values[id], id)
  {
    seq(|e.refs|, id requires 0 <= id < |e.refs| => Emit(e, stateful, e.values[id], id))
  }

  /** The fake of registration `id`, if its generator makes one. */
  function FakeOf(e: Engine, id: nat): Option<string>
    requires WellFormed(e) && id < |e.refs|
  {
    match e.refs[id]
    case FpeRef(k) => ScrubValue(e.ff1, e.fpe[k])
    case SessionRef(k) => SessionFake(e.hashes, e.macKey, e.session[k])
  }

  /**
   * Who is told what: a redacted hit is reported under its registration's name, as
   * formatless or as an internal failure; a session fake that no session keeps is
   * reported with its kind; nothing else is.
   */
  function NoticesFor(e: Engine, stateful: bool, id: nat, fake: Option<string>): seq<Notice>
    requires WellFormed(e) && id < |e.refs|
  {
    var name := match e.refs[id] case FpeRef(k) => e.fpe[k].name case SessionRef(k) => e.session[k].name;
    var formatless := e.refs[id].SessionRef? && e.session[e.refs[id].index].kind == Formatless;
    if fake.None? then [if formatless then RedactedFormatless(name) else RedactedInternalFailure(name)]
    else if e.refs[id].SessionRef? && !stateful then [SessionMappedUnrestorable(name, e.session[e.refs[id].index].kind)]
    else []
  }

  /**
   * An exact hit is never copied: a registered value takes precedence over every
   * idempotence check, so the hit is counted and becomes its fake or the
   * placeholder, with the notice that this calls for.
   */
  lemma HitIsReplaced(e: Engine, stateful: bool, id: nat)
    requires WellFormed(e) && id < |e.refs|
    ensures var m, fake := Plan(e, stateful)[id], FakeOf(e, id);
            && m.counted
            && m.text == (if fake.Some? then fake.value else REDACTION_PLACEHOLDER)
            && m.fake == (if e.refs[id].SessionRef? then fake else None)
            && m.notices == NoticesFor(e, stateful, id, fake)
  {
    var m := Emit(e, stateful, e.values[id], id);
    if e.refs[id].FpeRef? {
      var k := e.refs[id].index;
      assert ContextOf(e).registered[k].value == e.values[id];
      assert IsRegisteredValue(ContextOf(e), e.values[id]);
    }
  }

  ghost function Pieces(plan: seq<Emission>, hits: seq<Hit>): (r: seq<string>)
    requires HitsFit(|plan|, hits)
    ensures |r| == |hits| && forall i :: 0 <= i < |r| ==> r[i] == plan[hits[i].valueId].text
  {
    seq(|hits|, i requires 0 <= i < |hits| => plan[hits[i].valueId].text)
  }

  /** The notices of the first n hits, in source order. */
  ghost function Notices(plan: seq<Emission>, hits: seq<Hit>, n: nat): seq<Notice>
    requires HitsFit(|plan|, hits) && n <= |hits|
  {
    if n == 0 then [] else Notices(plan, hits, n - 1) + plan[hits[n - 1].valueId].notices
  }

  /** The notices of a hit stand behind those of the hits before it and ahead of those of the hits after it. */
  lemma {:induction false} NoticesInOrder(plan: seq<Emission>, hits: seq<Hit>, i: nat, n: nat)
    requires HitsFit(|plan|, hits) && i < n <= |hits|
    ensures Notices(plan, hits, 0) == []
    ensures var all, k, own := Notices(plan, hits, n), |Notices(plan, hits, i)|, plan[hits[i].valueId].notices;
            && k + |own| <= |all| && all[..k] == Notices(plan, hits, i) && all[k..k + |own|] == own
            && (i + 1 == n ==> |all| == k + |own|)
  {
    if i + 1 < n {
      NoticesInOrder(plan, hits, i, n - 1);
    }
  }

  /** The (value, fake) pairs that the first n hits hand to a session map. */
  ghost function Uses(plan: seq<Emission>, values: seq<string>, hits: seq<Hit>, n: nat): seq<(string, string)>
    requires |plan| == |values| && HitsFit(|plan|, hits) && n <= |hits|
  {
    if n == 0 then []
    else
      var id := hits[n - 1].valueId;
      Uses(plan, values, hits, n - 1) + UseOf(values[id], plan[id].fake)
  }

  /** The pair of a hit that has a session fake is handed over behind those of the hits before it, whatever became of these. */
  lemma {:induction false} UsesInOrder(plan: seq<Emission>, values: seq<string>, hits: seq<Hit>, i: nat, n: nat)
    requires |plan| == |values| && HitsFit(|plan|, hits) && i < n <= |hits|
    ensures Uses(plan, values, hits, 0) == []
    ensures var all, k, id := Uses(plan, values, hits, n), |Uses(plan, values, hits, i)|, hits[i].valueId;
            && k <= |all| && all[..k] == Uses(plan, values, hits, i)
            && (plan[id].fake.Some? ==> k < |all| && all[k] == (values[id], plan[id].fake.value))
            && (i + 1 == n ==> |all| == if plan[id].fake.Some? then k + 1 else k)
  {
    if i + 1 < n {
      UsesInOrder(plan, values, hits, i, n - 1);
    }
  }

  function UseOf(value: string, fake: Option<string>): seq<(string, string)> {
    if fake.Some? then [(value, fake.value)] else []
  }

  /** The session map's half of a hit. */
  method StoreUse(session: SessionMap?, value: string, fake: Option<string>, now: nat,
                  ghost before: Store, ghost uses: seq<(string, string)>)
    requires session != null ==> Stores(session.cfg, before, uses, now, session.View())
    modifies if session == null then {} else {session}
    ensures session != null ==>
              Stores(session.cfg, before, uses + UseOf(value, fake), now, session.View())
  {
    assert uses + [] == uses;
    if session != null && fake.Some? {
      ghost var mid := session.View();
      var result := session.GetOrInsert(value, now, fake.value);
      StoresOne(session.cfg, before, uses, now, mid, (value, fake.value), session.View(), result);
    }
  }

  ghost predicate AllCounted(plan: seq<Emission>) {
    forall id :: 0 <= id < |plan| ==> plan[id].counted
  }

  /** What one more hit adds to the output, the notices and the pairs. */
  lemma {:induction false} StepsFollowPlan(plan: seq<Emission>, values: seq<string>, input: string, hits: seq<Hit>, i: nat)
    requires |plan| == |values| && HitsFit(|plan|, hits) && Ordered(input, hits) && Spells(values, input, hits) && i < |hits|
    ensures var m, gaps, pieces := hits[i], Gaps(input, hits), Pieces(plan, hits);
            var emission := plan[m.valueId];
            && Resume(0, hits, i) <= m.start <= m.end <= |input| && input[m.start..m.end] == values[m.valueId]
            && Written(gaps, pieces, i + 1) == Written(gaps, pieces, i) + input[Resume(0, hits, i)..m.start] + emission.text
            && Notices(plan, hits, i + 1) == Notices(plan, hits, i) + emission.notices
            && Uses(plan, values, hits, i + 1) == Uses(plan, values, hits, i) + UseOf(values[m.valueId], emission.fake)
  {
    assert Resume(0, hits, i) <= hits[i].start;
  }

  /** What the scrub loop has built when i hits are done. */
  ghost predicate Built(plan: seq<Emission>, input: string, hits: seq<Hit>, i: nat,
                        cursor: nat, output: string, count: nat, notices: seq<Notice>)
    requires Ordered(input, hits) && HitsFit(|plan|, hits)
  {
    && i <= |hits|
    && cursor == Resume(0, hits, i)
    && output == Written(Gaps(input, hits), Pieces(plan, hits), i)
    && notices == Notices(plan, hits, i)
    && (AllCounted(plan) ==> count == i)
  }

  lemma {:induction false} TailEnds(plan: seq<Emission>, input: string, hits: seq<Hit>,
                                    cursor: nat, output: string, count: nat, notices: seq<Notice>)
    requires Ordered(input, hits) && HitsFit(|plan|, hits)
    requires Built(plan, input, hits, |hits|, cursor, output, count, notices)
    ensures cursor <= |input| && output + input[cursor..] == Weave(Gaps(input, hits), Pieces(plan, hits))
  {
    WovenEnds(Gaps(input, hits), Pieces(plan, hits));
  }

  lemma NothingBuilt(plan: seq<Emission>, input: string, hits: seq<Hit>)
    requires Ordered(input, hits) && HitsFit(|plan|, hits)
    ensures Built(plan, input, hits, 0, 0, "", 0, [])
  {
  }

  /** What the session map has been handed when i hits are done. */
  ghost predicate Handed(cfg: Config, before: Store, after: Store, plan: seq<Emission>, values: seq<string>,
                         hits: seq<Hit>, i: nat, now: nat)
    requires |plan| == |values| && HitsFit(|plan|, hits)
  {
    i <= |hits| && Stores(cfg, before, Uses(plan, values, hits, i), now, after)
  }

  /** Text and session map, one hit further. */
  method OneHit(values: seq<string>, emission: Emission, input: string, hits: seq<Hit>, i: nat, session: SessionMap?, now: nat,
                cursor: nat, output: string, count: nat, notices: seq<Notice>, ghost plan: seq<Emission>, ghost before: Store)
    returns (cursor': nat, output': string, count': nat, notices': seq<Notice>)
    requires |plan| == |values| && Ordered(input, hits) && HitsFit(|plan|, hits) && Spells(values, input, hits)
    requires i < |hits| && emission == plan[hits[i].valueId]
    requires Built(plan, input, hits, i, cursor, output, count, notices)
    requires session != null ==> Handed(session.cfg, before, session.View(), plan, values, hits, i, now)
    modifies if session == null then {} else {session}
    ensures Built(plan, input, hits, i + 1, cursor', output', count', notices')
    ensures session != null ==> Handed(session.cfg, before, session.View(), plan, values, hits, i + 1, now)
  {
    var m := hits[i];
    StepsFollowPlan(plan, values, input, hits, i);
    output' := output + input[cursor..m.start] + emission.text;
    cursor' := m.end;
    notices' := notices + emission.notices;
    count' := if emission.counted then count + 1 else count;
    StoreUse(session, values[m.valueId], emission.fake, now, before, Uses(plan, values, hits, i));
  }

  lemma HitIsThere(values: seq<string>, input: string, hits: seq<Hit>, i: nat)
    requires Ordered(input, hits) && HitsFit(|values|, hits) && Spells(values, input, hits) && i < |hits|
    ensures hits[i].start <= hits[i].end <= |input| && hits[i].valueId < |values|
    ensures input[hits[i].start..hits[i].end] == values[hits[i].valueId]
  {
    assert Resume(0, hits, i) <= hits[i].start;
  }

  /** What becomes of hit i, decided by what stands there. */
  method EmissionAt(values: seq<string>, emit: (string, nat) --> Emission, input: string, matches: seq<Hit>, i: nat, ghost plan: seq<Emission>)
    returns (emission: Emission)
    requires |plan| == |values| && i < |matches|
    requires forall id :: 0 <= id < |values| ==> emit.requires(values[id], id) && emit(values[id], id) == plan[id]
    requires Ordered(input, matches) && HitsFit(|values|, matches) && Spells(values, input, matches)
    ensures emission == plan[matches[i].valueId]
  {
    var m := matches[i];
    HitIsThere(values, input, matches, i);
    emission := emit(input[m.start..m.end], m.valueId);
  }

  /** The scrub loop over the matcher's hits; `emit` says what becomes of each. */
  method RewriteHits(values: seq<string>, emit: (string, nat) --> Emission, input: string, matches: seq<Hit>,
                     session: SessionMap?, now: nat, ghost plan: seq<Emission>)
    returns (output: string, scrubbedCount: nat, notices: seq<Notice>)
    requires |plan| == |values|
    requires forall id :: 0 <= id < |values| ==> emit.requires(values[id], id) && emit(values[id], id) == plan[id]
    requires Ordered(input, matches) && HitsFit(|values|, matches) && Spells(values, input, matches)
    modifies if session == null then {} else {session}
    ensures output == Weave(Gaps(input, matches), Pieces(plan, matches))
    ensures notices == Notices(plan, matches, |matches|)
    ensures session != null ==> Handed(session.cfg, old(session.View()), session.View(), plan, values, matches, |matches|, now)
    ensures AllCounted(plan) ==> scrubbedCount == |matches|
  {
    ghost var before := if session == null then EMPTY else session.View();
    output, scrubbedCount, notices := "", 0, [];
    var cursor: nat := 0;
    NothingBuilt(plan, input, matches);
    if session != null {
      StoresNone(session.cfg, before, now);
    }
    for i := 0 to |matches|
      invariant Built(plan, input, matches, i, cursor, output, scrubbedCount, notices)
      invariant session != null ==> Handed(session.cfg, before, session.View(), plan, values, matches, i, now)
    {
      var emission := EmissionAt(values, emit, input, matches, i, plan);
      cursor, output, scrubbedCount, notices :=
        OneHit(values, emission, input, matches, i, session, now, cursor, output, scrubbedCount, notices, plan, before);
    }
    TailEnds(plan, input, matches, cursor, output, scrubbedCount, notices);
    output := output + input[cursor..];
  }

  /**
   * Every leftmost-longest match is replaced as planned and everything between is
   * copied; a session, if given, is handed every session pair.
   */
  method ScrubImpl(e: Engine, input: string, session: SessionMap?, now: nat)
    returns (output: string, scrubbedCount: nat, notices: seq<Notice>, ghost hits: seq<Hit>)
    requires WellFormed(e)
    modifies if session == null then {} else {session}
    ensures LeftmostLongest(e.values, input, 0, hits) && Ordered(input, hits) && HitsFit(|e.refs|, hits)
    ensures output == Weave(Gaps(input, hits), Pieces(Plan(e, session != null), hits))
    ensures notices == Notices(Plan(e, session != null), hits, |hits|)
    ensures session != null ==>
              Stores(session.cfg, old(session.View()), Uses(Plan(e, true), e.values, hits, |hits|), now, session.View())
    ensures scrubbedCount == |hits|
  {
    var matches, stateful := Scan(e.values, input, 0), session != null;
    hits := matches;
    HitsAreOrdered(e.values, input, hits);
    forall id | 0 <= id < |e.refs|
      ensures Plan(e, stateful)[id].counted
    {
      HitIsReplaced(e, stateful, id);
    }
    output, scrubbedCount, notices := RewriteHits(
      e.values, (candidate, id) requires WellFormed(e) && 0 <= id < |e.refs| => Emit(e, stateful, candidate, id),
      input, matches, session, now, Plan(e, stateful));
  }
}
