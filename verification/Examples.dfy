/** Concrete inputs that meet the premises of the round trips. */
module Examples {
  import opened Basics
  import opened Text
  import opened Alphabets
  import opened Fpe
  import opened ExactMatcher
  import opened SessionMaps
  import opened SessionRestore
  import opened Scrubbing = Engine
  import opened RoundTrips
  import opened SingleRegistration
  import opened Reserved
  import ScrubTwice
  import Mac

  const DIGITS: Alphabet := CharRange('0', 10)
  const VALUE := "314159"

  /** Turns every numeral to its complement: a lawful stand-in for FF1. */
  function Complement(radix: nat, xs: seq<nat>): (r: seq<nat>)
    ensures |r| == |xs| && forall i :: 0 <= i < |xs| ==> r[i] == if xs[i] < radix then radix - 1 - xs[i] else xs[i]
  {
    seq(|xs|, i requires 0 <= i < |xs| => if xs[i] < radix then radix - 1 - xs[i] else xs[i])
  }

  const COMPLEMENT := Ff1((_, _) => true, (_, r, xs) => Complement(r, xs), (_, r, xs) => Complement(r, xs))

  const HASHES := Mac.Hashes((_, _) => seq(32, _ => 0), (_, _, n: nat) => seq(n, _ => 0), _ => seq(32, _ => 0))

  const REGISTRATION := FpeRegistration("pi", VALUE, [], DIGITS, "")

  const ENGINE := Scrubbing.Engine(COMPLEMENT, HASHES, [], [REGISTRATION], [], [], [VALUE], [FpeRef(0)])

  lemma RegistrationIsEligible()
    ensures Valid(DIGITS) && Eligible(REGISTRATION)
  {
    assert Pow(10, 6) == 1_000_000;
    assert VALUE[0..] == VALUE;
    forall i | 0 <= i < |VALUE|
      ensures VALUE[i] in DIGITS
    {
      assert VALUE[i] == DIGITS[VALUE[i] as int - 48];
    }
  }

  const TEXT := "pi 314159."

  lemma OnlyRun(lo: nat, hi: nat)
    requires IsRun(TEXT, DIGITS, lo, hi) && hi - lo >= |VALUE|
    ensures TEXT[lo..hi] == VALUE
  {
    var run := TEXT[lo..hi];
    assert forall i :: lo <= i < hi ==> TEXT[i] == run[i - lo];
    forall c: char
      ensures c in DIGITS <==> '0' <= c <= '9'
    {
      assert '0' <= c <= '9' ==> DIGITS[c as int - 48] == c;
    }
    assert TEXT[2] == ' ' && TEXT[9] == '.';
    assert lo == 3 && hi == 9;
  }

  lemma Lawfulness()
    ensures Fpe.Lawful(COMPLEMENT) && Mac.Lawful(HASHES)
  {
    forall r, xs | Numerals(xs, r)
      ensures Complement(r, Complement(r, xs)) == xs && Numerals(Complement(r, xs), r)
    {
    }
  }

  lemma EngineIsWellFormed()
    ensures WellFormed(ENGINE)
  {
    Lawfulness();
    RegistrationIsEligible();
  }

  lemma {:induction false} OneIsDistinct(ff1: Ff1, reg: FpeRegistration)
    requires Fpe.Lawful(ff1) && Valid(reg.alphabet) && ScrubValue(ff1, reg).Some?
    ensures DistinctFakes(ff1, [reg])
  {
  }

  lemma {:induction false} FakesAreDistinct()
    ensures Fpe.Lawful(COMPLEMENT) && DistinctFakes(COMPLEMENT, [REGISTRATION])
  {
    RegistrationIsEligible();
    FirstFake(COMPLEMENT, REGISTRATION);
    OneIsDistinct(COMPLEMENT, REGISTRATION);
  }

  /** A text with one registered value and nothing else like it. */
  lemma RoundTripPremisesHold()
    ensures WellFormed(ENGINE) && DistinctFakes(COMPLEMENT, [REGISTRATION])
    ensures RunsAreValue(TEXT, DIGITS, VALUE)
  {
    EngineIsWellFormed();
    FakesAreDistinct();
    forall lo: nat, hi: nat | IsRun(TEXT, DIGITS, lo, hi) && hi - lo >= |VALUE|
      ensures TEXT[lo..hi] == VALUE
    {
      OnlyRun(lo, hi);
    }
  }

  // ----- with a session -----

  lemma {:induction false} HandedOver(cfg: Config, v: string, f: string, now: nat, s: Store)
    requires cfg.maxEntries >= 1 && Stores(cfg, EMPTY, [(v, f)], now, s)
    ensures s.byFake.Keys == {f}
  {
    var uses := [(v, f)];
    var stores :| HandsOverAll(cfg, uses, now, stores) && stores[0] == EMPTY && stores[|uses|] == s;
    assert HandsOver(cfg, uses, now, stores, 0);
  }

  lemma {:induction false} NotElsewhere(v: string, f: string, done: set<string>)
    requires f != [] && !Contains(v, f)
    ensures OnlyWritten(["", ""], [v], [f], done, f)
  {
    var pieces := Mixed([v], [f], done);
    assert Weave(["", ""], pieces) == pieces[0];
    assert PieceAt(["", ""], pieces, 0) == 0;
    forall p | OccursAt(pieces[0], f, p)
      ensures p == 0 && v !in done
    {
    }
  }

  lemma {:induction false} FakeNeverElsewhere(cfg: Config, v: string, f: string, now: nat, s: Store, g: string)
    requires cfg.maxEntries >= 1 && Stores(cfg, EMPTY, [(v, f)], now, s) && g in s.byFake && f != [] && !Contains(v, f)
    ensures NeverElsewhere(["", ""], [v], [f], g)
  {
    HandedOver(cfg, v, f, now, s);
    forall done
      ensures OnlyWritten(["", ""], [v], [f], done, g)
    {
      NotElsewhere(v, f, done);
    }
  }

  lemma {:induction false} RoomForOne(cfg: Config, v: string, f: string, now: nat)
    requires cfg.maxEntries >= 1
    ensures RoomFor(cfg, EMPTY, [(v, f)], now)
  {
    var pairs := [(v, f)];
    assert FreshSecrets(EMPTY, now) == {};
    assert pairs[0].0 == v;
    assert Secrets(pairs) == {v};
  }

  lemma {:induction false} OneHitIsAll(v: string)
    requires v != []
    ensures LeftmostLongest([v], v, 0, [Hit(0, |v|, 0)])
  {
    var hits := [Hit(0, |v|, 0)];
    assert v[0..|v|] == v;
    assert Resume(0, hits, 0) == 0 && Resume(0, hits, 1) == |v|;
    assert LongestHere([v], v, hits[0]);
  }

  lemma {:induction false} OneHitTexts(plan: seq<Emission>, v: string, f: string)
    requires v != [] && |plan| == 1 && plan[0].text == f && plan[0].fake == Some(f)
    ensures var hits := [Hit(0, |v|, 0)];
            && Ordered(v, hits) && HitsFit(1, hits)
            && Gaps(v, hits) == ["", ""] && HitValues([v], hits) == [v] && Pieces(plan, hits) == [f]
            && Pairs([v], [f]) == [(v, f)] && Uses(plan, [v], hits, 1) == [(v, f)]
  {
    var hits := [Hit(0, |v|, 0)];
    OneHitIsAll(v);
    HitsAreOrdered([v], v, hits);
    assert Resume(0, hits, 0) == 0 && Resume(0, hits, 1) == |v|;
    assert Uses(plan, [v], hits, 0) == [];
  }

  /** A text that is one registered value, scrubbed into an empty map, meets them whenever its fake is not part of it. */
  lemma {:induction false} SessionPremisesHold(e: Scrubbing.Engine, v: string, f: string, cfg: Config, now: nat)
    requires WellFormed(e) && AllSession(e) && e.values == [v] && FakeOf(e, 0) == Some(f)
    requires f != [] && !Contains(v, f) && cfg.maxEntries >= 1
    ensures LeftmostLongest(e.values, v, 0, [Hit(0, |v|, 0)]) && Ordered(v, [Hit(0, |v|, 0)])
    ensures Undoable(e, v, [Hit(0, |v|, 0)], cfg, EMPTY, now)
  {
    OneHitIsAll(v);
    HitIsReplaced(e, true, 0);
    OneHitTexts(Plan(e, true), v, f);
    RoomForOne(cfg, v, f, now);
    forall s, g | Stores(cfg, EMPTY, [(v, f)], now, s) && g in s.byFake
      ensures NeverElsewhere(["", ""], [v], [f], g)
    {
      FakeNeverElsewhere(cfg, v, f, now, s, g);
    }
  }

  const PHONE := "555-2368"
  const PHONE_FAKE := "555-0100"
  const DESK := SessionRegistration("desk", PHONE, Pii(Phone))
  const DESK_ENGINE := Scrubbing.Engine(COMPLEMENT, HASHES, [], [], [DESK], [], [PHONE], [SessionRef(0)])

  lemma DeskIsWellFormed()
    ensures WellFormed(DESK_ENGINE) && AllSession(DESK_ENGINE)
  {
    Lawfulness();
  }

  lemma {:induction false} PhoneFake(hash: Bytes)
    requires |hash| == 32 && hash[0] == 0
    ensures FakePhone(hash) == PHONE_FAKE && !Contains(PHONE, PHONE_FAKE)
  {
    assert DigitChar(0) == '0';
    assert PHONE[4] != PHONE_FAKE[4] && PHONE[0..8] == PHONE;
  }

  lemma {:induction false} PhoneIsFaked(e: Scrubbing.Engine)
    requires WellFormed(e) && e.session == [DESK] && e.refs == [SessionRef(0)] && e.hashes.sha256(PHONE)[0] == 0
    ensures FakeOf(e, 0) == Some(PHONE_FAKE)
  {
    PhoneFake(e.hashes.sha256(PHONE));
  }

  lemma {:induction false} DeskIsFaked()
    ensures WellFormed(DESK_ENGINE) && AllSession(DESK_ENGINE) && FakeOf(DESK_ENGINE, 0) == Some(PHONE_FAKE)
  {
    DeskIsWellFormed();
    PhoneIsFaked(DESK_ENGINE);
  }

  lemma {:induction false} OnlyWholeHit(v: string, hits: seq<Hit>)
    requires v != [] && LeftmostLongest([v], v, 0, hits)
    ensures hits == [Hit(0, |v|, 0)]
  {
    var end := Resume(0, hits, |hits|);
    assert v[0..|v|] == v;
    assert OccursAt(v, [v][0], 0);
    assert NothingStarts([v], v, end, |v| + 1);
    forall i | 0 <= i < |hits|
      ensures Resume(0, hits, i) <= hits[i].start && hits[i] == Hit(0, |v|, 0)
    {
      assert IsNext([v], v, Resume(0, hits, i), hits[i]);
    }
    assert end > 0;
    assert Resume(0, hits, |hits| - 1) == 0;
  }

  lemma {:induction false} DeskPremises(e: Scrubbing.Engine, cfg: Config, now: nat)
    requires e == DESK_ENGINE && cfg.maxEntries >= 1
    ensures WellFormed(e) && AllSession(e)
    ensures forall hits :: LeftmostLongest(e.values, PHONE, 0, hits) && Ordered(PHONE, hits) && HitsFit(|e.refs|, hits) ==>
              Undoable(e, PHONE, hits, cfg, EMPTY, now)
  {
    DeskIsFaked();
    PhoneFake(e.hashes.sha256(PHONE));
    SessionPremisesHold(e, PHONE, PHONE_FAKE, cfg, now);
    forall hits | LeftmostLongest(e.values, PHONE, 0, hits)
      ensures hits == [Hit(0, |PHONE|, 0)]
    {
      OnlyWholeHit(PHONE, hits);
    }
  }

  /** The desk's number, as a whole text: it comes back. */
  method DeskRoundTrip(e: Scrubbing.Engine, now: nat, later: nat) returns (restored: string, scrubbedCount: nat, restoredCount: nat)
    requires e == DESK_ENGINE && now <= later <= now + 1800
    ensures restored == PHONE && restoredCount == scrubbedCount
  {
    var session := new SessionMap(10, 1800);
    DeskPremises(e, session.cfg, now);
    restored, scrubbedCount, restoredCount := ScrubThenRestoreWithSession(e, PHONE, session, now, later);
  }

  // ----- scrubbing twice -----

  const FAKE := "685840"
  const REGISTERED_FAKE := FpeRegistration("fake", FAKE, [], DIGITS, "")
  const PAIR_ENGINE := Scrubbing.Engine(
    COMPLEMENT, HASHES, [], [REGISTRATION, REGISTERED_FAKE], [], [], [VALUE, FAKE], [FpeRef(0), FpeRef(1)])

  /** Every digit of one is the complement of the other's. */
  predicate Complements(v: string, w: string) {
    |v| == |w| && AllDigits(v) && AllDigits(w) && forall i :: 0 <= i < |v| ==> DigitValue(v[i]) + DigitValue(w[i]) == 9
  }

  lemma {:induction false} ComplementOfBody(body: string, w: string, digits: Alphabet)
    requires digits == DIGITS && AllIn(body, digits) && Complements(body, w)
    ensures var ys := Complement(10, BodyToNumerals(body, digits));
            Numerals(ys, |digits|) && NumeralsToBody(ys, digits) == w
  {
    var xs := BodyToNumerals(body, digits);
    var ys := Complement(10, xs);
    forall i | 0 <= i < |body|
      ensures ys[i] < 10 && digits[ys[i]] == w[i]
    {
      assert digits[xs[i]] == body[i];
      assert xs[i] == DigitValue(body[i]);
    }
  }

  lemma {:induction false} ComplementIsFake(ff1: Ff1, reg: FpeRegistration, w: string)
    requires Fpe.Lawful(ff1) && (forall t, xs :: ff1.encrypt(t, 10, xs) == Complement(10, xs)) && ff1.accepts(10, |reg.value|)
    requires reg.alphabet == DIGITS && |reg.alphabet| == 10 && reg.prefix == "" && Eligible(reg) && Complements(reg.value, w)
    ensures ScrubValue(ff1, reg) == Some(w)
  {
    var body := reg.value[|reg.prefix|..];
    assert body == reg.value;
    ComplementOfBody(body, w, reg.alphabet);
    assert reg.prefix + w == w;
  }

  lemma FakeIsEligible()
    ensures Eligible(REGISTERED_FAKE)
  {
    assert Pow(10, 6) == 1_000_000;
    assert FAKE[0..] == FAKE;
    forall i | 0 <= i < |FAKE|
      ensures FAKE[i] in DIGITS
    {
      assert FAKE[i] == DIGITS[FAKE[i] as int - 48];
    }
  }

  lemma TheyComplement()
    ensures Complements(VALUE, FAKE) && Complements(FAKE, VALUE)
  {
  }

  lemma Encrypts(ff1: Ff1)
    requires ff1 == COMPLEMENT
    ensures Fpe.Lawful(ff1) && (forall t, xs :: ff1.encrypt(t, 10, xs) == Complement(10, xs)) && ff1.accepts(10, 6)
  {
    Lawfulness();
  }

  /** The fake of 314159 is 685840. */
  lemma {:induction false} FirstFake(ff1: Ff1, reg: FpeRegistration)
    requires ff1 == COMPLEMENT && reg == REGISTRATION
    ensures Fpe.Lawful(ff1) && ScrubValue(ff1, reg) == Some(FAKE)
  {
    Encrypts(ff1);
    RegistrationIsEligible();
    TheyComplement();
    ComplementIsFake(ff1, reg, FAKE);
  }

  /** And the fake of 685840, if that is registered, is 314159. */
  lemma {:induction false} SecondFake(ff1: Ff1, reg: FpeRegistration)
    requires ff1 == COMPLEMENT && reg == REGISTERED_FAKE
    ensures Fpe.Lawful(ff1) && ScrubValue(ff1, reg) == Some(VALUE)
  {
    Encrypts(ff1);
    FakeIsEligible();
    TheyComplement();
    ComplementIsFake(ff1, reg, VALUE);
  }

  lemma PairEngineIsWellFormed()
    ensures WellFormed(PAIR_ENGINE)
  {
    Lawfulness();
    RegistrationIsEligible();
  }

  /** Under the complement cipher, scrubbing 314159 gives 685840, and scrubbing that gives 314159 again. */
  lemma {:induction false} ScrubAlternates(e: Scrubbing.Engine)
    requires e == PAIR_ENGINE
    ensures WellFormed(e) && FakeOf(e, 0) == Some(FAKE) && FakeOf(e, 1) == Some(VALUE)
    ensures var plan, first, second := Plan(e, false), [Hit(0, |VALUE|, 0)], [Hit(0, |FAKE|, 1)];
            && LeftmostLongest(e.values, VALUE, 0, first) && Ordered(VALUE, first) && HitsFit(2, first)
            && LeftmostLongest(e.values, FAKE, 0, second) && Ordered(FAKE, second) && HitsFit(2, second)
            && Weave(Gaps(VALUE, first), Pieces(plan, first)) == FAKE && Weave(Gaps(FAKE, second), Pieces(plan, second)) == VALUE
  {
    PairEngineIsWellFormed();
    FirstFake(e.ff1, e.fpe[0]);
    SecondFake(e.ff1, e.fpe[1]);
    ScrubTwice.SecondScrubUndoesFirst(e, false, 0, 1);
  }
}
