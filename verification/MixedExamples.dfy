/** A concrete text with registered values of both kinds: in one process, and through the session file. */
module MixedExamples {
  import opened Basics
  import opened Text
  import opened Fpe
  import opened ExactMatcher
  import opened SessionMaps
  import opened SessionRestore
  import opened Restore
  import opened StatelessRestore
  import opened Scrubbing = Engine
  import opened RoundTrips
  import opened MixedRoundTrip
  import opened VaultIo
  import opened Vault
  import opened SessionFile
  import opened SessionCommands
  import opened Examples

  const NOTE := "314159 555-2368"
  const BOTH := Scrubbing.Engine(
    COMPLEMENT, HASHES, [], [REGISTRATION], [DESK], [], [VALUE, PHONE], [FpeRef(0), SessionRef(0)])

  // ----- its hits -----

  lemma {:induction false} WhereValueOccurs(p: int)
    ensures OccursAt(NOTE, VALUE, p) <==> p == 0
  {
    if OccursAt(NOTE, VALUE, p) {
      var found := NOTE[p..p + 6];
      assert found[0] == NOTE[p] && found[1] == NOTE[p + 1] && found[5] == NOTE[p + 5];
    }
    assert NOTE[0..6] == VALUE;
  }

  lemma {:induction false} WherePhoneOccurs(p: int)
    ensures OccursAt(NOTE, PHONE, p) <==> p == 7
  {
    if OccursAt(NOTE, PHONE, p) {
      var found := NOTE[p..p + 8];
      assert found[3] == NOTE[p + 3];
    }
    assert NOTE[7..15] == PHONE;
  }

  /** Two values that occur once each, one after the other, are the hits. */
  lemma {:induction false} TwoHits(v: string, w: string, text: string, q: nat, hits: seq<Hit>)
    requires 0 < |v| <= q && w != [] && q + |w| == |text|
    requires forall p :: OccursAt(text, v, p) <==> p == 0
    requires forall p :: OccursAt(text, w, p) <==> p == q
    requires LeftmostLongest([v, w], text, 0, hits)
    ensures hits == [Hit(0, |v|, 0), Hit(q, q + |w|, 1)]
  {
    var values, a, b := [v, w], Hit(0, |v|, 0), Hit(q, q + |w|, 1);
    var end := Resume(0, hits, |hits|);
    assert OccursAt(text, values[0], 0) && OccursAt(text, values[1], q);
    assert NothingStarts(values, text, end, |text| + 1);
    assert end > q;
    forall i | 0 <= i < |hits|
      ensures Resume(0, hits, i) <= hits[i].start && (hits[i] == a || hits[i] == b)
    {
      assert IsNext(values, text, Resume(0, hits, i), hits[i]);
    }
    assert NothingStarts(values, text, Resume(0, hits, 0), hits[0].start);
    assert hits[0] == a;
    var n := |hits| - 1;
    forall i | 0 < i < |hits|
      ensures hits[i] == b && Resume(0, hits, i) <= q
    {
      assert Resume(0, hits, i) == hits[i - 1].end;
    }
    assert Resume(0, hits, n) == hits[n - 1].end;
    assert n == 1;
  }

  function NoteHits(): seq<Hit> {
    [Hit(0, 6, 0), Hit(7, 15, 1)]
  }

  lemma {:induction false} OnlyNoteHits(hits: seq<Hit>)
    requires LeftmostLongest([VALUE, PHONE], NOTE, 0, hits)
    ensures hits == NoteHits()
  {
    forall p
      ensures OccursAt(NOTE, VALUE, p) <==> p == 0
      ensures OccursAt(NOTE, PHONE, p) <==> p == 7
    {
      WhereValueOccurs(p);
      WherePhoneOccurs(p);
    }
    TwoHits(VALUE, PHONE, NOTE, 7, hits);
  }

  // ----- its parts -----

  const GAPS := ["", " ", ""]

  lemma {:induction false} NoteIsOrdered()
    ensures Ordered(NOTE, NoteHits()) && HitsFit(2, NoteHits())
  {
    var hits := NoteHits();
    assert Resume(0, hits, 0) == 0 && Resume(0, hits, 1) == 6 && Resume(0, hits, 2) == 15;
  }

  lemma {:induction false} NoteGaps()
    requires Ordered(NOTE, NoteHits())
    ensures Gaps(NOTE, NoteHits()) == GAPS
  {
    var hits := NoteHits();
    assert Resume(0, hits, 0) == 0 && Resume(0, hits, 1) == 6 && Resume(0, hits, 2) == 15;
    assert NOTE[0..0] == "" && NOTE[6..7] == " " && NOTE[15..15] == "";
  }

  lemma {:induction false} NotePieces(plan: seq<Emission>, values: seq<string>, x: string, y: string)
    requires |plan| == |values| == 2 && plan[0].text == x && plan[1].text == y && plan[0].fake == None && plan[1].fake == Some(y)
    requires HitsFit(2, NoteHits())
    ensures HitValues(values, NoteHits()) == values && Pieces(plan, NoteHits()) == [x, y]
    ensures Uses(plan, values, NoteHits(), 2) == [(values[1], y)]
  {
    var hits := NoteHits();
    assert Uses(plan, values, hits, 0) == [] && Uses(plan, values, hits, 1) == [];
  }

  lemma {:induction false} NoteParts(plan: seq<Emission>, x: string, y: string)
    requires |plan| == 2 && plan[0].text == x && plan[1].text == y && plan[0].fake == None && plan[1].fake == Some(y)
    ensures Ordered(NOTE, NoteHits()) && HitsFit(2, NoteHits())
    ensures Gaps(NOTE, NoteHits()) == GAPS && HitValues([VALUE, PHONE], NoteHits()) == [VALUE, PHONE]
    ensures Pieces(plan, NoteHits()) == [x, y]
    ensures Uses(plan, [VALUE, PHONE], NoteHits(), 2) == [(PHONE, y)]
  {
    NoteIsOrdered();
    NoteGaps();
    NotePieces(plan, [VALUE, PHONE], x, y);
  }

  lemma {:induction false} SecondOfTwo<T>(a: T, b: T)
    ensures Marked([a, b], [false, true]) == [b] && Marked([a, b], [true, false]) == [a]
  {
    assert [a, b][1..] == [b] && [false, true][1..] == [true] && [true, false][1..] == [false];
    assert Marked([b], [true]) == [b] && Marked([b], [false]) == [];
  }

  lemma {:induction false} CoarseOfTwo(a: string, b: string)
    ensures Coarse(GAPS, [a, b], [false, true]) == [a + " ", ""]
    ensures Coarse(GAPS, [a, b], [true, false]) == ["", " " + b]
  {
    assert [a, b][1..] == [b] && [b][1..] == [] && GAPS[1..] == [" ", ""] && [" ", ""][1..] == [""];
    assert [false, true][1..] == [true] && [true, false][1..] == [false];
    assert Coarse([""], [], []) == [""];
    assert Coarse([" ", ""], [b], [true]) == [" "] + [""];
    assert Coarse([" ", ""], [b], [false]) == [" " + b + ""] + [];
    assert " " + b + "" == " " + b && "" + a + " " == a + " ";
    assert [a + " ", ""] == [a + " "] + [""] && ["", " " + b] == [""] + [" " + b];
  }

  // ----- the session fake stands out -----

  const MASKED := FAKE + " "

  lemma {:induction false} PhoneFakeIn(text: string, tail: string, p: int)
    requires text == MASKED + tail && (tail == PHONE || tail == PHONE_FAKE) && OccursAt(text, PHONE_FAKE, p)
    ensures p == 7 && tail == PHONE_FAKE
  {
    var found := text[p..p + 8];
    assert |text| == 15 && forall i :: 0 <= i < 7 ==> text[i] == MASKED[i];
    assert forall i :: 0 <= i < 8 ==> text[7 + i] == tail[i];
    assert found[3] == text[p + 3] && found[4] == text[p + 4];
    assert text[10] == '-' && p + 3 == 10;
  }

  lemma {:induction false} PhoneFakeOnlyWritten(done: set<string>)
    ensures OnlyWritten([MASKED, ""], [PHONE], [PHONE_FAKE], done, PHONE_FAKE)
  {
    var gaps, pieces := [MASKED, ""], Mixed([PHONE], [PHONE_FAKE], done);
    var text := Weave(gaps, pieces);
    assert gaps[1..] == [""] && pieces[1..] == [] && Weave([""], []) == "";
    assert text == MASKED + pieces[0];
    assert PieceAt(gaps, pieces, 0) == 7;
    forall p | OccursAt(text, PHONE_FAKE, p)
      ensures p == PieceAt(gaps, pieces, 0) && PHONE !in done
    {
      PhoneFakeIn(text, pieces[0], p);
      assert PHONE[4] != PHONE_FAKE[4];
    }
  }

  // ----- and only the FF1 fake fits the FF1 profile -----

  lemma {:induction false} OnlyFakeFits(c: Span)
    requires Profile(REGISTRATION, MASKED + PHONE, c)
    ensures c == Span(0, 6)
  {
    var text := MASKED + PHONE;
    var body := text[c.start..c.end];
    assert text[6] == ' ' && text[10] == '-';
    assert forall i :: c.start <= i < c.end ==> body[i - c.start] == text[i];
    assert ' ' !in DIGITS && '-' !in DIGITS by {
      assert forall i :: 0 <= i < 10 ==> '0' <= DIGITS[i] <= '9';
    }
  }

  lemma {:induction false} NoteFakesFit(regs: seq<FpeRegistration>)
    requires regs == [REGISTRATION]
    ensures OnlyFakesFit(regs, GAPS, [VALUE, PHONE], [FAKE, PHONE_FAKE], [false, true])
  {
    var mark, half := [false, true], HalfBack([VALUE, PHONE], [FAKE, PHONE_FAKE], [false, true]);
    assert half == [FAKE, PHONE] && Others(mark) == [true, false];
    SecondOfTwo(FAKE, PHONE);
    CoarseOfTwo(FAKE, PHONE);
    assert GAPS[1..] == [" ", ""] && half[1..] == [PHONE] && [" ", ""][1..] == [""] && [PHONE][1..] == [];
    assert Weave([""], []) == "";
    assert Weave([" ", ""], [PHONE]) == " " + PHONE;
    assert Weave(GAPS, half) == MASKED + PHONE;
    var coarse, fakes := ["", " " + PHONE], [FAKE];
    assert SpanOf(coarse, fakes, 0) == Span(0, 6);
    forall c | IsCandidate(regs, MASKED + PHONE, c)
      ensures c == SpanOf(coarse, fakes, 0)
    {
      OnlyFakeFits(c);
    }
  }

  // ----- the premises -----

  /** An engine with these two registrations, whatever else it has. */
  ghost predicate ForNote(e: Scrubbing.Engine) {
    && WellFormed(e) && e.values == [VALUE, PHONE] && e.refs == [FpeRef(0), SessionRef(0)] && e.fpe == [REGISTRATION]
    && FakeOf(e, 0) == Some(FAKE) && FakeOf(e, 1) == Some(PHONE_FAKE)
  }

  lemma {:induction false} NoteTexts(e: Scrubbing.Engine)
    requires ForNote(e)
    ensures var plan := Plan(e, true);
            |plan| == 2 && plan[0].text == FAKE && plan[1].text == PHONE_FAKE && plan[0].fake == None && plan[1].fake == Some(PHONE_FAKE)
  {
    HitIsReplaced(e, true, 0);
    HitIsReplaced(e, true, 1);
  }

  lemma {:induction false} NoteKinds(e: Scrubbing.Engine)
    requires WellFormed(e) && e.refs == [FpeRef(0), SessionRef(0)] && HitsFit(2, NoteHits())
    ensures SessionHits(e, NoteHits()) == [false, true]
  {
  }

  lemma {:induction false} NotePlan(e: Scrubbing.Engine)
    requires ForNote(e)
    ensures Ordered(NOTE, NoteHits()) && HitsFit(2, NoteHits())
    ensures Gaps(NOTE, NoteHits()) == GAPS && HitValues(e.values, NoteHits()) == [VALUE, PHONE]
    ensures Pieces(Plan(e, true), NoteHits()) == [FAKE, PHONE_FAKE] && SessionHits(e, NoteHits()) == [false, true]
    ensures Uses(Plan(e, true), e.values, NoteHits(), 2) == [(PHONE, PHONE_FAKE)]
  {
    NoteTexts(e);
    NoteParts(Plan(e, true), FAKE, PHONE_FAKE);
    NoteKinds(e);
  }

  lemma {:induction false} PairOfSecond(v: string, w: string, x: string, y: string)
    ensures |Marked([v, w], [false, true])| == |Marked([x, y], [false, true])|
    ensures Pairs(Marked([v, w], [false, true]), Marked([x, y], [false, true])) == [(w, y)]
  {
    SecondOfTwo(v, w);
    SecondOfTwo(x, y);
  }

  lemma {:induction false} NotePairs(e: Scrubbing.Engine)
    requires ForNote(e) && HitsFit(2, NoteHits())
    ensures SessionPairs(e, NoteHits()) == [(PHONE, PHONE_FAKE)]
  {
    NotePlan(e);
    PairOfSecond(VALUE, PHONE, FAKE, PHONE_FAKE);
  }

  lemma {:induction false} NotRedacted(e: Scrubbing.Engine, hits: seq<Hit>)
    requires WellFormed(e) && |e.refs| == 2 && HitsFit(2, hits) && FakeOf(e, 0).Some? && FakeOf(e, 1).Some?
    ensures NoRedaction(e, hits)
  {
    forall i | 0 <= i < |hits|
      ensures FakeOf(e, hits[i].valueId).Some?
    {
      assert hits[i].valueId == 0 || hits[i].valueId == 1;
    }
  }

  lemma {:induction false} NoteSeenBySession()
    ensures Marked([VALUE, PHONE], [false, true]) == [PHONE] && Marked([FAKE, PHONE_FAKE], [false, true]) == [PHONE_FAKE]
    ensures Coarse(GAPS, [FAKE, PHONE_FAKE], [false, true]) == [MASKED, ""]
  {
    SecondOfTwo(VALUE, PHONE);
    SecondOfTwo(FAKE, PHONE_FAKE);
    CoarseOfTwo(FAKE, PHONE_FAKE);
  }

  lemma {:induction false} PhoneFakeNeverElsewhere()
    ensures NeverElsewhere([MASKED, ""], [PHONE], [PHONE_FAKE], PHONE_FAKE)
  {
    forall done
      ensures OnlyWritten([MASKED, ""], [PHONE], [PHONE_FAKE], done, PHONE_FAKE)
    {
      PhoneFakeOnlyWritten(done);
    }
  }

  lemma {:induction false} NoteStandsOut(e: Scrubbing.Engine, cfg: Config, now: nat, s: Store)
    requires ForNote(e) && cfg.maxEntries >= 1 && Stores(cfg, EMPTY, [(PHONE, PHONE_FAKE)], now, s)
    requires Ordered(NOTE, NoteHits()) && HitsFit(2, NoteHits())
    ensures SessionFakesStandOut(e, NOTE, NoteHits(), s)
  {
    NotePlan(e);
    HandedOver(cfg, PHONE, PHONE_FAKE, now, s);
    NoteSeenBySession();
    PhoneFakeNeverElsewhere();
  }

  lemma {:induction false} NoteIsUndoable(e: Scrubbing.Engine, cfg: Config, now: nat)
    requires ForNote(e) && cfg.maxEntries >= 1
    ensures Ordered(NOTE, NoteHits()) && HitsFit(2, NoteHits())
    ensures UndoableMixed(e, NOTE, NoteHits(), cfg, EMPTY, now) && UndoableThroughFile(e, NOTE, NoteHits(), cfg, EMPTY, now)
  {
    NotePlan(e);
    NotePairs(e);
    NotRedacted(e, NoteHits());
    NoteFakesFit(e.fpe);
    RoomForOne(cfg, PHONE, PHONE_FAKE, now);
    forall s | Stores(cfg, EMPTY, [(PHONE, PHONE_FAKE)], now, s)
      ensures SessionFakesStandOut(e, NOTE, NoteHits(), s)
    {
      NoteStandsOut(e, cfg, now, s);
    }
  }

  lemma {:induction false} BothIsWellFormed(e: Scrubbing.Engine)
    requires e == BOTH
    ensures WellFormed(e)
  {
    Lawfulness();
    RegistrationIsEligible();
  }

  lemma {:induction false} BothFakes(e: Scrubbing.Engine)
    requires WellFormed(e) && e.ff1 == COMPLEMENT && e.fpe == [REGISTRATION] && e.session == [DESK]
    requires e.refs == [FpeRef(0), SessionRef(0)] && e.hashes.sha256(PHONE)[0] == 0
    ensures FakeOf(e, 0) == Some(FAKE) && FakeOf(e, 1) == Some(PHONE_FAKE)
  {
    FirstFake(e.ff1, e.fpe[0]);
    DeskFake(e);
  }

  lemma {:induction false} DeskFake(e: Scrubbing.Engine)
    requires WellFormed(e) && e.session == [DESK] && e.refs == [FpeRef(0), SessionRef(0)] && e.hashes.sha256(PHONE)[0] == 0
    ensures FakeOf(e, 1) == Some(PHONE_FAKE)
  {
    PhoneFake(e.hashes.sha256(PHONE));
  }

  lemma {:induction false} BothIsForNote(e: Scrubbing.Engine)
    requires e == BOTH
    ensures ForNote(e) && DistinctFakes(e.ff1, e.fpe)
  {
    BothIsWellFormed(e);
    BothFakes(e);
    FakesAreDistinct();
  }

  /** In one process: the note comes back. */
  method NoteRoundTrip(e: Scrubbing.Engine, now: nat, later: nat) returns (restored: string, scrubbedCount: nat, restoredCount: nat)
    requires e == BOTH && now <= later <= now + 1800
    ensures restored == NOTE && restoredCount == scrubbedCount
  {
    var session := new SessionMap(10, 1800);
    BothIsForNote(e);
    NoteIsUndoable(e, session.cfg, now);
    forall hits | LeftmostLongest(e.values, NOTE, 0, hits)
      ensures hits == NoteHits()
    {
      OnlyNoteHits(hits);
    }
    restored, scrubbedCount, restoredCount := ScrubThenRestoreMixed(e, NOTE, session, now, later);
  }

  lemma {:induction false} NotePremises(e: Scrubbing.Engine, now: nat, instant: nat)
    requires e == BOTH
    ensures WellFormed(e) && DistinctFakes(e.ff1, e.fpe)
    ensures forall hits :: LeftmostLongest(e.values, NOTE, 0, hits) && Ordered(NOTE, hits) && HitsFit(|e.refs|, hits) ==>
              UndoableThroughFile(e, NOTE, hits, ScrubConfig(Missing, now), EMPTY, instant)
  {
    BothIsForNote(e);
    NoteIsUndoable(e, ScrubConfig(Missing, now), instant);
    forall hits | LeftmostLongest(e.values, NOTE, 0, hits)
      ensures hits == NoteHits()
    {
      OnlyNoteHits(hits);
    }
  }

  /** A session that is just being created: no entries, and half an hour to go. */
  lemma {:induction false} FirstSession(c: SessionSecrecy, key: Key, files: Files, path: string, now: nat)
    requires files == map[] && now + 1800 <= U64_MAX
    ensures var loaded := Load(c, key, files, path, now);
            && loaded == Missing && SessionCommands.Opened(loaded, now).expiresAt == now + 1800
            && forall instant :: Imported(EMPTY, SessionCommands.Opened(loaded, now).entries, instant) == EMPTY
  {
  }

  /** Through the session file, on a disk without one: the note comes back, and the file is gone if it could be removed. */
  method NoteThroughFile(c: SessionSecrecy, key: Key, disk: Disk, path: string, e: Scrubbing.Engine,
                         now: nat, instant: nat, nonce: Bytes, pid: nat, later: nat, laterInstant: nat, wipeOk: bool)
    returns (restored: Option<string>, scrubbedCount: nat, restoredCount: nat)
    requires LawfulSession(c) && e == BOTH && |nonce| == NONCE_LEN && disk.files == map[]
    requires now <= later < now + 1800 <= U64_MAX
    modifies disk
    ensures restored == Some(NOTE) && restoredCount == scrubbedCount && (path in disk.files <==> !wipeOk)
  {
    NotePremises(e, now, instant);
    FirstSession(c, key, disk.files, path, now);
    restored, scrubbedCount, restoredCount :=
      ScrubThenRestoreCommands(c, key, disk, path, e, NOTE, now, instant, nonce, pid, later, laterInstant, wipeOk);
  }
}
