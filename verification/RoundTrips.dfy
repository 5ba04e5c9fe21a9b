/** The engine's two round trips: what scrub replaces, restore puts back. */
module RoundTrips {
  import opened Basics
  import opened Text
  import opened Alphabets
  import opened Fpe
  import opened ExactMatcher
  import opened SessionMaps
  import opened SessionRestore
  import opened Restore
  import opened StatelessRestore
  import opened Idempotence
  import opened Engine
  import Reserved
  import Mac

  // ----- stateless: FF1 registrations -----

  /** Every registration has a fake, and no two different values share one. */
  ghost predicate DistinctFakes(ff1: Ff1, regs: seq<FpeRegistration>)
    requires Fpe.Lawful(ff1)
  {
    && (forall k :: 0 <= k < |regs| ==> Valid(regs[k].alphabet) && ScrubValue(ff1, regs[k]).Some?)
    && (forall k, l :: 0 <= k < |regs| && 0 <= l < |regs| && ScrubValue(ff1, regs[k]) == ScrubValue(ff1, regs[l]) ==>
          regs[k].value == regs[l].value)
  }

  lemma {:induction false} LookUpFinds(ff1: Ff1, regs: seq<FpeRegistration>, k: nat, fake: string)
    requires Fpe.Lawful(ff1) && k < |regs| && ScrubValue(ff1, regs[k]) == Some(fake)
    ensures exists l :: 0 <= l < |regs| && ScrubValue(ff1, regs[l]) == Some(fake) && Fpe.LookUp(ff1, fake, regs) == Some(regs[l].value)
    decreases k
  {
    if ScrubValue(ff1, regs[0]) == Some(fake) {
      assert Fpe.LookUp(ff1, fake, regs) == Some(regs[0].value);
    } else {
      LookUpFinds(ff1, regs[1..], k - 1, fake);
      var l :| 0 <= l < |regs[1..]| && ScrubValue(ff1, regs[1..][l]) == Some(fake)
               && Fpe.LookUp(ff1, fake, regs[1..]) == Some(regs[1..][l].value);
      assert regs[1..][l] == regs[l + 1];
    }
  }

  lemma FakeDecrypts(ff1: Ff1, regs: seq<FpeRegistration>, k: nat)
    requires Fpe.Lawful(ff1) && DistinctFakes(ff1, regs) && k < |regs|
    ensures TryRestore(ff1, ScrubValue(ff1, regs[k]).value, regs) == Some(regs[k].value)
  {
    var fake := ScrubValue(ff1, regs[k]).value;
    forall i | 0 <= i < |regs|
      ensures Valid(regs[i].alphabet) && Eligible(regs[i])
    {
      assert ScrubValue(ff1, regs[i]).Some?;
    }
    TrialDecryptionIsLookUp(ff1, fake, regs);
    LookUpFinds(ff1, regs, k, fake);
  }

  /** A fake, wherever it was written, is a span of its registration's profile. */
  lemma FakeIsCandidate(ff1: Ff1, regs: seq<FpeRegistration>, k: nat, gaps: seq<string>, fakes: seq<string>, i: nat)
    requires Fpe.Lawful(ff1) && k < |regs| && |gaps| == |fakes| + 1 && i < |fakes|
    requires ScrubValue(ff1, regs[k]) == Some(fakes[i])
    ensures IsCandidate(regs, Weave(gaps, fakes), SpanOf(gaps, fakes, i)) && fakes[i] != []
  {
    EligibleHasBody(regs[k]);
    PieceIsCandidate(regs, k, gaps, fakes, i);
  }

  lemma {:induction false} PieceIsCandidate(regs: seq<FpeRegistration>, k: nat, gaps: seq<string>, fakes: seq<string>, i: nat)
    requires k < |regs| && |gaps| == |fakes| + 1 && i < |fakes|
    requires regs[k].prefix <= fakes[i] && |fakes[i]| == |regs[k].value| && |regs[k].prefix| < |fakes[i]|
    requires AllIn(fakes[i][|regs[k].prefix|..], regs[k].alphabet)
    ensures IsCandidate(regs, Weave(gaps, fakes), SpanOf(gaps, fakes, i))
  {
    PieceOccurs(gaps, fakes, i);
    OccurrenceIsCandidate(regs, k, fakes[i], Weave(gaps, fakes), PieceAt(gaps, fakes, i));
  }

  lemma {:induction false} OccurrenceIsCandidate(regs: seq<FpeRegistration>, k: nat, fake: string, text: string, p: nat)
    requires k < |regs| && regs[k].prefix <= fake && |fake| == |regs[k].value| && |regs[k].prefix| < |fake|
    requires AllIn(fake[|regs[k].prefix|..], regs[k].alphabet) && OccursAt(text, fake, p)
    ensures IsCandidate(regs, text, Span(p, p + |fake|))
  {
    FakeMatchesProfile(regs[k], fake, text, p);
  }

  lemma {:induction false} FakeMatchesProfile(reg: FpeRegistration, fake: string, text: string, p: nat)
    requires reg.prefix <= fake && |fake| == |reg.value| && |reg.prefix| < |reg.value|
    requires AllIn(fake[|reg.prefix|..], reg.alphabet) && OccursAt(text, fake, p)
    ensures Profile(reg, text, Span(p, p + |fake|))
  {
    var n := |reg.prefix|;
    assert text[p..p + n] == text[p..p + |fake|][..n] == reg.prefix;
    assert text[p + n..p + |fake|] == text[p..p + |fake|][n..];
  }

  lemma EligibleHasBody(reg: FpeRegistration)
    requires Eligible(reg)
    ensures |reg.prefix| < |reg.value|
  {
    assert Pow(|reg.alphabet|, 0) == 1;
  }

  /** What a scrub writes for a hit of an FF1 registration. */
  lemma FpePieces(e: Engine, stateful: bool, hits: seq<Hit>, i: nat)
    requires WellFormed(e) && HitsFit(|e.refs|, hits) && i < |hits| && e.refs[hits[i].valueId].FpeRef?
    requires DistinctFakes(e.ff1, e.fpe)
    ensures var k := e.refs[hits[i].valueId].index;
            && k < |e.fpe| && e.fpe[k].value == e.values[hits[i].valueId]
            && ScrubValue(e.ff1, e.fpe[k]) == Some(Pieces(Plan(e, stateful), hits)[i])
  {
    HitIsReplaced(e, stateful, hits[i].valueId);
    var k := e.refs[hits[i].valueId].index;
    assert ScrubValue(e.ff1, e.fpe[k]).Some?;
  }

  /**
   * Stateless round trip: if every span of the scrubbed text that matches some
   * registration's profile is one that scrub wrote, restore gives the input back
   * and restores as many values as were scrubbed.
   */
  lemma StatelessRoundTrip(e: Engine, input: string, hits: seq<Hit>, spans: seq<Span>)
    requires WellFormed(e) && AllFpe(e) && DistinctFakes(e.ff1, e.fpe)
    requires LeftmostLongest(e.values, input, 0, hits) && Ordered(input, hits) && HitsFit(|e.refs|, hits)
    requires var gaps, fakes := Gaps(input, hits), Pieces(Plan(e, false), hits);
             && AreCandidates(e.fpe, Weave(gaps, fakes), spans)
             && forall s :: IsCandidate(e.fpe, Weave(gaps, fakes), s) ==>
                  exists i :: 0 <= i < |fakes| && s == SpanOf(gaps, fakes, i)
    ensures var scrubbed := Weave(Gaps(input, hits), Pieces(Plan(e, false), hits));
            var attempts := Attempts(e.ff1, e.fpe, scrubbed, spans);
            Walk(scrubbed, attempts, 0) == input && |Accepted(attempts, 0)| == |hits|
  {
    var gaps, fakes := Gaps(input, hits), Pieces(Plan(e, false), hits);
    HitsAreOrdered(e.values, input, hits);
    var values := HitValues(e.values, hits);
    forall i | 0 <= i < |hits|
      ensures TryRestore(e.ff1, fakes[i], e.fpe) == Some(values[i])
      ensures IsCandidate(e.fpe, Weave(gaps, fakes), SpanOf(gaps, fakes, i)) && fakes[i] != []
    {
      FpePieces(e, false, hits, i);
      var k := e.refs[hits[i].valueId].index;
      FakeDecrypts(e.ff1, e.fpe, k);
      FakeIsCandidate(e.ff1, e.fpe, k, gaps, fakes, i);
    }
    RestoreRebuilds(e.ff1, e.fpe, gaps, fakes, values, spans);
    InputIsWoven(e.values, input, hits);
  }

  // ----- with a session: session-mapped registrations -----

  /** No hit is redacted. */
  ghost predicate NoRedaction(e: Engine, hits: seq<Hit>)
    requires WellFormed(e) && HitsFit(|e.refs|, hits)
  {
    forall i :: 0 <= i < |hits| ==> FakeOf(e, hits[i].valueId).Some?
  }

  lemma SessionFakeIsNonEmpty(h: Mac.Hashes, macKey: Bytes, reg: SessionRegistration)
    requires Mac.Lawful(h) && reg.value != []
    requires reg.kind == Formatless ==> |reg.value| <= Mac.HKDF_CEILING + BASE62_TAIL
    ensures SessionFake(h, macKey, reg).Some? ==> SessionFake(h, macKey, reg).value != []
  {
    match reg.kind
    case Card =>
      if |Reserved.DigitsOf(reg.value)| == 16 {
        Reserved.CardFakeIsValid(h.sha256(reg.value), reg.value);
      }
    case Formatless => Base62TailLen();
    case Pii(_) =>
  }

  lemma SessionPiece(e: Engine, hits: seq<Hit>, i: nat)
    requires WellFormed(e) && HitsFit(|e.refs|, hits) && NoRedaction(e, hits) && i < |hits|
    requires e.refs[hits[i].valueId].SessionRef?
    ensures var m := Plan(e, true)[hits[i].valueId];
            m.text != [] && m.fake == Some(m.text)
  {
    var id := hits[i].valueId;
    HitIsReplaced(e, true, id);
    assert FakeOf(e, id).Some?;
    SessionFakeIsNonEmpty(e.hashes, e.macKey, e.session[e.refs[id].index]);
  }

  ghost function Pairs(values: seq<string>, fakes: seq<string>): (r: seq<Pair>)
    requires |values| == |fakes|
    ensures |r| == |values| && forall i :: 0 <= i < |r| ==> r[i] == (values[i], fakes[i])
  {
    seq(|values|, i requires 0 <= i < |values| => (values[i], fakes[i]))
  }

  /** When every hit has a session fake, the pairs handed over are the hits, in order. */
  lemma {:induction false} UsesAreHits(plan: seq<Emission>, values: seq<string>, hits: seq<Hit>, n: nat)
    requires |plan| == |values| && HitsFit(|plan|, hits) && n <= |hits|
    requires forall i :: 0 <= i < |hits| ==> plan[hits[i].valueId].fake == Some(plan[hits[i].valueId].text)
    ensures Uses(plan, values, hits, n) == Pairs(HitValues(values, hits), Pieces(plan, hits))[..n]
  {
    if n > 0 {
      UsesAreHits(plan, values, hits, n - 1);
    }
  }

  lemma AllUsesAreHits(plan: seq<Emission>, values: seq<string>, hits: seq<Hit>)
    requires |plan| == |values| && HitsFit(|plan|, hits) && Faked(plan, values, hits)
    ensures Uses(plan, values, hits, |hits|) == Pairs(HitValues(values, hits), Pieces(plan, hits))
  {
    UsesAreHits(plan, values, hits, |hits|);
    var pairs := Pairs(HitValues(values, hits), Pieces(plan, hits));
    assert pairs[..|pairs|] == pairs;
  }

  /** On texts: the map holds every pair, so putting back rebuilds. */
  lemma SessionTextsRebuild(cfg: Config, before: Store, now: nat, s: Store, later: nat, order: seq<string>,
                            gaps: seq<string>, values: seq<string>, fakes: seq<string>)
    requires |gaps| == |values| + 1 && |values| == |fakes|
    requires forall i :: 0 <= i < |values| ==> values[i] != [] && fakes[i] != []
    requires var pairs := Pairs(values, fakes);
             RoomFor(cfg, before, pairs, now) && Stores(cfg, before, pairs, now, s)
    requires forall f :: f in s.byFake ==> NeverElsewhere(gaps, values, fakes, f)
    requires ListsFakes(s, Weave(gaps, fakes), order) && now <= later <= now + cfg.ttl
    ensures PutBack(cfg, s, order, later, Weave(gaps, fakes)).1 == Weave(gaps, values)
    ensures PutBackCount(cfg, s, order, later, Weave(gaps, fakes)) == |values|
  {
    var pairs := Pairs(values, fakes);
    EveryPairIsHeld(cfg, before, pairs, now, s);
    forall i | 0 <= i < |values|
      ensures Restored(cfg, s, fakes[i], later).1 == Some(values[i])
    {
      assert pairs[i] == (values[i], fakes[i]);
    }
    forall i, j | 0 <= i < |values| && 0 <= j < |values|
      ensures values[i] == values[j] <==> fakes[i] == fakes[j]
    {
      assert pairs[i] == (values[i], fakes[i]) && pairs[j] == (values[j], fakes[j]);
    }
    PutBackRebuilds(cfg, s, order, later, gaps, values, fakes);
  }

  /** What the scrub handed to the map and wrote into the text, for a plan in which every hit has a session fake. */
  ghost predicate Faked(plan: seq<Emission>, values: seq<string>, hits: seq<Hit>)
    requires |plan| == |values| && HitsFit(|plan|, hits)
  {
    forall i :: 0 <= i < |hits| ==>
      var id := hits[i].valueId;
      values[id] != [] && plan[id].text != [] && plan[id].fake == Some(plan[id].text)
  }

  /** The map's side of the premises: distinct fakes, sound pointers, room for every value beside what is recent and the live orphans. */
  ghost predicate RoomFor(cfg: Config, before: Store, pairs: seq<Pair>, now: nat) {
    var p := Prune(cfg, before, now);
    && OneToOne(pairs) && Sound(before) && Agrees(p, pairs)
    && |Secrets(pairs) + FreshSecrets(p, now)| + |Orphans(p)| <= cfg.maxEntries
  }

  lemma PlannedRoundTrip(plan: seq<Emission>, values: seq<string>, input: string, hits: seq<Hit>,
                         cfg: Config, before: Store, now: nat, s: Store, later: nat, order: seq<string>)
    requires |plan| == |values| && HitsFit(|plan|, hits) && Ordered(input, hits)
    requires Faked(plan, values, hits) && now <= later <= now + cfg.ttl
    requires RoomFor(cfg, before, Pairs(HitValues(values, hits), Pieces(plan, hits)), now)
    requires Stores(cfg, before, Uses(plan, values, hits, |hits|), now, s)
    requires forall f :: f in s.byFake ==>
               NeverElsewhere(Gaps(input, hits), HitValues(values, hits), Pieces(plan, hits), f)
    requires ListsFakes(s, Weave(Gaps(input, hits), Pieces(plan, hits)), order)
    ensures var scrubbed := Weave(Gaps(input, hits), Pieces(plan, hits));
            && PutBack(cfg, s, order, later, scrubbed).1 == Weave(Gaps(input, hits), HitValues(values, hits))
            && PutBackCount(cfg, s, order, later, scrubbed) == |hits|
  {
    AllUsesAreHits(plan, values, hits);
    FakedIsNonEmpty(plan, values, hits);
    SessionTextsRebuild(cfg, before, now, s, later, order, Gaps(input, hits), HitValues(values, hits), Pieces(plan, hits));
  }

  lemma FakedIsNonEmpty(plan: seq<Emission>, values: seq<string>, hits: seq<Hit>)
    requires |plan| == |values| && HitsFit(|plan|, hits) && Faked(plan, values, hits)
    ensures forall i :: 0 <= i < |hits| ==> HitValues(values, hits)[i] != [] && Pieces(plan, hits)[i] != []
  {
  }

  /** Without FF1 registrations the second pass changes nothing. */
  lemma NothingToDecrypt(ff1: Ff1, text: string, spans: seq<Span>)
    requires Fpe.Lawful(ff1) && AreCandidates([], text, spans)
    ensures Walk(text, Attempts(ff1, [], text, spans), 0) == text && Accepted(Attempts(ff1, [], text, spans), 0) == []
  {
    assert forall i :: 0 <= i < |spans| ==> spans[i] in spans;
  }

  lemma SessionHitsAreFaked(e: Engine, hits: seq<Hit>)
    requires WellFormed(e) && AllSession(e) && HitsFit(|e.refs|, hits) && NoRedaction(e, hits)
    ensures Faked(Plan(e, true), e.values, hits)
  {
    forall i | 0 <= i < |hits|
      ensures var m := Plan(e, true)[hits[i].valueId]; m.text != [] && m.fake == Some(m.text)
    {
      SessionPiece(e, hits, i);
    }
  }

  /**
   * Session round trip, for every order in which the map lists its fakes: with
   * session-only registrations, no redaction, distinct fakes and room in the map,
   * restoring within the TTL gives the input back and counts every hit, provided
   * that in no text reached by putting some values back does a stored fake occur
   * except where scrub wrote it.
   */
  lemma SessionRoundTrip(e: Engine, input: string, hits: seq<Hit>, cfg: Config, before: Store, now: nat, s: Store,
                         later: nat, order: seq<string>, spans: seq<Span>)
    requires WellFormed(e) && AllSession(e)
    requires LeftmostLongest(e.values, input, 0, hits) && Ordered(input, hits) && HitsFit(|e.refs|, hits)
    requires NoRedaction(e, hits) && now <= later <= now + cfg.ttl
    requires var plan := Plan(e, true);
             var gaps, values, fakes := Gaps(input, hits), HitValues(e.values, hits), Pieces(plan, hits);
             && RoomFor(cfg, before, Pairs(values, fakes), now)
             && Stores(cfg, before, Uses(plan, e.values, hits, |hits|), now, s)
             && (forall f :: f in s.byFake ==> NeverElsewhere(gaps, values, fakes, f))
             && ListsFakes(s, Weave(gaps, fakes), order)
             && AreCandidates(e.fpe, PutBack(cfg, s, order, later, Weave(gaps, fakes)).1, spans)
    ensures var scrubbed := Weave(Gaps(input, hits), Pieces(Plan(e, true), hits));
            var working := PutBack(cfg, s, order, later, scrubbed).1;
            var attempts := Attempts(e.ff1, e.fpe, working, spans);
            && Walk(working, attempts, 0) == input
            && PutBackCount(cfg, s, order, later, scrubbed) + |Accepted(attempts, 0)| == |hits|
  {
    HitsAreOrdered(e.values, input, hits);
    SessionHitsAreFaked(e, hits);
    PlannedRoundTrip(Plan(e, true), e.values, input, hits, cfg, before, now, s, later, order);
    InputIsWoven(e.values, input, hits);
    NothingToDecrypt(e.ff1, input, spans);
  }

  /** The premises of the session round trip, for the matcher's hits on this input. */
  ghost predicate Undoable(e: Engine, input: string, hits: seq<Hit>, cfg: Config, before: Store, now: nat)
    requires WellFormed(e) && Ordered(input, hits) && HitsFit(|e.refs|, hits)
  {
    var plan := Plan(e, true);
    var gaps, values, fakes := Gaps(input, hits), HitValues(e.values, hits), Pieces(plan, hits);
    && NoRedaction(e, hits) && RoomFor(cfg, before, Pairs(values, fakes), now)
    && forall s :: Stores(cfg, before, Uses(plan, e.values, hits, |hits|), now, s) ==>
         forall f :: f in s.byFake ==> NeverElsewhere(gaps, values, fakes, f)
  }

  /** The two calls one after the other: the input comes back, whichever way the map lists its fakes. */
  method ScrubThenRestoreWithSession(e: Engine, input: string, session: SessionMap, now: nat, later: nat)
    returns (restored: string, scrubbedCount: nat, restoredCount: nat)
    requires WellFormed(e) && AllSession(e) && now <= later <= now + session.cfg.ttl
    requires forall hits :: LeftmostLongest(e.values, input, 0, hits) && Ordered(input, hits) && HitsFit(|e.refs|, hits) ==>
               Undoable(e, input, hits, session.cfg, session.View(), now)
    modifies session
    ensures restored == input && restoredCount == scrubbedCount
  {
    ghost var before := session.View();
    var scrubbed, n, notices, hits := ScrubImpl(e, input, session, now);
    assert Undoable(e, input, hits, session.cfg, before, now);
    ghost var s := session.View();
    var out, m, order, spans := RestoreWithSession(e.ff1, e.fpe, scrubbed, session, later);
    SessionRoundTrip(e, input, hits, session.cfg, before, now, s, later, order, spans);
    return out, n, m;
  }
}
