/**
 * The session round trip for an engine with registrations of both kinds.  To the
 * session pass the FF1 fakes are part of the text between the session fakes; to the
 * FF1 pass the values already put back are.
 */
module MixedRoundTrip {
  import opened Basics
  import opened Text
  import opened Fpe
  import opened ExactMatcher
  import opened SessionMaps
  import opened SessionRestore
  import opened Restore
  import opened StatelessRestore
  import opened Engine
  import opened RoundTrips

  // ----- seeing only some of the pieces -----

  /** The elements at the marked places. */
  function Marked<T>(xs: seq<T>, mark: seq<bool>): (r: seq<T>)
    requires |xs| == |mark|
  {
    if xs == [] then [] else (if mark[0] then [xs[0]] else []) + Marked(xs[1..], mark[1..])
  }

  function Others(mark: seq<bool>): (r: seq<bool>)
    ensures |r| == |mark| && forall i :: 0 <= i < |r| ==> r[i] == !mark[i]
  {
    seq(|mark|, i requires 0 <= i < |mark| => !mark[i])
  }

  /** The gaps around the marked pieces, with the other pieces absorbed. */
  function Coarse(gaps: seq<string>, pieces: seq<string>, mark: seq<bool>): (r: seq<string>)
    requires |gaps| == |pieces| + 1 && |pieces| == |mark|
    ensures |r| == |Marked(pieces, mark)| + 1
  {
    if pieces == [] then gaps
    else
      var rest := Coarse(gaps[1..], pieces[1..], mark[1..]);
      if mark[0] then [gaps[0]] + rest else [gaps[0] + pieces[0] + rest[0]] + rest[1..]
  }

  /** The two lists differ at most at the marked places. */
  ghost predicate AgreeElsewhere(xs: seq<string>, ys: seq<string>, mark: seq<bool>) {
    |xs| == |ys| == |mark| && forall i :: 0 <= i < |xs| && !mark[i] ==> xs[i] == ys[i]
  }

  lemma {:induction false} MarkedSize<S, T>(xs: seq<S>, ys: seq<T>, mark: seq<bool>)
    requires |xs| == |ys| == |mark|
    ensures |Marked(xs, mark)| == |Marked(ys, mark)|
    ensures |Marked(xs, mark)| + |Marked(xs, Others(mark))| == |xs|
    decreases |xs|
  {
    if xs != [] {
      MarkedSize(xs[1..], ys[1..], mark[1..]);
      assert Others(mark)[1..] == Others(mark[1..]);
    }
  }

  lemma WeaveFirst(gap: string, piece: string, rest: seq<string>, pieces: seq<string>)
    requires |rest| == |pieces| + 1
    ensures Weave([gap + piece + rest[0]] + rest[1..], pieces) == gap + piece + Weave(rest, pieces)
  {
    var merged := [gap + piece + rest[0]] + rest[1..];
    assert merged[1..] == rest[1..];
    if pieces != [] {
      Reassociate(gap + piece, rest[0], pieces[0], Weave(rest[1..], pieces[1..]));
    }
  }

  /** Exchanging marked pieces is exchanging the pieces of the coarse weave. */
  lemma {:induction false} CoarseWeaves(gaps: seq<string>, pieces: seq<string>, others: seq<string>, mark: seq<bool>)
    requires |gaps| == |pieces| + 1 && AgreeElsewhere(pieces, others, mark)
    ensures |Marked(others, mark)| == |Marked(pieces, mark)|
    ensures Weave(gaps, others) == Weave(Coarse(gaps, pieces, mark), Marked(others, mark))
    decreases |pieces|
  {
    MarkedSize(pieces, others, mark);
    if pieces != [] {
      CoarseWeaves(gaps[1..], pieces[1..], others[1..], mark[1..]);
      var rest, tail := Coarse(gaps[1..], pieces[1..], mark[1..]), Marked(others[1..], mark[1..]);
      if mark[0] {
        assert ([gaps[0]] + rest)[1..] == rest && ([others[0]] + tail)[1..] == tail;
      } else {
        assert Marked(others, mark) == tail;
        WeaveFirst(gaps[0], pieces[0], rest, tail);
      }
    }
  }

  lemma {:induction false} MarkedAll<T>(xs: seq<T>, mark: seq<bool>, i: nat)
    requires |xs| == |mark| && i < |Marked(xs, mark)|
    ensures exists k :: 0 <= k < |xs| && mark[k] && Marked(xs, mark)[i] == xs[k]
    decreases |xs|
  {
    if !mark[0] || i > 0 {
      var j := if mark[0] then i - 1 else i;
      MarkedAll(xs[1..], mark[1..], j);
      var k :| 0 <= k < |xs| - 1 && mark[1..][k] && Marked(xs[1..], mark[1..])[j] == xs[1..][k];
      assert mark[k + 1] && xs[k + 1] == Marked(xs, mark)[i];
    }
  }

  /** Two lists marked alike give pairs of corresponding elements. */
  lemma {:induction false} MarkedTogether<S, T>(xs: seq<S>, ys: seq<T>, mark: seq<bool>, i: nat)
    requires |xs| == |ys| == |mark| && i < |Marked(xs, mark)|
    ensures |Marked(ys, mark)| == |Marked(xs, mark)|
    ensures exists k :: 0 <= k < |xs| && mark[k] && Marked(xs, mark)[i] == xs[k] && Marked(ys, mark)[i] == ys[k]
    decreases |xs|
  {
    MarkedSize(xs, ys, mark);
    if !mark[0] || i > 0 {
      var j := if mark[0] then i - 1 else i;
      MarkedTogether(xs[1..], ys[1..], mark[1..], j);
      var k :| 0 <= k < |xs| - 1 && mark[1..][k]
               && Marked(xs[1..], mark[1..])[j] == xs[1..][k] && Marked(ys[1..], mark[1..])[j] == ys[1..][k];
      assert mark[k + 1] && xs[k + 1] == Marked(xs, mark)[i] && ys[k + 1] == Marked(ys, mark)[i];
    }
  }

  /** The pieces once the session values are back: values where marked, what was written elsewhere. */
  ghost function HalfBack(values: seq<string>, pieces: seq<string>, mark: seq<bool>): (r: seq<string>)
    requires |values| == |pieces| == |mark|
    ensures |r| == |values| && forall i :: 0 <= i < |r| ==> r[i] == if mark[i] then values[i] else pieces[i]
  {
    seq(|values|, i requires 0 <= i < |values| => if mark[i] then values[i] else pieces[i])
  }

  lemma {:induction false} HalfBackParts(values: seq<string>, pieces: seq<string>, mark: seq<bool>)
    requires |values| == |pieces| == |mark|
    ensures Marked(HalfBack(values, pieces, mark), mark) == Marked(values, mark)
    ensures Marked(HalfBack(values, pieces, mark), Others(mark)) == Marked(pieces, Others(mark))
    decreases |values|
  {
    if values != [] {
      HalfBackParts(values[1..], pieces[1..], mark[1..]);
      assert HalfBack(values, pieces, mark)[1..] == HalfBack(values[1..], pieces[1..], mark[1..]);
      assert Others(mark)[1..] == Others(mark[1..]);
    }
  }

  // ----- the round trip on texts -----

  /**
   * The marked pieces are session fakes, the others FF1 fakes.  The session pass, in
   * any order, puts the marked values back and counts them; the FF1 pass the others.
   */
  lemma {:induction false} MixedRebuilds(
    ff1: Ff1, regs: seq<FpeRegistration>, cfg: Config, s: Store, order: seq<string>, now: nat,
    gaps: seq<string>, values: seq<string>, pieces: seq<string>, mark: seq<bool>, spans: seq<Span>)
    requires Fpe.Lawful(ff1) && |gaps| == |pieces| + 1 && |values| == |pieces| == |mark|
    requires SessionSide(cfg, s, now, gaps, values, pieces, mark) && ListsFakes(s, Weave(gaps, pieces), order)
    requires FpeSide(ff1, regs, gaps, values, pieces, mark)
    requires AreCandidates(regs, PutBack(cfg, s, order, now, Weave(gaps, pieces)).1, spans)
    ensures var working := PutBack(cfg, s, order, now, Weave(gaps, pieces)).1;
            var attempts := Attempts(ff1, regs, working, spans);
            && Walk(working, attempts, 0) == Weave(gaps, values)
            && PutBackCount(cfg, s, order, now, Weave(gaps, pieces)) + |Accepted(attempts, 0)| == |values|
  {
    var half := HalfBack(values, pieces, mark);
    SessionPass(cfg, s, order, now, gaps, values, pieces, mark);
    FpePass(ff1, regs, gaps, values, pieces, mark, spans);
    MarkedSize(values, pieces, mark);
    MarkedSize(values, pieces, Others(mark));
  }

  /** The premises of the session pass: its fakes, seen against the rest of the text. */
  ghost predicate SessionSide(cfg: Config, s: Store, now: nat,
                              gaps: seq<string>, values: seq<string>, pieces: seq<string>, mark: seq<bool>)
    requires |gaps| == |pieces| + 1 && |values| == |pieces| == |mark|
  {
    MarkedSize(values, pieces, mark);
    var coarse, reals, fakes := Coarse(gaps, pieces, mark), Marked(values, mark), Marked(pieces, mark);
    && Matched(reals, fakes) && Answers(cfg, s, reals, fakes, now)
    && forall f :: f in s.byFake ==> NeverElsewhere(coarse, reals, fakes, f)
  }

  /** The premises of the FF1 pass: in the text it sees, the candidates are the fakes scrub wrote, and each decrypts. */
  ghost predicate FpeSide(ff1: Ff1, regs: seq<FpeRegistration>,
                          gaps: seq<string>, values: seq<string>, pieces: seq<string>, mark: seq<bool>)
    requires Fpe.Lawful(ff1) && |gaps| == |pieces| + 1 && |values| == |pieces| == |mark|
  {
    var half, rest := HalfBack(values, pieces, mark), Others(mark);
    var coarse, fakes := Coarse(gaps, half, rest), Marked(half, rest);
    && Decrypts(ff1, regs, fakes, Marked(values, rest))
    && (forall i :: 0 <= i < |fakes| ==> fakes[i] != [] && IsCandidate(regs, Weave(coarse, fakes), SpanOf(coarse, fakes, i)))
    && (forall c :: IsCandidate(regs, Weave(coarse, fakes), c) ==> exists i :: 0 <= i < |fakes| && c == SpanOf(coarse, fakes, i))
  }

  lemma {:induction false} SessionPass(cfg: Config, s: Store, order: seq<string>, now: nat,
                                       gaps: seq<string>, values: seq<string>, pieces: seq<string>, mark: seq<bool>)
    requires |gaps| == |pieces| + 1 && |values| == |pieces| == |mark|
    requires SessionSide(cfg, s, now, gaps, values, pieces, mark) && ListsFakes(s, Weave(gaps, pieces), order)
    ensures PutBack(cfg, s, order, now, Weave(gaps, pieces)).1 == Weave(gaps, HalfBack(values, pieces, mark))
    ensures PutBackCount(cfg, s, order, now, Weave(gaps, pieces)) == |Marked(values, mark)|
  {
    var coarse := Coarse(gaps, pieces, mark);
    MarkedSize(values, pieces, mark);
    CoarseWeaves(gaps, pieces, pieces, mark);
    CoarseWeaves(gaps, pieces, HalfBack(values, pieces, mark), mark);
    HalfBackParts(values, pieces, mark);
    PutBackRebuilds(cfg, s, order, now, coarse, Marked(values, mark), Marked(pieces, mark));
  }

  lemma {:induction false} FpePass(ff1: Ff1, regs: seq<FpeRegistration>,
                                   gaps: seq<string>, values: seq<string>, pieces: seq<string>, mark: seq<bool>, spans: seq<Span>)
    requires Fpe.Lawful(ff1) && |gaps| == |pieces| + 1 && |values| == |pieces| == |mark|
    requires FpeSide(ff1, regs, gaps, values, pieces, mark)
    requires AreCandidates(regs, Weave(gaps, HalfBack(values, pieces, mark)), spans)
    ensures var half := HalfBack(values, pieces, mark);
            var attempts := Attempts(ff1, regs, Weave(gaps, half), spans);
            && Walk(Weave(gaps, half), attempts, 0) == Weave(gaps, values)
            && |Accepted(attempts, 0)| == |Marked(values, Others(mark))|
  {
    var half, rest := HalfBack(values, pieces, mark), Others(mark);
    CoarseWeaves(gaps, half, half, rest);
    CoarseWeaves(gaps, half, values, rest);
    RestoreRebuilds(ff1, regs, Coarse(gaps, half, rest), Marked(half, rest), Marked(values, rest), spans);
  }

  // ----- the engine -----

  /** Which hits are of session-mapped registrations. */
  ghost function SessionHits(e: Engine, hits: seq<Hit>): (mark: seq<bool>)
    requires WellFormed(e) && HitsFit(|e.refs|, hits)
    ensures |mark| == |hits| && forall i :: 0 <= i < |hits| ==> mark[i] == e.refs[hits[i].valueId].SessionRef?
  {
    seq(|hits|, i requires 0 <= i < |hits| => e.refs[hits[i].valueId].SessionRef?)
  }

  lemma {:induction false} MarkedSnoc<T>(xs: seq<T>, mark: seq<bool>, x: T, m: bool)
    requires |xs| == |mark|
    ensures Marked(xs + [x], mark + [m]) == Marked(xs, mark) + if m then [x] else []
    decreases |xs|
  {
    if xs == [] {
      assert xs + [x] == [x] && mark + [m] == [m];
    } else {
      assert (xs + [x])[1..] == xs[1..] + [x] && (mark + [m])[1..] == mark[1..] + [m];
      MarkedSnoc(xs[1..], mark[1..], x, m);
    }
  }

  /** The plan has a session fake, its text, exactly at the marked hits. */
  ghost predicate FakedWhere(plan: seq<Emission>, hits: seq<Hit>, mark: seq<bool>)
    requires HitsFit(|plan|, hits) && |mark| == |hits|
  {
    forall i :: 0 <= i < |hits| ==>
      plan[hits[i].valueId].fake == if mark[i] then Some(plan[hits[i].valueId].text) else None
  }

  lemma {:induction false} PairsSnoc(xs: seq<string>, ys: seq<string>, x: string, y: string)
    requires |xs| == |ys|
    ensures Pairs(xs + [x], ys + [y]) == Pairs(xs, ys) + [(x, y)]
  {
  }

  /** One more hit hands over its pair if it is marked. */
  lemma {:induction false} MarkedPairs(reals: seq<string>, fakes: seq<string>, mark: seq<bool>, n: nat)
    requires |reals| == |fakes| == |mark| && n < |mark|
    ensures |Marked(reals[..n], mark[..n])| == |Marked(fakes[..n], mark[..n])|
    ensures |Marked(reals[..n + 1], mark[..n + 1])| == |Marked(fakes[..n + 1], mark[..n + 1])|
    ensures Pairs(Marked(reals[..n + 1], mark[..n + 1]), Marked(fakes[..n + 1], mark[..n + 1]))
         == Pairs(Marked(reals[..n], mark[..n]), Marked(fakes[..n], mark[..n])) + if mark[n] then [(reals[n], fakes[n])] else []
  {
    MarkedSize(reals[..n], fakes[..n], mark[..n]);
    assert reals[..n + 1] == reals[..n] + [reals[n]] && fakes[..n + 1] == fakes[..n] + [fakes[n]] && mark[..n + 1] == mark[..n] + [mark[n]];
    MarkedSnoc(reals[..n], mark[..n], reals[n], mark[n]);
    MarkedSnoc(fakes[..n], mark[..n], fakes[n], mark[n]);
    if mark[n] {
      PairsSnoc(Marked(reals[..n], mark[..n]), Marked(fakes[..n], mark[..n]), reals[n], fakes[n]);
    }
  }

  /** The pairs handed to the map are those of the marked hits, in order. */
  lemma {:induction false} UsesAreMarked(plan: seq<Emission>, values: seq<string>, hits: seq<Hit>, mark: seq<bool>, n: nat)
    requires |plan| == |values| && HitsFit(|plan|, hits) && |mark| == |hits| && n <= |hits| && FakedWhere(plan, hits, mark)
    ensures var reals, fakes := HitValues(values, hits)[..n], Pieces(plan, hits)[..n];
            && |Marked(reals, mark[..n])| == |Marked(fakes, mark[..n])|
            && Uses(plan, values, hits, n) == Pairs(Marked(reals, mark[..n]), Marked(fakes, mark[..n]))
  {
    if n > 0 {
      UsesAreMarked(plan, values, hits, mark, n - 1);
      MarkedPairs(HitValues(values, hits), Pieces(plan, hits), mark, n - 1);
    }
  }

  lemma {:induction false} AllUsesAreMarked(plan: seq<Emission>, values: seq<string>, hits: seq<Hit>, mark: seq<bool>)
    requires |plan| == |values| && HitsFit(|plan|, hits) && |mark| == |hits| && FakedWhere(plan, hits, mark)
    ensures var reals, fakes := HitValues(values, hits), Pieces(plan, hits);
            && |Marked(reals, mark)| == |Marked(fakes, mark)|
            && Uses(plan, values, hits, |hits|) == Pairs(Marked(reals, mark), Marked(fakes, mark))
  {
    UsesAreMarked(plan, values, hits, mark, |hits|);
    var reals, fakes, n := HitValues(values, hits), Pieces(plan, hits), |hits|;
    assert reals[..n] == reals && fakes[..n] == fakes && mark[..n] == mark;
  }

  /** The map's half: room for the session pairs, and a map that holds them answers within the TTL. */
  lemma {:induction false} HeldPairsAnswer(cfg: Config, before: Store, now: nat, s: Store, later: nat, reals: seq<string>, fakes: seq<string>)
    requires |reals| == |fakes| && forall i :: 0 <= i < |reals| ==> reals[i] != [] && fakes[i] != []
    requires RoomFor(cfg, before, Pairs(reals, fakes), now) && Stores(cfg, before, Pairs(reals, fakes), now, s)
    requires now <= later <= now + cfg.ttl
    ensures Matched(reals, fakes) && SessionRestore.Answers(cfg, s, reals, fakes, later)
  {
    var pairs := Pairs(reals, fakes);
    EveryPairIsHeld(cfg, before, pairs, now, s);
    forall i | 0 <= i < |reals|
      ensures Restored(cfg, s, fakes[i], later).1 == Some(reals[i])
    {
      assert pairs[i] == (reals[i], fakes[i]);
    }
    forall i, j | 0 <= i < |reals| && 0 <= j < |reals|
      ensures reals[i] == reals[j] <==> fakes[i] == fakes[j]
    {
      assert pairs[i] == (reals[i], fakes[i]) && pairs[j] == (reals[j], fakes[j]);
    }
  }

  lemma {:induction false} MarkedNonEmpty(xs: seq<string>, mark: seq<bool>)
    requires |xs| == |mark| && forall i :: 0 <= i < |xs| && mark[i] ==> xs[i] != []
    ensures forall i :: 0 <= i < |Marked(xs, mark)| ==> Marked(xs, mark)[i] != []
  {
    forall i | 0 <= i < |Marked(xs, mark)|
      ensures Marked(xs, mark)[i] != []
    {
      MarkedAll(xs, mark, i);
    }
  }

  /** What the scrub wrote for the session hits, and that it is what the plan says. */
  lemma SessionHitsHaveFakes(e: Engine, hits: seq<Hit>)
    requires WellFormed(e) && HitsFit(|e.refs|, hits) && NoRedaction(e, hits)
    ensures var plan, mark := Plan(e, true), SessionHits(e, hits);
            && FakedWhere(plan, hits, mark)
            && forall i :: 0 <= i < |hits| && mark[i] ==> HitValues(e.values, hits)[i] != [] && Pieces(plan, hits)[i] != []
  {
    forall i | 0 <= i < |hits|
      ensures var m, mark := Plan(e, true)[hits[i].valueId], SessionHits(e, hits);
              m.fake == (if mark[i] then Some(m.text) else None) && (mark[i] ==> m.text != [])
    {
      if SessionHits(e, hits)[i] {
        SessionPiece(e, hits, i);
      } else {
        HitIsReplaced(e, true, hits[i].valueId);
      }
    }
  }

  /** Every FF1 fake decrypts to its value and lies in a profile, wherever it stands. */
  lemma {:induction false} FpeHitsDecrypt(e: Engine, hits: seq<Hit>, gaps: seq<string>, fakes: seq<string>, i: nat)
    requires WellFormed(e) && HitsFit(|e.refs|, hits) && DistinctFakes(e.ff1, e.fpe)
    requires var rest := Others(SessionHits(e, hits));
             fakes == Marked(Pieces(Plan(e, true), hits), rest) && |gaps| == |fakes| + 1 && i < |fakes|
    ensures |Marked(HitValues(e.values, hits), Others(SessionHits(e, hits)))| == |fakes|
    ensures TryRestore(e.ff1, fakes[i], e.fpe) == Some(Marked(HitValues(e.values, hits), Others(SessionHits(e, hits)))[i])
    ensures fakes[i] != [] && IsCandidate(e.fpe, Weave(gaps, fakes), SpanOf(gaps, fakes, i))
  {
    var pieces, values, rest := Pieces(Plan(e, true), hits), HitValues(e.values, hits), Others(SessionHits(e, hits));
    MarkedTogether(pieces, values, rest, i);
    var n :| 0 <= n < |pieces| && rest[n] && Marked(pieces, rest)[i] == pieces[n] && Marked(values, rest)[i] == values[n];
    FpePieces(e, true, hits, n);
    var k := e.refs[hits[n].valueId].index;
    FakeDecrypts(e.ff1, e.fpe, k);
    FakeIsCandidate(e.ff1, e.fpe, k, gaps, fakes, i);
  }

  /** In the text between the passes, every span of a profile is one of the pieces that are not marked. */
  ghost predicate OnlyFakesFit(regs: seq<FpeRegistration>, gaps: seq<string>, values: seq<string>, pieces: seq<string>, mark: seq<bool>)
    requires |gaps| == |pieces| + 1 && |values| == |pieces| == |mark|
  {
    var half, rest := HalfBack(values, pieces, mark), Others(mark);
    var coarse, fakes := Coarse(gaps, half, rest), Marked(half, rest);
    forall c :: IsCandidate(regs, Weave(gaps, half), c) ==> exists i :: 0 <= i < |fakes| && c == SpanOf(coarse, fakes, i)
  }

  /** ... an FF1 fake that scrub wrote. */
  ghost predicate CandidatesAreFakes(e: Engine, input: string, hits: seq<Hit>)
    requires WellFormed(e) && Ordered(input, hits) && HitsFit(|e.refs|, hits)
  {
    OnlyFakesFit(e.fpe, Gaps(input, hits), HitValues(e.values, hits), Pieces(Plan(e, true), hits), SessionHits(e, hits))
  }

  /** Every FF1 fake, seen in the text between the passes, decrypts and is a candidate. */
  ghost predicate FakesDecrypt(ff1: Ff1, regs: seq<FpeRegistration>, gaps: seq<string>, values: seq<string>, fakes: seq<string>)
    requires Fpe.Lawful(ff1) && |gaps| == |fakes| + 1 && |fakes| == |values|
  {
    forall i :: 0 <= i < |fakes| ==>
      && TryRestore(ff1, fakes[i], regs) == Some(values[i])
      && fakes[i] != [] && IsCandidate(regs, Weave(gaps, fakes), SpanOf(gaps, fakes, i))
  }

  lemma {:induction false} FakesDecryptSide(ff1: Ff1, regs: seq<FpeRegistration>, gaps: seq<string>, values: seq<string>,
                                            pieces: seq<string>, mark: seq<bool>, coarse: seq<string>, fakes: seq<string>)
    requires Fpe.Lawful(ff1) && |gaps| == |pieces| + 1 && |values| == |pieces| == |mark|
    requires coarse == Coarse(gaps, HalfBack(values, pieces, mark), Others(mark)) && fakes == Marked(HalfBack(values, pieces, mark), Others(mark))
    requires |Marked(values, Others(mark))| == |fakes| && FakesDecrypt(ff1, regs, coarse, Marked(values, Others(mark)), fakes)
    requires OnlyFakesFit(regs, gaps, values, pieces, mark)
    ensures FpeSide(ff1, regs, gaps, values, pieces, mark)
  {
    CoarseWeaves(gaps, HalfBack(values, pieces, mark), HalfBack(values, pieces, mark), Others(mark));
  }

  lemma {:induction false} AllFpeHitsDecrypt(e: Engine, hits: seq<Hit>, gaps: seq<string>, values: seq<string>, fakes: seq<string>)
    requires WellFormed(e) && HitsFit(|e.refs|, hits) && DistinctFakes(e.ff1, e.fpe)
    requires var rest := Others(SessionHits(e, hits));
             fakes == Marked(Pieces(Plan(e, true), hits), rest) && values == Marked(HitValues(e.values, hits), rest)
    requires |gaps| == |fakes| + 1 && |values| == |fakes|
    ensures FakesDecrypt(e.ff1, e.fpe, gaps, values, fakes)
  {
    forall i | 0 <= i < |fakes|
      ensures TryRestore(e.ff1, fakes[i], e.fpe) == Some(values[i])
      ensures fakes[i] != [] && IsCandidate(e.fpe, Weave(gaps, fakes), SpanOf(gaps, fakes, i))
    {
      FpeHitsDecrypt(e, hits, gaps, fakes, i);
    }
  }

  lemma {:induction false} FpeSideHolds(e: Engine, hits: seq<Hit>, gaps: seq<string>, values: seq<string>,
                                        pieces: seq<string>, mark: seq<bool>)
    requires WellFormed(e) && HitsFit(|e.refs|, hits) && DistinctFakes(e.ff1, e.fpe) && |gaps| == |hits| + 1
    requires values == HitValues(e.values, hits) && pieces == Pieces(Plan(e, true), hits) && mark == SessionHits(e, hits)
    requires OnlyFakesFit(e.fpe, gaps, values, pieces, mark)
    ensures FpeSide(e.ff1, e.fpe, gaps, values, pieces, mark)
  {
    var half, rest := HalfBack(values, pieces, mark), Others(mark);
    var coarse, fakes := Coarse(gaps, half, rest), Marked(half, rest);
    HalfBackParts(values, pieces, mark);
    MarkedSize(values, pieces, rest);
    AllFpeHitsDecrypt(e, hits, coarse, Marked(values, rest), fakes);
    FakesDecryptSide(e.ff1, e.fpe, gaps, values, pieces, mark, coarse, fakes);
  }

  /** The session's half of the premises: its pairs fit the map, and no stored fake turns up elsewhere. */
  ghost predicate SessionFakesStandOut(e: Engine, input: string, hits: seq<Hit>, s: Store)
    requires WellFormed(e) && Ordered(input, hits) && HitsFit(|e.refs|, hits)
  {
    var values, pieces, mark := HitValues(e.values, hits), Pieces(Plan(e, true), hits), SessionHits(e, hits);
    MarkedSize(values, pieces, mark);
    forall f :: f in s.byFake ==>
      NeverElsewhere(Coarse(Gaps(input, hits), pieces, mark), Marked(values, mark), Marked(pieces, mark), f)
  }

  /** The pairs of the session hits, in order. */
  ghost function SessionPairs(e: Engine, hits: seq<Hit>): seq<Pair>
    requires WellFormed(e) && HitsFit(|e.refs|, hits)
  {
    var values, pieces, mark := HitValues(e.values, hits), Pieces(Plan(e, true), hits), SessionHits(e, hits);
    MarkedSize(values, pieces, mark);
    Pairs(Marked(values, mark), Marked(pieces, mark))
  }

  lemma UsesAreSessionPairs(e: Engine, hits: seq<Hit>)
    requires WellFormed(e) && HitsFit(|e.refs|, hits) && NoRedaction(e, hits)
    ensures Uses(Plan(e, true), e.values, hits, |hits|) == SessionPairs(e, hits)
  {
    SessionHitsHaveFakes(e, hits);
    AllUsesAreMarked(Plan(e, true), e.values, hits, SessionHits(e, hits));
  }

  /** A store that answers for the session pairs meets the premises of the session pass. */
  lemma {:induction false} SessionSideHolds(e: Engine, input: string, hits: seq<Hit>, cfg: Config, s: Store, later: nat)
    requires WellFormed(e) && Ordered(input, hits) && HitsFit(|e.refs|, hits) && SessionFakesStandOut(e, input, hits, s)
    requires AnswersFor(e, hits, cfg, s, later)
    ensures SessionSide(cfg, s, later, Gaps(input, hits), HitValues(e.values, hits), Pieces(Plan(e, true), hits), SessionHits(e, hits))
  {
  }

  /** The store answers for every session fake that scrub wrote; values and fakes correspond. */
  ghost predicate AnswersFor(e: Engine, hits: seq<Hit>, cfg: Config, s: Store, later: nat)
    requires WellFormed(e) && HitsFit(|e.refs|, hits)
  {
    var values, pieces, mark := HitValues(e.values, hits), Pieces(Plan(e, true), hits), SessionHits(e, hits);
    MarkedSize(values, pieces, mark);
    Matched(Marked(values, mark), Marked(pieces, mark))
    && SessionRestore.Answers(cfg, s, Marked(values, mark), Marked(pieces, mark), later)
  }

  lemma {:induction false} ScrubbedStoreAnswers(e: Engine, hits: seq<Hit>, cfg: Config, before: Store, now: nat, s: Store, later: nat)
    requires WellFormed(e) && HitsFit(|e.refs|, hits) && NoRedaction(e, hits) && now <= later <= now + cfg.ttl
    requires RoomFor(cfg, before, SessionPairs(e, hits), now)
    requires Stores(cfg, before, Uses(Plan(e, true), e.values, hits, |hits|), now, s)
    ensures AnswersFor(e, hits, cfg, s, later)
  {
    var values, pieces, mark := HitValues(e.values, hits), Pieces(Plan(e, true), hits), SessionHits(e, hits);
    UsesAreSessionPairs(e, hits);
    SessionHitsHaveFakes(e, hits);
    MarkedSize(values, pieces, mark);
    MarkedNonEmpty(values, mark);
    MarkedNonEmpty(pieces, mark);
    HeldPairsAnswer(cfg, before, now, s, later, Marked(values, mark), Marked(pieces, mark));
  }

  /**
   * The round trip with registrations of both kinds, for any store that answers for
   * what scrub wrote and for every order in which it lists its fakes: putting the
   * session fakes back and then decrypting gives the input back, and the two counts
   * add up to the number of hits.
   */
  lemma MixedRoundTrips(e: Engine, input: string, hits: seq<Hit>, cfg: Config, s: Store, later: nat,
                        order: seq<string>, spans: seq<Span>)
    requires WellFormed(e) && DistinctFakes(e.ff1, e.fpe)
    requires LeftmostLongest(e.values, input, 0, hits) && Ordered(input, hits) && HitsFit(|e.refs|, hits)
    requires AnswersFor(e, hits, cfg, s, later) && SessionFakesStandOut(e, input, hits, s) && CandidatesAreFakes(e, input, hits)
    requires var scrubbed := Weave(Gaps(input, hits), Pieces(Plan(e, true), hits));
             ListsFakes(s, scrubbed, order) && AreCandidates(e.fpe, PutBack(cfg, s, order, later, scrubbed).1, spans)
    ensures var scrubbed := Weave(Gaps(input, hits), Pieces(Plan(e, true), hits));
            var working := PutBack(cfg, s, order, later, scrubbed).1;
            var attempts := Attempts(e.ff1, e.fpe, working, spans);
            && Walk(working, attempts, 0) == input
            && PutBackCount(cfg, s, order, later, scrubbed) + |Accepted(attempts, 0)| == |hits|
  {
    HitsAreOrdered(e.values, input, hits);
    SessionSideHolds(e, input, hits, cfg, s, later);
    FpeSideHolds(e, hits, Gaps(input, hits), HitValues(e.values, hits), Pieces(Plan(e, true), hits), SessionHits(e, hits));
    MixedRebuilds(e.ff1, e.fpe, cfg, s, order, later, Gaps(input, hits), HitValues(e.values, hits), Pieces(Plan(e, true), hits),
                  SessionHits(e, hits), spans);
    InputIsWoven(e.values, input, hits);
  }

  /** The premises of the mixed round trip, for the matcher's hits on this input. */
  ghost predicate UndoableMixed(e: Engine, input: string, hits: seq<Hit>, cfg: Config, before: Store, now: nat)
    requires WellFormed(e) && Ordered(input, hits) && HitsFit(|e.refs|, hits)
  {
    && NoRedaction(e, hits) && RoomFor(cfg, before, SessionPairs(e, hits), now) && CandidatesAreFakes(e, input, hits)
    && forall s :: Stores(cfg, before, Uses(Plan(e, true), e.values, hits, |hits|), now, s) ==> SessionFakesStandOut(e, input, hits, s)
  }

  ghost predicate AllMarked(mark: seq<bool>) {
    forall i :: 0 <= i < |mark| ==> mark[i]
  }

  lemma {:induction false} MarkedEverything<T>(xs: seq<T>, mark: seq<bool>)
    requires |xs| == |mark| && AllMarked(mark)
    ensures Marked(xs, mark) == xs
    decreases |xs|
  {
    if xs != [] {
      MarkedEverything(xs[1..], mark[1..]);
    }
  }

  lemma {:induction false} CoarseOfEverything(gaps: seq<string>, pieces: seq<string>, mark: seq<bool>)
    requires |gaps| == |pieces| + 1 && |pieces| == |mark| && AllMarked(mark)
    ensures Coarse(gaps, pieces, mark) == gaps
    decreases |pieces|
  {
    if pieces != [] {
      CoarseOfEverything(gaps[1..], pieces[1..], mark[1..]);
    }
  }

  /** For session registrations alone, these are the premises of the session round trip. */
  lemma {:induction false} MixedCoversSession(e: Engine, input: string, hits: seq<Hit>, cfg: Config, before: Store, now: nat)
    requires WellFormed(e) && AllSession(e) && Ordered(input, hits) && HitsFit(|e.refs|, hits)
    ensures UndoableMixed(e, input, hits, cfg, before, now) <==> Undoable(e, input, hits, cfg, before, now)
  {
    var values, pieces, mark := HitValues(e.values, hits), Pieces(Plan(e, true), hits), SessionHits(e, hits);
    MarkedEverything(values, mark);
    MarkedEverything(pieces, mark);
    CoarseOfEverything(Gaps(input, hits), pieces, mark);
    assert CandidatesAreFakes(e, input, hits);
  }

  /** The two calls one after the other, for an engine with registrations of both kinds. */
  method ScrubThenRestoreMixed(e: Engine, input: string, session: SessionMap, now: nat, later: nat)
    returns (restored: string, scrubbedCount: nat, restoredCount: nat)
    requires WellFormed(e) && DistinctFakes(e.ff1, e.fpe) && now <= later <= now + session.cfg.ttl
    requires forall hits :: LeftmostLongest(e.values, input, 0, hits) && Ordered(input, hits) && HitsFit(|e.refs|, hits) ==>
               UndoableMixed(e, input, hits, session.cfg, session.View(), now)
    modifies session
    ensures restored == input && restoredCount == scrubbedCount
  {
    ghost var before := session.View();
    var scrubbed, n, notices, hits := ScrubImpl(e, input, session, now);
    assert UndoableMixed(e, input, hits, session.cfg, before, now);
    ghost var s := session.View();
    ScrubbedStoreAnswers(e, hits, session.cfg, before, now, s, later);
    var out, m, order, spans := RestoreWithSession(e.ff1, e.fpe, scrubbed, session, later);
    MixedRoundTrips(e, input, hits, session.cfg, s, later, order, spans);
    return out, n, m;
  }
}
