/**
 * A condition on the input alone under which the stateless round trip holds: one
 * registration without a prefix, and no longer run of its alphabet than its value.
 */
module SingleRegistration {
  import opened Text
  import opened Alphabets
  import opened Fpe
  import opened ExactMatcher
  import opened Restore
  import opened StatelessRestore
  import opened Engine
  import opened RoundTrips

  /** [lo, hi) is a longest stretch of alphabet characters. */
  ghost predicate IsRun(text: string, a: Alphabet, lo: nat, hi: nat) {
    && lo <= hi <= |text| && AllIn(text[lo..hi], a)
    && (lo > 0 ==> text[lo - 1] !in a) && (hi < |text| ==> text[hi] !in a)
  }

  /** Every run that is long enough to hold the value is the value. */
  ghost predicate RunsAreValue(text: string, a: Alphabet, value: string) {
    forall lo: nat, hi: nat :: IsRun(text, a, lo, hi) && hi - lo >= |value| ==> text[lo..hi] == value
  }

  lemma WidenLeft(text: string, a: Alphabet, lo: nat, hi: nat) returns (l: nat)
    requires lo <= hi <= |text| && AllIn(text[lo..hi], a)
    ensures l <= lo && AllIn(text[l..hi], a) && (l > 0 ==> text[l - 1] !in a)
  {
    l := lo;
    while l > 0 && text[l - 1] in a
      invariant l <= lo && AllIn(text[l..hi], a)
    {
      assert text[l - 1..hi] == [text[l - 1]] + text[l..hi];
      l := l - 1;
    }
  }

  lemma WidenRight(text: string, a: Alphabet, lo: nat, hi: nat) returns (h: nat)
    requires lo <= hi <= |text| && AllIn(text[lo..hi], a)
    ensures hi <= h <= |text| && AllIn(text[lo..h], a) && (h < |text| ==> text[h] !in a)
  {
    h := hi;
    while h < |text| && text[h] in a
      invariant hi <= h <= |text| && AllIn(text[lo..h], a)
      decreases |text| - h
    {
      assert text[lo..h + 1] == text[lo..h] + [text[h]];
      h := h + 1;
    }
  }

  /** A stretch of alphabet characters as long as the value is an occurrence of it, and no longer one exists. */
  lemma StretchIsValue(text: string, a: Alphabet, value: string, lo: nat, hi: nat)
    requires RunsAreValue(text, a, value) && lo <= hi <= |text| && AllIn(text[lo..hi], a) && hi - lo >= |value|
    ensures hi == lo + |value| && OccursAt(text, value, lo)
  {
    var l := WidenLeft(text, a, lo, hi);
    var h := WidenRight(text, a, l, hi);
    assert IsRun(text, a, l, h);
  }

  /** Such an occurrence is one of the hits: none before it could have swallowed it. */
  lemma OccurrenceIsHit(text: string, a: Alphabet, value: string, hits: seq<Hit>, p: nat) returns (i: nat)
    requires LeftmostLongest([value], text, 0, hits) && Ordered(text, hits) && HitsFit(1, hits) && Spells([value], text, hits)
    requires RunsAreValue(text, a, value) && AllIn(value, a) && OccursAt(text, value, p)
    ensures i < |hits| && hits[i].start == p
  {
    i := 0;
    while i < |hits| && hits[i].start < p
      invariant i <= |hits| && (i > 0 ==> hits[i - 1].start < p)
    {
      i := i + 1;
    }
    if i > 0 && hits[i - 1].end > p {
      var h := hits[i - 1];
      assert Resume(0, hits, i - 1) <= h.start;
      assert text[h.start..h.end] == value;
      var both := text[h.start..p + |value|];
      forall j | 0 <= j < |both|
        ensures both[j] in a
      {
        if h.start + j < h.end {
          assert both[j] == text[h.start..h.end][j];
        } else {
          assert both[j] == text[p..p + |value|][h.start + j - p];
        }
      }
      StretchIsValue(text, a, value, h.start, p + |value|);
    }
    assert Resume(0, hits, i) <= p;
    assert OccursAt(text, [value][0], p);
    assert i < |hits| ==> IsNext([value], text, Resume(0, hits, i), hits[i]);
  }

  // ----- exchanging pieces of the same shape -----

  ghost predicate SameShape(xs: seq<string>, ys: seq<string>, a: Alphabet) {
    |xs| == |ys| && forall i :: 0 <= i < |xs| ==> |xs[i]| == |ys[i]| && AllIn(xs[i], a) && AllIn(ys[i], a)
  }

  lemma {:induction false} SameShapeWeave(gaps: seq<string>, xs: seq<string>, ys: seq<string>, a: Alphabet)
    requires |gaps| == |xs| + 1 && SameShape(xs, ys, a)
    ensures var u, v := Weave(gaps, xs), Weave(gaps, ys);
            |u| == |v| && forall i :: 0 <= i < |u| ==> (u[i] in a <==> v[i] in a)
    decreases |xs|
  {
    if xs != [] {
      SameShapeWeave(gaps[1..], xs[1..], ys[1..], a);
    }
  }

  lemma {:induction false} SameShapePieceAt(gaps: seq<string>, xs: seq<string>, ys: seq<string>, a: Alphabet, i: nat)
    requires |gaps| == |xs| + 1 && SameShape(xs, ys, a) && i < |xs|
    ensures PieceAt(gaps, xs, i) == PieceAt(gaps, ys, i)
    decreases i
  {
    if i > 0 {
      SameShapePieceAt(gaps[1..], xs[1..], ys[1..], a, i - 1);
    }
  }

  lemma {:induction false} PieceAtWritten(gaps: seq<string>, pieces: seq<string>, k: nat, i: nat)
    requires |gaps| == |pieces| + 1 && k <= i < |pieces|
    ensures PieceAt(gaps, pieces, i) == |Written(gaps, pieces, k)| + PieceAt(gaps[k..], pieces[k..], i - k)
    decreases k
  {
    if k == 0 {
      assert gaps[0..] == gaps && pieces[0..] == pieces;
    } else {
      PieceAtWritten(gaps, pieces, k - 1, i);
      assert gaps[k - 1..][1..] == gaps[k..] && pieces[k - 1..][1..] == pieces[k..];
    }
  }

  lemma HitStart(values: seq<string>, text: string, hits: seq<Hit>, i: nat)
    requires Ordered(text, hits) && HitsFit(|values|, hits) && Spells(values, text, hits) && i < |hits|
    ensures PieceAt(Gaps(text, hits), HitValues(values, hits), i) == hits[i].start
  {
    var gaps, pieces := Gaps(text, hits), HitValues(values, hits);
    PieceAtWritten(gaps, pieces, i, i);
    InputIsWritten(values, text, hits, i);
    assert gaps[i..][0] == gaps[i];
    assert Resume(0, hits, i) <= hits[i].start;
  }

  // ----- the corollary -----

  lemma SameStretch(u: string, v: string, a: Alphabet, s: Span)
    requires |u| == |v| && (forall i :: 0 <= i < |u| ==> (u[i] in a <==> v[i] in a))
    requires s.start <= s.end <= |v| && AllIn(v[s.start..s.end], a)
    ensures AllIn(u[s.start..s.end], a)
  {
    forall j | 0 <= j < s.end - s.start
      ensures u[s.start..s.end][j] in a
    {
      assert v[s.start..s.end][j] in a;
    }
  }

  /** A candidate of the scrubbed text is where a hit was. */
  lemma CandidateIsPiece(reg: FpeRegistration, input: string, hits: seq<Hit>, fakes: seq<string>, s: Span)
    requires reg.prefix == "" && reg.value != [] && AllIn(reg.value, reg.alphabet)
    requires LeftmostLongest([reg.value], input, 0, hits) && Ordered(input, hits) && HitsFit(1, hits)
    requires SameShape(HitValues([reg.value], hits), fakes, reg.alphabet)
    requires RunsAreValue(input, reg.alphabet, reg.value) && Profile(reg, Weave(Gaps(input, hits), fakes), s)
    ensures exists i :: 0 <= i < |fakes| && s == SpanOf(Gaps(input, hits), fakes, i)
  {
    var gaps, values, a := Gaps(input, hits), HitValues([reg.value], hits), reg.alphabet;
    HitsAreOrdered([reg.value], input, hits);
    InputIsWoven([reg.value], input, hits);
    SameShapeWeave(gaps, values, fakes, a);
    SameStretch(input, Weave(gaps, fakes), a, s);
    StretchIsValue(input, a, reg.value, s.start, s.end);
    var i := OccurrenceIsHit(input, a, reg.value, hits, s.start);
    HitStart([reg.value], input, hits, i);
    SameShapePieceAt(gaps, values, fakes, a, i);
    assert s == SpanOf(gaps, fakes, i);
  }

  /**
   * One FF1 registration without a prefix: if every run of its alphabet in the
   * input that is at least as long as the value is the value itself, restore
   * undoes scrub.
   */
  lemma RunsRoundTrip(e: Engine, input: string, hits: seq<Hit>, spans: seq<Span>)
    requires WellFormed(e) && |e.fpe| == 1 && e.refs == [FpeRef(0)] && e.fpe[0].prefix == ""
    requires DistinctFakes(e.ff1, e.fpe) && RunsAreValue(input, e.fpe[0].alphabet, e.fpe[0].value)
    requires LeftmostLongest(e.values, input, 0, hits) && Ordered(input, hits) && HitsFit(1, hits)
    requires AreCandidates(e.fpe, Weave(Gaps(input, hits), Pieces(Plan(e, false), hits)), spans)
    ensures var scrubbed := Weave(Gaps(input, hits), Pieces(Plan(e, false), hits));
            var attempts := Attempts(e.ff1, e.fpe, scrubbed, spans);
            Walk(scrubbed, attempts, 0) == input && |Accepted(attempts, 0)| == |hits|
  {
    FakesHaveShape(e, hits);
    CandidatesArePieces(e.fpe[0], input, hits, Pieces(Plan(e, false), hits));
    assert e.fpe == [e.fpe[0]] && e.values == [e.fpe[0].value];
    StatelessRoundTrip(e, input, hits, spans);
  }

  lemma CandidatesArePieces(reg: FpeRegistration, input: string, hits: seq<Hit>, fakes: seq<string>)
    requires reg.prefix == "" && reg.value != [] && AllIn(reg.value, reg.alphabet)
    requires LeftmostLongest([reg.value], input, 0, hits) && Ordered(input, hits) && HitsFit(1, hits)
    requires SameShape(HitValues([reg.value], hits), fakes, reg.alphabet) && RunsAreValue(input, reg.alphabet, reg.value)
    ensures forall s :: IsCandidate([reg], Weave(Gaps(input, hits), fakes), s) ==>
              exists i :: 0 <= i < |fakes| && s == SpanOf(Gaps(input, hits), fakes, i)
  {
    forall s | IsCandidate([reg], Weave(Gaps(input, hits), fakes), s)
      ensures exists i :: 0 <= i < |fakes| && s == SpanOf(Gaps(input, hits), fakes, i)
    {
      CandidateIsPiece(reg, input, hits, fakes, s);
    }
  }

  lemma FakesHaveShape(e: Engine, hits: seq<Hit>)
    requires WellFormed(e) && |e.fpe| == 1 && e.refs == [FpeRef(0)] && e.fpe[0].prefix == ""
    requires DistinctFakes(e.ff1, e.fpe) && HitsFit(1, hits)
    ensures AllIn(e.fpe[0].value, e.fpe[0].alphabet) && e.values == [e.fpe[0].value]
    ensures SameShape(HitValues([e.fpe[0].value], hits), Pieces(Plan(e, false), hits), e.fpe[0].alphabet)
  {
    var reg, fakes := e.fpe[0], Pieces(Plan(e, false), hits);
    ValueOverAlphabet(e.ff1, reg);
    forall i | 0 <= i < |hits|
      ensures |fakes[i]| == |reg.value| && AllIn(fakes[i], reg.alphabet)
    {
      FpePieces(e, false, hits, i);
      assert fakes[i][0..] == fakes[i];
    }
  }

  lemma ValueOverAlphabet(ff1: Ff1, reg: FpeRegistration)
    requires Fpe.Lawful(ff1) && reg.prefix == "" && ScrubValue(ff1, reg).Some?
    ensures AllIn(reg.value, reg.alphabet)
  {
    assert reg.value[0..] == reg.value;
  }

  /** The two calls one after the other: the input comes back and the counts agree. */
  method ScrubThenRestore(e: Engine, input: string) returns (restored: string, scrubbedCount: nat, restoredCount: nat)
    requires WellFormed(e) && |e.fpe| == 1 && e.refs == [FpeRef(0)] && e.fpe[0].prefix == ""
    requires DistinctFakes(e.ff1, e.fpe) && RunsAreValue(input, e.fpe[0].alphabet, e.fpe[0].value)
    ensures restored == input && restoredCount == scrubbedCount
  {
    var scrubbed, n, notices, hits := ScrubImpl(e, input, null, 0);
    var out, m, spans := RestoreText(e.ff1, e.fpe, scrubbed);
    RunsRoundTrip(e, input, hits, spans);
    return out, n, m;
  }
}
