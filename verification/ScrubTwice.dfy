/** When a second scrub changes nothing. */
module ScrubTwice {
  import opened Basics
  import opened Text
  import opened Fpe
  import opened ExactMatcher
  import opened SessionMaps
  import opened Engine

  ghost predicate HoldsNoValue(values: seq<string>, text: string) {
    forall id, p :: 0 <= id < |values| ==> !OccursAt(text, values[id], p)
  }

  lemma NoHitsIff(values: seq<string>, text: string, hits: seq<Hit>)
    requires LeftmostLongest(values, text, 0, hits) && forall id :: 0 <= id < |values| ==> values[id] != []
    ensures hits == [] <==> HoldsNoValue(values, text)
  {
    if hits == [] {
      forall id, p | 0 <= id < |values|
        ensures !OccursAt(text, values[id], p)
      {
        assert NothingStarts(values, text, Resume(0, hits, 0), |text| + 1);
      }
    } else {
      assert IsNext(values, text, Resume(0, hits, 0), hits[0]);
    }
  }

  /** What a hit of this value becomes. */
  ghost function Replacement(e: Engine, id: nat): string
    requires WellFormed(e) && id < |e.refs|
  {
    var fake := FakeOf(e, id);
    if fake.Some? then fake.value else REDACTION_PLACEHOLDER
  }

  /** What replaces the value neither begins with it nor is a beginning of it. */
  ghost predicate MovesAt(e: Engine, id: nat)
    requires WellFormed(e) && id < |e.refs|
  {
    !(Replacement(e, id) <= e.values[id]) && !(e.values[id] <= Replacement(e, id))
  }

  /** The value is its own replacement. */
  ghost predicate StaysAt(e: Engine, id: nat)
    requires WellFormed(e) && id < |e.refs|
  {
    Replacement(e, id) == e.values[id]
  }

  ghost predicate FirstMoves(e: Engine, hits: seq<Hit>)
    requires WellFormed(e) && HitsFit(|e.refs|, hits)
  {
    hits != [] ==> MovesAt(e, hits[0].valueId)
  }

  ghost predicate AllStay(e: Engine, hits: seq<Hit>)
    requires WellFormed(e) && HitsFit(|e.refs|, hits)
  {
    forall i :: 0 <= i < |hits| ==> StaysAt(e, hits[i].valueId)
  }

  /** The first hit that is not of its own replacement moves. */
  ghost predicate FirstChangeMoves(e: Engine, hits: seq<Hit>)
    requires WellFormed(e) && HitsFit(|e.refs|, hits)
  {
    forall i :: 0 <= i < |hits| && AllStay(e, hits[..i]) && !StaysAt(e, hits[i].valueId) ==> MovesAt(e, hits[i].valueId)
  }

  lemma {:induction false} Beginnings(front: string, a: string, x: string, b: string, y: string)
    requires front + a + x == front + b + y
    ensures a <= b || b <= a
  {
    var n := |front|;
    assert (front + a + x)[n..] == a + x && (front + b + y)[n..] == b + y;
    if |a| <= |b| {
      assert (a + x)[..|a|] == a && (b + y)[..|a|] == b[..|a|];
    } else {
      assert (b + y)[..|b|] == b && (a + x)[..|b|] == a[..|b|];
    }
  }

  /** Where the two lists first differ, neither piece is a beginning of the other. */
  ghost predicate FirstDiffers(xs: seq<string>, ys: seq<string>)
    requires |xs| == |ys|
  {
    forall i :: 0 <= i < |xs| && xs[..i] == ys[..i] && xs[i] != ys[i] ==> !(xs[i] <= ys[i]) && !(ys[i] <= xs[i])
  }

  lemma {:induction false} FirstDiffersTail(xs: seq<string>, ys: seq<string>)
    requires |xs| == |ys| > 0 && FirstDiffers(xs, ys) && xs[0] == ys[0]
    ensures FirstDiffers(xs[1..], ys[1..])
  {
    forall i | 0 <= i < |xs| - 1 && xs[1..][..i] == ys[1..][..i] && xs[1..][i] != ys[1..][i]
      ensures !(xs[1..][i] <= ys[1..][i]) && !(ys[1..][i] <= xs[1..][i])
    {
      assert xs[..i + 1] == [xs[0]] + xs[1..][..i] && ys[..i + 1] == [ys[0]] + ys[1..][..i];
    }
  }

  lemma {:induction false} SameFront(front: string, x: string, y: string)
    ensures front + x == front + y <==> x == y
  {
    assert (front + x)[|front|..] == x && (front + y)[|front|..] == y;
  }

  /** Around the same gaps, such lists give the same text only if they are the same. */
  lemma {:induction false} WeavesDiffer(gaps: seq<string>, xs: seq<string>, ys: seq<string>)
    requires |gaps| == |xs| + 1 && |xs| == |ys| && FirstDiffers(xs, ys)
    ensures Weave(gaps, xs) == Weave(gaps, ys) <==> xs == ys
    decreases |xs|
  {
    if xs != [] {
      if xs[0] == ys[0] {
        FirstDiffersTail(xs, ys);
        WeavesDiffer(gaps[1..], xs[1..], ys[1..]);
        SameFront(gaps[0] + xs[0], Weave(gaps[1..], xs[1..]), Weave(gaps[1..], ys[1..]));
        assert xs == [xs[0]] + xs[1..] && ys == [ys[0]] + ys[1..];
      } else {
        assert xs[..0] == ys[..0];
        if Weave(gaps, xs) == Weave(gaps, ys) {
          Beginnings(gaps[0], xs[0], Weave(gaps[1..], xs[1..]), ys[0], Weave(gaps[1..], ys[1..]));
        }
      }
    }
  }

  lemma {:induction false} PieceIsReplacement(e: Engine, stateful: bool, hits: seq<Hit>, i: nat)
    requires WellFormed(e) && HitsFit(|e.refs|, hits) && i < |hits|
    ensures Pieces(Plan(e, stateful), hits)[i] == Replacement(e, hits[i].valueId)
    ensures HitValues(e.values, hits)[i] == e.values[hits[i].valueId]
  {
    HitIsReplaced(e, stateful, hits[i].valueId);
  }

  lemma {:induction false} StayIffSame(e: Engine, stateful: bool, hits: seq<Hit>, n: nat)
    requires WellFormed(e) && HitsFit(|e.refs|, hits) && n <= |hits|
    ensures AllStay(e, hits[..n]) <==> Pieces(Plan(e, stateful), hits)[..n] == HitValues(e.values, hits)[..n]
  {
    var pieces, values := Pieces(Plan(e, stateful), hits), HitValues(e.values, hits);
    forall i | 0 <= i < n
      ensures hits[..n][i] == hits[i] && (StaysAt(e, hits[i].valueId) <==> pieces[..n][i] == values[..n][i])
    {
      PieceIsReplacement(e, stateful, hits, i);
    }
  }

  lemma {:induction false} StayIffAllSame(e: Engine, stateful: bool, hits: seq<Hit>)
    requires WellFormed(e) && HitsFit(|e.refs|, hits)
    ensures AllStay(e, hits) <==> Pieces(Plan(e, stateful), hits) == HitValues(e.values, hits)
  {
    var pieces, values, n := Pieces(Plan(e, stateful), hits), HitValues(e.values, hits), |hits|;
    StayIffSame(e, stateful, hits, n);
    assert hits[..n] == hits && pieces[..n] == pieces && values[..n] == values;
  }

  lemma {:induction false} ChangesDiffer(e: Engine, stateful: bool, hits: seq<Hit>)
    requires WellFormed(e) && HitsFit(|e.refs|, hits) && FirstChangeMoves(e, hits)
    ensures FirstDiffers(Pieces(Plan(e, stateful), hits), HitValues(e.values, hits))
  {
    var pieces, values := Pieces(Plan(e, stateful), hits), HitValues(e.values, hits);
    forall i | 0 <= i < |hits| && pieces[..i] == values[..i] && pieces[i] != values[i]
      ensures !(pieces[i] <= values[i]) && !(values[i] <= pieces[i])
    {
      StayIffSame(e, stateful, hits, i);
      PieceIsReplacement(e, stateful, hits, i);
    }
  }

  /** Scrubbing leaves a text alone exactly if each registered value found in it is its own replacement. */
  lemma ScrubFixesExactly(e: Engine, stateful: bool, text: string, hits: seq<Hit>)
    requires WellFormed(e)
    requires LeftmostLongest(e.values, text, 0, hits) && Ordered(text, hits) && HitsFit(|e.refs|, hits)
    requires FirstChangeMoves(e, hits)
    ensures Weave(Gaps(text, hits), Pieces(Plan(e, stateful), hits)) == text <==> AllStay(e, hits)
  {
    HitsAreOrdered(e.values, text, hits);
    InputIsWoven(e.values, text, hits);
    ChangesDiffer(e, stateful, hits);
    StayIffAllSame(e, stateful, hits);
    WeavesDiffer(Gaps(text, hits), Pieces(Plan(e, stateful), hits), HitValues(e.values, hits));
  }

  /** FF1 fakes are as long as their values, so for them the premise always holds. */
  lemma {:induction false} SameLengthsMove(e: Engine, hits: seq<Hit>)
    requires WellFormed(e) && HitsFit(|e.refs|, hits)
    requires forall i :: 0 <= i < |hits| ==> |Replacement(e, hits[i].valueId)| == |e.values[hits[i].valueId]|
    ensures FirstChangeMoves(e, hits)
  {
  }

  lemma {:induction false} FirstMovesDecides(e: Engine, hits: seq<Hit>)
    requires WellFormed(e) && HitsFit(|e.refs|, hits) && FirstMoves(e, hits)
    ensures FirstChangeMoves(e, hits) && (AllStay(e, hits) <==> hits == [])
  {
    forall i | 0 < i <= |hits|
      ensures !AllStay(e, hits[..i])
    {
      assert hits[..i][0] == hits[0] && MovesAt(e, hits[0].valueId);
    }
    assert hits[..|hits|] == hits;
  }

  /** If the first value found moves, scrubbing leaves the text alone exactly if it holds no registered value. */
  lemma ScrubFixesIff(e: Engine, stateful: bool, text: string, hits: seq<Hit>)
    requires WellFormed(e)
    requires LeftmostLongest(e.values, text, 0, hits) && Ordered(text, hits) && HitsFit(|e.refs|, hits)
    requires FirstMoves(e, hits)
    ensures Weave(Gaps(text, hits), Pieces(Plan(e, stateful), hits)) == text <==> HoldsNoValue(e.values, text)
  {
    NoHitsIff(e.values, text, hits);
    FirstMovesDecides(e, hits);
    ScrubFixesExactly(e, stateful, text, hits);
  }

  // ----- where a value can turn up in a scrubbed text -----

  /** The stretch [p, p + n) shares a position with a piece, or spans an empty one. */
  ghost predicate TouchesPiece(gaps: seq<string>, pieces: seq<string>, p: nat, n: nat)
    requires |gaps| == |pieces| + 1
  {
    exists i :: 0 <= i < |pieces| && p < PieceAt(gaps, pieces, i) + |pieces[i]| && PieceAt(gaps, pieces, i) < p + n
  }

  lemma {:induction false} InGapOrTouches(gaps: seq<string>, pieces: seq<string>, v: string, p: nat)
    requires |gaps| == |pieces| + 1 && v != [] && OccursAt(Weave(gaps, pieces), v, p)
    ensures TouchesPiece(gaps, pieces, p, |v|) || exists g :: 0 <= g < |gaps| && Contains(gaps[g], v)
    decreases |pieces|
  {
    var text, n := Weave(gaps, pieces), |v|;
    if pieces == [] {
      assert OccursAt(gaps[0], v, p);
    } else if p + n <= |gaps[0]| {
      assert text[p..p + n] == gaps[0][p..p + n];
      assert OccursAt(gaps[0], v, p);
    } else if p < |gaps[0]| + |pieces[0]| {
      assert PieceAt(gaps, pieces, 0) == |gaps[0]|;
    } else {
      var front, rest := gaps[0] + pieces[0], Weave(gaps[1..], pieces[1..]);
      assert text == front + rest;
      OccursShift(front, rest, v, p - |front|);
      InGapOrTouches(gaps[1..], pieces[1..], v, p - |front|);
      if TouchesPiece(gaps[1..], pieces[1..], p - |front|, n) {
        var i :| 0 <= i < |pieces[1..]| && p - |front| < PieceAt(gaps[1..], pieces[1..], i) + |pieces[1..][i]|
                 && PieceAt(gaps[1..], pieces[1..], i) < p - |front| + n;
        assert PieceAt(gaps, pieces, i + 1) == |front| + PieceAt(gaps[1..], pieces[1..], i) && pieces[i + 1] == pieces[1..][i];
      } else {
        var g :| 0 <= g < |gaps[1..]| && Contains(gaps[1..][g], v);
        assert gaps[g + 1] == gaps[1..][g];
      }
    }
  }

  /** A registered value that occurs in a scrubbed text touches something that scrub wrote. */
  lemma ValueTouchesPiece(values: seq<string>, input: string, hits: seq<Hit>, pieces: seq<string>, id: nat, p: nat)
    requires LeftmostLongest(values, input, 0, hits) && Ordered(input, hits) && |pieces| == |hits|
    requires id < |values| && values[id] != [] && OccursAt(Weave(Gaps(input, hits), pieces), values[id], p)
    ensures TouchesPiece(Gaps(input, hits), pieces, p, |values[id]|)
  {
    InGapOrTouches(Gaps(input, hits), pieces, values[id], p);
    forall g | 0 <= g < |Gaps(input, hits)|
      ensures !Contains(Gaps(input, hits)[g], values[id])
    {
      GapsHoldNoValue(values, input, hits, g, id);
    }
  }

  /** No registered value occurs where it touches a piece. */
  ghost predicate PiecesMakeNoValue(values: seq<string>, gaps: seq<string>, pieces: seq<string>)
    requires |gaps| == |pieces| + 1
  {
    forall id, p: nat :: 0 <= id < |values| && OccursAt(Weave(gaps, pieces), values[id], p) ==>
      !TouchesPiece(gaps, pieces, p, |values[id]|)
  }

  lemma {:induction false} TouchesIffHolds(e: Engine, input: string, hits: seq<Hit>, pieces: seq<string>)
    requires WellFormed(e) && LeftmostLongest(e.values, input, 0, hits) && Ordered(input, hits) && |pieces| == |hits|
    ensures PiecesMakeNoValue(e.values, Gaps(input, hits), pieces) <==> HoldsNoValue(e.values, Weave(Gaps(input, hits), pieces))
  {
    var gaps := Gaps(input, hits);
    forall id, p: nat | 0 <= id < |e.values| && OccursAt(Weave(gaps, pieces), e.values[id], p)
      ensures TouchesPiece(gaps, pieces, p, |e.values[id]|)
    {
      ValueTouchesPiece(e.values, input, hits, pieces, id, p);
    }
  }

  /**
   * Scrub is idempotent on an input exactly if each value that the second scrub finds
   * is its own replacement; and, if the first of them moves, exactly if what scrub
   * writes, with what stands around it, spells no registered value: every fake that is
   * itself registered is scrubbed again, since an exact match takes precedence over
   * every recognition of fakes.
   */
  lemma ScrubTwiceIff(e: Engine, stateful: bool, input: string, hits: seq<Hit>, again: seq<Hit>)
    requires WellFormed(e)
    requires LeftmostLongest(e.values, input, 0, hits) && Ordered(input, hits) && HitsFit(|e.refs|, hits)
    requires var once := Weave(Gaps(input, hits), Pieces(Plan(e, stateful), hits));
             LeftmostLongest(e.values, once, 0, again) && Ordered(once, again) && HitsFit(|e.refs|, again)
    ensures var once := Weave(Gaps(input, hits), Pieces(Plan(e, stateful), hits));
            var twice := Weave(Gaps(once, again), Pieces(Plan(e, stateful), again));
            && (FirstChangeMoves(e, again) ==> (twice == once <==> AllStay(e, again)))
            && (FirstMoves(e, again) ==>
                  (twice == once <==> PiecesMakeNoValue(e.values, Gaps(input, hits), Pieces(Plan(e, stateful), hits))))
  {
    var pieces := Pieces(Plan(e, stateful), hits);
    var once := Weave(Gaps(input, hits), pieces);
    if FirstChangeMoves(e, again) {
      ScrubFixesExactly(e, stateful, once, again);
    }
    if FirstMoves(e, again) {
      ScrubFixesIff(e, stateful, once, again);
      TouchesIffHolds(e, input, hits, pieces);
    }
  }

  /** The two calls one after the other, with or without a session. */
  method ScrubAgain(e: Engine, input: string, session: SessionMap?, now: nat, later: nat)
    returns (once: string, twice: string, ghost hits: seq<Hit>, ghost again: seq<Hit>)
    requires WellFormed(e)
    modifies if session == null then {} else {session}
    ensures LeftmostLongest(e.values, input, 0, hits) && Ordered(input, hits) && HitsFit(|e.refs|, hits)
    ensures LeftmostLongest(e.values, once, 0, again) && Ordered(once, again) && HitsFit(|e.refs|, again)
    ensures once == Weave(Gaps(input, hits), Pieces(Plan(e, session != null), hits))
    ensures FirstChangeMoves(e, again) ==> (twice == once <==> AllStay(e, again))
    ensures FirstMoves(e, again) ==>
              (twice == once <==> PiecesMakeNoValue(e.values, Gaps(input, hits), Pieces(Plan(e, session != null), hits)))
  {
    var n, notices, m, more;
    once, n, notices, hits := ScrubImpl(e, input, session, now);
    twice, m, more, again := ScrubImpl(e, once, session, later);
    ScrubTwiceIff(e, session != null, input, hits, again);
  }

  // ----- families on which it is not idempotent -----

  /**
   * If a value's fake is registered too, the second scrub changes every text in which
   * the first replaced that value, as long as the first value it finds there moves.
   */
  lemma {:induction false} RegisteredFakeIsScrubbed(e: Engine, stateful: bool, input: string, hits: seq<Hit>, again: seq<Hit>, i: nat, id: nat)
    requires WellFormed(e)
    requires LeftmostLongest(e.values, input, 0, hits) && Ordered(input, hits) && HitsFit(|e.refs|, hits)
    requires i < |hits| && id < |e.values| && FakeOf(e, hits[i].valueId) == Some(e.values[id])
    requires var once := Weave(Gaps(input, hits), Pieces(Plan(e, stateful), hits));
             LeftmostLongest(e.values, once, 0, again) && Ordered(once, again) && HitsFit(|e.refs|, again)
    requires FirstMoves(e, again)
    ensures var once := Weave(Gaps(input, hits), Pieces(Plan(e, stateful), hits));
            Weave(Gaps(once, again), Pieces(Plan(e, stateful), again)) != once
  {
    var gaps, pieces := Gaps(input, hits), Pieces(Plan(e, stateful), hits);
    HitIsReplaced(e, stateful, hits[i].valueId);
    PieceOccurs(gaps, pieces, i);
    assert OccursAt(Weave(gaps, pieces), e.values[id], PieceAt(gaps, pieces, i));
    ScrubFixesIff(e, stateful, Weave(gaps, pieces), again);
  }

  /** Registrations a and b are of a value and its own fake, in the same way; there may be others. */
  ghost predicate ValueAndFake(e: Engine, a: nat, b: nat) {
    && WellFormed(e) && a < |e.refs| && b < |e.refs| && e.refs[a].FpeRef? && e.refs[b].FpeRef?
    && var v, w := e.fpe[e.refs[a].index], e.fpe[e.refs[b].index];
       && ScrubValue(e.ff1, v) == Some(w.value)
       && w.tweak == v.tweak && w.alphabet == v.alphabet && w.prefix == v.prefix
  }

  lemma {:induction false} ItsFakes(e: Engine, a: nat, b: nat)
    requires ValueAndFake(e, a, b)
    ensures |e.values[a]| == |e.values[b]| && FakeOf(e, a) == Some(e.values[b])
    ensures FakeOf(e, b).Some? && |FakeOf(e, b).value| == |e.values[b]|
    ensures FakeOf(e, b).value == e.values[b] <==> e.values[b] == e.values[a]
  {
    FakeOfFake(e.ff1, e.fpe[e.refs[a].index], e.fpe[e.refs[b].index]);
  }

  /** If they differ, each of the two moves. */
  lemma {:induction false} BothMove(e: Engine, a: nat, b: nat)
    requires ValueAndFake(e, a, b)
    ensures MovesAt(e, a) <==> e.values[a] != e.values[b]
    ensures MovesAt(e, b) <==> e.values[a] != e.values[b]
  {
    ItsFakes(e, a, b);
  }

  /**
   * So under every FF1, in any engine with a value and its own fake registered in the
   * same way: unless they are the same, scrubbing a text in which the value is found
   * and scrubbing the result again gives two different texts, as long as the first
   * value that is found again, which may be a third one, moves.
   */
  lemma {:induction false} ValueAndFakeAlternate(e: Engine, stateful: bool, input: string, hits: seq<Hit>, again: seq<Hit>,
                                                 i: nat, a: nat, b: nat)
    requires ValueAndFake(e, a, b) && e.values[a] != e.values[b]
    requires LeftmostLongest(e.values, input, 0, hits) && Ordered(input, hits) && HitsFit(|e.refs|, hits)
    requires i < |hits| && hits[i].valueId == a
    requires var once := Weave(Gaps(input, hits), Pieces(Plan(e, stateful), hits));
             LeftmostLongest(e.values, once, 0, again) && Ordered(once, again) && HitsFit(|e.refs|, again)
    requires again == [] || again[0].valueId == a || again[0].valueId == b || MovesAt(e, again[0].valueId)
    ensures var once := Weave(Gaps(input, hits), Pieces(Plan(e, stateful), hits));
            Weave(Gaps(once, again), Pieces(Plan(e, stateful), again)) != once
  {
    ItsFakes(e, a, b);
    BothMove(e, a, b);
    RegisteredFakeIsScrubbed(e, stateful, input, hits, again, i, b);
  }

  /** A text that is a registered value is one hit, and becomes what replaces that value. */
  lemma {:induction false} WholeTextHit(values: seq<string>, plan: seq<Emission>, id: nat)
    requires |plan| == |values| && id < |values| && forall k :: 0 <= k < |values| ==> values[k] != []
    ensures var v, hits := values[id], [Hit(0, |values[id]|, id)];
            && LeftmostLongest(values, v, 0, hits) && Ordered(v, hits) && HitsFit(|values|, hits)
            && Weave(Gaps(v, hits), Pieces(plan, hits)) == plan[id].text
  {
    var v, hits := values[id], [Hit(0, |values[id]|, id)];
    assert v[0..|v|] == v;
    assert Resume(0, hits, 0) == 0 && Resume(0, hits, 1) == |v|;
    assert LongestHere(values, v, hits[0]);
    HitsAreOrdered(values, v, hits);
    var gaps, pieces := Gaps(v, hits), Pieces(plan, hits);
    assert gaps[0] == "" && gaps[1] == "" && pieces == [plan[id].text];
    assert Weave(gaps[1..], pieces[1..]) == "";
  }

  /** What scrubbing makes of a text that is a registered value, in any engine. */
  lemma {:induction false} WholeTextScrubbed(e: Engine, stateful: bool, id: nat)
    requires WellFormed(e) && id < |e.refs|
    ensures var v, hits := e.values[id], [Hit(0, |e.values[id]|, id)];
            && LeftmostLongest(e.values, v, 0, hits) && Ordered(v, hits) && HitsFit(|e.refs|, hits)
            && Weave(Gaps(v, hits), Pieces(Plan(e, stateful), hits)) == Replacement(e, id)
  {
    HitIsReplaced(e, stateful, id);
    WholeTextHit(e.values, Plan(e, stateful), id);
  }

  /** The shortest such text is the value itself: it becomes its fake, and that its own fake, which differs exactly if the two do. */
  lemma {:induction false} FakeIsScrubbedAgain(e: Engine, stateful: bool, a: nat, b: nat)
    requires ValueAndFake(e, a, b)
    ensures FakeOf(e, b).Some? && (FakeOf(e, b).value != e.values[b] <==> e.values[a] != e.values[b])
    ensures var v, w, plan := e.values[a], e.values[b], Plan(e, stateful);
            var first, second := [Hit(0, |v|, a)], [Hit(0, |w|, b)];
            && LeftmostLongest(e.values, v, 0, first) && Ordered(v, first) && HitsFit(|e.refs|, first)
            && LeftmostLongest(e.values, w, 0, second) && Ordered(w, second) && HitsFit(|e.refs|, second)
            && Weave(Gaps(v, first), Pieces(plan, first)) == w
            && Weave(Gaps(w, second), Pieces(plan, second)) == FakeOf(e, b).value
  {
    ItsFakes(e, a, b);
    WholeTextScrubbed(e, stateful, a);
    WholeTextScrubbed(e, stateful, b);
  }

  /** Two registered values, each the fake of the other: the second scrub undoes the first. */
  lemma {:induction false} SecondScrubUndoesFirst(e: Engine, stateful: bool, a: nat, b: nat)
    requires WellFormed(e) && a < |e.refs| && b < |e.refs|
    requires FakeOf(e, a) == Some(e.values[b]) && FakeOf(e, b) == Some(e.values[a])
    ensures var v, w, plan := e.values[a], e.values[b], Plan(e, stateful);
            var first, second := [Hit(0, |v|, a)], [Hit(0, |w|, b)];
            && LeftmostLongest(e.values, v, 0, first) && Ordered(v, first) && HitsFit(|e.refs|, first)
            && LeftmostLongest(e.values, w, 0, second) && Ordered(w, second) && HitsFit(|e.refs|, second)
            && Weave(Gaps(v, first), Pieces(plan, first)) == w && Weave(Gaps(w, second), Pieces(plan, second)) == v
  {
    WholeTextScrubbed(e, stateful, a);
    WholeTextScrubbed(e, stateful, b);
  }
}
