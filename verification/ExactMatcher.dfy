/** Exact matching of registered values: leftmost-longest, non-overlapping, in source order. */
module ExactMatcher {
  import opened Basics
  import opened Text

  datatype Hit = Hit(start: nat, end: nat, valueId: nat)

  ghost predicate NothingStarts(values: seq<string>, text: string, lo: nat, hi: nat) {
    forall p, id :: lo <= p < hi && 0 <= id < |values| ==> !OccursAt(text, values[id], p)
  }

  ghost predicate LongestHere(values: seq<string>, text: string, h: Hit) {
    && h.valueId < |values| && OccursAt(text, values[h.valueId], h.start) && h.end == h.start + |values[h.valueId]|
    && forall id :: 0 <= id < |values| && OccursAt(text, values[id], h.start) ==> |values[id]| <= h.end - h.start
  }

  /** The hit is what a search from `from` comes upon first. */
  ghost predicate IsNext(values: seq<string>, text: string, from: nat, h: Hit) {
    from <= h.start && NothingStarts(values, text, from, h.start) && LongestHere(values, text, h)
  }

  /** Where the search for hit i begins: at the end of the one before. */
  function Resume(from: nat, hits: seq<Hit>, i: nat): nat
    requires i <= |hits|
  {
    if i == 0 then from else hits[i - 1].end
  }

  /**
   * What the automaton promises from `from` on.  Which of two equal values is
   * reported is left open.
   */
  ghost predicate LeftmostLongest(values: seq<string>, text: string, from: nat, hits: seq<Hit>) {
    && (forall i {:trigger Resume(from, hits, i)} :: 0 <= i < |hits| ==> IsNext(values, text, Resume(from, hits, i), hits[i]))
    && NothingStarts(values, text, Resume(from, hits, |hits|), |text| + 1)
  }

  lemma {:induction false} HitThenRestAt(values: seq<string>, text: string, h: Hit, rest: seq<Hit>, i: nat)
    requires LongestHere(values, text, h) && LeftmostLongest(values, text, h.end, rest) && i <= |rest|
    ensures IsNext(values, text, Resume(h.start, [h] + rest, i), ([h] + rest)[i])
  {
    if i > 0 {
      assert Resume(h.start, [h] + rest, i) == Resume(h.end, rest, i - 1);
    }
  }

  lemma {:induction false} HitThenRest(values: seq<string>, text: string, h: Hit, rest: seq<Hit>)
    requires LongestHere(values, text, h) && LeftmostLongest(values, text, h.end, rest)
    ensures LeftmostLongest(values, text, h.start, [h] + rest)
  {
    var hits := [h] + rest;
    forall i | 0 <= i < |hits|
      ensures IsNext(values, text, Resume(h.start, hits, i), hits[i])
    {
      HitThenRestAt(values, text, h, rest, i);
    }
    assert Resume(h.start, hits, |hits|) == Resume(h.end, rest, |rest|);
  }

  lemma {:induction false} SkipThenRest(values: seq<string>, text: string, from: nat, rest: seq<Hit>)
    requires NothingStarts(values, text, from, from + 1) && LeftmostLongest(values, text, from + 1, rest)
    ensures LeftmostLongest(values, text, from, rest)
  {
    forall i | 0 <= i < |rest|
      ensures IsNext(values, text, Resume(from, rest, i), rest[i])
    {
      assert IsNext(values, text, Resume(from + 1, rest, i), rest[i]);
    }
  }

  function BestAt(values: seq<string>, text: string, p: nat, n: nat): (r: Option<nat>)
    requires n <= |values|
    ensures r.Some? ==> r.value < n && OccursAt(text, values[r.value], p)
    ensures r.Some? ==> forall id :: 0 <= id < n && OccursAt(text, values[id], p) ==> |values[id]| <= |values[r.value]|
    ensures r.None? ==> forall id :: 0 <= id < n ==> !OccursAt(text, values[id], p)
  {
    if n == 0 then None
    else
      var best := BestAt(values, text, p, n - 1);
      if OccursAt(text, values[n - 1], p) && (best.None? || |values[best.value]| < |values[n - 1]|) then Some(n - 1)
      else best
  }

  function Scan(values: seq<string>, text: string, from: nat): (hits: seq<Hit>)
    requires from <= |text| && forall id :: 0 <= id < |values| ==> values[id] != []
    ensures LeftmostLongest(values, text, from, hits)
    decreases |text| - from
  {
    if from == |text| then []
    else
      match BestAt(values, text, from, |values|)
      case Some(id) =>
        var h := Hit(from, from + |values[id]|, id);
        var rest := Scan(values, text, h.end);
        HitThenRest(values, text, h, rest);
        [h] + rest
      case None =>
        var rest := Scan(values, text, from + 1);
        SkipThenRest(values, text, from, rest);
        rest
  }

  // ----- the text as gaps and hits -----

  /** In source order, without overlap, inside the text. */
  ghost predicate Ordered(text: string, hits: seq<Hit>) {
    && (forall i {:trigger Resume(0, hits, i)} ::
          0 <= i < |hits| ==> Resume(0, hits, i) <= hits[i].start <= hits[i].end <= |text|)
    && Resume(0, hits, |hits|) <= |text|
  }

  ghost predicate HitsFit(n: nat, hits: seq<Hit>) {
    forall i :: 0 <= i < |hits| ==> hits[i].valueId < n
  }

  /** Each hit spells its value. */
  ghost predicate Spells(values: seq<string>, text: string, hits: seq<Hit>)
    requires Ordered(text, hits) && HitsFit(|values|, hits)
  {
    forall i {:trigger Resume(0, hits, i)} ::
      0 <= i < |hits| ==> Resume(0, hits, i) <= hits[i].start && text[hits[i].start..hits[i].end] == values[hits[i].valueId]
  }

  lemma HitsAreOrdered(values: seq<string>, text: string, hits: seq<Hit>)
    requires LeftmostLongest(values, text, 0, hits)
    ensures Ordered(text, hits) && HitsFit(|values|, hits) && Spells(values, text, hits)
  {
    forall i | 0 <= i < |hits|
      ensures Resume(0, hits, i) <= hits[i].start <= hits[i].end <= |text| && hits[i].valueId < |values|
      ensures text[hits[i].start..hits[i].end] == values[hits[i].valueId]
    {
      assert IsNext(values, text, Resume(0, hits, i), hits[i]);
    }
  }

  ghost function GapEnd(text: string, hits: seq<Hit>, i: nat): nat
    requires i <= |hits|
  {
    if i == |hits| then |text| else hits[i].start
  }

  /** The stretches before, between and after the hits. */
  ghost function Gaps(text: string, hits: seq<Hit>): (r: seq<string>)
    requires Ordered(text, hits)
    ensures |r| == |hits| + 1
    ensures forall i :: 0 <= i < |r| ==> r[i] == text[Resume(0, hits, i)..GapEnd(text, hits, i)]
  {
    seq(|hits| + 1, i requires 0 <= i <= |hits| => text[Resume(0, hits, i)..GapEnd(text, hits, i)])
  }

  ghost function HitValues(values: seq<string>, hits: seq<Hit>): (r: seq<string>)
    requires HitsFit(|values|, hits)
    ensures |r| == |hits| && forall i :: 0 <= i < |r| ==> r[i] == values[hits[i].valueId]
  {
    seq(|hits|, i requires 0 <= i < |hits| => values[hits[i].valueId])
  }

  /** The first n gaps, each followed by its piece. */
  ghost function Written(gaps: seq<string>, pieces: seq<string>, n: nat): string
    requires |gaps| == |pieces| + 1 && n <= |pieces|
  {
    if n == 0 then "" else Written(gaps, pieces, n - 1) + gaps[n - 1] + pieces[n - 1]
  }

  lemma {:induction false} WovenIsWritten(gaps: seq<string>, pieces: seq<string>, n: nat)
    requires |gaps| == |pieces| + 1 && n <= |pieces|
    ensures Weave(gaps, pieces) == Written(gaps, pieces, n) + Weave(gaps[n..], pieces[n..])
  {
    if n == 0 {
      assert gaps[0..] == gaps && pieces[0..] == pieces;
    } else {
      WovenIsWritten(gaps, pieces, n - 1);
      var g, p := gaps[n - 1..], pieces[n - 1..];
      assert g[1..] == gaps[n..] && p[1..] == pieces[n..];
      assert Weave(g, p) == gaps[n - 1] + pieces[n - 1] + Weave(gaps[n..], pieces[n..]);
    }
  }

  lemma {:induction false} WovenEnds(gaps: seq<string>, pieces: seq<string>)
    requires |gaps| == |pieces| + 1
    ensures Weave(gaps, pieces) == Written(gaps, pieces, |pieces|) + gaps[|pieces|]
  {
    WovenIsWritten(gaps, pieces, |pieces|);
  }

  lemma ThreeSlices(text: string, a: nat, b: nat, c: nat)
    requires a <= b <= c <= |text|
    ensures text[..a] + text[a..b] + text[b..c] == text[..c]
  {
  }

  lemma {:induction false} InputIsWritten(values: seq<string>, text: string, hits: seq<Hit>, n: nat)
    requires Ordered(text, hits) && HitsFit(|values|, hits) && Spells(values, text, hits) && n <= |hits|
    ensures Resume(0, hits, n) <= |text|
    ensures Written(Gaps(text, hits), HitValues(values, hits), n) == text[..Resume(0, hits, n)]
  {
    if n > 0 {
      InputIsWritten(values, text, hits, n - 1);
      var a, h := Resume(0, hits, n - 1), hits[n - 1];
      ThreeSlices(text, a, h.start, h.end);
      assert Gaps(text, hits)[n - 1] == text[a..h.start];
    }
  }

  /** The input is its gaps woven with the values that were hit. */
  lemma {:induction false} InputIsWoven(values: seq<string>, text: string, hits: seq<Hit>)
    requires Ordered(text, hits) && HitsFit(|values|, hits) && Spells(values, text, hits)
    ensures Weave(Gaps(text, hits), HitValues(values, hits)) == text
  {
    InputIsWritten(values, text, hits, |hits|);
    WovenEnds(Gaps(text, hits), HitValues(values, hits));
    var end := Resume(0, hits, |hits|);
    assert text[..end] + text[end..] == text;
  }

  /** No complete registered value is left in a stretch that is copied. */
  lemma {:induction false} GapsHoldNoValue(values: seq<string>, text: string, hits: seq<Hit>, g: nat, id: nat)
    requires LeftmostLongest(values, text, 0, hits) && Ordered(text, hits)
    requires g <= |hits| && id < |values| && values[id] != []
    ensures !Contains(Gaps(text, hits)[g], values[id])
  {
    var lo, hi, v := Resume(0, hits, g), GapEnd(text, hits, g), values[id];
    match Find(Gaps(text, hits)[g], v, 0)
    case None =>
    case Some(p) =>
      SliceOccurs(text, lo, hi, v, p);
      assert false;
  }
}
