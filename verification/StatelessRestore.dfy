/** Why a stateless scrub can be undone: the candidate spans are the fakes, and each decrypts. */
module StatelessRestore {
  import opened Basics
  import opened Text
  import opened Fpe
  import opened Restore

  function SpanOf(gaps: seq<string>, pieces: seq<string>, i: nat): Span
    requires |gaps| == |pieces| + 1 && i < |pieces|
  {
    Span(PieceAt(gaps, pieces, i), PieceAt(gaps, pieces, i) + |pieces[i]|)
  }

  function Shift(s: Span, d: nat): Span {
    Span(s.start + d, s.end + d)
  }

  ghost function PieceSpans(gaps: seq<string>, pieces: seq<string>): (r: seq<Span>)
    requires |gaps| == |pieces| + 1
    ensures |r| == |pieces| && forall i :: 0 <= i < |r| ==> r[i] == SpanOf(gaps, pieces, i)
  {
    seq(|pieces|, i requires 0 <= i < |pieces| => SpanOf(gaps, pieces, i))
  }

  lemma {:induction false} PieceSpansSorted(gaps: seq<string>, pieces: seq<string>)
    requires |gaps| == |pieces| + 1 && forall i :: 0 <= i < |pieces| ==> pieces[i] != []
    ensures StrictlySorted(PieceSpans(gaps, pieces))
  {
    forall i, j | 0 <= i < j < |pieces|
      ensures SpanOf(gaps, pieces, i).start < SpanOf(gaps, pieces, j).start
    {
      PiecesInOrder(gaps, pieces, i, j);
    }
  }

  ghost predicate Decrypts(ff1: Ff1, regs: seq<FpeRegistration>, fakes: seq<string>, values: seq<string>)
    requires Lawful(ff1)
  {
    |fakes| == |values| && forall i :: 0 <= i < |fakes| ==> TryRestore(ff1, fakes[i], regs) == Some(values[i])
  }

  /** Attempts at the spans of the pieces, each of which gives its value. */
  ghost predicate Succeed(attempts: seq<Attempt>, gaps: seq<string>, fakes: seq<string>, values: seq<string>, offset: nat)
    requires |gaps| == |fakes| + 1 && |fakes| == |values|
  {
    && |attempts| == |fakes|
    && forall i :: 0 <= i < |fakes| ==> attempts[i] == Attempt(Shift(SpanOf(gaps, fakes, i), offset), Some(values[i]))
  }

  lemma {:induction false} SucceedTail(attempts: seq<Attempt>, gaps: seq<string>, fakes: seq<string>, values: seq<string>, offset: nat)
    requires |gaps| == |fakes| + 1 && |fakes| == |values| && fakes != [] && Succeed(attempts, gaps, fakes, values, offset)
    ensures attempts[0] == Attempt(Span(offset + |gaps[0]|, offset + |gaps[0]| + |fakes[0]|), Some(values[0]))
    ensures Succeed(attempts[1..], gaps[1..], fakes[1..], values[1..], offset + |gaps[0]| + |fakes[0]|)
  {
    forall i | 0 <= i < |fakes| - 1
      ensures attempts[1..][i] == Attempt(Shift(SpanOf(gaps[1..], fakes[1..], i), offset + |gaps[0]| + |fakes[0]|), Some(values[1..][i]))
    {
      assert attempts[1..][i] == attempts[i + 1];
      assert PieceAt(gaps, fakes, i + 1) == |gaps[0]| + |fakes[0]| + PieceAt(gaps[1..], fakes[1..], i);
    }
  }

  /** Walking exactly over the pieces exchanges each for its value. */
  lemma {:induction false} WalkOverPieces(
    text: string, offset: nat, attempts: seq<Attempt>, gaps: seq<string>, fakes: seq<string>, values: seq<string>)
    requires |gaps| == |fakes| + 1 && |fakes| == |values| && Succeed(attempts, gaps, fakes, values, offset)
    requires offset <= |text| && text[offset..] == Weave(gaps, fakes) && LengthsFit(text, attempts)
    ensures Walk(text, attempts, offset) == Weave(gaps, values)
    ensures |Accepted(attempts, offset)| == |fakes|
    decreases |fakes|
  {
    if fakes != [] {
      TextParts(text, offset, gaps[0], fakes[0], Weave(gaps[1..], fakes[1..]));
      SucceedTail(attempts, gaps, fakes, values, offset);
      WalkOverPieces(text, attempts[0].span.end, attempts[1..], gaps[1..], fakes[1..], values[1..]);
    }
  }

  lemma TextParts(text: string, offset: nat, gap: string, piece: string, rest: string)
    requires offset <= |text| && text[offset..] == gap + piece + rest
    ensures var a, b := offset + |gap|, offset + |gap| + |piece|;
            b <= |text| && text[offset..a] == gap && text[a..b] == piece && text[b..] == rest
  {
    var all := gap + piece + rest;
    var a, b := |gap|, |gap| + |piece|;
    assert text[offset..][..a] == text[offset..offset + a] && all[..a] == gap;
    assert text[offset..][a..b] == text[offset + a..offset + b] && all[a..b] == piece;
    assert text[offset..][b..] == text[offset + b..] && all[b..] == rest;
  }

  /**
   * The stateless round trip on texts: if the candidate spans of the scrubbed text
   * are exactly the pieces scrub wrote, the walk gives the original text back.
   */
  lemma RestoreRebuilds(ff1: Ff1, regs: seq<FpeRegistration>, gaps: seq<string>, fakes: seq<string>,
                        values: seq<string>, spans: seq<Span>)
    requires Lawful(ff1) && |gaps| == |fakes| + 1 && Decrypts(ff1, regs, fakes, values)
    requires forall i :: 0 <= i < |fakes| ==> fakes[i] != []
    requires AreCandidates(regs, Weave(gaps, fakes), spans)
    requires forall i :: 0 <= i < |fakes| ==> IsCandidate(regs, Weave(gaps, fakes), SpanOf(gaps, fakes, i))
    requires forall s :: IsCandidate(regs, Weave(gaps, fakes), s) ==> exists i :: 0 <= i < |fakes| && s == SpanOf(gaps, fakes, i)
    ensures var attempts := Attempts(ff1, regs, Weave(gaps, fakes), spans);
            Walk(Weave(gaps, fakes), attempts, 0) == Weave(gaps, values) && |Accepted(attempts, 0)| == |fakes|
  {
    var text, pieces := Weave(gaps, fakes), PieceSpans(gaps, fakes);
    assert text[0..] == text;
    forall s
      ensures s in spans <==> s in pieces
    {
      if s in spans {
        var i :| 0 <= i < |fakes| && s == SpanOf(gaps, fakes, i);
        assert pieces[i] == s;
      }
      if s in pieces {
        var i :| 0 <= i < |pieces| && pieces[i] == s;
        assert s == SpanOf(gaps, fakes, i);
      }
    }
    PieceSpansSorted(gaps, fakes);
    SortedIsUnique(spans, pieces);
    PiecesSucceed(ff1, regs, gaps, fakes, values);
    WalkOverPieces(text, 0, Attempts(ff1, regs, text, spans), gaps, fakes, values);
  }

  lemma {:induction false} PiecesSucceed(ff1: Ff1, regs: seq<FpeRegistration>, gaps: seq<string>, fakes: seq<string>, values: seq<string>)
    requires Lawful(ff1) && |gaps| == |fakes| + 1 && Decrypts(ff1, regs, fakes, values)
    requires Fit(Weave(gaps, fakes), PieceSpans(gaps, fakes))
    ensures Succeed(Attempts(ff1, regs, Weave(gaps, fakes), PieceSpans(gaps, fakes)), gaps, fakes, values, 0)
  {
    var text, spans := Weave(gaps, fakes), PieceSpans(gaps, fakes);
    forall i | 0 <= i < |fakes|
      ensures TryRestore(ff1, Slice(text, spans[i]), regs) == Some(values[i])
    {
      PieceOccurs(gaps, fakes, i);
      assert Slice(text, spans[i]) == fakes[i];
    }
  }
}
