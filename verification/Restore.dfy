/** Restoring: the search for spans that look like FF1 fakes, and the session pass before it. */
module Restore {
  import opened Basics
  import opened Text
  import opened Fpe
  import opened SessionMaps

  datatype Span = Span(start: nat, end: nat)

  /** The span has the prefix, the length and the alphabet of the registration. */
  predicate Profile(reg: FpeRegistration, text: string, s: Span) {
    && |reg.prefix| < |reg.value|
    && s.end == s.start + |reg.value| && s.end <= |text|
    && OccursAt(text, reg.prefix, s.start)
    && AllIn(text[s.start + |reg.prefix|..s.end], reg.alphabet)
  }

  ghost predicate IsCandidate(regs: seq<FpeRegistration>, text: string, s: Span) {
    exists k :: 0 <= k < |regs| && Profile(regs[k], text, s)
  }

  /** The search loop ends, and finds exactly the matching spans, overlapping ones included. */
  method SearchProfile(reg: FpeRegistration, input: string) returns (spans: seq<Span>)
    ensures forall s :: s in spans <==> Profile(reg, input, s)
  {
    spans := [];
    var totalLen := |reg.value|;
    if totalLen <= |reg.prefix| {
      return;
    }
    var searchStart := 0;
    while true
      invariant searchStart <= |input|
      invariant forall s :: s in spans <==> Profile(reg, input, s) && s.start < searchStart
      decreases |input| - searchStart
    {
      var found := Find(input, reg.prefix, searchStart);
      if found.None? {
        return;
      }
      var start := found.value;
      var end := start + totalLen;
      if end > |input| {
        return;
      }
      if AllIn(input[start + |reg.prefix|..end], reg.alphabet) {
        spans := spans + [Span(start, end)];
      }
      searchStart := start + 1;
    }
  }

  method CollectCandidates(regs: seq<FpeRegistration>, input: string) returns (spans: seq<Span>)
    ensures forall s :: s in spans <==> IsCandidate(regs, input, s)
  {
    spans := [];
    for k := 0 to |regs|
      invariant forall s :: s in spans <==> exists j :: 0 <= j < k && Profile(regs[j], input, s)
    {
      var more := SearchProfile(regs[k], input);
      spans := spans + more;
    }
  }

  // ----- sorting and deduplicating -----

  predicate Less(a: Span, b: Span) {
    a.start < b.start || (a.start == b.start && a.end < b.end)
  }

  ghost predicate StrictlySorted(spans: seq<Span>) {
    forall i, j :: 0 <= i < j < |spans| ==> Less(spans[i], spans[j])
  }

  function InsertSpan(spans: seq<Span>, s: Span): (r: seq<Span>)
    requires StrictlySorted(spans)
    ensures StrictlySorted(r) && forall x :: x in r <==> x in spans || x == s
  {
    if spans == [] then [s]
    else
      var n := |spans| - 1;
      if spans[n] == s then spans
      else if Less(spans[n], s) then spans + [s]
      else
        assert spans == spans[..n] + [spans[n]];
        var front := InsertSpan(spans[..n], s);
        assert forall i :: 0 <= i < |front| ==> Less(front[i], spans[n]) by {
          forall i | 0 <= i < |front|
            ensures Less(front[i], spans[n])
          {
            assert front[i] in front;
          }
        }
        front + [spans[n]]
  }

  function SortDedup(spans: seq<Span>): (r: seq<Span>)
    ensures StrictlySorted(r) && forall x :: x in r <==> x in spans
  {
    if spans == [] then []
    else
      assert spans == spans[..|spans| - 1] + [spans[|spans| - 1]];
      InsertSpan(SortDedup(spans[..|spans| - 1]), spans[|spans| - 1])
  }

  /** A strictly sorted list is determined by its members. */
  lemma {:induction false} SortedIsUnique(a: seq<Span>, b: seq<Span>)
    requires StrictlySorted(a) && StrictlySorted(b) && forall x :: x in a <==> x in b
    ensures a == b
    decreases |a|
  {
    assert b != [] ==> b[0] in a;
    assert a != [] ==> a[0] in b;
    if a != [] && b != [] {
      var m, n := |a| - 1, |b| - 1;
      assert a[m] in b && b[n] in a;
      assert a[m] == b[n];
      forall x
        ensures x in a[..m] <==> x in b[..n]
      {
        assert x in a[..m] <==> x in a && x != a[m];
        assert x in b[..n] <==> x in b && x != b[n];
      }
      SortedIsUnique(a[..m], b[..n]);
      assert a == a[..m] + [a[m]] && b == b[..n] + [b[n]];
    }
  }

  // ----- the walk -----

  ghost predicate Fit(text: string, spans: seq<Span>) {
    forall i :: 0 <= i < |spans| ==> spans[i].start <= spans[i].end <= |text|
  }

  function Slice(text: string, s: Span): string
    requires s.start <= s.end <= |text|
  {
    text[s.start..s.end]
  }

  /** A candidate span and what trial decryption makes of it. */
  datatype Attempt = Attempt(span: Span, result: Option<string>)

  ghost function Attempts(ff1: Ff1, regs: seq<FpeRegistration>, text: string, spans: seq<Span>): (r: seq<Attempt>)
    requires Lawful(ff1) && Fit(text, spans)
    ensures |r| == |spans| && LengthsFit(text, r)
    ensures forall i :: 0 <= i < |spans| ==> r[i] == Attempt(spans[i], TryRestore(ff1, Slice(text, spans[i]), regs))
  {
    seq(|spans|, i requires 0 <= i < |spans| => Attempt(spans[i], TryRestore(ff1, Slice(text, spans[i]), regs)))
  }

  ghost predicate LengthFits(text: string, a: Attempt) {
    a.span.start <= a.span.end <= |text| && (a.result.Some? ==> |a.result.value| == a.span.end - a.span.start)
  }

  ghost predicate LengthsFit(text: string, attempts: seq<Attempt>) {
    forall i :: 0 <= i < |attempts| ==> LengthFits(text, attempts[i])
  }

  function Piece(text: string, a: Attempt): string
    requires a.span.start <= a.span.end <= |text|
  {
    if a.result.Some? then a.result.value else Slice(text, a.span)
  }

  /** Left to right, skipping spans that overlap one already taken. */
  ghost function Walk(text: string, attempts: seq<Attempt>, cursor: nat): string
    requires LengthsFit(text, attempts) && cursor <= |text|
    decreases |attempts|
  {
    if attempts == [] then text[cursor..]
    else if attempts[0].span.start < cursor then Walk(text, attempts[1..], cursor)
    else
      text[cursor..attempts[0].span.start] + Piece(text, attempts[0]) + Walk(text, attempts[1..], attempts[0].span.end)
  }

  /** The spans that are taken and accepted by trial decryption. */
  ghost function Accepted(attempts: seq<Attempt>, cursor: nat): seq<Span>
    decreases |attempts|
  {
    if attempts == [] then []
    else if attempts[0].span.start < cursor then Accepted(attempts[1..], cursor)
    else
      (if attempts[0].result.Some? then [attempts[0].span] else []) + Accepted(attempts[1..], attempts[0].span.end)
  }

  ghost predicate Inside(spans: seq<Span>, i: int) {
    exists s :: s in spans && s.start <= i < s.end
  }

  /** `out`, laid over the text from `cursor` on, fits and differs only inside the spans. */
  ghost predicate AgreesOutside(text: string, cursor: nat, out: string, spans: seq<Span>) {
    && cursor <= |text| && |out| == |text| - cursor
    && forall i {:trigger text[i]} :: cursor <= i < |text| && !Inside(spans, i) ==> out[i - cursor] == text[i]
  }

  lemma {:induction false} LocalStep(text: string, cursor: nat, a: Attempt, rest: string, spans: seq<Span>)
    requires cursor <= a.span.start && LengthFits(text, a) && AgreesOutside(text, a.span.end, rest, spans)
    ensures AgreesOutside(text, cursor, text[cursor..a.span.start] + Piece(text, a) + rest,
                          (if a.result.Some? then [a.span] else []) + spans)
  {
    var s, piece := a.span, Piece(text, a);
    var all := (if a.result.Some? then [s] else []) + spans;
    var out := text[cursor..s.start] + piece + rest;
    forall i | cursor <= i < |text| && !Inside(all, i)
      ensures out[i - cursor] == text[i]
    {
      assert forall x :: x in spans ==> x in all;
      assert a.result.Some? ==> s in all;
      if i >= s.end {
        assert !Inside(spans, i);
        assert out[i - cursor] == rest[i - s.end];
      } else if i >= s.start {
        assert out[i - cursor] == piece[i - s.start];
      }
    }
  }

  /** Restoring keeps the length and changes nothing outside accepted spans. */
  lemma {:induction false} WalkIsLocal(text: string, attempts: seq<Attempt>, cursor: nat)
    requires LengthsFit(text, attempts) && cursor <= |text|
    ensures AgreesOutside(text, cursor, Walk(text, attempts, cursor), Accepted(attempts, cursor))
    decreases |attempts|
  {
    if attempts == [] {
    } else if attempts[0].span.start < cursor {
      WalkIsLocal(text, attempts[1..], cursor);
    } else {
      var a := attempts[0];
      WalkIsLocal(text, attempts[1..], a.span.end);
      LocalStep(text, cursor, a, Walk(text, attempts[1..], a.span.end), Accepted(attempts[1..], a.span.end));
    }
  }

  /** When no candidate is accepted, the output is the input. */
  lemma {:induction false} NoneAcceptedIsIdentity(text: string, attempts: seq<Attempt>)
    requires LengthsFit(text, attempts) && Accepted(attempts, 0) == []
    ensures Walk(text, attempts, 0) == text
  {
    WalkIsLocal(text, attempts, 0);
  }

  // ----- exactly what the walk does -----

  /** Earlier in the text; of two that start together, the shorter. */
  predicate Before(s: Span, t: Span) {
    s.start < t.start || (s.start == t.start && s.end < t.end)
  }

  predicate Overlap(s: Span, t: Span) {
    s.start < t.end && t.start < s.end
  }

  ghost predicate Blocked(chosen: set<Span>, s: Span) {
    exists t :: t in chosen && Before(t, s) && Overlap(t, s)
  }

  /** A span is chosen exactly if no chosen one before it overlaps it. */
  ghost predicate IsChoice(spans: seq<Span>, chosen: set<Span>) {
    && (forall s :: s in chosen ==> s in spans)
    && forall s :: s in spans ==> (s in chosen <==> !Blocked(chosen, s))
  }

  ghost predicate AgreeUpTo(spans: seq<Span>, a: set<Span>, b: set<Span>, n: nat)
    requires n <= |spans|
  {
    forall i :: 0 <= i < n ==> (spans[i] in a <==> spans[i] in b)
  }

  lemma {:induction false} ChoicesAgreeNext(spans: seq<Span>, a: set<Span>, b: set<Span>, n: nat)
    requires StrictlySorted(spans) && IsChoice(spans, a) && IsChoice(spans, b) && n < |spans| && AgreeUpTo(spans, a, b, n)
    ensures AgreeUpTo(spans, a, b, n + 1)
  {
    var s := spans[n];
    assert s in spans;
    assert Blocked(a, s) <==> Blocked(b, s) by {
      BlockedByEarlier(spans, a, b, n);
      BlockedByEarlier(spans, b, a, n);
    }
  }

  /** There is only one such choice. */
  lemma {:induction false} ChoiceIsUnique(spans: seq<Span>, a: set<Span>, b: set<Span>)
    requires StrictlySorted(spans) && IsChoice(spans, a) && IsChoice(spans, b)
    ensures a == b
  {
    var n := 0;
    while n < |spans|
      invariant n <= |spans| && AgreeUpTo(spans, a, b, n)
    {
      ChoicesAgreeNext(spans, a, b, n);
      n := n + 1;
    }
    forall s
      ensures s in a <==> s in b
    {
      if s in spans {
        var i :| 0 <= i < |spans| && spans[i] == s;
      }
    }
  }

  lemma {:induction false} BlockedByEarlier(spans: seq<Span>, a: set<Span>, b: set<Span>, n: nat)
    requires StrictlySorted(spans) && n < |spans| && (forall s :: s in a ==> s in spans) && AgreeUpTo(spans, a, b, n)
    ensures Blocked(a, spans[n]) ==> Blocked(b, spans[n])
  {
    if Blocked(a, spans[n]) {
      var t :| t in a && Before(t, spans[n]) && Overlap(t, spans[n]);
      var i :| 0 <= i < |spans| && spans[i] == t;
      assert i < n;
    }
  }

  ghost predicate NonEmpty(spans: seq<Span>) {
    forall i :: 0 <= i < |spans| ==> spans[i].start < spans[i].end
  }

  /** The spans that the walk takes. */
  ghost function Taken(spans: seq<Span>, cursor: nat): set<Span>
    decreases |spans|
  {
    if spans == [] then {}
    else if spans[0].start < cursor then Taken(spans[1..], cursor)
    else {spans[0]} + Taken(spans[1..], spans[0].end)
  }

  lemma {:induction false} TakenIsListed(spans: seq<Span>, cursor: nat)
    ensures forall s :: s in Taken(spans, cursor) ==> s in spans
    decreases |spans|
  {
    if spans != [] {
      assert spans == [spans[0]] + spans[1..];
      TakenIsListed(spans[1..], cursor);
      TakenIsListed(spans[1..], spans[0].end);
    }
  }

  /** A span that starts with or after the head is blocked by it exactly if it starts before its end. */
  lemma {:induction false} HeadBlocks(h: Span, later: set<Span>, s: Span)
    requires Before(h, s) && s.start < s.end
    ensures Blocked({h} + later, s) <==> s.start < h.end || Blocked(later, s)
  {
    if s.start < h.end {
      assert h in {h} + later && Overlap(h, s);
    }
    if Blocked(later, s) {
      var t :| t in later && Before(t, s) && Overlap(t, s);
      assert t in {h} + later;
    }
  }

  lemma {:induction false} HeadIsFree(spans: seq<Span>, cursor: nat)
    requires spans != [] && StrictlySorted(spans)
    ensures spans[0] !in Taken(spans[1..], cursor) && !Blocked({spans[0]} + Taken(spans[1..], cursor), spans[0])
  {
    TakenIsListed(spans[1..], cursor);
    forall t | t in spans[1..]
      ensures Less(spans[0], t)
    {
      var i :| 0 <= i < |spans| - 1 && spans[1..][i] == t;
      assert spans[i + 1] == t;
    }
  }

  lemma {:induction false} TakenIff(spans: seq<Span>, cursor: nat, i: nat)
    requires StrictlySorted(spans) && NonEmpty(spans) && i < |spans|
    ensures spans[i] in Taken(spans, cursor) <==> spans[i].start >= cursor && !Blocked(Taken(spans, cursor), spans[i])
    decreases |spans|
  {
    var h, rest := spans[0], spans[1..];
    if h.start < cursor {
      HeadIsFree(spans, cursor);
      if i > 0 {
        assert rest[i - 1] == spans[i];
        TakenIff(rest, cursor, i - 1);
      }
    } else {
      HeadIsFree(spans, h.end);
      if i > 0 {
        assert rest[i - 1] == spans[i];
        TakenIff(rest, h.end, i - 1);
        assert Less(spans[0], spans[i]);
        HeadBlocks(h, Taken(rest, h.end), spans[i]);
      }
    }
  }

  ghost function SpansOf(attempts: seq<Attempt>): (r: seq<Span>)
    ensures |r| == |attempts| && forall i :: 0 <= i < |r| ==> r[i] == attempts[i].span
  {
    seq(|attempts|, i requires 0 <= i < |attempts| => attempts[i].span)
  }

  /** The chosen spans that trial decryption accepts. */
  ghost function Decrypted(attempts: seq<Attempt>, chosen: set<Span>): set<Span> {
    set i | 0 <= i < |attempts| && attempts[i].span in chosen && attempts[i].result.Some? :: attempts[i].span
  }

  /** The span of the attempt holds its piece. */
  ghost predicate LaysAt(text: string, cursor: nat, out: string, a: Attempt)
    requires LengthFits(text, a)
  {
    cursor <= a.span.start && a.span.end - cursor <= |out| && out[a.span.start - cursor..a.span.end - cursor] == Piece(text, a)
  }

  /** In the output, laid over the text from `cursor` on, each chosen span holds its piece, and all else is as it was. */
  ghost predicate Lays(text: string, cursor: nat, out: string, attempts: seq<Attempt>, chosen: set<Span>)
    requires LengthsFit(text, attempts)
  {
    && cursor <= |text| && |out| == |text| - cursor
    && Untouched(text, cursor, out, chosen)
    && (forall k :: 0 <= k < |attempts| && attempts[k].span in chosen ==> LaysAt(text, cursor, out, attempts[k]))
  }

  lemma {:induction false} SliceBehind(front: string, rest: string, lo: nat, hi: nat)
    requires |front| <= lo <= hi <= |front| + |rest|
    ensures (front + rest)[lo..hi] == rest[lo - |front|..hi - |front|]
  {
  }

  /** The head's piece in place, and nothing else changed up to its end. */
  lemma {:induction false} HeadLays(text: string, cursor: nat, a: Attempt, rest: string)
    requires LengthFits(text, a) && cursor <= a.span.start && |rest| == |text| - a.span.end
    ensures var front := text[cursor..a.span.start] + Piece(text, a);
            && |front| == a.span.end - cursor && LaysAt(text, cursor, front + rest, a)
            && forall i :: cursor <= i < a.span.start ==> (front + rest)[i - cursor] == text[i]
  {
    var gap, piece := text[cursor..a.span.start], Piece(text, a);
    assert (gap + piece + rest)[|gap|..|gap| + |piece|] == piece;
  }

  /** Outside the chosen spans the text is as it was. */
  ghost predicate Untouched(text: string, cursor: nat, out: string, chosen: set<Span>)
    requires cursor <= |text| && |out| == |text| - cursor
  {
    forall i {:trigger text[i]} :: cursor <= i < |text| && !(exists s :: s in chosen && s.start <= i < s.end) ==> out[i - cursor] == text[i]
  }

  lemma {:induction false} UntouchedHead(text: string, cursor: nat, a: Attempt, rest: string, later: set<Span>)
    requires LengthFits(text, a) && cursor <= a.span.start && |rest| == |text| - a.span.end && Untouched(text, a.span.end, rest, later)
    ensures Untouched(text, cursor, text[cursor..a.span.start] + Piece(text, a) + rest, {a.span} + later)
  {
    var s, chosen := a.span, {a.span} + later;
    var front := text[cursor..s.start] + Piece(text, a);
    HeadLays(text, cursor, a, rest);
    forall i | cursor <= i < |text| && !(exists t :: t in chosen && t.start <= i < t.end)
      ensures (front + rest)[i - cursor] == text[i]
    {
      assert s in chosen;
      if i >= s.end {
        assert forall t :: t in later ==> t in chosen;
        assert (front + rest)[i - cursor] == rest[i - s.end];
      }
    }
  }

  lemma {:induction false} LaysHead(text: string, cursor: nat, attempts: seq<Attempt>, rest: string, later: set<Span>)
    requires attempts != [] && LengthsFit(text, attempts) && StrictlySorted(SpansOf(attempts))
    requires cursor <= attempts[0].span.start && Lays(text, attempts[0].span.end, rest, attempts[1..], later)
    requires attempts[0].span !in later
    ensures var a := attempts[0];
            Lays(text, cursor, text[cursor..a.span.start] + Piece(text, a) + rest, attempts, {a.span} + later)
  {
    var a := attempts[0];
    var s, chosen := a.span, {a.span} + later;
    var front := text[cursor..s.start] + Piece(text, a);
    HeadLays(text, cursor, a, rest);
    UntouchedHead(text, cursor, a, rest, later);
    forall k | 0 <= k < |attempts| && attempts[k].span in chosen
      ensures LaysAt(text, cursor, front + rest, attempts[k])
    {
      if k > 0 {
        LaterLays(text, cursor, attempts, rest, later, k, front);
      }
    }
  }

  lemma {:induction false} LaterLays(text: string, cursor: nat, attempts: seq<Attempt>, rest: string, later: set<Span>, k: nat, front: string)
    requires 0 < k < |attempts| && LengthsFit(text, attempts) && StrictlySorted(SpansOf(attempts))
    requires cursor <= attempts[0].span.start && Lays(text, attempts[0].span.end, rest, attempts[1..], later)
    requires attempts[k].span in {attempts[0].span} + later && |front| == attempts[0].span.end - cursor
    ensures LaysAt(text, cursor, front + rest, attempts[k])
  {
    var s := attempts[0].span;
    assert attempts[1..][k - 1] == attempts[k];
    assert Less(SpansOf(attempts)[0], SpansOf(attempts)[k]);
    assert LaysAt(text, s.end, rest, attempts[k]);
    SliceBehind(front, rest, attempts[k].span.start - cursor, attempts[k].span.end - cursor);
  }

  lemma {:induction false} SortedTail(attempts: seq<Attempt>)
    requires attempts != [] && StrictlySorted(SpansOf(attempts))
    ensures SpansOf(attempts)[1..] == SpansOf(attempts[1..]) && StrictlySorted(SpansOf(attempts[1..]))
    ensures NonEmpty(SpansOf(attempts)) ==> NonEmpty(SpansOf(attempts[1..]))
  {
  }

  lemma {:induction false} LaysSkip(text: string, cursor: nat, attempts: seq<Attempt>, out: string, chosen: set<Span>)
    requires attempts != [] && LengthsFit(text, attempts) && attempts[0].span !in chosen && Lays(text, cursor, out, attempts[1..], chosen)
    ensures Lays(text, cursor, out, attempts, chosen)
  {
    forall k | 0 <= k < |attempts| && attempts[k].span in chosen
      ensures LaysAt(text, cursor, out, attempts[k])
    {
      assert attempts[1..][k - 1] == attempts[k];
    }
  }

  lemma {:induction false} WalkLays(text: string, attempts: seq<Attempt>, cursor: nat)
    requires LengthsFit(text, attempts) && StrictlySorted(SpansOf(attempts)) && NonEmpty(SpansOf(attempts)) && cursor <= |text|
    ensures Lays(text, cursor, Walk(text, attempts, cursor), attempts, Taken(SpansOf(attempts), cursor))
    decreases |attempts|
  {
    if attempts != [] {
      var s, rest := attempts[0].span, attempts[1..];
      SortedTail(attempts);
      if s.start < cursor {
        HeadIsFree(SpansOf(attempts), cursor);
        WalkLays(text, rest, cursor);
        LaysSkip(text, cursor, attempts, Walk(text, rest, cursor), Taken(SpansOf(rest), cursor));
      } else {
        HeadIsFree(SpansOf(attempts), s.end);
        WalkLays(text, rest, s.end);
        LaysHead(text, cursor, attempts, Walk(text, rest, s.end), Taken(SpansOf(rest), s.end));
      }
    }
  }

  lemma {:induction false} DecryptedHead(attempts: seq<Attempt>, later: set<Span>)
    requires attempts != [] && StrictlySorted(SpansOf(attempts)) && attempts[0].span !in later
    ensures var a := attempts[0];
            && Decrypted(attempts, {a.span} + later) == (if a.result.Some? then {a.span} else {}) + Decrypted(attempts[1..], later)
            && Decrypted(attempts, later) == Decrypted(attempts[1..], later)
  {
    var a, rest := attempts[0], attempts[1..];
    forall i | 0 < i < |attempts|
      ensures attempts[i].span != a.span && rest[i - 1] == attempts[i]
    {
      assert Less(SpansOf(attempts)[0], SpansOf(attempts)[i]);
    }
    forall s
      ensures s in Decrypted(rest, later) ==> s in Decrypted(attempts, later) && s in Decrypted(attempts, {a.span} + later)
    {
      if s in Decrypted(rest, later) {
        var i :| 0 <= i < |rest| && rest[i].span in later && rest[i].result.Some? && rest[i].span == s;
        assert attempts[i + 1] == rest[i];
      }
    }
  }

  lemma {:induction false} AcceptedCount(attempts: seq<Attempt>, cursor: nat)
    requires StrictlySorted(SpansOf(attempts))
    ensures |Accepted(attempts, cursor)| == |Decrypted(attempts, Taken(SpansOf(attempts), cursor))|
    decreases |attempts|
  {
    if attempts != [] {
      var a := attempts[0];
      SortedTail(attempts);
      if a.span.start < cursor {
        HeadIsFree(SpansOf(attempts), cursor);
        AcceptedCount(attempts[1..], cursor);
        DecryptedHead(attempts, Taken(SpansOf(attempts[1..]), cursor));
      } else {
        HeadIsFree(SpansOf(attempts), a.span.end);
        AcceptedCount(attempts[1..], a.span.end);
        var later := Taken(SpansOf(attempts[1..]), a.span.end);
        DecryptedHead(attempts, later);
        assert a.span !in Decrypted(attempts[1..], later);
      }
    }
  }

  /** What a span of the text becomes if it is chosen. */
  ghost function Tried(ff1: Ff1, regs: seq<FpeRegistration>, text: string, s: Span): (r: string)
    requires Lawful(ff1) && s.start <= s.end <= |text|
  {
    match TryRestore(ff1, text[s.start..s.end], regs)
    case Some(value) => value
    case None => text[s.start..s.end]
  }

  /**
   * What a stateless restore of a text is, for the spans that are chosen in it: every
   * one of them is exchanged for what trial decryption gives, if anything; nothing
   * else changes; and the count is of those that decrypt.
   */
  ghost predicate RestoresExactly(ff1: Ff1, regs: seq<FpeRegistration>, text: string, chosen: set<Span>, out: string, count: nat)
    requires Lawful(ff1)
  {
    && (forall s :: s in chosen ==> IsCandidate(regs, text, s) && s.start <= s.end <= |text|)
    && (forall s :: IsCandidate(regs, text, s) ==> (s in chosen <==> !Blocked(chosen, s)))
    && |out| == |text|
    && (forall s :: s in chosen ==> out[s.start..s.end] == Tried(ff1, regs, text, s))
    && (forall i {:trigger text[i]} :: 0 <= i < |text| && !(exists s :: s in chosen && s.start <= i < s.end) ==> out[i] == text[i])
    && count == |set s | s in chosen && AcceptsSpan(ff1, regs, text, s)|
  }

  lemma {:induction false} CandidatesFit(regs: seq<FpeRegistration>, text: string, spans: seq<Span>)
    requires AreCandidates(regs, text, spans)
    ensures NonEmpty(spans)
  {
    forall i | 0 <= i < |spans|
      ensures spans[i].start < spans[i].end
    {
      assert spans[i] in spans;
    }
  }

  lemma {:induction false} TakenIsChoice(spans: seq<Span>)
    requires StrictlySorted(spans) && NonEmpty(spans)
    ensures IsChoice(spans, Taken(spans, 0))
  {
    TakenIsListed(spans, 0);
    forall s | s in spans
      ensures s in Taken(spans, 0) <==> !Blocked(Taken(spans, 0), s)
    {
      var i :| 0 <= i < |spans| && spans[i] == s;
      TakenIff(spans, 0, i);
    }
  }

  lemma {:induction false} ChosenIsTried(ff1: Ff1, regs: seq<FpeRegistration>, text: string, spans: seq<Span>, chosen: set<Span>, out: string, s: Span)
    requires Lawful(ff1) && Fit(text, spans) && s in spans && s in chosen
    requires Lays(text, 0, out, Attempts(ff1, regs, text, spans), chosen)
    ensures s.start <= s.end <= |text| && out[s.start..s.end] == Tried(ff1, regs, text, s)
    ensures s in Decrypted(Attempts(ff1, regs, text, spans), chosen) <==> TryRestore(ff1, text[s.start..s.end], regs).Some?
  {
    var attempts := Attempts(ff1, regs, text, spans);
    var k :| 0 <= k < |spans| && spans[k] == s;
    assert attempts[k].span in chosen && LaysAt(text, 0, out, attempts[k]);
    assert Slice(text, s) == text[s.start..s.end];
  }

  /** Trial decryption accepts the span. */
  ghost predicate AcceptsSpan(ff1: Ff1, regs: seq<FpeRegistration>, text: string, s: Span)
    requires Lawful(ff1) && s.start <= s.end <= |text|
  {
    TryRestore(ff1, text[s.start..s.end], regs).Some?
  }

  lemma {:induction false} AllChosenTried(ff1: Ff1, regs: seq<FpeRegistration>, text: string, spans: seq<Span>, chosen: set<Span>, out: string)
    requires Lawful(ff1) && Fit(text, spans) && (forall s :: s in chosen ==> s in spans)
    requires Lays(text, 0, out, Attempts(ff1, regs, text, spans), chosen)
    ensures forall s :: s in chosen ==> s.start <= s.end <= |text| && out[s.start..s.end] == Tried(ff1, regs, text, s)
    ensures Decrypted(Attempts(ff1, regs, text, spans), chosen) == set s | s in chosen && AcceptsSpan(ff1, regs, text, s)
  {
    forall s | s in chosen
      ensures s.start <= s.end <= |text| && out[s.start..s.end] == Tried(ff1, regs, text, s)
      ensures s in Decrypted(Attempts(ff1, regs, text, spans), chosen) <==> AcceptsSpan(ff1, regs, text, s)
    {
      ChosenIsTried(ff1, regs, text, spans, chosen, out, s);
    }
  }

  lemma {:induction false} LaysRestoresExactly(ff1: Ff1, regs: seq<FpeRegistration>, text: string, spans: seq<Span>, chosen: set<Span>, out: string)
    requires Lawful(ff1) && AreCandidates(regs, text, spans) && IsChoice(spans, chosen)
    requires Lays(text, 0, out, Attempts(ff1, regs, text, spans), chosen)
    ensures RestoresExactly(ff1, regs, text, chosen, out, |Decrypted(Attempts(ff1, regs, text, spans), chosen)|)
  {
    AllChosenTried(ff1, regs, text, spans, chosen, out);
  }

  /** The walk over the candidate spans is exactly that. */
  lemma {:induction false} WalkRestoresExactly(ff1: Ff1, regs: seq<FpeRegistration>, text: string, spans: seq<Span>)
    requires Lawful(ff1) && AreCandidates(regs, text, spans)
    ensures var attempts := Attempts(ff1, regs, text, spans);
            RestoresExactly(ff1, regs, text, Taken(spans, 0), Walk(text, attempts, 0), |Accepted(attempts, 0)|)
  {
    var attempts := Attempts(ff1, regs, text, spans);
    assert SpansOf(attempts) == spans;
    CandidatesFit(regs, text, spans);
    TakenIsChoice(spans);
    WalkLays(text, attempts, 0);
    AcceptedCount(attempts, 0);
    LaysRestoresExactly(ff1, regs, text, spans, Taken(spans, 0), Walk(text, attempts, 0));
  }

  lemma {:induction false} SameAt(text: string, chosen: set<Span>, a: string, b: string, i: nat)
    requires |a| == |b| == |text| && i < |text| && forall s :: s in chosen ==> s.start <= s.end <= |text| && a[s.start..s.end] == b[s.start..s.end]
    requires !(exists s :: s in chosen && s.start <= i < s.end) ==> a[i] == text[i] == b[i]
    ensures a[i] == b[i]
  {
    if exists s :: s in chosen && s.start <= i < s.end {
      var s :| s in chosen && s.start <= i < s.end;
      assert a[s.start..s.end][i - s.start] == b[s.start..s.end][i - s.start];
    }
  }

  /** These conditions leave one choice, one output and one count. */
  lemma {:induction false} OnlyOneRestore(ff1: Ff1, regs: seq<FpeRegistration>, text: string, spans: seq<Span>,
                                          chosen: set<Span>, out: string, count: nat, chosen': set<Span>, out': string, count': nat)
    requires Lawful(ff1) && AreCandidates(regs, text, spans)
    requires RestoresExactly(ff1, regs, text, chosen, out, count) && RestoresExactly(ff1, regs, text, chosen', out', count')
    ensures chosen == chosen' && out == out' && count == count'
  {
    ChoiceIsUnique(spans, chosen, chosen');
    forall i | 0 <= i < |text|
      ensures out[i] == out'[i]
    {
      SameAt(text, chosen, out, out', i);
    }
  }

  /** The walk of the loop: the result of each attempt is computed when it is reached. */
  method WalkCandidates(ff1: Ff1, regs: seq<FpeRegistration>, input: string, candidates: seq<Span>, ghost attempts: seq<Attempt>)
    returns (output: string, restoredCount: nat)
    requires Lawful(ff1) && Fit(input, candidates) && attempts == Attempts(ff1, regs, input, candidates)
    ensures output == Walk(input, attempts, 0) && restoredCount == |Accepted(attempts, 0)|
  {
    output, restoredCount := "", 0;
    var cursor: nat := 0;
    assert attempts[0..] == attempts;
    for i := 0 to |candidates|
      invariant cursor <= |input|
      invariant output + Walk(input, attempts[i..], cursor) == Walk(input, attempts, 0)
      invariant restoredCount + |Accepted(attempts[i..], cursor)| == |Accepted(attempts, 0)|
    {
      ghost var rest := attempts[i..];
      assert rest[0] == attempts[i] && rest[1..] == attempts[i + 1..];
      var s := candidates[i];
      if s.start >= cursor {
        var r := TryRestore(ff1, Slice(input, s), regs);
        var piece := if r.Some? then r.value else Slice(input, s);
        Reassociate(output, input[cursor..s.start], piece, Walk(input, attempts[i + 1..], s.end));
        output := output + input[cursor..s.start] + piece;
        if r.Some? {
          restoredCount := restoredCount + 1;
        }
        cursor := s.end;
      }
    }
    output := output + input[cursor..];
  }

  /** The candidate spans of a text, each once and in order. */
  ghost predicate AreCandidates(regs: seq<FpeRegistration>, text: string, spans: seq<Span>) {
    StrictlySorted(spans) && Fit(text, spans) && forall s :: s in spans <==> IsCandidate(regs, text, s)
  }

  /** The stateless pass: the walk over exactly the candidate spans, of which there is only one ordered list. */
  method RestoreText(ff1: Ff1, regs: seq<FpeRegistration>, input: string)
    returns (output: string, restoredCount: nat, ghost spans: seq<Span>)
    requires Lawful(ff1)
    ensures AreCandidates(regs, input, spans)
    ensures output == Walk(input, Attempts(ff1, regs, input, spans), 0)
    ensures restoredCount == |Accepted(Attempts(ff1, regs, input, spans), 0)|
    ensures RestoresExactly(ff1, regs, input, Taken(spans, 0), output, restoredCount)
    ensures forall all :: AreCandidates(regs, input, all) ==>
              && output == Walk(input, Attempts(ff1, regs, input, all), 0)
              && restoredCount == |Accepted(Attempts(ff1, regs, input, all), 0)|
  {
    var candidates := CollectCandidates(regs, input);
    candidates := SortDedup(candidates);
    spans := candidates;
    forall i | 0 <= i < |spans|
      ensures spans[i].start <= spans[i].end <= |input|
    {
      assert spans[i] in spans;
    }
    output, restoredCount := WalkCandidates(ff1, regs, input, candidates, Attempts(ff1, regs, input, spans));
    WalkRestoresExactly(ff1, regs, input, spans);
    forall all | AreCandidates(regs, input, all)
      ensures all == spans
    {
      SortedIsUnique(all, spans);
    }
  }

  // ----- the session pass -----

  /** The store and the text after the fakes were looked up and put back in the given order. */
  function PutBack(cfg: Config, s: Store, order: seq<string>, now: nat, text: string): (Store, string)
    decreases |order|
  {
    if order == [] then (s, text)
    else
      var (s', secret) := Restored(cfg, s, order[0], now);
      PutBack(cfg, s', order[1..], now, if secret.Some? then Replace(text, order[0], secret.value) else text)
  }

  function PutBackCount(cfg: Config, s: Store, order: seq<string>, now: nat, text: string): nat
    decreases |order|
  {
    if order == [] then 0
    else
      var (s', secret) := Restored(cfg, s, order[0], now);
      (if secret.Some? then Count(text, order[0]) else 0)
        + PutBackCount(cfg, s', order[1..], now, if secret.Some? then Replace(text, order[0], secret.value) else text)
  }

  /** The fake is stored, and its entry has not expired. */
  predicate IsLive(cfg: Config, s: Store, fake: string, now: nat) {
    fake in s.byFake && !(now > s.byFake[fake].lastTouched + cfg.ttl)
  }

  /**
   * The texts on the way: each live fake of the order is exchanged for its value,
   * wherever it then occurs; the others are passed over.
   */
  ghost predicate PutsBackExactly(cfg: Config, s: Store, order: seq<string>, now: nat, texts: seq<string>, counts: seq<nat>) {
    && |texts| == |order| + 1 && |counts| == |order|
    && forall i :: 0 <= i < |order| ==>
         if IsLive(cfg, s, order[i], now) then
           texts[i + 1] == Replace(texts[i], order[i], s.byFake[order[i]].secret) && counts[i] == Count(texts[i], order[i])
         else texts[i + 1] == texts[i] && counts[i] == 0
  }

  ghost function Sum(counts: seq<nat>): nat {
    if counts == [] then 0 else counts[0] + Sum(counts[1..])
  }

  lemma {:induction false} LiveStays(cfg: Config, s: Store, fake: string, now: nat, f: string)
    ensures var r := Restored(cfg, s, fake, now);
            && (r.1.Some? <==> IsLive(cfg, s, fake, now)) && (r.1.Some? ==> r.1.value == s.byFake[fake].secret)
            && (IsLive(cfg, r.0, f, now) <==> IsLive(cfg, s, f, now))
            && (IsLive(cfg, s, f, now) ==> r.0.byFake[f].secret == s.byFake[f].secret)
  {
  }

  /** Putting back is exactly that. */
  lemma {:induction false} PutBackExactly(cfg: Config, s: Store, order: seq<string>, now: nat, text: string)
    returns (texts: seq<string>, counts: seq<nat>)
    ensures PutsBackExactly(cfg, s, order, now, texts, counts) && texts[0] == text
    ensures PutBack(cfg, s, order, now, text).1 == texts[|order|] && PutBackCount(cfg, s, order, now, text) == Sum(counts)
    decreases |order|
  {
    if order == [] {
      texts, counts := [text], [];
    } else {
      var f := order[0];
      var s' := Restored(cfg, s, f, now).0;
      LiveStays(cfg, s, f, now, f);
      var live := IsLive(cfg, s, f, now);
      var next := if live then Replace(text, f, s.byFake[f].secret) else text;
      var n := if live then Count(text, f) else 0;
      var rest, more := PutBackExactly(cfg, s', order[1..], now, next);
      texts, counts := [text] + rest, [n] + more;
      PutsBackMore(cfg, s, order, now, text, rest, n, more);
      assert counts[1..] == more;
    }
  }

  lemma {:induction false} PutsBackMore(cfg: Config, s: Store, order: seq<string>, now: nat, text: string, rest: seq<string>, n: nat, more: seq<nat>)
    requires order != [] && PutsBackExactly(cfg, Restored(cfg, s, order[0], now).0, order[1..], now, rest, more)
    requires if IsLive(cfg, s, order[0], now) then rest[0] == Replace(text, order[0], s.byFake[order[0]].secret) && n == Count(text, order[0])
             else rest[0] == text && n == 0
    ensures PutsBackExactly(cfg, s, order, now, [text] + rest, [n] + more)
  {
    forall i | 0 < i < |order|
      ensures IsLive(cfg, Restored(cfg, s, order[0], now).0, order[1..][i - 1], now) <==> IsLive(cfg, s, order[i], now)
      ensures IsLive(cfg, s, order[i], now) ==> Restored(cfg, s, order[0], now).0.byFake[order[i]].secret == s.byFake[order[i]].secret
    {
      LiveStays(cfg, s, order[0], now, order[i]);
    }
  }

  /** What it leaves in the store: nothing expired, and a new stamp on every live fake it visited. */
  lemma {:induction false} PutBackStamps(cfg: Config, s: Store, order: seq<string>, now: nat, text: string, f: string)
    requires order != []
    ensures var s' := PutBack(cfg, s, order, now, text).0;
            && (f in s'.byFake <==> IsLive(cfg, s, f, now))
            && (f in s'.byFake ==> s'.byFake[f] == if f in order then Entry(s.byFake[f].secret, now) else s.byFake[f])
    decreases |order|
  {
    var s1 := Restored(cfg, s, order[0], now).0;
    var next := if IsLive(cfg, s, order[0], now) then Replace(text, order[0], s.byFake[order[0]].secret) else text;
    LiveStays(cfg, s, order[0], now, order[0]);
    LiveStays(cfg, s, order[0], now, f);
    if |order| > 1 {
      PutBackStamps(cfg, s1, order[1..], now, next, f);
      assert f in order <==> f == order[0] || f in order[1..];
    }
  }

  /** Lists, in some order, exactly the stored fakes that occur in the input. */
  ghost predicate ListsFakes(s: Store, input: string, order: seq<string>) {
    && (forall i, j :: 0 <= i < j < |order| ==> order[i] != order[j])
    && (forall f :: f in order <==> f in s.byFake && Contains(input, f))
  }

  method CollectFakes(session: SessionMap, input: string) returns (order: seq<string>)
    ensures ListsFakes(session.View(), input, order)
  {
    order := [];
    var left := session.byFake.Keys;
    while left != {}
      invariant left <= session.byFake.Keys
      invariant forall i, j :: 0 <= i < j < |order| ==> order[i] != order[j]
      invariant forall f :: f in order <==> f in session.byFake.Keys - left && Contains(input, f)
      decreases left
    {
      var fake :| fake in left;
      left := left - {fake};
      if Contains(input, fake) {
        order := order + [fake];
      }
    }
  }

  /** First every stored fake that occurs, in whatever order the map lists them, then FF1. */
  method RestoreWithSession(ff1: Ff1, regs: seq<FpeRegistration>, input: string, session: SessionMap, now: nat)
    returns (output: string, restoredCount: nat, ghost order: seq<string>, ghost spans: seq<Span>)
    requires Lawful(ff1)
    modifies session
    ensures ListsFakes(old(session.View()), input, order)
    ensures session.View() == PutBack(session.cfg, old(session.View()), order, now, input).0
    ensures var working := PutBack(session.cfg, old(session.View()), order, now, input).1;
            && AreCandidates(regs, working, spans)
            && output == Walk(working, Attempts(ff1, regs, working, spans), 0)
            && restoredCount == PutBackCount(session.cfg, old(session.View()), order, now, input)
                                + |Accepted(Attempts(ff1, regs, working, spans), 0)|
  {
    var fakes := CollectFakes(session, input);
    order := fakes;
    var working, count := input, 0;
    for i := 0 to |fakes|
      invariant PutBack(session.cfg, session.View(), order[i..], now, working)
             == PutBack(session.cfg, old(session.View()), order, now, input)
      invariant count + PutBackCount(session.cfg, session.View(), order[i..], now, working)
             == PutBackCount(session.cfg, old(session.View()), order, now, input)
    {
      assert order[i..][0] == fakes[i] && order[i..][1..] == order[i + 1..];
      var secret := session.Restore(fakes[i], now);
      if secret.Some? {
        var n := Count(working, fakes[i]);
        if n > 0 {
          working := Replace(working, fakes[i], secret.value);
          count := count + n;
        }
      }
    }
    var n;
    output, n, spans := RestoreText(ff1, regs, working);
    restoredCount := count + n;
  }
}
