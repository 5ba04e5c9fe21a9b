/** Substring search and replacement on ASCII text, as the string library defines them. */
module Text {
  import opened Basics

  predicate IsAscii(s: string) {
    forall i :: 0 <= i < |s| ==> s[i] as int < 128
  }

  /** The six ASCII characters that count as white space. */
  predicate IsWhitespace(c: char) {
    9 <= c as int <= 13 || c == ' '
  }

  predicate IsDigit(c: char) {
    '0' <= c <= '9'
  }

  function DigitChar(d: nat): (c: char)
    requires d < 10
    ensures IsDigit(c) && DigitValue(c) == d
  {
    ('0' as int + d) as char
  }

  function DigitValue(c: char): (d: nat)
    requires IsDigit(c)
    ensures d < 10
  {
    c as int - '0' as int
  }

  predicate AllDigits(s: string) {
    forall i :: 0 <= i < |s| ==> IsDigit(s[i])
  }

  function Decimal(n: nat): (r: string)
    ensures r != [] && AllDigits(r)
    ensures DecimalValue(r) == n && (r[0] == '0' ==> n == 0 && |r| == 1)
  {
    if n < 10 then [DigitChar(n)]
    else
      var r := Decimal(n / 10) + [DigitChar(n % 10)];
      assert r[..|r| - 1] == Decimal(n / 10);
      r
  }

  /** The number a string of digits writes. */
  function DecimalValue(s: string): nat
    requires AllDigits(s)
  {
    if s == [] then 0 else DecimalValue(s[..|s| - 1]) * 10 + DigitValue(s[|s| - 1])
  }

  predicate AllIn(s: string, alphabet: string) {
    forall i :: 0 <= i < |s| ==> s[i] in alphabet
  }

  predicate OccursAt(text: string, pattern: string, i: int) {
    0 <= i && i + |pattern| <= |text| && text[i..i + |pattern|] == pattern
  }

  /** First occurrence at or after `from`. */
  function Find(text: string, pattern: string, from: nat): (r: Option<nat>)
    requires from <= |text|
    ensures r.Some? ==> from <= r.value && OccursAt(text, pattern, r.value)
    ensures r.Some? ==> forall i :: from <= i < r.value ==> !OccursAt(text, pattern, i)
    ensures r.None? ==> forall i :: from <= i ==> !OccursAt(text, pattern, i)
    decreases |text| - from
  {
    if OccursAt(text, pattern, from) then Some(from)
    else if from < |text| then Find(text, pattern, from + 1)
    else None
  }

  predicate Contains(text: string, pattern: string) {
    Find(text, pattern, 0).Some?
  }

  /** Non-overlapping matches from the left, each replaced. */
  function ReplaceMatches(text: string, pattern: string, sub: string): string
    requires pattern != []
    decreases |text|
  {
    match Find(text, pattern, 0)
    case None => text
    case Some(i) => text[..i] + sub + ReplaceMatches(text[i + |pattern|..], pattern, sub)
  }

  function CountMatches(text: string, pattern: string): nat
    requires pattern != []
    decreases |text|
  {
    match Find(text, pattern, 0)
    case None => 0
    case Some(i) => 1 + CountMatches(text[i + |pattern|..], pattern)
  }

  /** The empty pattern matches before every character and at the end. */
  function ReplaceEmpty(text: string, sub: string): string {
    if text == [] then sub else sub + [text[0]] + ReplaceEmpty(text[1..], sub)
  }

  function Replace(text: string, pattern: string, sub: string): string {
    if pattern == [] then ReplaceEmpty(text, sub) else ReplaceMatches(text, pattern, sub)
  }

  function Count(text: string, pattern: string): nat {
    if pattern == [] then |text| + 1 else CountMatches(text, pattern)
  }

  // ----- texts woven from fixed gaps and exchangeable pieces -----

  /** gaps[0] + pieces[0] + gaps[1] + ... + gaps[n] */
  function Weave(gaps: seq<string>, pieces: seq<string>): string
    requires |gaps| == |pieces| + 1
  {
    if pieces == [] then gaps[0] else gaps[0] + pieces[0] + Weave(gaps[1..], pieces[1..])
  }

  /** Where piece i starts in the woven text. */
  function PieceAt(gaps: seq<string>, pieces: seq<string>, i: nat): nat
    requires |gaps| == |pieces| + 1 && i < |pieces|
  {
    if i == 0 then |gaps[0]|
    else |gaps[0]| + |pieces[0]| + PieceAt(gaps[1..], pieces[1..], i - 1)
  }

  lemma {:induction false} PieceOccurs(gaps: seq<string>, pieces: seq<string>, i: nat)
    requires |gaps| == |pieces| + 1 && i < |pieces|
    ensures OccursAt(Weave(gaps, pieces), pieces[i], PieceAt(gaps, pieces, i))
    decreases i
  {
    var text, rest := Weave(gaps, pieces), Weave(gaps[1..], pieces[1..]);
    if i > 0 {
      PieceOccurs(gaps[1..], pieces[1..], i - 1);
      var p := PieceAt(gaps[1..], pieces[1..], i - 1);
      var skip := |gaps[0]| + |pieces[0]|;
      assert text[skip..] == rest;
      assert text[skip + p..skip + p + |pieces[i]|] == rest[p..p + |pieces[i]|];
    }
  }

  /** Pieces do not overlap: a later one starts at or after the end of an earlier one. */
  lemma {:induction false} PiecesInOrder(gaps: seq<string>, pieces: seq<string>, i: nat, j: nat)
    requires |gaps| == |pieces| + 1 && i < j < |pieces|
    ensures PieceAt(gaps, pieces, i) + |pieces[i]| <= PieceAt(gaps, pieces, j)
    decreases i
  {
    if i > 0 {
      PiecesInOrder(gaps[1..], pieces[1..], i - 1, j - 1);
    }
  }

  /** Every occurrence of the pattern is one of the pieces that equal it. */
  ghost predicate OnlyPieces(gaps: seq<string>, pieces: seq<string>, pattern: string)
    requires |gaps| == |pieces| + 1
  {
    forall p {:trigger OccursAt(Weave(gaps, pieces), pattern, p)} :: OccursAt(Weave(gaps, pieces), pattern, p) ==>
      exists i :: 0 <= i < |pieces| && pieces[i] == pattern && p == PieceAt(gaps, pieces, i)
  }

  function Exchange(pieces: seq<string>, pattern: string, sub: string): (r: seq<string>)
    ensures |r| == |pieces|
    ensures forall i :: 0 <= i < |pieces| ==> r[i] == if pieces[i] == pattern then sub else pieces[i]
  {
    seq(|pieces|, i requires 0 <= i < |pieces| => if pieces[i] == pattern then sub else pieces[i])
  }

  function Occurrences(pieces: seq<string>, pattern: string): nat {
    if pieces == [] then 0 else (if pieces[0] == pattern then 1 else 0) + Occurrences(pieces[1..], pattern)
  }

  lemma {:induction false} OnlyPiecesTail(gaps: seq<string>, pieces: seq<string>, pattern: string)
    requires |gaps| == |pieces| + 1 && pieces != [] && pattern != []
    requires OnlyPieces(gaps, pieces, pattern)
    ensures OnlyPieces(gaps[1..], pieces[1..], pattern)
    ensures forall p :: OccursAt(Weave(gaps, pieces), pattern, p) && p < |gaps[0]| + |pieces[0]| ==>
              p == |gaps[0]| && pieces[0] == pattern
  {
    var text, rest, skip := Weave(gaps, pieces), Weave(gaps[1..], pieces[1..]), |gaps[0]| + |pieces[0]|;
    forall p | OccursAt(rest, pattern, p)
      ensures exists i :: 0 <= i < |pieces[1..]| && pieces[1..][i] == pattern && p == PieceAt(gaps[1..], pieces[1..], i)
    {
      assert text[skip..] == rest;
      assert text[skip + p..skip + p + |pattern|] == rest[p..p + |pattern|];
      assert OccursAt(text, pattern, skip + p);
      var i :| 0 <= i < |pieces| && pieces[i] == pattern && skip + p == PieceAt(gaps, pieces, i);
      assert i > 0;
      assert pieces[1..][i - 1] == pattern && p == PieceAt(gaps[1..], pieces[1..], i - 1);
    }
    forall p | OccursAt(text, pattern, p) && p < skip
      ensures p == |gaps[0]| && pieces[0] == pattern
    {
      var i :| 0 <= i < |pieces| && pieces[i] == pattern && p == PieceAt(gaps, pieces, i);
    }
  }

  lemma {:induction false} OccursShift(front: string, back: string, pattern: string, p: nat)
    ensures OccursAt(front + back, pattern, |front| + p) == OccursAt(back, pattern, p)
  {
    if p + |pattern| <= |back| {
      assert (front + back)[|front| + p..|front| + p + |pattern|] == back[p..p + |pattern|];
    }
  }

  lemma {:induction false} SliceOccurs(text: string, lo: nat, hi: nat, pattern: string, p: nat)
    requires lo <= hi <= |text| && OccursAt(text[lo..hi], pattern, p)
    ensures OccursAt(text, pattern, lo + p)
  {
    var n := |pattern|;
    var inner := text[lo..hi];
    forall i | 0 <= i < n
      ensures pattern[i] == text[lo + p + i]
    {
      assert pattern[i] == inner[p..p + n][i] == inner[p + i];
    }
    assert text[lo + p..lo + p + n] == pattern;
  }

  lemma {:induction false} FindSkips(front: string, back: string, pattern: string)
    requires forall p :: 0 <= p < |front| ==> !OccursAt(front + back, pattern, p)
    ensures var f, b := Find(front + back, pattern, 0), Find(back, pattern, 0);
            f == if b.Some? then Some(|front| + b.value) else None
  {
    var f, b := Find(front + back, pattern, 0), Find(back, pattern, 0);
    if f.Some? {
      OccursShift(front, back, pattern, f.value - |front|);
    }
    if b.Some? {
      OccursShift(front, back, pattern, b.value);
      assert f.Some? && f.value <= |front| + b.value;
    }
  }

  lemma {:induction false} ReplaceFirst(text: string, pattern: string, sub: string, front: string, rest: string)
    requires pattern != [] && text == front + pattern + rest && Find(text, pattern, 0) == Some(|front|)
    ensures ReplaceMatches(text, pattern, sub) == front + sub + ReplaceMatches(rest, pattern, sub)
    ensures CountMatches(text, pattern) == 1 + CountMatches(rest, pattern)
  {
    assert text[..|front|] == front;
    assert text[|front| + |pattern|..] == rest;
  }

  lemma Reassociate(a: string, b: string, c: string, d: string)
    ensures a + (b + c + d) == (a + b) + c + d
  {
  }

  /** Skipping a stretch in which no match starts. */
  lemma {:induction false} ReplaceSkips(front: string, back: string, pattern: string, sub: string)
    requires pattern != []
    requires forall p :: 0 <= p < |front| ==> !OccursAt(front + back, pattern, p)
    ensures ReplaceMatches(front + back, pattern, sub) == front + ReplaceMatches(back, pattern, sub)
    ensures CountMatches(front + back, pattern) == CountMatches(back, pattern)
  {
    FindSkips(front, back, pattern);
    var b := Find(back, pattern, 0);
    if b.Some? {
      var head, rest := back[..b.value], back[b.value + |pattern|..];
      assert back == head + pattern + rest;
      Reassociate(front, head, pattern, rest);
      ReplaceFirst(back, pattern, sub, head, rest);
      ReplaceFirst(front + back, pattern, sub, front + head, rest);
      Reassociate(front, head, sub, ReplaceMatches(rest, pattern, sub));
    }
  }

  /** Replacing where only pieces match exchanges exactly those pieces. */
  lemma {:induction false} ReplaceExchanges(gaps: seq<string>, pieces: seq<string>, pattern: string, sub: string)
    requires |gaps| == |pieces| + 1 && pattern != [] && OnlyPieces(gaps, pieces, pattern)
    ensures Replace(Weave(gaps, pieces), pattern, sub) == Weave(gaps, Exchange(pieces, pattern, sub))
    ensures Count(Weave(gaps, pieces), pattern) == Occurrences(pieces, pattern)
    decreases |pieces|
  {
    var text, pieces' := Weave(gaps, pieces), Exchange(pieces, pattern, sub);
    if pieces == [] {
      assert Find(text, pattern, 0).None?;
    } else {
      var rest := Weave(gaps[1..], pieces[1..]);
      OnlyPiecesTail(gaps, pieces, pattern);
      ReplaceExchanges(gaps[1..], pieces[1..], pattern, sub);
      assert pieces'[1..] == Exchange(pieces[1..], pattern, sub);
      assert Weave(gaps, pieces') == gaps[0] + pieces'[0] + Weave(gaps[1..], pieces'[1..]);
      if pieces[0] == pattern {
        PieceOccurs(gaps, pieces, 0);
        assert Find(text, pattern, 0) == Some(|gaps[0]|);
        ReplaceFirst(text, pattern, sub, gaps[0], rest);
      } else {
        assert text == (gaps[0] + pieces[0]) + rest;
        ReplaceSkips(gaps[0] + pieces[0], rest, pattern, sub);
      }
    }
  }

  // ----- what replacing does, on any text -----

  function Repeat(s: string, n: nat): (r: seq<string>)
    ensures |r| == n && forall i :: 0 <= i < n ==> r[i] == s
  {
    seq(n, _ => s)
  }

  /** Of the occurrences each is the first one after the one before; between and after them there is none. */
  ghost predicate AreFirst(gaps: seq<string>, pattern: string)
    requires gaps != []
    decreases |gaps|
  {
    if |gaps| == 1 then !Contains(gaps[0], pattern)
    else
      && Find(Weave(gaps, Repeat(pattern, |gaps| - 1)), pattern, 0) == Some(|gaps[0]|)
      && AreFirst(gaps[1..], pattern)
  }

  lemma {:induction false} FirstIsMet(text: string, pattern: string, sub: string, i: nat, more: seq<string>)
    requires pattern != [] && Find(text, pattern, 0) == Some(i) && more != []
    requires Weave(more, Repeat(pattern, |more| - 1)) == text[i + |pattern|..]
    ensures var gaps := [text[..i]] + more;
            && Weave(gaps, Repeat(pattern, |more|)) == text
            && Weave(gaps, Repeat(sub, |more|)) == text[..i] + sub + Weave(more, Repeat(sub, |more| - 1))
  {
    WeaveMore(text[..i], more, pattern);
    WeaveMore(text[..i], more, sub);
    assert text == text[..i] + text[i..i + |pattern|] + text[i + |pattern|..];
  }

  lemma {:induction false} FirstOfMore(gap: string, more: seq<string>, pattern: string)
    requires more != [] && AreFirst(more, pattern)
    requires Find(Weave([gap] + more, Repeat(pattern, |more|)), pattern, 0) == Some(|gap|)
    ensures AreFirst([gap] + more, pattern)
  {
    assert ([gap] + more)[1..] == more;
  }

  /** Replacing exchanges exactly the occurrences met from the left, and counting counts them. */
  lemma {:induction false} ReplaceIsLeftmost(text: string, pattern: string, sub: string) returns (gaps: seq<string>)
    requires pattern != []
    ensures gaps != [] && AreFirst(gaps, pattern) && Count(text, pattern) == |gaps| - 1
    ensures Weave(gaps, Repeat(pattern, |gaps| - 1)) == text && Replace(text, pattern, sub) == Weave(gaps, Repeat(sub, |gaps| - 1))
    decreases |text|
  {
    match Find(text, pattern, 0)
    case None =>
      gaps := [text];
    case Some(i) =>
      var more := ReplaceIsLeftmost(text[i + |pattern|..], pattern, sub);
      gaps := [text[..i]] + more;
      OneMoreMet(text, pattern, sub, i, more, gaps);
  }

  lemma {:induction false} OneMoreMet(text: string, pattern: string, sub: string, i: nat, more: seq<string>, gaps: seq<string>)
    requires pattern != [] && Find(text, pattern, 0) == Some(i) && more != [] && gaps == [text[..i]] + more
    requires var rest := text[i + |pattern|..];
             && AreFirst(more, pattern) && Count(rest, pattern) == |more| - 1
             && Weave(more, Repeat(pattern, |more| - 1)) == rest && Replace(rest, pattern, sub) == Weave(more, Repeat(sub, |more| - 1))
    ensures AreFirst(gaps, pattern) && Count(text, pattern) == |gaps| - 1
    ensures Weave(gaps, Repeat(pattern, |gaps| - 1)) == text && Replace(text, pattern, sub) == Weave(gaps, Repeat(sub, |gaps| - 1))
  {
    FirstIsMet(text, pattern, sub, i, more);
    FirstOfMore(text[..i], more, pattern);
  }

  lemma {:induction false} WeaveMore(gap: string, gaps: seq<string>, piece: string)
    requires gaps != []
    ensures Weave([gap] + gaps, Repeat(piece, |gaps|)) == gap + piece + Weave(gaps, Repeat(piece, |gaps| - 1))
  {
    assert ([gap] + gaps)[1..] == gaps && Repeat(piece, |gaps|)[1..] == Repeat(piece, |gaps| - 1);
  }
}
