/** The combined detector: greedy resolution of overlapping candidate matches. */
module Detector {

  datatype MatchKind = Exact(valueId: nat) | Pattern(ruleId: nat)
  datatype Match = Match(start: nat, end: nat, kind: MatchKind)

  function Length(m: Match): int {
    m.end - m.start
  }

  function Confidence(k: MatchKind): nat {
    if k.Exact? then 1 else 0
  }

  predicate Overlaps(a: Match, b: Match) {
    a.start < b.end && b.start < a.end
  }

  /** At least as desirable: longer, then more confident, then further left. */
  predicate RanksFirst(a: Match, b: Match) {
    || Length(a) > Length(b)
    || (Length(a) == Length(b) &&
        (|| Confidence(a.kind) > Confidence(b.kind)
         || (Confidence(a.kind) == Confidence(b.kind) && a.start <= b.start)))
  }

  predicate StartsFirst(a: Match, b: Match) {
    a.start <= b.start
  }

  // ----- sorting by either order -----

  ghost predicate TotalOrder(before: (Match, Match) -> bool) {
    && (forall a, b :: before(a, b) || before(b, a))
    && (forall a, b, c :: before(a, b) && before(b, c) ==> before(a, c))
  }

  ghost predicate Sorted(s: seq<Match>, before: (Match, Match) -> bool) {
    forall i, j :: 0 <= i < j < |s| ==> before(s[i], s[j])
  }

  /** Puts m after everything that may come before it. */
  function Insert(s: seq<Match>, m: Match, before: (Match, Match) -> bool): (r: seq<Match>)
    ensures multiset(r) == multiset(s) + multiset{m}
  {
    if s == [] then [m]
    else if before(s[|s| - 1], m) then s + [m]
    else
      assert s == s[..|s| - 1] + [s[|s| - 1]];
      Insert(s[..|s| - 1], m, before) + [s[|s| - 1]]
  }

  function Sort(s: seq<Match>, before: (Match, Match) -> bool): (r: seq<Match>)
    ensures multiset(r) == multiset(s)
  {
    if s == [] then []
    else
      assert s == s[..|s| - 1] + [s[|s| - 1]];
      Insert(Sort(s[..|s| - 1], before), s[|s| - 1], before)
  }

  lemma {:induction false} InsertSorts(s: seq<Match>, m: Match, before: (Match, Match) -> bool)
    requires TotalOrder(before) && Sorted(s, before)
    ensures Sorted(Insert(s, m, before), before)
    decreases |s|
  {
    if s != [] {
      var n := |s| - 1;
      if before(s[n], m) {
        forall i | 0 <= i < |s|
          ensures before(s[i], m)
        {
          assert i < n ==> before(s[i], s[n]);
        }
      } else {
        InsertSorts(s[..n], m, before);
        var front := Insert(s[..n], m, before);
        forall i | 0 <= i < |front|
          ensures before(front[i], s[n])
        {
          assert front[i] in multiset(front);
          assert front[i] == m || front[i] in multiset(s[..n]);
        }
      }
    }
  }

  lemma {:induction false} SortSorts(s: seq<Match>, before: (Match, Match) -> bool)
    requires TotalOrder(before)
    ensures Sorted(Sort(s, before), before)
    decreases |s|
  {
    if s != [] {
      var n := |s| - 1;
      SortSorts(s[..n], before);
      InsertSorts(Sort(s[..n], before), s[n], before);
    }
  }

  lemma SameMembers(a: seq<Match>, b: seq<Match>)
    requires multiset(a) == multiset(b)
    ensures forall m :: m in a <==> m in b
  {
    assert forall m :: m in a <==> m in multiset(a);
    assert forall m :: m in b <==> m in multiset(b);
  }

  // ----- the greedy walk -----

  ghost predicate Disjoint(s: seq<Match>) {
    forall i, j :: 0 <= i < j < |s| ==> !Overlaps(s[i], s[j])
  }

  /** Kept, or overlapped by something kept that ranks at least as high. */
  ghost predicate Settled(m: Match, kept: seq<Match>) {
    m in kept || exists k :: k in kept && Overlaps(m, k) && RanksFirst(k, m)
  }

  method KeepBest(sorted: seq<Match>) returns (kept: seq<Match>)
    requires Sorted(sorted, RanksFirst)
    ensures Disjoint(kept)
    ensures forall m :: m in kept ==> m in sorted
    ensures forall i :: 0 <= i < |sorted| ==> Settled(sorted[i], kept)
  {
    kept := [];
    for i := 0 to |sorted|
      invariant Disjoint(kept)
      invariant forall m :: m in kept ==> m in sorted[..i]
      invariant forall j :: 0 <= j < i ==> Settled(sorted[j], kept)
    {
      var cand, before := sorted[i], kept;
      if !exists k :: 0 <= k < |kept| && Overlaps(cand, kept[k]) {
        kept := kept + [cand];
        assert kept[|kept| - 1] == cand;
        assert forall k :: k in before ==> k in kept;
      } else {
        var k :| 0 <= k < |kept| && Overlaps(cand, kept[k]);
        assert kept[k] in sorted[..i];
        assert RanksFirst(kept[k], cand);
      }
      assert Settled(sorted[i], kept);
    }
  }

  lemma {:induction false} TwiceIsTwo(r: seq<Match>, i: nat, j: nat)
    requires i < j < |r| && r[i] == r[j]
    ensures multiset(r)[r[i]] >= 2
  {
    assert r == r[..i] + [r[i]] + r[i + 1..j] + [r[j]] + r[j + 1..];
  }

  lemma {:induction false} DisjointSorted(kept: seq<Match>, r: seq<Match>)
    requires Disjoint(kept) && multiset(r) == multiset(kept) && Sorted(r, StartsFirst)
    requires forall m :: m in kept ==> m.start < m.end
    ensures forall i, j :: 0 <= i < j < |r| ==> r[i].end <= r[j].start
  {
    SameMembers(r, kept);
    forall i, j | 0 <= i < j < |r|
      ensures r[i].end <= r[j].start
    {
      var a, b := r[i], r[j];
      assert a in kept && b in kept;
      if a == b {
        TwiceIsTwo(r, i, j);
        TwiceInDisjoint(kept, a);
      }
      var x :| 0 <= x < |kept| && kept[x] == a;
      var y :| 0 <= y < |kept| && kept[y] == b;
      assert !Overlaps(a, b);
    }
  }

  /** A non-empty match overlaps itself, so a disjoint list holds it once. */
  lemma {:induction false} TwiceInDisjoint(s: seq<Match>, a: Match)
    requires Disjoint(s) && a.start < a.end
    ensures multiset(s)[a] <= 1
    decreases |s|
  {
    if s != [] {
      var n := |s| - 1;
      assert s == s[..n] + [s[n]];
      TwiceInDisjoint(s[..n], a);
      assert s[n] == a ==> a !in s[..n];
    }
  }

  /**
   * The result is in source order without overlap, is drawn from the candidates,
   * and every candidate left out overlaps a kept one that ranks at least as high.
   */
  method Scan(exact: seq<Match>, pattern: seq<Match>) returns (kept: seq<Match>)
    requires forall m :: m in exact + pattern ==> m.start < m.end
    ensures forall i, j :: 0 <= i < j < |kept| ==> kept[i].end <= kept[j].start
    ensures forall m :: m in kept ==> m in exact + pattern
    ensures forall m :: m in exact + pattern ==> Settled(m, kept)
    ensures IsScan(exact + pattern, kept)
  {
    var all := exact + pattern;
    var sorted := Sort(all, RanksFirst);
    SortSorts(all, RanksFirst);
    SameMembers(sorted, all);
    var best := KeepBest(sorted);
    kept := Sort(best, StartsFirst);
    SortSorts(best, StartsFirst);
    SameMembers(kept, best);
    DisjointSorted(best, kept);
    forall m | m in all
      ensures Settled(m, kept)
    {
      var i :| 0 <= i < |sorted| && sorted[i] == m;
      assert Settled(sorted[i], best);
    }
  }

  /** What a scan promises of its result. */
  ghost predicate IsScan(all: seq<Match>, kept: seq<Match>) {
    && (forall i, j :: 0 <= i < j < |kept| ==> kept[i].end <= kept[j].start)
    && (forall m :: m in kept ==> m in all)
    && (forall m :: m in all ==> Settled(m, kept))
  }

  /** Of the two, k is the one to keep: it is longer; or as long, and exact where m is a pattern's; or else no further right. */
  ghost predicate Beats(k: Match, m: Match) {
    || k.end - k.start > m.end - m.start
    || (k.end - k.start == m.end - m.start && k.kind.Exact? && m.kind.Pattern?)
    || (k.end - k.start == m.end - m.start && k.kind.Exact? == m.kind.Exact? && k.start <= m.start)
  }

  lemma RanksFirstIsBeats(k: Match, m: Match)
    ensures RanksFirst(k, m) <==> Beats(k, m)
  {
  }

  lemma {:induction false} KeptApart(all: seq<Match>, kept: seq<Match>, k: Match, m: Match)
    requires IsScan(all, kept) && k in kept && m in kept && k != m
    ensures !(k.start < m.end && m.start < k.end)
  {
    var i :| 0 <= i < |kept| && kept[i] == k;
    var j :| 0 <= j < |kept| && kept[j] == m;
    if i < j {
      assert kept[i].end <= kept[j].start;
    } else {
      assert kept[j].end <= kept[i].start;
    }
  }

  /** A candidate is kept if and only if no other that is kept overlaps it and beats it. */
  lemma {:induction false} KeptIff(all: seq<Match>, kept: seq<Match>, m: Match)
    requires IsScan(all, kept) && m in all
    ensures m in kept <==> !exists k :: k in kept && k != m && k.start < m.end && m.start < k.end && Beats(k, m)
  {
    if m in kept {
      forall k | k in kept && k != m
        ensures !(k.start < m.end && m.start < k.end)
      {
        KeptApart(all, kept, k, m);
      }
    } else {
      var k :| k in kept && Overlaps(m, k) && RanksFirst(k, m);
      RanksFirstIsBeats(k, m);
      assert k in kept && k != m && k.start < m.end && m.start < k.end && Beats(k, m);
    }
  }

  /** So a candidate that beats every other it overlaps, and is beaten by none, is kept: one strictly longer than all of them, say. */
  lemma {:induction false} LongestIsKept(all: seq<Match>, kept: seq<Match>, m: Match)
    requires IsScan(all, kept) && m in all
    requires forall k :: k in all && k != m && k.start < m.end && m.start < k.end ==>
               || k.end - k.start < m.end - m.start
               || (k.end - k.start == m.end - m.start && k.kind.Pattern? && m.kind.Exact?)
               || (k.end - k.start == m.end - m.start && k.kind.Exact? == m.kind.Exact? && m.start < k.start)
    ensures m in kept
  {
    KeptIff(all, kept, m);
  }
}
