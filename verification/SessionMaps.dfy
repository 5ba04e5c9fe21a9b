/**
 * The bidirectional real/fake session map with its LRU and TTL bounds: the
 * specification of each operation on values, and the class that implements it.
 */
module SessionMaps {
  import opened Basics

  datatype Entry = Entry(secret: string, lastTouched: nat)
  datatype Config = Config(maxEntries: nat, ttl: nat)
  datatype Store = Store(byFake: map<string, Entry>, byReal: map<string, string>)

  const EMPTY := Store(map[], map[])

  // ----- the operations on values -----

  predicate Expired(cfg: Config, e: Entry, now: nat) {
    now > e.lastTouched && now - e.lastTouched > cfg.ttl
  }

  function ExpiredFakes(cfg: Config, s: Store, now: nat): set<string> {
    set f | f in s.byFake && Expired(cfg, s.byFake[f], now)
  }

  /** The store without some of its fakes, and without the values these stood for. */
  function Without(s: Store, fakes: set<string>): Store {
    Store(s.byFake - fakes, s.byReal - (set f | f in fakes && f in s.byFake :: s.byFake[f].secret))
  }

  function Prune(cfg: Config, s: Store, now: nat): Store {
    Without(s, ExpiredFakes(cfg, s, now))
  }

  /** Last write wins: a displaced entry takes its value's pointer with it. */
  function Insert(s: Store, fake: string, secret: string, now: nat): Store {
    Store(s.byFake[fake := Entry(secret, now)],
          (if fake in s.byFake then s.byReal - {s.byFake[fake].secret} else s.byReal)[secret := fake])
  }

  function Touch(s: Store, fake: string, now: nat): Store {
    if fake in s.byFake then s.(byFake := s.byFake[fake := s.byFake[fake].(lastTouched := now)]) else s
  }

  ghost predicate IsLru(s: Store, fake: string) {
    fake in s.byFake && forall g :: g in s.byFake ==> s.byFake[fake].lastTouched <= s.byFake[g].lastTouched
  }

  /** Eviction may pick any least recently touched entry. */
  ghost predicate Evicts(s: Store, s': Store) {
    if s.byFake == map[] then s' == s else exists v :: IsLru(s, v) && s' == Without(s, {v})
  }

  ghost predicate MakesRoom(cfg: Config, s: Store, s': Store) {
    if |s.byFake| >= cfg.maxEntries then Evicts(s, s') else s' == s
  }

  ghost predicate Inserts(cfg: Config, p: Store, secret: string, made: string, now: nat, s': Store) {
    exists room :: MakesRoom(cfg, p, room) && s' == Insert(room, made, secret, now)
  }

  ghost predicate GetsOrInserts(cfg: Config, s: Store, secret: string, made: string, now: nat, s': Store, fake: string) {
    var p := Prune(cfg, s, now);
    if secret in p.byReal then fake == p.byReal[secret] && s' == Touch(p, fake, now)
    else fake == made && Inserts(cfg, p, secret, made, now, s')
  }

  function Restored(cfg: Config, s: Store, fake: string, now: nat): (r: (Store, Option<string>))
    ensures r.1 == if fake in s.byFake && !Expired(cfg, s.byFake[fake], now) then Some(s.byFake[fake].secret) else None
  {
    var p := Prune(cfg, s, now);
    if fake in p.byFake then (Touch(p, fake, now), Some(p.byFake[fake].secret)) else (p, None)
  }

  function Imported(s: Store, pairs: seq<(string, string)>, now: nat): Store
    decreases |pairs|
  {
    if pairs == [] then s
    else
      var last := pairs[|pairs| - 1];
      Insert(Imported(s, pairs[..|pairs| - 1], now), last.0, last.1, now)
  }

  // ----- the implementation -----

  class SessionMap {
    const cfg: Config
    var byFake: map<string, Entry>
    var byReal: map<string, string>

    constructor (maxEntries: nat, ttl: nat)
      ensures cfg == Config(maxEntries, ttl) && View() == EMPTY
    {
      cfg := Config(maxEntries, ttl);
      byFake, byReal := map[], map[];
    }

    function View(): Store
      reads this
    {
      Store(byFake, byReal)
    }

    method WipeByRealKey(secret: string)
      modifies `byReal
      ensures byReal == old(byReal) - {secret}
    {
      if secret in byReal {
        byReal := byReal - {secret};
      }
    }

    method PruneExpired(now: nat)
      modifies this
      ensures View() == Prune(cfg, old(View()), now)
    {
      var expired := ExpiredFakes(cfg, View(), now);
      ghost var gone: set<string> := {};
      ghost var before := View();
      while expired != {}
        invariant gone + expired == ExpiredFakes(cfg, before, now) && gone !! expired
        invariant View() == Without(before, gone)
        decreases expired
      {
        var fake :| fake in expired;
        if fake in byFake {
          var entry := byFake[fake];
          byFake := byFake - {fake};
          WipeByRealKey(entry.secret);
        }
        expired, gone := expired - {fake}, gone + {fake};
        assert View() == Without(before, gone);
      }
      assert gone == ExpiredFakes(cfg, before, now);
    }

    method EvictLru()
      modifies this
      ensures Evicts(old(View()), View())
    {
      if byFake == map[] {
        return;
      }
      var rest := byFake.Keys;
      var lru :| lru in rest;
      rest := rest - {lru};
      while rest != {}
        invariant lru in byFake && rest <= byFake.Keys
        invariant forall g :: g in byFake && g !in rest ==> byFake[lru].lastTouched <= byFake[g].lastTouched
        decreases rest
      {
        var fake :| fake in rest;
        if byFake[fake].lastTouched < byFake[lru].lastTouched {
          lru := fake;
        }
        rest := rest - {fake};
      }
      assert IsLru(View(), lru);
      var entry := byFake[lru];
      byFake := byFake - {lru};
      WipeByRealKey(entry.secret);
      assert View() == Without(old(View()), {lru});
    }

    method Put(fake: string, secret: string, now: nat)
      modifies this
      ensures View() == Insert(old(View()), fake, secret, now)
    {
      if fake in byFake {
        WipeByRealKey(byFake[fake].secret);
      }
      byFake := byFake[fake := Entry(secret, now)];
      byReal := byReal[secret := fake];
    }

    method GetOrInsert(secret: string, now: nat, made: string) returns (fake: string)
      modifies this
      ensures GetsOrInserts(cfg, old(View()), secret, made, now, View(), fake)
    {
      PruneExpired(now);
      if secret in byReal {
        fake := byReal[secret];
        if fake in byFake {
          byFake := byFake[fake := byFake[fake].(lastTouched := now)];
        }
        return;
      }
      ghost var p := View();
      if |byFake| >= cfg.maxEntries {
        EvictLru();
      }
      assert MakesRoom(cfg, p, View());
      Put(made, secret, now);
      return made;
    }

    method Restore(fake: string, now: nat) returns (secret: Option<string>)
      modifies this
      ensures (View(), secret) == Restored(cfg, old(View()), fake, now)
    {
      PruneExpired(now);
      if fake !in byFake {
        return None;
      }
      byFake := byFake[fake := byFake[fake].(lastTouched := now)];
      return Some(byFake[fake].secret);
    }

    method Import(pairs: seq<(string, string)>, now: nat)
      modifies this
      ensures View() == Imported(old(View()), pairs, now)
    {
      for i := 0 to |pairs|
        invariant View() == Imported(old(View()), pairs[..i], now)
      {
        Put(pairs[i].0, pairs[i].1, now);
        assert pairs[..i + 1][..i] == pairs[..i];
      }
      assert pairs[..|pairs|] == pairs;
    }

    method Clear()
      modifies this
      ensures View() == EMPTY
    {
      byReal, byFake := map[], map[];
    }
  }

  // ----- consistency of the two maps -----

  /** Every pointer lands on a live entry for its own value. */
  ghost predicate Sound(s: Store) {
    forall r :: r in s.byReal ==> s.byReal[r] in s.byFake && s.byFake[s.byReal[r]].secret == r
  }

  ghost predicate Inverse(s: Store) {
    Sound(s) && forall f :: f in s.byFake ==> s.byFake[f].secret in s.byReal && s.byReal[s.byFake[f].secret] == f
  }

  /** The entries that no pointer leads to. */
  ghost function Orphans(s: Store): set<string> {
    set f | f in s.byFake && (s.byFake[f].secret in s.byReal ==> s.byReal[s.byFake[f].secret] != f)
  }

  lemma WithoutKeeps(s: Store, fakes: set<string>)
    ensures Sound(s) ==> Sound(Without(s, fakes))
    ensures Inverse(s) ==> Inverse(Without(s, fakes))
  {
    var s' := Without(s, fakes);
    if Sound(s) {
      forall r | r in s'.byReal
        ensures s'.byReal[r] in s'.byFake && s'.byFake[s'.byReal[r]].secret == r
      {
        assert r in s.byReal && s.byReal[r] !in fakes;
      }
    }
  }

  lemma InsertKeeps(s: Store, fake: string, secret: string, now: nat)
    requires Sound(s)
    ensures Sound(Insert(s, fake, secret, now))
    ensures Inverse(s) && secret !in s.byReal ==> Inverse(Insert(s, fake, secret, now))
  {
  }

  /** Between inverse maps, putting a pair keeps them inverse exactly if its value is new or already has this fake. */
  lemma InsertKeepsInverseIff(s: Store, fake: string, secret: string, now: nat)
    requires Inverse(s)
    ensures Inverse(Insert(s, fake, secret, now)) <==> (secret in s.byReal ==> s.byReal[secret] == fake)
  {
    var s' := Insert(s, fake, secret, now);
    if secret in s.byReal && s.byReal[secret] != fake {
      var g := s.byReal[secret];
      assert g in s'.byFake && s'.byFake[g].secret == secret && s'.byReal[secret] != g;
    }
  }

  /** Each pair, when its turn comes, brings a value that is new or already has this fake. */
  ghost predicate Agreeing(s: Store, pairs: seq<(string, string)>, now: nat) {
    forall i :: 0 <= i < |pairs| ==>
      var m := Imported(s, pairs[..i], now);
      pairs[i].1 in m.byReal ==> m.byReal[pairs[i].1] == pairs[i].0
  }

  lemma {:induction false} ImportKeeps(s: Store, pairs: seq<(string, string)>, now: nat)
    requires Sound(s)
    ensures Sound(Imported(s, pairs, now))
    decreases |pairs|
  {
    if pairs != [] {
      var n := |pairs| - 1;
      ImportKeeps(s, pairs[..n], now);
      InsertKeeps(Imported(s, pairs[..n], now), pairs[n].0, pairs[n].1, now);
    }
  }

  lemma {:induction false} ImportOneMore(s: Store, pairs: seq<(string, string)>, now: nat, n: nat)
    requires n < |pairs| && Inverse(Imported(s, pairs[..n], now))
    ensures var m := Imported(s, pairs[..n], now);
            Inverse(Imported(s, pairs[..n + 1], now)) <==> (pairs[n].1 in m.byReal ==> m.byReal[pairs[n].1] == pairs[n].0)
  {
    assert pairs[..n + 1][..n] == pairs[..n];
    InsertKeepsInverseIff(Imported(s, pairs[..n], now), pairs[n].0, pairs[n].1, now);
  }

  lemma {:induction false} AgreeingKeepsInverse(s: Store, pairs: seq<(string, string)>, now: nat, n: nat)
    requires Inverse(s) && Agreeing(s, pairs, now) && n <= |pairs|
    ensures Inverse(Imported(s, pairs[..n], now))
  {
    if n > 0 {
      AgreeingKeepsInverse(s, pairs, now, n - 1);
      ImportOneMore(s, pairs, now, n - 1);
    }
  }

  /** Between inverse maps, an import keeps them inverse from pair to pair exactly if its pairs agree. */
  lemma EveryPairKeepsInverseIff(s: Store, pairs: seq<(string, string)>, now: nat)
    requires Inverse(s)
    ensures (forall n :: 0 <= n <= |pairs| ==> Inverse(Imported(s, pairs[..n], now))) <==> Agreeing(s, pairs, now)
  {
    if Agreeing(s, pairs, now) {
      forall n | 0 <= n <= |pairs|
        ensures Inverse(Imported(s, pairs[..n], now))
      {
        AgreeingKeepsInverse(s, pairs, now, n);
      }
    }
    if forall n :: 0 <= n <= |pairs| ==> Inverse(Imported(s, pairs[..n], now)) {
      forall n | 0 <= n < |pairs|
        ensures var m := Imported(s, pairs[..n], now);
                pairs[n].1 in m.byReal ==> m.byReal[pairs[n].1] == pairs[n].0
      {
        assert Inverse(Imported(s, pairs[..n + 1], now));
        ImportOneMore(s, pairs, now, n);
      }
    }
  }

  /** The index of the last pair that has this fake, or -1. */
  function LastIndex(pairs: seq<(string, string)>, fake: string): (i: int)
    ensures -1 <= i < |pairs| && (i >= 0 ==> pairs[i].0 == fake)
    ensures forall j :: i < j < |pairs| ==> pairs[j].0 != fake
    decreases |pairs|
  {
    if pairs == [] then -1
    else if pairs[|pairs| - 1].0 == fake then |pairs| - 1
    else LastIndex(pairs[..|pairs| - 1], fake)
  }

  /** The value that a fake has after the pairs: that of its last pair, or the one it had before. */
  function ValueAfter(s: Store, pairs: seq<(string, string)>, fake: string): Option<string> {
    var i := LastIndex(pairs, fake);
    if i >= 0 then Some(pairs[i].1) else if fake in s.byFake then Some(s.byFake[fake].secret) else None
  }

  /** No pair from i up to n writes the value. */
  ghost predicate Unwritten(pairs: seq<(string, string)>, secret: string, i: nat, n: nat)
    requires n <= |pairs|
  {
    forall j :: i <= j < n ==> pairs[j].1 != secret
  }

  /** The fake's value is written by no later pair, and no other fake had it when the fake got it. */
  ghost predicate SettlesOn(s: Store, pairs: seq<(string, string)>, fake: string, secret: string) {
    var i := LastIndex(pairs, fake);
    && Unwritten(pairs, secret, i + 1, |pairs|)
    && (i >= 0 ==> forall g :: g != fake ==> ValueAfter(s, pairs[..i], g) != Some(secret))
  }

  /** So for every fake there is after the pairs; this reads the map before them and the pairs alone. */
  ghost predicate Settles(s: Store, pairs: seq<(string, string)>) {
    forall f :: ValueAfter(s, pairs, f).Some? ==> SettlesOn(s, pairs, f, ValueAfter(s, pairs, f).value)
  }

  /** The fake has the value, alone, and the value's pointer leads to it. */
  ghost predicate Sole(s: Store, fake: string, secret: string) {
    && fake in s.byFake && s.byFake[fake].secret == secret
    && secret in s.byReal && s.byReal[secret] == fake
    && forall g :: g in s.byFake && s.byFake[g].secret == secret ==> g == fake
  }

  lemma InverseIffSole(s: Store)
    requires Sound(s)
    ensures Inverse(s) <==> forall f :: f in s.byFake ==> Sole(s, f, s.byFake[f].secret)
  {
    if forall f :: f in s.byFake ==> Sole(s, f, s.byFake[f].secret) {
      forall f | f in s.byFake
        ensures s.byFake[f].secret in s.byReal && s.byReal[s.byFake[f].secret] == f
      {
        assert Sole(s, f, s.byFake[f].secret);
      }
    }
  }

  /** Putting another fake leaves this one alone with its value exactly if it was and the value differs. */
  lemma OtherInsertKeepsSole(s: Store, other: string, value: string, now: nat, fake: string, secret: string)
    requires other != fake
    ensures Sole(Insert(s, other, value, now), fake, secret) <==> Sole(s, fake, secret) && value != secret
  {
    var s' := Insert(s, other, value, now);
    if Sole(s', fake, secret) {
      assert other in s'.byFake && s'.byFake[other].secret == value;
      forall g | g in s.byFake && s.byFake[g].secret == secret
        ensures g == fake
      {
        assert g in s'.byFake;
      }
    }
    if Sole(s, fake, secret) && value != secret {
      assert other in s.byFake ==> s.byFake[other].secret != secret;
    }
  }

  lemma OwnInsertIsSole(s: Store, fake: string, secret: string, now: nat)
    ensures Sole(Insert(s, fake, secret, now), fake, secret) <==>
            forall g :: g in s.byFake && g != fake ==> s.byFake[g].secret != secret
  {
    var s' := Insert(s, fake, secret, now);
    assert fake in s'.byFake && s'.byFake[fake].secret == secret && s'.byReal[secret] == fake;
    forall g | g in s.byFake && g != fake
      ensures g in s'.byFake && s'.byFake[g] == s.byFake[g]
    {
    }
    assert forall g :: g in s'.byFake ==> g == fake || (g in s.byFake && s'.byFake[g] == s.byFake[g]);
  }

  /** Last write wins, fake by fake. */
  lemma {:induction false} ImportedEntry(s: Store, pairs: seq<(string, string)>, now: nat, f: string)
    ensures var m := Imported(s, pairs, now);
            ValueAfter(s, pairs, f) == if f in m.byFake then Some(m.byFake[f].secret) else None
    decreases |pairs|
  {
    if pairs != [] && pairs[|pairs| - 1].0 != f {
      ImportedEntry(s, pairs[..|pairs| - 1], now, f);
    }
  }

  lemma {:induction false} ImportedTail(s: Store, pairs: seq<(string, string)>, now: nat, n: nat)
    requires n < |pairs|
    ensures Imported(s, pairs[..n + 1], now) == Insert(Imported(s, pairs[..n], now), pairs[n].0, pairs[n].1, now)
  {
    assert pairs[..n + 1][..n] == pairs[..n];
  }

  lemma {:induction false} SoleNext(s: Store, pairs: seq<(string, string)>, now: nat, fake: string, secret: string, n: nat)
    requires n < |pairs| && pairs[n].0 != fake
    ensures Sole(Imported(s, pairs[..n + 1], now), fake, secret) <==>
            Sole(Imported(s, pairs[..n], now), fake, secret) && pairs[n].1 != secret
  {
    ImportedTail(s, pairs, now, n);
    OtherInsertKeepsSole(Imported(s, pairs[..n], now), pairs[n].0, pairs[n].1, now, fake, secret);
  }

  lemma UnwrittenNext(pairs: seq<(string, string)>, secret: string, i: nat, n: nat)
    requires i <= n < |pairs|
    ensures Unwritten(pairs, secret, i, n + 1) <==> Unwritten(pairs, secret, i, n) && pairs[n].1 != secret
  {
  }

  /** From the fake's last pair on, only a pair with its value takes the value from it. */
  lemma {:induction false} SoleThrough(s: Store, pairs: seq<(string, string)>, now: nat, fake: string, secret: string, i: nat, n: nat)
    requires i <= n <= |pairs| && forall j :: i <= j < |pairs| ==> pairs[j].0 != fake
    ensures Sole(Imported(s, pairs[..n], now), fake, secret) <==>
            Sole(Imported(s, pairs[..i], now), fake, secret) && Unwritten(pairs, secret, i, n)
  {
    if i < n {
      var before, after := Imported(s, pairs[..n - 1], now), Imported(s, pairs[..n], now);
      assert Sole(after, fake, secret) <==> Sole(before, fake, secret) && pairs[n - 1].1 != secret by {
        SoleNext(s, pairs, now, fake, secret, n - 1);
      }
      SoleThrough(s, pairs, now, fake, secret, i, n - 1);
      UnwrittenNext(pairs, secret, i, n - 1);
    }
  }

  /** What its last pair makes of a fake. */
  lemma {:induction false} SoleFromLast(s: Store, pairs: seq<(string, string)>, now: nat, fake: string)
    requires LastIndex(pairs, fake) >= 0
    ensures var i := LastIndex(pairs, fake);
            Sole(Imported(s, pairs[..i + 1], now), fake, pairs[i].1) <==>
            forall g :: g != fake ==> ValueAfter(s, pairs[..i], g) != Some(pairs[i].1)
  {
    var i := LastIndex(pairs, fake);
    var m := Imported(s, pairs[..i], now);
    ImportedTail(s, pairs, now, i);
    OwnInsertIsSole(m, fake, pairs[i].1, now);
    forall g
      ensures ValueAfter(s, pairs[..i], g) == if g in m.byFake then Some(m.byFake[g].secret) else None
    {
      ImportedEntry(s, pairs[..i], now, g);
    }
  }

  lemma {:induction false} SoleIffSettles(s: Store, pairs: seq<(string, string)>, now: nat, fake: string)
    requires Inverse(s) && ValueAfter(s, pairs, fake).Some?
    ensures var r := ValueAfter(s, pairs, fake).value;
            Sole(Imported(s, pairs, now), fake, r) <==> SettlesOn(s, pairs, fake, r)
  {
    var i, r := LastIndex(pairs, fake), ValueAfter(s, pairs, fake).value;
    assert pairs[..|pairs|] == pairs;
    SoleThrough(s, pairs, now, fake, r, i + 1, |pairs|);
    if i >= 0 {
      SoleFromLast(s, pairs, now, fake);
    } else {
      assert pairs[..i + 1] == [];
      InverseIffSole(s);
    }
  }

  /**
   * Between inverse maps, an import leaves them inverse if and only if, for every fake
   * there then is, no later pair writes its value and no other fake had that value
   * just before the fake's last pair.
   */
  lemma {:induction false} ImportKeepsInverseIff(s: Store, pairs: seq<(string, string)>, now: nat)
    requires Inverse(s)
    ensures Inverse(Imported(s, pairs, now)) <==> Settles(s, pairs)
  {
    var m := Imported(s, pairs, now);
    ImportKeeps(s, pairs, now);
    InverseIffSole(m);
    forall f
      ensures ValueAfter(s, pairs, f) == if f in m.byFake then Some(m.byFake[f].secret) else None
      ensures f in m.byFake ==> (Sole(m, f, m.byFake[f].secret) <==> SettlesOn(s, pairs, f, m.byFake[f].secret))
    {
      ImportedEntry(s, pairs, now, f);
      if f in m.byFake {
        SoleIffSettles(s, pairs, now, f);
      }
    }
  }

  /** Pairs that agree settle. */
  lemma AgreeingSettles(s: Store, pairs: seq<(string, string)>, now: nat)
    requires Inverse(s) && Agreeing(s, pairs, now)
    ensures Settles(s, pairs)
  {
    AgreeingKeepsInverse(s, pairs, now, |pairs|);
    assert pairs[..|pairs|] == pairs;
    ImportKeepsInverseIff(s, pairs, now);
  }

  lemma ImportFour(a: (string, string), b: (string, string), c: (string, string), d: (string, string), now: nat)
    ensures Imported(EMPTY, [a], now) == Insert(EMPTY, a.0, a.1, now)
    ensures Imported(EMPTY, [a, b, c, d], now) ==
            Insert(Insert(Insert(Insert(EMPTY, a.0, a.1, now), b.0, b.1, now), c.0, c.1, now), d.0, d.1, now)
  {
    var pairs := [a, b, c, d];
    assert pairs[..0] == [] && pairs[..1] == [a] && pairs[..4] == pairs;
    ImportedTail(EMPTY, pairs, now, 0);
    ImportedTail(EMPTY, pairs, now, 1);
    ImportedTail(EMPTY, pairs, now, 2);
    ImportedTail(EMPTY, pairs, now, 3);
  }

  /** Settling is less than agreeing: two fakes may share a value on the way if both get others in the end. */
  lemma {:induction false} DetourSettles(f: string, g: string, r: string, q: string, z: string, now: nat)
    requires f != g && q != r && q != z
    ensures var pairs := [(f, r), (g, r), (f, q), (g, z)];
            Settles(EMPTY, pairs) && Inverse(Imported(EMPTY, pairs, now)) && !Agreeing(EMPTY, pairs, now)
  {
    var pairs := [(f, r), (g, r), (f, q), (g, z)];
    ImportFour((f, r), (g, r), (f, q), (g, z), now);
    var m := Insert(Insert(Insert(Insert(EMPTY, f, r, now), g, r, now), f, q, now), g, z, now);
    assert m.byFake == map[f := Entry(q, now), g := Entry(z, now)];
    assert m.byReal == map[q := f, z := g];
    ImportKeepsInverseIff(EMPTY, pairs, now);
    assert pairs[..1] == [(f, r)];
    assert pairs[1].1 in Imported(EMPTY, pairs[..1], now).byReal;
  }

  /** Values that are new, each once. */
  ghost predicate DistinctNewValues(s: Store, pairs: seq<(string, string)>) {
    && (forall i, j :: 0 <= i < j < |pairs| ==> pairs[i].1 != pairs[j].1)
    && (forall i :: 0 <= i < |pairs| ==> pairs[i].1 !in s.byReal)
  }

  lemma {:induction false} ImportedValues(s: Store, pairs: seq<(string, string)>, now: nat, r: string)
    requires r in Imported(s, pairs, now).byReal
    ensures r in s.byReal || exists i :: 0 <= i < |pairs| && pairs[i].1 == r
    decreases |pairs|
  {
    if pairs != [] && r != pairs[|pairs| - 1].1 {
      ImportedValues(s, pairs[..|pairs| - 1], now, r);
    }
  }

  /** Distinct new values agree. */
  lemma DistinctNewValuesAgree(s: Store, pairs: seq<(string, string)>, now: nat)
    requires DistinctNewValues(s, pairs)
    ensures Agreeing(s, pairs, now)
  {
    forall i | 0 <= i < |pairs|
      ensures pairs[i].1 !in Imported(s, pairs[..i], now).byReal
    {
      if pairs[i].1 in Imported(s, pairs[..i], now).byReal {
        ImportedValues(s, pairs[..i], now, pairs[i].1);
      }
    }
  }

  // ----- many uses at one time -----

  /** A value and its fake. */
  type Pair = (string, string)

  ghost predicate TakesPair(cfg: Config, s: Store, use: Pair, now: nat, s': Store) {
    exists fake :: GetsOrInserts(cfg, s, use.0, use.1, now, s', fake)
  }

  /** Pair i takes one store to the next. */
  ghost predicate HandsOver(cfg: Config, uses: seq<Pair>, now: nat, stores: seq<Store>, i: nat)
    requires i < |uses| && |stores| == |uses| + 1
  {
    TakesPair(cfg, stores[i], uses[i], now, stores[i + 1])
  }

  ghost predicate HandsOverAll(cfg: Config, uses: seq<Pair>, now: nat, stores: seq<Store>) {
    && |stores| == |uses| + 1
    && forall i {:trigger HandsOver(cfg, uses, now, stores, i)} :: 0 <= i < |uses| ==> HandsOver(cfg, uses, now, stores, i)
  }

  /** The store after the pairs were handed over one by one at time `now`. */
  ghost predicate Stores(cfg: Config, s: Store, uses: seq<Pair>, now: nat, s': Store) {
    exists stores :: HandsOverAll(cfg, uses, now, stores) && stores[0] == s && stores[|uses|] == s'
  }

  lemma StoresNone(cfg: Config, s: Store, now: nat)
    ensures Stores(cfg, s, [], now, s)
  {
    assert HandsOverAll(cfg, [], now, [s]);
  }

  lemma HandsOverOne(cfg: Config, uses: seq<Pair>, now: nat, stores: seq<Store>, use: Pair, s': Store)
    requires HandsOverAll(cfg, uses, now, stores) && TakesPair(cfg, stores[|uses|], use, now, s')
    ensures HandsOverAll(cfg, uses + [use], now, stores + [s'])
  {
    forall i | 0 <= i <= |uses|
      ensures HandsOver(cfg, uses + [use], now, stores + [s'], i)
    {
      if i < |uses| {
        assert HandsOver(cfg, uses, now, stores, i);
      }
    }
  }

  lemma {:induction false} StoresTake(cfg: Config, s: Store, uses: seq<Pair>, now: nat, mid: Store, use: Pair, s': Store)
    requires Stores(cfg, s, uses, now, mid) && TakesPair(cfg, mid, use, now, s')
    ensures Stores(cfg, s, uses + [use], now, s')
  {
    var stores :| HandsOverAll(cfg, uses, now, stores) && stores[0] == s && stores[|uses|] == mid;
    HandsOverOne(cfg, uses, now, stores, use, s');
  }

  lemma StoresOne(cfg: Config, s: Store, uses: seq<Pair>, now: nat, mid: Store, use: Pair, s': Store, fake: string)
    requires Stores(cfg, s, uses, now, mid) && GetsOrInserts(cfg, mid, use.0, use.1, now, s', fake)
    ensures Stores(cfg, s, uses + [use], now, s')
  {
    StoresTake(cfg, s, uses, now, mid, use, s');
  }

  lemma {:induction false} StoresFirst(cfg: Config, s: Store, use: Pair, now: nat, s': Store)
    requires TakesPair(cfg, s, use, now, s')
    ensures Stores(cfg, s, [use], now, s')
  {
    StoresNone(cfg, s, now);
    StoresTake(cfg, s, [], now, s, use, s');
    assert [] + [use] == [use];
  }

  lemma {:induction false} StoresSecond(cfg: Config, s: Store, p: Pair, q: Pair, now: nat, s1: Store, s2: Store)
    requires Stores(cfg, s, [p], now, s1) && TakesPair(cfg, s1, q, now, s2)
    ensures Stores(cfg, s, [p, q], now, s2)
  {
    StoresTake(cfg, s, [p], now, s1, q, s2);
    assert [p] + [q] == [p, q];
  }

  /** Two pairs taken one after the other. */
  lemma {:induction false} StoresTwo(cfg: Config, s: Store, p: Pair, q: Pair, now: nat, s1: Store, s2: Store)
    requires TakesPair(cfg, s, p, now, s1) && TakesPair(cfg, s1, q, now, s2)
    ensures Stores(cfg, s, [p, q], now, s2)
  {
    StoresFirst(cfg, s, p, now, s1);
    StoresSecond(cfg, s, p, q, now, s1, s2);
  }
}
