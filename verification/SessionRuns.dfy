/** What whole runs of session-map operations keep and promise. */
module SessionRuns {
  import opened Basics
  import opened SessionMaps

  datatype Op =
    | Use(secret: string, made: string, now: nat)   // get_or_insert
    | LookUp(fake: string, now: nat)                // restore
    | Load(pairs: seq<(string, string)>, now: nat)  // import
    | Wipe(now: nat)                                // clear

  ghost predicate Step(cfg: Config, s: Store, op: Op, s': Store) {
    match op
    case Use(secret, made, now) => exists fake :: GetsOrInserts(cfg, s, secret, made, now, s', fake)
    case LookUp(fake, now) => s' == Restored(cfg, s, fake, now).0
    case Load(pairs, now) => s' == Imported(s, pairs, now)
    case Wipe(_) => s' == EMPTY
  }

  ghost predicate StepAt(cfg: Config, ops: seq<Op>, stores: seq<Store>, i: nat)
    requires i < |ops| && |stores| == |ops| + 1
  {
    Step(cfg, stores[i], ops[i], stores[i + 1])
  }

  /** A stretch of operations: a store before and after each. */
  ghost predicate IsStretch(cfg: Config, ops: seq<Op>, stores: seq<Store>) {
    && |stores| == |ops| + 1
    && forall i {:trigger StepAt(cfg, ops, stores, i)} :: 0 <= i < |ops| ==> StepAt(cfg, ops, stores, i)
  }

  /** A run begins with an empty map. */
  ghost predicate IsRun(cfg: Config, ops: seq<Op>, stores: seq<Store>) {
    IsStretch(cfg, ops, stores) && stores[0] == EMPTY
  }

  lemma {:induction false} StretchGrows(cfg: Config, ops: seq<Op>, stores: seq<Store>, op: Op, s': Store)
    requires IsStretch(cfg, ops, stores) && Step(cfg, stores[|ops|], op, s')
    ensures IsStretch(cfg, ops + [op], stores + [s'])
  {
    forall i | 0 <= i <= |ops|
      ensures StepAt(cfg, ops + [op], stores + [s'], i)
    {
      if i < |ops| {
        assert StepAt(cfg, ops, stores, i);
      }
    }
  }

  lemma SoundStep(cfg: Config, s: Store, op: Op, s': Store)
    requires Sound(s) && Step(cfg, s, op, s')
    ensures Sound(s')
    ensures Inverse(s) ==> (Inverse(s') <==> (op.Load? ==> Settles(s, op.pairs)))
  {
    match op
    case Use(secret, made, now) =>
      var p := Prune(cfg, s, now);
      WithoutKeeps(s, ExpiredFakes(cfg, s, now));
      if secret !in p.byReal {
        var room :| MakesRoom(cfg, p, room) && s' == Insert(room, made, secret, now);
        if room != p {
          var v :| IsLru(p, v) && room == Without(p, {v});
          WithoutKeeps(p, {v});
        }
        InsertKeeps(room, made, secret, now);
      }
    case LookUp(fake, now) =>
      WithoutKeeps(s, ExpiredFakes(cfg, s, now));
    case Load(pairs, now) =>
      ImportKeeps(s, pairs, now);
      if Inverse(s) {
        ImportKeepsInverseIff(s, pairs, now);
      }
    case Wipe(_) =>
  }

  /** If operation i is an import, its pairs settle. */
  ghost predicate SettlesAt(ops: seq<Op>, stores: seq<Store>, i: nat)
    requires i < |ops| < |stores|
  {
    ops[i].Load? ==> Settles(stores[i], ops[i].pairs)
  }

  lemma SoundAt(cfg: Config, ops: seq<Op>, stores: seq<Store>, i: nat)
    requires IsStretch(cfg, ops, stores) && i < |ops| && Sound(stores[i])
    ensures Sound(stores[i + 1])
    ensures Inverse(stores[i]) ==> (Inverse(stores[i + 1]) <==> SettlesAt(ops, stores, i))
  {
    assert StepAt(cfg, ops, stores, i);
    SoundStep(cfg, stores[i], ops[i], stores[i + 1]);
  }

  /**
   * Under arbitrary imports every pointer lands on a live entry for its value; the
   * maps are exact inverses all along if and only if the pairs of every import settle.
   */
  lemma {:induction false} MapsStayConsistent(cfg: Config, ops: seq<Op>, stores: seq<Store>, n: nat)
    requires IsRun(cfg, ops, stores) && n <= |ops|
    ensures Sound(stores[n])
    ensures (forall i :: 0 <= i <= n ==> Inverse(stores[i])) <==> (forall i :: 0 <= i < n ==> SettlesAt(ops, stores, i))
  {
    if n > 0 {
      MapsStayConsistent(cfg, ops, stores, n - 1);
      SoundAt(cfg, ops, stores, n - 1);
      if forall i :: 0 <= i < n ==> SettlesAt(ops, stores, i) {
        assert Inverse(stores[n - 1]);
      }
      if forall i :: 0 <= i <= n ==> Inverse(stores[i]) {
        assert Inverse(stores[n - 1]) && Inverse(stores[n - 1 + 1]);
      }
    }
  }

  /** Importing one value twice, under two fakes. */
  lemma SameValueTwice(f: string, g: string, r: string, now: nat)
    requires f != g
    ensures Imported(EMPTY, [(f, r), (g, r)], now) == Store(map[f := Entry(r, now), g := Entry(r, now)], map[r := g])
  {
    var pairs := [(f, r), (g, r)];
    var first := pairs[..1];
    assert first == [(f, r)] && first[..0] == [];
    assert Imported(EMPTY, first, now) == Insert(EMPTY, f, r, now);
    assert Imported(EMPTY, pairs, now) == Insert(Insert(EMPTY, f, r, now), g, r, now);
  }

  /** An import that does not settle: one value twice leaves an entry nothing points to. */
  lemma DuplicateImportBreaksInverse(f: string, g: string, r: string, now: nat)
    requires f != g
    ensures var s := Imported(EMPTY, [(f, r), (g, r)], now);
            Sound(s) && !Inverse(s) && f in s.byFake && s.byFake[f].secret == r && s.byReal[r] != f
  {
    SameValueTwice(f, g, r, now);
    var s := Imported(EMPTY, [(f, r), (g, r)], now);
    assert f in s.byFake && s.byFake[f].secret == r && s.byReal[r] == g;
  }

  /** The value's pointer leads to the fake, whose entry is there. */
  ghost predicate Points(s: Store, secret: string, fake: string) {
    secret in s.byReal && s.byReal[secret] == fake && fake in s.byFake
  }

  /** A map of two entries. */
  function Two(f: string, x: Entry, g: string, y: Entry, byReal: map<string, string>): Store {
    Store(map[f := x, g := y], byReal)
  }

  function One(g: string, y: Entry, byReal: map<string, string>): Store {
    Store(map[g := y], byReal)
  }

  lemma WithoutFirst(f: string, x: Entry, g: string, y: Entry, byReal: map<string, string>)
    requires f != g
    ensures Without(Two(f, x, g, y, byReal), {f}) == One(g, y, byReal - {x.secret})
  {
  }

  lemma NothingExpires(cfg: Config, s: Store, now: nat)
    requires forall f :: f in s.byFake ==> !Expired(cfg, s.byFake[f], now)
    ensures Prune(cfg, s, now) == s
  {
    assert ExpiredFakes(cfg, s, now) == {};
  }

  /** When f expires, the pointer of its value goes with it, whatever else carries that value. */
  lemma FirstExpires(cfg: Config, f: string, x: Entry, g: string, y: Entry, byReal: map<string, string>, now: nat)
    requires f != g && Expired(cfg, x, now) && !Expired(cfg, y, now)
    ensures Prune(cfg, Two(f, x, g, y, byReal), now) == One(g, y, byReal - {x.secret})
  {
    assert ExpiredFakes(cfg, Two(f, x, g, y, byReal), now) == {f};
    WithoutFirst(f, x, g, y, byReal);
  }

  /** Restoring g at 8 stamps it; at 15 the orphan expires and unhooks r. */
  lemma {:induction false} OrphanUnhooks(cfg: Config, f: string, g: string, r: string)
    requires cfg == Config(10, 10) && f != g
    ensures var s1 := Two(f, Entry(r, 0), g, Entry(r, 0), map[r := g]);
            var s2 := Restored(cfg, s1, g, 8).0;
            && Points(s2, r, g) && s2.byFake[g] == Entry(r, 8)
            && Prune(cfg, s2, 15) == One(g, Entry(r, 8), map[])
  {
    var s1 := Two(f, Entry(r, 0), g, Entry(r, 0), map[r := g]);
    NothingExpires(cfg, s1, 8);
    assert Restored(cfg, s1, g, 8).0 == Two(f, Entry(r, 0), g, Entry(r, 8), map[r := g]);
    FirstExpires(cfg, f, Entry(r, 0), g, Entry(r, 8), map[r := g], 15);
    assert map[r := g] - {r} == map[];
  }

  lemma {:induction false} InsertsSecond(cfg: Config, g: string, y: Entry, h: string, r: string, now: nat)
    requires cfg.maxEntries >= 2
    ensures Inserts(cfg, One(g, y, map[]), r, h, now, Insert(One(g, y, map[]), h, r, now))
  {
    var p := One(g, y, map[]);
    assert |p.byFake.Keys| == |{g}| == 1;
    assert MakesRoom(cfg, p, p);
  }

  /** The use at 15 finds no pointer and makes another fake. */
  lemma {:induction false} MakesAnother(cfg: Config, s2: Store, g: string, h: string, r: string)
    requires cfg == Config(10, 10) && g != h && Prune(cfg, s2, 15) == One(g, Entry(r, 8), map[])
    ensures var s3 := Insert(One(g, Entry(r, 8), map[]), h, r, 15);
            && GetsOrInserts(cfg, s2, r, h, 15, s3, h)
            && g in s3.byFake && Points(s3, r, h)
  {
    InsertsSecond(cfg, g, Entry(r, 8), h, r, 15);
  }

  /** ... although the use comes in time and the map is all but empty. */
  lemma {:induction false} UseSpares(cfg: Config, s2: Store, g: string, h: string, r: string)
    requires cfg == Config(10, 10) && Prune(cfg, s2, 15) == One(g, Entry(r, 8), map[])
    ensures Spares(cfg, Watch(8, {}, 8), s2, Use(r, h, 15), r, g)
  {
    assert Prune(cfg, s2, 15).byFake.Keys == {g};
    SubsetSize(Orphans(Prune(cfg, s2, 15)), {g});
  }

  /**
   * What that costs: the orphan's expiry takes the live entry's pointer with it.  The
   * fake g of r is restored at 8, and r is used again at 15, within the TTL of 10 and
   * with no other value used in between; still r gets another fake.
   */
  lemma {:induction false} DuplicateImportLosesPair(f: string, g: string, h: string, r: string) returns (stores: seq<Store>)
    requires f != g && g != h
    ensures IsRun(Config(10, 10), [Load([(f, r), (g, r)], 0), LookUp(g, 8), Use(r, h, 15)], stores)
    ensures Points(stores[2], r, g) && stores[2].byFake[g] == Entry(r, 8)
    ensures Spares(Config(10, 10), Watch(8, {}, 8), stores[2], Use(r, h, 15), r, g)
    ensures g in stores[3].byFake && Points(stores[3], r, h)
  {
    var cfg := Config(10, 10);
    var s1 := Two(f, Entry(r, 0), g, Entry(r, 0), map[r := g]);
    OrphanUnhooks(cfg, f, g, r);
    var s2 := Restored(cfg, s1, g, 8).0;
    stores := LosingRun(cfg, f, g, h, r, s1, s2);
  }

  lemma {:induction false} LosingRun(cfg: Config, f: string, g: string, h: string, r: string, s1: Store, s2: Store) returns (stores: seq<Store>)
    requires f != g && g != h && cfg == Config(10, 10)
    requires s1 == Two(f, Entry(r, 0), g, Entry(r, 0), map[r := g]) && s2 == Restored(cfg, s1, g, 8).0
    requires Points(s2, r, g) && s2.byFake[g] == Entry(r, 8) && Prune(cfg, s2, 15) == One(g, Entry(r, 8), map[])
    ensures IsRun(cfg, [Load([(f, r), (g, r)], 0), LookUp(g, 8), Use(r, h, 15)], stores)
    ensures stores[2] == s2 && Spares(cfg, Watch(8, {}, 8), s2, Use(r, h, 15), r, g)
    ensures g in stores[3].byFake && Points(stores[3], r, h)
  {
    var a, b, c := Load([(f, r), (g, r)], 0), LookUp(g, 8), Use(r, h, 15);
    SameValueTwice(f, g, r, 0);
    MakesAnother(cfg, s2, g, h, r);
    UseSpares(cfg, s2, g, h, r);
    var s3 := Insert(One(g, Entry(r, 8), map[]), h, r, 15);
    assert Step(cfg, s2, c, s3);
    ThreeSteps(cfg, a, b, c, s1, s2, s3);
    stores := [EMPTY, s1, s2, s3];
  }

  lemma {:induction false} ThreeSteps(cfg: Config, a: Op, b: Op, c: Op, s1: Store, s2: Store, s3: Store)
    requires Step(cfg, EMPTY, a, s1) && Step(cfg, s1, b, s2) && Step(cfg, s2, c, s3)
    ensures IsRun(cfg, [a, b, c], [EMPTY, s1, s2, s3])
  {
    FirstStep(cfg, a, s1);
    SecondStep(cfg, a, b, s1, s2);
    ThirdStep(cfg, a, b, c, s1, s2, s3);
  }

  lemma {:induction false} FirstStep(cfg: Config, a: Op, s1: Store)
    requires Step(cfg, EMPTY, a, s1)
    ensures IsStretch(cfg, [a], [EMPTY, s1])
  {
    StretchGrows(cfg, [], [EMPTY], a, s1);
    assert [] + [a] == [a] && [EMPTY] + [s1] == [EMPTY, s1];
  }

  lemma {:induction false} SecondStep(cfg: Config, a: Op, b: Op, s1: Store, s2: Store)
    requires IsStretch(cfg, [a], [EMPTY, s1]) && Step(cfg, s1, b, s2)
    ensures IsStretch(cfg, [a, b], [EMPTY, s1, s2])
  {
    StretchGrows(cfg, [a], [EMPTY, s1], b, s2);
    assert [a] + [b] == [a, b] && [EMPTY, s1] + [s2] == [EMPTY, s1, s2];
  }

  lemma {:induction false} ThirdStep(cfg: Config, a: Op, b: Op, c: Op, s1: Store, s2: Store, s3: Store)
    requires IsStretch(cfg, [a, b], [EMPTY, s1, s2]) && Step(cfg, s2, c, s3)
    ensures IsStretch(cfg, [a, b, c], [EMPTY, s1, s2, s3])
  {
    StretchGrows(cfg, [a, b], [EMPTY, s1, s2], c, s3);
    assert [a, b] + [c] == [a, b, c] && [EMPTY, s1, s2] + [s3] == [EMPTY, s1, s2, s3];
  }

  lemma MapSizes<K, V>(m: map<K, V>, k: K, v: V)
    ensures |m - {k}| == if k in m then |m| - 1 else |m|
    ensures |m[k := v]| == if k in m then |m| else |m| + 1
  {
    assert (m - {k}).Keys == m.Keys - {k};
    assert m[k := v].Keys == m.Keys + {k};
  }

  lemma PruneShrinks(cfg: Config, s: Store, now: nat)
    ensures |Prune(cfg, s, now).byFake| <= |s.byFake|
  {
    var p := Prune(cfg, s, now);
    assert s.byFake.Keys == p.byFake.Keys + ExpiredFakes(cfg, s, now);
  }

  function SizeBound(cfg: Config): nat {
    if cfg.maxEntries == 0 then 1 else cfg.maxEntries
  }

  lemma {:induction false} RoomIsMade(cfg: Config, p: Store, room: Store)
    requires |p.byFake| <= SizeBound(cfg) && MakesRoom(cfg, p, room)
    ensures |room.byFake| < SizeBound(cfg)
  {
    if room != p {
      var v :| IsLru(p, v) && room == Without(p, {v});
      SizesWithout(p, v);
    }
  }

  lemma {:induction false} InsertIsBounded(cfg: Config, p: Store, secret: string, made: string, now: nat, s': Store)
    requires |p.byFake| <= SizeBound(cfg) && Inserts(cfg, p, secret, made, now, s')
    ensures |s'.byFake| <= SizeBound(cfg)
  {
    var room :| MakesRoom(cfg, p, room) && s' == Insert(room, made, secret, now);
    RoomIsMade(cfg, p, room);
    MapSizes(room.byFake, made, Entry(secret, now));
  }

  lemma SizeAt(cfg: Config, ops: seq<Op>, stores: seq<Store>, i: nat)
    requires IsStretch(cfg, ops, stores) && i < |ops| && !ops[i].Load? && |stores[i].byFake| <= SizeBound(cfg)
    ensures |stores[i + 1].byFake| <= SizeBound(cfg)
  {
    var s, op, s' := stores[i], ops[i], stores[i + 1];
    assert StepAt(cfg, ops, stores, i);
    if op.Use? || op.LookUp? {
      var p := Prune(cfg, s, op.now);
      PruneShrinks(cfg, s, op.now);
      if op.Use? && op.secret !in p.byReal {
        InsertIsBounded(cfg, p, op.secret, op.made, op.now, s');
      } else {
        assert s'.byFake.Keys == p.byFake.Keys;
      }
    }
  }

  /** Without imports the map never outgrows its bound. */
  lemma {:induction false} SizeIsBounded(cfg: Config, ops: seq<Op>, stores: seq<Store>, n: nat)
    requires IsRun(cfg, ops, stores) && n <= |ops|
    requires forall i :: 0 <= i < n ==> !ops[i].Load?
    ensures |stores[n].byFake| <= SizeBound(cfg)
  {
    if n > 0 {
      SizeIsBounded(cfg, ops, stores, n - 1);
      SizeAt(cfg, ops, stores, n - 1);
    }
  }

  // ----- survival -----

  /** No orphan carries the value. */
  ghost predicate Alone(s: Store, secret: string) {
    forall f :: f in s.byFake && s.byFake[f].secret == secret ==> secret in s.byReal && s.byReal[secret] == f
  }

  /** Inverse maps are those without orphans. */
  lemma InverseIffNoOrphans(s: Store)
    ensures Inverse(s) <==> Sound(s) && Orphans(s) == {}
    ensures Inverse(s) <==> Sound(s) && forall r :: Alone(s, r)
  {
    if Sound(s) && Orphans(s) == {} {
      forall f | f in s.byFake
        ensures s.byFake[f].secret in s.byReal && s.byReal[s.byFake[f].secret] == f
      {
        assert f !in Orphans(s);
      }
    }
    if forall r :: Alone(s, r) {
      forall f | f in s.byFake
        ensures s.byFake[f].secret in s.byReal && s.byReal[s.byFake[f].secret] == f
      {
        assert Alone(s, s.byFake[f].secret);
      }
    }
  }

  /** Each pointer has an entry of its own, and the orphans are the rest. */
  lemma {:induction false} OrphanCount(s: Store)
    requires Sound(s)
    ensures |s.byFake| == |s.byReal| + |Orphans(s)|
    decreases |s.byReal|
  {
    if s.byReal == map[] {
      assert Orphans(s) == s.byFake.Keys;
    } else {
      var r :| r in s.byReal;
      var s' := s.(byReal := s.byReal - {r});
      MapSizes(s.byReal, r, s.byReal[r]);
      OrphanCount(s');
      assert Orphans(s') == Orphans(s) + {s.byReal[r]};
    }
  }

  lemma WithoutOne(s: Store, fakes: set<string>, f: string)
    requires f in fakes
    ensures Without(s, fakes) == Without(Without(s, {f}), fakes - {f})
  {
    var a, b := Without(s, fakes), Without(Without(s, {f}), fakes - {f});
    assert a.byFake == b.byFake;
    assert a.byReal == b.byReal;
  }

  /** Removing entries makes no more orphans than it takes. */
  lemma {:induction false} OrphansShrink(s: Store, fakes: set<string>)
    requires Sound(s)
    ensures |Orphans(Without(s, fakes))| <= |Orphans(s)|
    decreases |fakes|
  {
    if fakes == {} {
      assert Without(s, fakes) == s;
    } else {
      var f :| f in fakes;
      var s' := Without(s, {f});
      WithoutKeeps(s, {f});
      WithoutOne(s, fakes, f);
      OrphansShrink(s', fakes - {f});
      OneLess(s, f);
    }
  }

  lemma WithoutTakesOne(s: Store, f: string)
    requires f in s.byFake
    ensures Without(s, {f}) == Store(s.byFake - {f}, s.byReal - {s.byFake[f].secret})
  {
  }

  lemma {:induction false} SizesWithout(s: Store, f: string)
    requires f in s.byFake
    ensures var s' := Without(s, {f}); |s'.byFake| == |s.byFake| - 1 && |s'.byReal| >= |s.byReal| - 1
  {
    WithoutTakesOne(s, f);
    MapSizes(s.byFake, f, s.byFake[f]);
    MapSizes(s.byReal, s.byFake[f].secret, f);
  }

  lemma {:induction false} OneLess(s: Store, f: string)
    requires Sound(s)
    ensures |Orphans(Without(s, {f}))| <= |Orphans(s)|
  {
    var s' := Without(s, {f});
    if f in s.byFake {
      WithoutKeeps(s, {f});
      OrphanCount(s);
      OrphanCount(s');
      SizesWithout(s, f);
    } else {
      assert s' == s;
    }
  }

  lemma {:induction false} SizesInsert(s: Store, fake: string, secret: string, now: nat)
    requires secret !in s.byReal
    ensures var s' := Insert(s, fake, secret, now);
            |s'.byFake| - |s'.byReal| <= |s.byFake| - |s.byReal|
  {
    MapSizes(s.byFake, fake, Entry(secret, now));
    if fake in s.byFake {
      var r := s.byFake[fake].secret;
      MapSizes(s.byReal, r, fake);
      MapSizes(s.byReal - {r}, secret, fake);
    } else {
      MapSizes(s.byReal, secret, fake);
    }
  }

  /** Nor does putting a new value make an orphan. */
  lemma {:induction false} InsertMakesNoOrphan(s: Store, fake: string, secret: string, now: nat)
    requires Sound(s) && secret !in s.byReal
    ensures |Orphans(Insert(s, fake, secret, now))| <= |Orphans(s)|
  {
    InsertKeeps(s, fake, secret, now);
    OrphanCount(s);
    OrphanCount(Insert(s, fake, secret, now));
    SizesInsert(s, fake, secret, now);
  }

  lemma AloneWithout(s: Store, fakes: set<string>, secret: string)
    requires Alone(s, secret)
    ensures Alone(Without(s, fakes), secret)
  {
  }

  /** An onlooker's record of one pair: when it was last used, which other values since, the latest time. */
  datatype Watch = Watch(lastUse: nat, others: set<string>, clock: nat)

  function Observe(cfg: Config, w: Watch, s: Store, op: Op, secret: string, fake: string): Watch {
    match op
    case Use(r, _, now) =>
      if r == secret then Watch(now, {}, now) else Watch(w.lastUse, w.others + {r}, now)
    case LookUp(f, now) =>
      if f == fake then Watch(now, {}, now)
      else if f in Prune(cfg, s, now).byFake then Watch(w.lastUse, w.others + {s.byFake[f].secret}, now)
      else w.(clock := now)
    case _ => w.(clock := op.now)
  }

  /** The operation comes later than all before it, but in time, collides with nothing and leaves room for the pair and the orphans. */
  ghost predicate Spares(cfg: Config, w: Watch, s: Store, op: Op, secret: string, fake: string) {
    && (op.Use? || op.LookUp?)
    && (op.Use? && op.secret != secret ==> op.made != fake)
    && w.clock < op.now && op.now - w.lastUse <= cfg.ttl
    && |Observe(cfg, w, s, op, secret, fake).others| + |Orphans(Prune(cfg, s, op.now))| < cfg.maxEntries
  }

  /** The pair is held, and whatever was touched since its last use belongs to its own or a recorded value. */
  ghost predicate Watches(s: Store, w: Watch, secret: string, fake: string) {
    && Sound(s) && Points(s, secret, fake) && s.byFake[fake] == Entry(secret, w.lastUse)
    && secret !in w.others
    && (forall g :: g in s.byFake && s.byFake[g].secret != secret && s.byFake[g].lastTouched >= w.lastUse ==>
          s.byFake[g].secret in w.others)
    && (forall g :: g in s.byFake ==> s.byFake[g].lastTouched <= w.clock)
  }

  /** ... and no orphan carries its value. */
  ghost predicate Keeps(s: Store, w: Watch, secret: string, fake: string) {
    Watches(s, w, secret, fake) && Alone(s, secret)
  }

  /** If eviction could take the pair, too many other values would have been used since. */
  lemma EvictionSpares(cfg: Config, p: Store, w: Watch, secret: string, fake: string, newcomer: string, v: string)
    requires Keeps(p, w, secret, fake) && newcomer !in p.byReal && IsLru(p, v)
    requires |w.others + {newcomer}| + |Orphans(p)| < cfg.maxEntries <= |p.byFake|
    ensures v != fake
  {
    if v == fake {
      OrphanCount(p);
      var held := p.byReal.Keys - {secret};
      assert p.byReal.Keys == held + {secret};
      forall r | r in held
        ensures r in w.others
      {
        assert p.byFake[p.byReal[r]].secret == r;
      }
      assert held + {newcomer} <= w.others + {newcomer};
      SubsetSize(held + {newcomer}, w.others + {newcomer});
      assert false;
    }
  }

  lemma SurvivesTouch(p: Store, w: Watch, g: string, now: nat, secret: string, fake: string)
    requires Keeps(p, w, secret, fake) && g in p.byFake && w.clock < now
    ensures Keeps(Touch(p, g, now),
                  if g == fake then Watch(now, {}, now) else Watch(w.lastUse, w.others + {p.byFake[g].secret}, now),
                  secret, fake)
  {
    assert p.byFake[g].secret == secret ==> g == fake;
  }

  lemma SurvivesRoom(cfg: Config, p: Store, w: Watch, newcomer: string, room: Store, secret: string, fake: string)
    requires Keeps(p, w, secret, fake) && newcomer !in p.byReal
    requires |w.others + {newcomer}| + |Orphans(p)| < cfg.maxEntries && MakesRoom(cfg, p, room)
    ensures Keeps(room, w, secret, fake) && newcomer !in room.byReal
  {
    if room != p {
      var v :| IsLru(p, v) && room == Without(p, {v});
      EvictionSpares(cfg, p, w, secret, fake, newcomer, v);
      WithoutKeeps(p, {v});
      AloneWithout(p, {v}, secret);
    }
  }

  lemma SurvivesInsert(cfg: Config, p: Store, w: Watch, newcomer: string, made: string, now: nat, s': Store, secret: string, fake: string)
    requires Keeps(p, w, secret, fake) && newcomer !in p.byReal && made != fake && w.clock < now
    requires |w.others + {newcomer}| + |Orphans(p)| < cfg.maxEntries && Inserts(cfg, p, newcomer, made, now, s')
    ensures Keeps(s', Watch(w.lastUse, w.others + {newcomer}, now), secret, fake)
  {
    var room :| MakesRoom(cfg, p, room) && s' == Insert(room, made, newcomer, now);
    SurvivesRoom(cfg, p, w, newcomer, room, secret, fake);
    assert secret in room.byReal;
    InsertKeeps(room, made, newcomer, now);
  }

  lemma SurvivesStep(cfg: Config, s: Store, w: Watch, op: Op, s': Store, secret: string, fake: string)
    requires Keeps(s, w, secret, fake) && Spares(cfg, w, s, op, secret, fake) && Step(cfg, s, op, s')
    ensures Keeps(s', Observe(cfg, w, s, op, secret, fake), secret, fake)
  {
    var p := Prune(cfg, s, op.now);
    WithoutKeeps(s, ExpiredFakes(cfg, s, op.now));
    AloneWithout(s, ExpiredFakes(cfg, s, op.now), secret);
    assert Keeps(p, w, secret, fake);
    if op.Use? {
      if op.secret in p.byReal {
        SurvivesTouch(p, w, p.byReal[op.secret], op.now, secret, fake);
      } else {
        SurvivesInsert(cfg, p, w, op.secret, op.made, op.now, s', secret, fake);
      }
    } else if op.fake in p.byFake {
      SurvivesTouch(p, w, op.fake, op.now, secret, fake);
    }
  }

  /** The record after the first n of a stretch of operations. */
  ghost function Watched(cfg: Config, w: Watch, ops: seq<Op>, stores: seq<Store>, secret: string, fake: string, n: nat): Watch
    requires n <= |ops| < |stores|
  {
    if n == 0 then w
    else Observe(cfg, Watched(cfg, w, ops, stores, secret, fake, n - 1), stores[n - 1], ops[n - 1], secret, fake)
  }

  /** Operation i spares the pair, as the record stands by then. */
  ghost predicate SparesAt(cfg: Config, w: Watch, ops: seq<Op>, stores: seq<Store>, secret: string, fake: string, i: nat)
    requires i < |ops| < |stores|
  {
    Spares(cfg, Watched(cfg, w, ops, stores, secret, fake, i), stores[i], ops[i], secret, fake)
  }

  ghost predicate SparesAll(cfg: Config, w: Watch, ops: seq<Op>, stores: seq<Store>, secret: string, fake: string, n: nat)
    requires n <= |ops| < |stores|
  {
    forall i {:trigger SparesAt(cfg, w, ops, stores, secret, fake, i)} ::
      0 <= i < n ==> SparesAt(cfg, w, ops, stores, secret, fake, i)
  }

  ghost predicate KeepsAt(cfg: Config, w: Watch, ops: seq<Op>, stores: seq<Store>, secret: string, fake: string, i: nat)
    requires i <= |ops| < |stores|
  {
    Keeps(stores[i], Watched(cfg, w, ops, stores, secret, fake, i), secret, fake)
  }

  lemma {:induction false} SurvivesAt(
    cfg: Config, w: Watch, ops: seq<Op>, stores: seq<Store>, secret: string, fake: string, i: nat)
    requires IsStretch(cfg, ops, stores) && i < |ops|
    requires KeepsAt(cfg, w, ops, stores, secret, fake, i) && SparesAt(cfg, w, ops, stores, secret, fake, i)
    ensures KeepsAt(cfg, w, ops, stores, secret, fake, i + 1)
  {
    assert StepAt(cfg, ops, stores, i);
    SurvivesStep(cfg, stores[i], Watched(cfg, w, ops, stores, secret, fake, i), ops[i], stores[i + 1], secret, fake);
  }

  lemma {:induction false} SurvivesRun(
    cfg: Config, w: Watch, ops: seq<Op>, stores: seq<Store>, secret: string, fake: string, n: nat)
    requires IsStretch(cfg, ops, stores) && n <= |ops|
    requires KeepsAt(cfg, w, ops, stores, secret, fake, 0) && SparesAll(cfg, w, ops, stores, secret, fake, n)
    ensures KeepsAt(cfg, w, ops, stores, secret, fake, n)
  {
    if n > 0 {
      SurvivesRun(cfg, w, ops, stores, secret, fake, n - 1);
      assert SparesAt(cfg, w, ops, stores, secret, fake, n - 1);
      SurvivesAt(cfg, w, ops, stores, secret, fake, n - 1);
    }
  }

  /**
   * The pair keeps its fake through any stretch of operations at strictly
   * increasing times that never leaves it idle past the TTL, uses fewer than
   * `max_entries` other values since its last use, orphans counted, and makes no
   * collision, clear or import.
   */
  lemma {:induction false} PairSurvives(
    cfg: Config, w: Watch, ops: seq<Op>, stores: seq<Store>, secret: string, fake: string, n: nat)
    requires IsStretch(cfg, ops, stores) && n <= |ops|
    requires Keeps(stores[0], w, secret, fake) && SparesAll(cfg, w, ops, stores, secret, fake, n)
    ensures Keeps(stores[n], Watched(cfg, w, ops, stores, secret, fake, n), secret, fake)
    ensures Points(stores[n], secret, fake)
  {
    SurvivesRun(cfg, w, ops, stores, secret, fake, n);
  }

  // ----- exactly which pairs survive -----

  /** The pair survives every stretch that spares it. */
  ghost predicate SurvivesAll(cfg: Config, s: Store, w: Watch, secret: string, fake: string) {
    forall ops, stores {:trigger IsStretch(cfg, ops, stores)} ::
      IsStretch(cfg, ops, stores) && stores[0] == s && SparesAll(cfg, w, ops, stores, secret, fake, |ops|) ==>
        Points(stores[|ops|], secret, fake)
  }

  lemma RestoreUnhooks(cfg: Config, s: Store, fake: string, now: nat, g: string)
    requires g in s.byFake && Expired(cfg, s.byFake[g], now)
    ensures s.byFake[g].secret !in Restored(cfg, s, fake, now).0.byReal
  {
    assert g in ExpiredFakes(cfg, s, now);
  }

  /** Restoring the pair's own fake, in time and with room for the orphans, spares the pair. */
  lemma OwnRestore(cfg: Config, s: Store, w: Watch, now: nat, secret: string, fake: string)
    requires Sound(s) && fake in s.byFake && s.byFake[fake] == Entry(secret, w.lastUse)
    requires w.clock < now && now - w.lastUse <= cfg.ttl && |Orphans(Prune(cfg, s, now))| < cfg.maxEntries
    ensures Spares(cfg, w, s, LookUp(fake, now), secret, fake)
    ensures var s' := Restored(cfg, s, fake, now).0;
            && Sound(s') && fake in s'.byFake && s'.byFake[fake] == Entry(secret, now) && |Orphans(s')| < cfg.maxEntries
  {
    var p := Prune(cfg, s, now);
    WithoutKeeps(s, ExpiredFakes(cfg, s, now));
    assert fake in p.byFake;
    assert Orphans(Touch(p, fake, now)) == Orphans(p);
  }

  lemma {:induction false} OwnRestoreAgain(cfg: Config, s1: Store, t: nat, secret: string, fake: string)
    requires Sound(s1) && fake in s1.byFake && s1.byFake[fake] == Entry(secret, t)
    requires cfg.ttl > 0 && |Orphans(s1)| < cfg.maxEntries
    ensures Spares(cfg, Watch(t, {}, t), s1, LookUp(fake, t + cfg.ttl), secret, fake)
  {
    OrphansShrink(s1, ExpiredFakes(cfg, s1, t + cfg.ttl));
    OwnRestore(cfg, s1, Watch(t, {}, t), t + cfg.ttl, secret, fake);
  }

  /** A first restore leaves the other entry of the value as it was, or unhooks the value. */
  lemma {:induction false} OtherStays(cfg: Config, s: Store, secret: string, fake: string, g: string, t: nat, s1: Store)
    requires g in s.byFake && g != fake && s.byFake[g].secret == secret && s1 == Restored(cfg, s, fake, t).0
    ensures secret !in s1.byReal || (g in s1.byFake && s1.byFake[g] == s.byFake[g])
  {
    if Expired(cfg, s.byFake[g], t) {
      RestoreUnhooks(cfg, s, fake, t, g);
    }
  }

  /** A second one, when that entry has expired, unhooks it for sure. */
  lemma {:induction false} OtherExpires(cfg: Config, s1: Store, secret: string, fake: string, g: string, t: nat, s2: Store)
    requires secret !in s1.byReal || (g in s1.byFake && s1.byFake[g].secret == secret && s1.byFake[g].lastTouched < t)
    requires s2 == Restored(cfg, s1, fake, t + cfg.ttl).0
    ensures secret !in s2.byReal
  {
    if secret in s1.byReal {
      RestoreUnhooks(cfg, s1, fake, t + cfg.ttl, g);
    }
  }

  lemma {:induction false} TwoSteps(cfg: Config, s: Store, w: Watch, secret: string, fake: string, t: nat, t': nat, s1: Store, s2: Store)
    requires s1 == Restored(cfg, s, fake, t).0 && s2 == Restored(cfg, s1, fake, t').0
    requires Spares(cfg, w, s, LookUp(fake, t), secret, fake)
    requires Spares(cfg, Watch(t, {}, t), s1, LookUp(fake, t'), secret, fake)
    ensures var ops, stores := [LookUp(fake, t), LookUp(fake, t')], [s, s1, s2];
            IsStretch(cfg, ops, stores) && SparesAll(cfg, w, ops, stores, secret, fake, 2)
  {
    var ops, stores := [LookUp(fake, t), LookUp(fake, t')], [s, s1, s2];
    assert StepAt(cfg, ops, stores, 0) && StepAt(cfg, ops, stores, 1);
    assert Watched(cfg, w, ops, stores, secret, fake, 0) == w;
    assert Watched(cfg, w, ops, stores, secret, fake, 1) == Watch(t, {}, t);
    assert SparesAt(cfg, w, ops, stores, secret, fake, 0) && SparesAt(cfg, w, ops, stores, secret, fake, 1);
  }

  /** A stretch of two operations that spares the pair and loses it. */
  lemma {:induction false} LostInTwo(cfg: Config, s: Store, w: Watch, secret: string, fake: string, a: Op, b: Op, s1: Store, s2: Store)
    requires IsStretch(cfg, [a, b], [s, s1, s2]) && SparesAll(cfg, w, [a, b], [s, s1, s2], secret, fake, 2)
    requires secret !in s2.byReal
    ensures !SurvivesAll(cfg, s, w, secret, fake)
  {
    var ops, stores := [a, b], [s, s1, s2];
    assert IsStretch(cfg, ops, stores) && stores[0] == s && SparesAll(cfg, w, ops, stores, secret, fake, |ops|);
    assert !Points(stores[|ops|], secret, fake);
  }

  /** Some operation can spare the pair: there is time left, and by its end room beside the orphans. */
  ghost predicate CanSpare(cfg: Config, s: Store, w: Watch) {
    w.clock < w.lastUse + cfg.ttl && |Orphans(Prune(cfg, s, w.lastUse + cfg.ttl))| < cfg.maxEntries
  }

  lemma {:induction false} PruneLater(cfg: Config, s: Store, now: nat, later: nat)
    requires Sound(s) && now <= later
    ensures |Orphans(Prune(cfg, s, later))| <= |Orphans(Prune(cfg, s, now))|
  {
    var p := Prune(cfg, s, now);
    WithoutKeeps(s, ExpiredFakes(cfg, s, now));
    OrphansShrink(p, ExpiredFakes(cfg, s, later));
    assert Without(p, ExpiredFakes(cfg, s, later)).byFake == Prune(cfg, s, later).byFake;
    assert Without(p, ExpiredFakes(cfg, s, later)).byReal == Prune(cfg, s, later).byReal;
  }

  /** An operation that spares the pair shows that one can. */
  lemma SparingNeedsRoom(cfg: Config, s: Store, w: Watch, op: Op, secret: string, fake: string)
    requires Sound(s) && Spares(cfg, w, s, op, secret, fake)
    ensures CanSpare(cfg, s, w)
  {
    PruneLater(cfg, s, op.now, w.lastUse + cfg.ttl);
  }

  /** Another entry of the value can always be made to expire first, and takes the pointer with it. */
  lemma {:induction false} OrphanCostsPair(cfg: Config, s: Store, w: Watch, secret: string, fake: string, g: string)
    requires Watches(s, w, secret, fake) && CanSpare(cfg, s, w)
    requires g in s.byFake && g != fake && s.byFake[g].secret == secret
    ensures !SurvivesAll(cfg, s, w, secret, fake)
  {
    var t := w.lastUse + cfg.ttl;
    OwnRestore(cfg, s, w, t, secret, fake);
    var s1 := Restored(cfg, s, fake, t).0;
    OtherStays(cfg, s, secret, fake, g, t, s1);
    SecondRestoreLoses(cfg, s, w, secret, fake, g, t, s1);
  }

  lemma {:induction false} SecondRestoreLoses(cfg: Config, s: Store, w: Watch, secret: string, fake: string, g: string, t: nat, s1: Store)
    requires s1 == Restored(cfg, s, fake, t).0 && Spares(cfg, w, s, LookUp(fake, t), secret, fake)
    requires Sound(s1) && fake in s1.byFake && s1.byFake[fake] == Entry(secret, t) && cfg.ttl > 0 && |Orphans(s1)| < cfg.maxEntries
    requires secret !in s1.byReal || (g in s1.byFake && s1.byFake[g].secret == secret && s1.byFake[g].lastTouched < t)
    ensures !SurvivesAll(cfg, s, w, secret, fake)
  {
    var s2 := Restored(cfg, s1, fake, t + cfg.ttl).0;
    OwnRestoreAgain(cfg, s1, t, secret, fake);
    OtherExpires(cfg, s1, secret, fake, g, t, s2);
    TwoSteps(cfg, s, w, secret, fake, t, t + cfg.ttl, s1, s2);
    LostInTwo(cfg, s, w, secret, fake, LookUp(fake, t), LookUp(fake, t + cfg.ttl), s1, s2);
  }

  lemma {:induction false} NothingSpares(cfg: Config, s: Store, w: Watch, secret: string, fake: string)
    requires Watches(s, w, secret, fake) && !CanSpare(cfg, s, w)
    ensures SurvivesAll(cfg, s, w, secret, fake)
  {
    forall ops, stores | IsStretch(cfg, ops, stores) && stores[0] == s && SparesAll(cfg, w, ops, stores, secret, fake, |ops|)
      ensures Points(stores[|ops|], secret, fake)
    {
      if ops != [] {
        assert SparesAt(cfg, w, ops, stores, secret, fake, 0);
        SparingNeedsRoom(cfg, s, w, ops[0], secret, fake);
        assert false;
      }
    }
  }

  lemma {:induction false} AloneSurvivesAll(cfg: Config, s: Store, w: Watch, secret: string, fake: string)
    requires Keeps(s, w, secret, fake)
    ensures SurvivesAll(cfg, s, w, secret, fake)
  {
    forall ops, stores | IsStretch(cfg, ops, stores) && stores[0] == s && SparesAll(cfg, w, ops, stores, secret, fake, |ops|)
      ensures Points(stores[|ops|], secret, fake)
    {
      PairSurvives(cfg, w, ops, stores, secret, fake, |ops|);
    }
  }

  /**
   * In any map that operations can leave, and for any record that fits it: a pair
   * survives every stretch that spares it if and only if no other entry carries its
   * value, or no operation can spare it.
   */
  lemma {:induction false} PairSurvivesIff(cfg: Config, s: Store, w: Watch, secret: string, fake: string)
    requires Watches(s, w, secret, fake)
    ensures SurvivesAll(cfg, s, w, secret, fake) <==> Alone(s, secret) || !CanSpare(cfg, s, w)
  {
    if Alone(s, secret) {
      AloneSurvivesAll(cfg, s, w, secret, fake);
    } else if !CanSpare(cfg, s, w) {
      NothingSpares(cfg, s, w, secret, fake);
    } else {
      var g :| g in s.byFake && s.byFake[g].secret == secret && s.byReal[secret] != g;
      OrphanCostsPair(cfg, s, w, secret, fake, g);
    }
  }

  /** Every pair of every map that operations can leave has a record that fits it, from the time of the map's last use on. */
  lemma {:induction false} SomeRecordFits(s: Store, secret: string, fake: string, clock: nat)
    requires Sound(s) && Points(s, secret, fake) && forall g :: g in s.byFake ==> s.byFake[g].lastTouched <= clock
    ensures Watches(s, Watch(s.byFake[fake].lastTouched, set g | g in s.byFake && s.byFake[g].secret != secret :: s.byFake[g].secret, clock),
                    secret, fake)
  {
  }

  /** Straight after importing one value twice its pair is not safe, unless no operation can spare it anyway. */
  lemma {:induction false} DuplicateImportIsUnsafe(cfg: Config, f: string, g: string, r: string, now: nat)
    requires f != g
    ensures var s, w := Imported(EMPTY, [(f, r), (g, r)], now), Watch(now, {}, now);
            && Watches(s, w, r, g)
            && (SurvivesAll(cfg, s, w, r, g) <==> cfg.ttl == 0 || cfg.maxEntries <= 1)
  {
    var s, w := Imported(EMPTY, [(f, r), (g, r)], now), Watch(now, {}, now);
    SameValueTwice(f, g, r, now);
    NothingExpires(cfg, s, now + cfg.ttl);
    assert Orphans(s) == {f};
    assert f in s.byFake && s.byFake[f].secret == r && s.byReal[r] != f;
    PairSurvivesIff(cfg, s, w, r, g);
  }

  // ----- recency -----

  /** The operation puts the fake's entry where it is, with this time stamp. */
  ghost predicate Refreshes(op: Op, s': Store, fake: string) {
    !op.Wipe? && fake in s'.byFake && s'.byFake[fake].lastTouched == op.now
  }

  lemma {:induction false} ImportTimes(s: Store, pairs: seq<(string, string)>, now: nat, f: string)
    requires f in Imported(s, pairs, now).byFake
    ensures var e := Imported(s, pairs, now).byFake[f]; e.lastTouched == now || (f in s.byFake && s.byFake[f] == e)
    decreases |pairs|
  {
    if pairs != [] && f != pairs[|pairs| - 1].0 {
      ImportTimes(s, pairs[..|pairs| - 1], now, f);
    }
  }

  /** An operation either refreshes an entry or finds it as it leaves it. */
  lemma StampAt(cfg: Config, ops: seq<Op>, stores: seq<Store>, i: nat, f: string)
    requires IsStretch(cfg, ops, stores) && i < |ops| && f in stores[i + 1].byFake
    ensures Refreshes(ops[i], stores[i + 1], f) || (f in stores[i].byFake && stores[i].byFake[f] == stores[i + 1].byFake[f])
  {
    var s, s', op := stores[i], stores[i + 1], ops[i];
    assert StepAt(cfg, ops, stores, i);
    if op.Load? {
      ImportTimes(s, op.pairs, op.now, f);
    } else if op.Use? && op.secret !in Prune(cfg, s, op.now).byReal {
      var p := Prune(cfg, s, op.now);
      var room :| MakesRoom(cfg, p, room) && s' == Insert(room, op.made, op.secret, op.now);
      assert f != op.made ==> f in room.byFake;
    }
  }

  /** Every time stamp in the map is that of an operation of the run. */
  lemma {:induction false} StampsAreUses(cfg: Config, ops: seq<Op>, stores: seq<Store>, n: nat, f: string)
    requires IsRun(cfg, ops, stores) && n <= |ops| && f in stores[n].byFake
    ensures exists i :: 0 <= i < n && Refreshes(ops[i], stores[i + 1], f) && stores[n].byFake[f] == stores[i + 1].byFake[f]
  {
    StampAt(cfg, ops, stores, n - 1, f);
    if Refreshes(ops[n - 1], stores[n], f) {
      assert Refreshes(ops[n - 1], stores[n - 1 + 1], f);
    } else {
      StampsAreUses(cfg, ops, stores, n - 1, f);
    }
  }

  /** A restore that answers does so for an entry used within the last TTL, and for its value. */
  lemma RestoreIsRecent(cfg: Config, ops: seq<Op>, stores: seq<Store>, n: nat, fake: string, now: nat)
    requires IsRun(cfg, ops, stores) && n <= |ops|
    requires Restored(cfg, stores[n], fake, now).1.Some?
    ensures exists i :: 0 <= i < n && Refreshes(ops[i], stores[i + 1], fake) && now <= ops[i].now + cfg.ttl
                     && Restored(cfg, stores[n], fake, now).1 == Some(stores[i + 1].byFake[fake].secret)
  {
    StampsAreUses(cfg, ops, stores, n, fake);
  }

  // ----- from an empty map to any later use -----

  ghost predicate Increasing(ops: seq<Op>) {
    forall i, j :: 0 <= i < j < |ops| ==> ops[i].now < ops[j].now
  }

  lemma {:induction false} InsertStartsWatch(room: Store, secret: string, made: string, now: nat)
    requires Sound(room) && Alone(room, secret) && secret !in room.byReal
    requires forall g :: g in room.byFake ==> room.byFake[g].lastTouched < now
    ensures Keeps(Insert(room, made, secret, now), Watch(now, {}, now), secret, made)
  {
    InsertKeeps(room, made, secret, now);
  }

  lemma {:induction false} RoomKeeps(cfg: Config, p: Store, room: Store, secret: string)
    requires Sound(p) && Alone(p, secret) && secret !in p.byReal && MakesRoom(cfg, p, room)
    ensures Sound(room) && Alone(room, secret) && secret !in room.byReal
    ensures forall g :: g in room.byFake ==> g in p.byFake && room.byFake[g] == p.byFake[g]
  {
    if room != p {
      var v :| IsLru(p, v) && room == Without(p, {v});
      WithoutKeeps(p, {v});
      AloneWithout(p, {v}, secret);
    }
  }

  /** A use that is later than everything in the map starts a watch. */
  lemma {:induction false} UseStartsWatch(cfg: Config, s: Store, secret: string, made: string, now: nat, s': Store, fake: string)
    requires Sound(s) && Alone(s, secret) && (forall g :: g in s.byFake ==> s.byFake[g].lastTouched < now)
    requires GetsOrInserts(cfg, s, secret, made, now, s', fake)
    ensures Keeps(s', Watch(now, {}, now), secret, fake)
  {
    var p := Prune(cfg, s, now);
    WithoutKeeps(s, ExpiredFakes(cfg, s, now));
    AloneWithout(s, ExpiredFakes(cfg, s, now), secret);
    if secret !in p.byReal {
      var room :| MakesRoom(cfg, p, room) && s' == Insert(room, made, secret, now);
      RoomKeeps(cfg, p, room, secret);
      InsertStartsWatch(room, secret, made, now);
    }
  }

  lemma StartsWatch(cfg: Config, ops: seq<Op>, stores: seq<Store>, k: nat, fake: string)
    requires IsRun(cfg, ops, stores) && Increasing(ops) && k < |ops|
    requires ops[k].Use? && Alone(stores[k], ops[k].secret)
    requires GetsOrInserts(cfg, stores[k], ops[k].secret, ops[k].made, ops[k].now, stores[k + 1], fake)
    ensures Keeps(stores[k + 1], Watch(ops[k].now, {}, ops[k].now), ops[k].secret, fake)
  {
    MapsStayConsistent(cfg, ops, stores, k);
    forall g | g in stores[k].byFake
      ensures stores[k].byFake[g].lastTouched < ops[k].now
    {
      StampsAreUses(cfg, ops, stores, k, g);
    }
    UseStartsWatch(cfg, stores[k], ops[k].secret, ops[k].made, ops[k].now, stores[k + 1], fake);
  }

  lemma {:induction false} SuffixIsStretch(cfg: Config, ops: seq<Op>, stores: seq<Store>, k: nat)
    requires IsStretch(cfg, ops, stores) && k <= |ops|
    ensures IsStretch(cfg, ops[k..], stores[k..])
  {
    forall i | 0 <= i < |ops| - k
      ensures StepAt(cfg, ops[k..], stores[k..], i)
    {
      assert StepAt(cfg, ops, stores, k + i);
    }
  }

  lemma {:induction false} SurvivesSuffix(cfg: Config, ops: seq<Op>, stores: seq<Store>, k: nat, n: nat, w: Watch, secret: string, fake: string)
    requires k <= n <= |ops| && IsStretch(cfg, ops, stores)
    requires Keeps(stores[k], w, secret, fake) && SparesAll(cfg, w, ops[k..], stores[k..], secret, fake, n - k)
    ensures Points(stores[n], secret, fake)
  {
    SuffixIsStretch(cfg, ops, stores, k);
    assert stores[k..][0] == stores[k] && stores[k..][n - k] == stores[n];
    PairSurvives(cfg, w, ops[k..], stores[k..], secret, fake, n - k);
  }

  /**
   * The whole-run statement: from the use at k, which gave `fake`, to any later point
   * n.  What came before k is free, as long as it left no orphan of the value.
   */
  lemma {:induction false} UsedPairSurvives(cfg: Config, ops: seq<Op>, stores: seq<Store>, k: nat, n: nat, fake: string)
    requires IsRun(cfg, ops, stores) && Increasing(ops) && k < n <= |ops|
    requires ops[k].Use? && Alone(stores[k], ops[k].secret)
    requires GetsOrInserts(cfg, stores[k], ops[k].secret, ops[k].made, ops[k].now, stores[k + 1], fake)
    requires SparesAll(cfg, Watch(ops[k].now, {}, ops[k].now), ops[k + 1..], stores[k + 1..], ops[k].secret, fake, n - k - 1)
    ensures Points(stores[n], ops[k].secret, fake)
  {
    StartsWatch(cfg, ops, stores, k, fake);
    SurvivesSuffix(cfg, ops, stores, k + 1, n, Watch(ops[k].now, {}, ops[k].now), ops[k].secret, fake);
  }
}
