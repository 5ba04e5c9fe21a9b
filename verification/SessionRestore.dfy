/**
 * Why a session scrub can be undone: the map holds every pair that was handed to
 * it, and putting the fakes back, in whatever order, rebuilds the text.
 */
module SessionRestore {
  import opened Basics
  import opened Text
  import opened SessionMaps
  import opened SessionRuns
  import opened Restore

  // ----- the map holds what one scrub handed to it -----

  /** One fake per value and one value per fake. */
  ghost predicate OneToOne(uses: seq<Pair>) {
    forall i, j :: 0 <= i < |uses| && 0 <= j < |uses| ==> (uses[i].0 == uses[j].0 <==> uses[i].1 == uses[j].1)
  }

  ghost function Secrets(uses: seq<Pair>): (r: set<string>)
    ensures forall i :: 0 <= i < |uses| ==> uses[i].0 in r
  {
    set i | 0 <= i < |uses| :: uses[i].0
  }

  /** The values of entries that are not older than `now`. */
  ghost function FreshSecrets(s: Store, now: nat): set<string> {
    set f | f in s.byFake && s.byFake[f].lastTouched >= now :: s.byFake[f].secret
  }

  /** An entry already held for a value to come carries the fake to come. */
  ghost predicate Agrees(s: Store, uses: seq<Pair>) {
    forall i :: 0 <= i < |uses| && uses[i].0 in s.byReal ==> s.byReal[uses[i].0] == uses[i].1
  }

  ghost predicate Holds(s: Store, use: Pair, now: nat) {
    use.1 in s.byFake && s.byFake[use.1] == Entry(use.0, now)
  }

  /** After the first k pairs: they are held, whatever is recent is accounted for, and so are the orphans. */
  ghost predicate Progress(s: Store, uses: seq<Pair>, k: nat, recent: set<string>, spare: nat, now: nat)
    requires k <= |uses|
  {
    && Sound(s) && Agrees(s, uses) && |Orphans(s)| <= spare
    && (forall i :: 0 <= i < k ==> Holds(s, uses[i], now))
    && (forall g :: g in s.byFake && s.byFake[g].lastTouched >= now ==> s.byFake[g].secret in Secrets(uses) + recent)
  }

  /** While there is room for every value of the scrub, eviction takes an older entry. */
  lemma EvictsOlder(cfg: Config, p: Store, uses: seq<Pair>, k: nat, recent: set<string>, spare: nat, now: nat, v: string)
    requires k < |uses| && Progress(p, uses, k, recent, spare, now) && uses[k].0 !in p.byReal && IsLru(p, v)
    requires |Secrets(uses) + recent| + spare <= cfg.maxEntries <= |p.byFake|
    ensures p.byFake[v].lastTouched < now
  {
    if p.byFake[v].lastTouched >= now {
      OrphanCount(p);
      var all := Secrets(uses) + recent;
      forall r | r in p.byReal.Keys
        ensures r in all - {uses[k].0}
      {
        assert p.byFake[p.byReal[r]].secret == r;
      }
      SubsetSize(p.byReal.Keys, all - {uses[k].0});
      assert false;
    }
  }

  lemma ProgressPrunes(cfg: Config, s: Store, uses: seq<Pair>, k: nat, recent: set<string>, spare: nat, now: nat)
    requires k <= |uses| && Progress(s, uses, k, recent, spare, now)
    ensures Progress(Prune(cfg, s, now), uses, k, recent, spare, now)
  {
    WithoutKeeps(s, ExpiredFakes(cfg, s, now));
    OrphansShrink(s, ExpiredFakes(cfg, s, now));
  }

  lemma ProgressTouches(p: Store, uses: seq<Pair>, k: nat, recent: set<string>, spare: nat, now: nat)
    requires k < |uses| && OneToOne(uses) && Progress(p, uses, k, recent, spare, now) && uses[k].0 in p.byReal
    ensures Progress(Touch(p, p.byReal[uses[k].0], now), uses, k + 1, recent, spare, now)
  {
    var s' := Touch(p, p.byReal[uses[k].0], now);
    assert Holds(s', uses[k], now);
    assert Orphans(s') == Orphans(p);
  }

  lemma ProgressMakesRoom(cfg: Config, p: Store, uses: seq<Pair>, k: nat, recent: set<string>, spare: nat, now: nat, room: Store)
    requires k < |uses| && Progress(p, uses, k, recent, spare, now) && uses[k].0 !in p.byReal
    requires |Secrets(uses) + recent| + spare <= cfg.maxEntries && MakesRoom(cfg, p, room)
    ensures Progress(room, uses, k, recent, spare, now) && uses[k].0 !in room.byReal
  {
    if room != p {
      var v :| IsLru(p, v) && room == Without(p, {v});
      EvictsOlder(cfg, p, uses, k, recent, spare, now, v);
      WithoutKeeps(p, {v});
      OneLess(p, v);
    }
  }

  lemma ProgressPuts(room: Store, uses: seq<Pair>, k: nat, recent: set<string>, spare: nat, now: nat)
    requires k < |uses| && OneToOne(uses) && Progress(room, uses, k, recent, spare, now) && uses[k].0 !in room.byReal
    ensures Progress(Insert(room, uses[k].1, uses[k].0, now), uses, k + 1, recent, spare, now)
  {
    var s' := Insert(room, uses[k].1, uses[k].0, now);
    InsertKeeps(room, uses[k].1, uses[k].0, now);
    InsertMakesNoOrphan(room, uses[k].1, uses[k].0, now);
    forall i | 0 <= i < k + 1
      ensures Holds(s', uses[i], now)
    {
      assert i < k ==> Holds(room, uses[i], now);
    }
    assert Agrees(s', uses);
  }

  lemma ProgressInserts(cfg: Config, p: Store, uses: seq<Pair>, k: nat, recent: set<string>, spare: nat, now: nat, s': Store)
    requires k < |uses| && OneToOne(uses) && Progress(p, uses, k, recent, spare, now) && uses[k].0 !in p.byReal
    requires |Secrets(uses) + recent| + spare <= cfg.maxEntries && Inserts(cfg, p, uses[k].0, uses[k].1, now, s')
    ensures Progress(s', uses, k + 1, recent, spare, now)
  {
    var room :| MakesRoom(cfg, p, room) && s' == Insert(room, uses[k].1, uses[k].0, now);
    ProgressMakesRoom(cfg, p, uses, k, recent, spare, now, room);
    ProgressPuts(room, uses, k, recent, spare, now);
  }

  lemma ProgressStep(cfg: Config, s: Store, uses: seq<Pair>, k: nat, recent: set<string>, spare: nat, now: nat, s': Store, fake: string)
    requires k < |uses| && OneToOne(uses) && Progress(s, uses, k, recent, spare, now)
    requires |Secrets(uses) + recent| + spare <= cfg.maxEntries && GetsOrInserts(cfg, s, uses[k].0, uses[k].1, now, s', fake)
    ensures Progress(s', uses, k + 1, recent, spare, now)
  {
    ProgressPrunes(cfg, s, uses, k, recent, spare, now);
    var p := Prune(cfg, s, now);
    if uses[k].0 in p.byReal {
      ProgressTouches(p, uses, k, recent, spare, now);
    } else {
      ProgressInserts(cfg, p, uses, k, recent, spare, now, s');
    }
  }

  lemma ProgressHandsOver(cfg: Config, uses: seq<Pair>, now: nat, stores: seq<Store>, k: nat, recent: set<string>, spare: nat)
    requires HandsOverAll(cfg, uses, now, stores) && k < |uses| && OneToOne(uses) && Progress(stores[k], uses, k, recent, spare, now)
    requires |Secrets(uses) + recent| + spare <= cfg.maxEntries
    ensures Progress(stores[k + 1], uses, k + 1, recent, spare, now)
  {
    assert HandsOver(cfg, uses, now, stores, k);
    var fake :| GetsOrInserts(cfg, stores[k], uses[k].0, uses[k].1, now, stores[k + 1], fake);
    ProgressStep(cfg, stores[k], uses, k, recent, spare, now, stores[k + 1], fake);
  }

  lemma {:induction false} ProgressRun(cfg: Config, uses: seq<Pair>, now: nat, stores: seq<Store>, k: nat, recent: set<string>, spare: nat)
    requires HandsOverAll(cfg, uses, now, stores) && k <= |uses| && OneToOne(uses) && Progress(stores[0], uses, 0, recent, spare, now)
    requires |Secrets(uses) + recent| + spare <= cfg.maxEntries
    ensures Progress(stores[k], uses, k, recent, spare, now)
  {
    if k > 0 {
      ProgressRun(cfg, uses, now, stores, k - 1, recent, spare);
      ProgressHandsOver(cfg, uses, now, stores, k - 1, recent, spare);
    }
  }

  lemma {:induction false} PruneTwice(cfg: Config, s: Store, now: nat)
    ensures Prune(cfg, Prune(cfg, s, now), now) == Prune(cfg, s, now)
  {
    NothingExpires(cfg, Prune(cfg, s, now), now);
  }

  lemma {:induction false} TakesFromPruned(cfg: Config, s: Store, use: Pair, now: nat, s': Store)
    requires TakesPair(cfg, s, use, now, s')
    ensures TakesPair(cfg, Prune(cfg, s, now), use, now, s')
  {
    PruneTwice(cfg, s, now);
    var fake :| GetsOrInserts(cfg, s, use.0, use.1, now, s', fake);
    assert GetsOrInserts(cfg, Prune(cfg, s, now), use.0, use.1, now, s', fake);
  }

  /** Every hand-over prunes first, so the first might as well start from the pruned map. */
  lemma {:induction false} HandsOverFromPruned(cfg: Config, uses: seq<Pair>, now: nat, stores: seq<Store>)
    requires HandsOverAll(cfg, uses, now, stores) && uses != []
    ensures HandsOverAll(cfg, uses, now, stores[0 := Prune(cfg, stores[0], now)])
  {
    var stores' := stores[0 := Prune(cfg, stores[0], now)];
    forall i | 0 <= i < |uses|
      ensures HandsOver(cfg, uses, now, stores', i)
    {
      assert HandsOver(cfg, uses, now, stores, i);
      if i == 0 {
        TakesFromPruned(cfg, stores[0], uses[0], now, stores[1]);
      }
    }
  }

  lemma {:induction false} HeldFromPruned(cfg: Config, p: Store, uses: seq<Pair>, now: nat, s': Store)
    requires OneToOne(uses) && Sound(p) && Agrees(p, uses) && Stores(cfg, p, uses, now, s')
    requires |Secrets(uses) + FreshSecrets(p, now)| + |Orphans(p)| <= cfg.maxEntries
    ensures Sound(s') && |Orphans(s')| <= |Orphans(p)| && forall i :: 0 <= i < |uses| ==> Holds(s', uses[i], now)
  {
    var stores :| HandsOverAll(cfg, uses, now, stores) && stores[0] == p && stores[|uses|] == s';
    ProgressRun(cfg, uses, now, stores, |uses|, FreshSecrets(p, now), |Orphans(p)|);
  }

  /**
   * Within one scrub no pair displaces or evicts another: if the values it uses, with
   * those already recent and the orphans that have not expired, fit the map, every
   * pair handed over is held at the end.
   */
  lemma {:induction false} EveryPairIsHeld(cfg: Config, s: Store, uses: seq<Pair>, now: nat, s': Store)
    requires Sound(s) && Stores(cfg, s, uses, now, s') && OneToOne(uses)
    requires var p := Prune(cfg, s, now);
             Agrees(p, uses) && |Secrets(uses) + FreshSecrets(p, now)| + |Orphans(p)| <= cfg.maxEntries
    ensures Sound(s') && |Orphans(s')| <= |Orphans(s)| && (Inverse(s) ==> Inverse(s'))
    ensures forall i :: 0 <= i < |uses| ==> Holds(s', uses[i], now)
    ensures forall i, later :: 0 <= i < |uses| && now <= later <= now + cfg.ttl ==>
              Restored(cfg, s', uses[i].1, later).1 == Some(uses[i].0)
  {
    var stores :| HandsOverAll(cfg, uses, now, stores) && stores[0] == s && stores[|uses|] == s';
    if uses != [] {
      HandsOverFromPruned(cfg, uses, now, stores);
      WithoutKeeps(s, ExpiredFakes(cfg, s, now));
      OrphansShrink(s, ExpiredFakes(cfg, s, now));
      HeldFromPruned(cfg, Prune(cfg, s, now), uses, now, s');
    }
    InverseIffNoOrphans(s);
    InverseIffNoOrphans(s');
  }

  /** Pruning only makes the premises easier to meet. */
  lemma {:induction false} FitsPruned(cfg: Config, s: Store, uses: seq<Pair>, now: nat)
    requires Sound(s) && Agrees(s, uses) && |Secrets(uses) + FreshSecrets(s, now)| + |Orphans(s)| <= cfg.maxEntries
    ensures var p := Prune(cfg, s, now);
            Agrees(p, uses) && |Secrets(uses) + FreshSecrets(p, now)| + |Orphans(p)| <= cfg.maxEntries
  {
    var p := Prune(cfg, s, now);
    OrphansShrink(s, ExpiredFakes(cfg, s, now));
    SubsetSize(Secrets(uses) + FreshSecrets(p, now), Secrets(uses) + FreshSecrets(s, now));
  }

  /** Of two entries of one time, room for a third may be made by taking the first. */
  lemma {:induction false} EvictsFirst(cfg: Config, v: string, a: string, w: string, b: string, byReal: map<string, string>, now: nat)
    requires v != w && cfg.maxEntries == 2
    ensures var s := Two(v, Entry(a, now), w, Entry(b, now), byReal);
            Prune(cfg, s, now) == s && MakesRoom(cfg, s, One(w, Entry(b, now), byReal - {a}))
  {
    var s := Two(v, Entry(a, now), w, Entry(b, now), byReal);
    NothingExpires(cfg, s, now);
    WithoutFirst(v, Entry(a, now), w, Entry(b, now), byReal);
    FirstIsLru(v, a, w, b, byReal, now);
  }

  lemma FirstIsLru(v: string, a: string, w: string, b: string, byReal: map<string, string>, now: nat)
    requires v != w
    ensures var s := Two(v, Entry(a, now), w, Entry(b, now), byReal); IsLru(s, v) && |s.byFake| == 2
  {
    var s := Two(v, Entry(a, now), w, Entry(b, now), byReal);
    assert s.byFake.Keys == {v, w};
  }

  lemma {:induction false} TakesByEvicting(cfg: Config, v: string, a: string, w: string, b: string,
                                           byReal: map<string, string>, use: Pair, now: nat)
    requires v != w && cfg.maxEntries == 2 && use.0 !in byReal
    ensures TakesPair(cfg, Two(v, Entry(a, now), w, Entry(b, now), byReal), use, now,
                      Insert(One(w, Entry(b, now), byReal - {a}), use.1, use.0, now))
  {
    EvictsFirst(cfg, v, a, w, b, byReal, now);
    assert GetsOrInserts(cfg, Two(v, Entry(a, now), w, Entry(b, now), byReal), use.0, use.1, now,
                         Insert(One(w, Entry(b, now), byReal - {a}), use.1, use.0, now), use.1);
  }

  /** The pair (a, x) may push out the orphan, and (r, g) then pushes out x. */
  lemma {:induction false} EvictsOrphanThenPair(cfg: Config, f: string, g: string, x: string, a: string, r: string, now: nat)
    requires cfg.maxEntries == 2 && f != g && g != x && a != r
    ensures var s := Two(f, Entry(r, now), g, Entry(r, now), map[r := g]);
            Stores(cfg, s, [(a, x), (r, g)], now, Insert(One(g, Entry(r, now), map[]), g, r, now))
  {
    TakesByEvicting(cfg, f, r, g, r, map[r := g], (a, x), now);
    TakesByEvicting(cfg, x, a, g, r, map[a := x], (r, g), now);
    assert map[r := g] - {r} == map[] && map[a := x] - {a} == map[];
    InsertBeside(g, Entry(r, now), x, a, now);
    StoresTwo(cfg, Two(f, Entry(r, now), g, Entry(r, now), map[r := g]), (a, x), (r, g), now,
              Two(x, Entry(a, now), g, Entry(r, now), map[a := x]), Insert(One(g, Entry(r, now), map[]), g, r, now));
  }

  lemma InsertBeside(g: string, y: Entry, x: string, a: string, now: nat)
    requires g != x
    ensures Insert(One(g, y, map[]), x, a, now) == Two(x, Entry(a, now), g, y, map[a := x])
  {
  }

  /** The orphans must be counted: one takes up room, and evicting it unhooks the live entry of its value. */
  lemma {:induction false} NonInverseStoreLosesPair(f: string, g: string, x: string, a: string, r: string, now: nat) returns (s': Store)
    requires f != g && f != x && g != x && a != r
    ensures var cfg, uses, s := Config(2, 10), [(a, x), (r, g)], Imported(EMPTY, [(f, r), (g, r)], now);
            && OneToOne(uses) && Sound(s) && Agrees(s, uses) && |Secrets(uses) + FreshSecrets(s, now)| <= cfg.maxEntries
            && Stores(cfg, s, uses, now, s') && x !in s'.byFake
  {
    var uses, s := [(a, x), (r, g)], Imported(EMPTY, [(f, r), (g, r)], now);
    DuplicateImportBreaksInverse(f, g, r, now);
    SameValueTwice(f, g, r, now);
    assert s == Two(f, Entry(r, now), g, Entry(r, now), map[r := g]);
    TwoValues(uses, s, now, a, r);
    EvictsOrphanThenPair(Config(2, 10), f, g, x, a, r, now);
    s' := Insert(One(g, Entry(r, now), map[]), g, r, now);
  }

  lemma {:induction false} TwoValues(uses: seq<Pair>, s: Store, now: nat, a: string, r: string)
    requires |uses| == 2 && uses[0].0 == a && uses[1].0 == r && a != r
    requires forall f :: f in s.byFake ==> s.byFake[f].secret == r
    ensures |Secrets(uses) + FreshSecrets(s, now)| <= 2
  {
    assert Secrets(uses) + FreshSecrets(s, now) <= {a, r};
    SubsetSize(Secrets(uses) + FreshSecrets(s, now), {a, r});
  }

  // ----- putting the fakes back -----

  /** The pieces of the text once the values of `done` are back. */
  ghost function Mixed(values: seq<string>, fakes: seq<string>, done: set<string>): (r: seq<string>)
    requires |values| == |fakes|
    ensures |r| == |values| && forall i :: 0 <= i < |r| ==> r[i] == if values[i] in done then values[i] else fakes[i]
  {
    seq(|values|, i requires 0 <= i < |values| => if values[i] in done then values[i] else fakes[i])
  }

  /** With `done` put back, the fake occurs only where scrub wrote it and it still stands. */
  ghost predicate OnlyWritten(gaps: seq<string>, values: seq<string>, fakes: seq<string>, done: set<string>, fake: string)
    requires |gaps| == |values| + 1 && |values| == |fakes|
  {
    var pieces := Mixed(values, fakes, done);
    forall p {:trigger OccursAt(Weave(gaps, pieces), fake, p)} :: OccursAt(Weave(gaps, pieces), fake, p) ==>
      exists i :: 0 <= i < |values| && values[i] !in done && fakes[i] == fake && p == PieceAt(gaps, pieces, i)
  }

  /** ... and so for every set of values that are back. */
  ghost predicate NeverElsewhere(gaps: seq<string>, values: seq<string>, fakes: seq<string>, fake: string)
    requires |gaps| == |values| + 1 && |values| == |fakes|
  {
    forall done :: OnlyWritten(gaps, values, fakes, done, fake)
  }

  ghost predicate Matched(values: seq<string>, fakes: seq<string>) {
    && |values| == |fakes|
    && (forall i :: 0 <= i < |values| ==> values[i] != [] && fakes[i] != [])
    && (forall i, j :: 0 <= i < |values| && 0 <= j < |values| ==> (values[i] == values[j] <==> fakes[i] == fakes[j]))
  }

  /** How many pieces have their value back. */
  ghost function Back(values: seq<string>, done: set<string>): nat {
    if values == [] then 0
    else Back(values[..|values| - 1], done) + (if values[|values| - 1] in done then 1 else 0)
  }

  lemma {:induction false} BackAll(values: seq<string>, done: set<string>)
    requires forall i :: 0 <= i < |values| ==> values[i] in done
    ensures Back(values, done) == |values|
    decreases |values|
  {
    if values != [] {
      BackAll(values[..|values| - 1], done);
    }
  }

  lemma {:induction false} BackNone(values: seq<string>)
    ensures Back(values, {}) == 0
    decreases |values|
  {
    if values != [] {
      BackNone(values[..|values| - 1]);
    }
  }

  lemma {:induction false} OccurrencesSplit(a: seq<string>, b: seq<string>, x: string)
    ensures Occurrences(a + b, x) == Occurrences(a, x) + Occurrences(b, x)
    decreases |a|
  {
    if a == [] {
      assert a + b == b;
    } else {
      assert (a + b)[1..] == a[1..] + b;
      OccurrencesSplit(a[1..], b, x);
    }
  }

  /** If the pieces that read `fake` are those of one value, exchanging them adds that value. */
  lemma {:induction false} BackGrows(values: seq<string>, pieces: seq<string>, done: set<string>, v: string, fake: string)
    requires |pieces| == |values| && v !in done
    requires forall i :: 0 <= i < |values| ==> (pieces[i] == fake <==> values[i] == v)
    ensures Back(values, done + {v}) == Back(values, done) + Occurrences(pieces, fake)
    decreases |values|
  {
    if values != [] {
      var n := |values| - 1;
      BackGrows(values[..n], pieces[..n], done, v, fake);
      assert pieces == pieces[..n] + [pieces[n]];
      OccurrencesSplit(pieces[..n], [pieces[n]], fake);
      assert Occurrences([pieces[n]], fake) == if pieces[n] == fake then 1 else 0;
    }
  }

  lemma {:induction false} PieceStartsDiffer(gaps: seq<string>, pieces: seq<string>, i: nat, j: nat)
    requires |gaps| == |pieces| + 1 && i < |pieces| && j < |pieces| && i != j
    requires pieces[i] != [] && pieces[j] != []
    ensures PieceAt(gaps, pieces, i) != PieceAt(gaps, pieces, j)
  {
    if i < j {
      PiecesInOrder(gaps, pieces, i, j);
    } else {
      PiecesInOrder(gaps, pieces, j, i);
    }
  }

  /** A piece reads `fake` exactly if it still stands for the fake's value. */
  lemma PiecesReadingFake(gaps: seq<string>, values: seq<string>, fakes: seq<string>, done: set<string>, k: nat)
    requires |gaps| == |values| + 1 && Matched(values, fakes) && k < |values| && values[k] !in done
    requires OnlyWritten(gaps, values, fakes, done, fakes[k])
    ensures forall j :: 0 <= j < |values| ==> (Mixed(values, fakes, done)[j] == fakes[k] <==> values[j] == values[k])
    ensures OnlyPieces(gaps, Mixed(values, fakes, done), fakes[k])
  {
    var pieces := Mixed(values, fakes, done);
    forall j | 0 <= j < |values| && pieces[j] == fakes[k]
      ensures values[j] == values[k]
    {
      PieceOccurs(gaps, pieces, j);
      assert OccursAt(Weave(gaps, pieces), fakes[k], PieceAt(gaps, pieces, j));
      var i :| 0 <= i < |values| && values[i] !in done && fakes[i] == fakes[k]
               && PieceAt(gaps, pieces, j) == PieceAt(gaps, pieces, i);
      if i != j {
        PieceStartsDiffer(gaps, pieces, i, j);
      }
    }
    forall p | OccursAt(Weave(gaps, pieces), fakes[k], p)
      ensures exists i :: 0 <= i < |pieces| && pieces[i] == fakes[k] && p == PieceAt(gaps, pieces, i)
    {
      var i :| 0 <= i < |values| && values[i] !in done && fakes[i] == fakes[k] && p == PieceAt(gaps, pieces, i);
      assert pieces[i] == fakes[k];
    }
  }

  /** One replacement puts one value back everywhere. */
  lemma PutBackOne(gaps: seq<string>, values: seq<string>, fakes: seq<string>, done: set<string>, k: nat)
    requires |gaps| == |values| + 1 && Matched(values, fakes) && k < |values| && values[k] !in done
    requires NeverElsewhere(gaps, values, fakes, fakes[k])
    ensures var text := Weave(gaps, Mixed(values, fakes, done));
            && Replace(text, fakes[k], values[k]) == Weave(gaps, Mixed(values, fakes, done + {values[k]}))
            && Back(values, done + {values[k]}) == Back(values, done) + Count(text, fakes[k])
  {
    var pieces := Mixed(values, fakes, done);
    PiecesReadingFake(gaps, values, fakes, done, k);
    ReplaceExchanges(gaps, pieces, fakes[k], values[k]);
    assert Exchange(pieces, fakes[k], values[k]) == Mixed(values, fakes, done + {values[k]});
    BackGrows(values, pieces, done, values[k], fakes[k]);
  }

  /** The store answers for every fake that scrub wrote, at time `now`. */
  ghost predicate Answers(cfg: Config, s: Store, values: seq<string>, fakes: seq<string>, now: nat)
    requires |values| == |fakes|
  {
    forall i :: 0 <= i < |values| ==> Restored(cfg, s, fakes[i], now).1 == Some(values[i])
  }

  lemma AnswersStill(cfg: Config, s: Store, values: seq<string>, fakes: seq<string>, now: nat, fake: string)
    requires |values| == |fakes| && Answers(cfg, s, values, fakes, now)
    ensures Answers(cfg, Restored(cfg, s, fake, now).0, values, fakes, now)
  {
    var s' := Restored(cfg, s, fake, now).0;
    forall i | 0 <= i < |values|
      ensures Restored(cfg, s', fakes[i], now).1 == Some(values[i])
    {
      assert Restored(cfg, s, fakes[i], now).1 == Some(values[i]);
    }
  }

  ghost function DoneAfter(values: seq<string>, fakes: seq<string>, done: set<string>, order: seq<string>): set<string>
    requires |values| == |fakes|
  {
    done + set i | 0 <= i < |values| && fakes[i] in order :: values[i]
  }

  /** Each fake still to visit stands for a value that is not back yet, and comes once. */
  ghost predicate Pending(values: seq<string>, fakes: seq<string>, done: set<string>, order: seq<string>)
    requires |values| == |fakes|
  {
    && (forall i, j :: 0 <= i < j < |order| ==> order[i] != order[j])
    && (forall n :: 0 <= n < |order| ==> StandsFor(values, fakes, done, order[n]))
  }

  ghost predicate StandsFor(values: seq<string>, fakes: seq<string>, done: set<string>, fake: string)
    requires |values| == |fakes|
  {
    exists i :: 0 <= i < |fakes| && fakes[i] == fake && values[i] !in done
  }

  lemma PendingTail(values: seq<string>, fakes: seq<string>, done: set<string>, order: seq<string>, k: nat)
    requires Matched(values, fakes) && order != [] && Pending(values, fakes, done, order)
    requires k < |values| && fakes[k] == order[0]
    ensures Pending(values, fakes, done + {values[k]}, order[1..])
    ensures DoneAfter(values, fakes, done + {values[k]}, order[1..]) == DoneAfter(values, fakes, done, order)
  {
    var rest, done' := order[1..], done + {values[k]};
    forall n | 0 <= n < |rest|
      ensures StandsFor(values, fakes, done', rest[n])
    {
      assert rest[n] == order[n + 1] && StandsFor(values, fakes, done, order[n + 1]);
      var i :| 0 <= i < |fakes| && fakes[i] == order[n + 1] && values[i] !in done;
      assert order[0] != order[n + 1];
      assert fakes[i] == rest[n] && values[i] !in done';
    }
    assert order == [order[0]] + rest;
    forall i | 0 <= i < |values|
      ensures fakes[i] in order <==> values[i] == values[k] || fakes[i] in rest
    {
    }
  }

  lemma {:induction false} PutBackFirst(cfg: Config, s: Store, order: seq<string>, now: nat, text: string, secret: string, text': string)
    requires order != [] && Restored(cfg, s, order[0], now).1 == Some(secret) && text' == Replace(text, order[0], secret)
    ensures var s' := Restored(cfg, s, order[0], now).0;
            && PutBack(cfg, s, order, now, text) == PutBack(cfg, s', order[1..], now, text')
            && PutBackCount(cfg, s, order, now, text) == Count(text, order[0]) + PutBackCount(cfg, s', order[1..], now, text')
  {
  }

  /** Putting back in any order: what is reached depends only on which fakes were visited. */
  lemma {:induction false} PutBackAll(
    cfg: Config, s: Store, order: seq<string>, now: nat,
    gaps: seq<string>, values: seq<string>, fakes: seq<string>, done: set<string>)
    requires |gaps| == |values| + 1 && Matched(values, fakes) && Answers(cfg, s, values, fakes, now)
    requires (forall f :: f in order ==> NeverElsewhere(gaps, values, fakes, f)) && Pending(values, fakes, done, order)
    ensures var text, all := Weave(gaps, Mixed(values, fakes, done)), DoneAfter(values, fakes, done, order);
            && PutBack(cfg, s, order, now, text).1 == Weave(gaps, Mixed(values, fakes, all))
            && Back(values, all) == Back(values, done) + PutBackCount(cfg, s, order, now, text)
    decreases |order|
  {
    if order == [] {
      assert DoneAfter(values, fakes, done, order) == done;
    } else {
      assert StandsFor(values, fakes, done, order[0]);
      var k :| 0 <= k < |fakes| && fakes[k] == order[0] && values[k] !in done;
      AnswersStill(cfg, s, values, fakes, now, order[0]);
      assert order[0] in order && forall f :: f in order[1..] ==> f in order;
      PutBackOne(gaps, values, fakes, done, k);
      PendingTail(values, fakes, done, order, k);
      assert Restored(cfg, s, fakes[k], now).1 == Some(values[k]);
      PutBackFirst(cfg, s, order, now, Weave(gaps, Mixed(values, fakes, done)), values[k],
                   Weave(gaps, Mixed(values, fakes, done + {values[k]})));
      PutBackAll(cfg, Restored(cfg, s, order[0], now).0, order[1..], now, gaps, values, fakes, done + {values[k]});
    }
  }

  /**
   * The session round trip on texts.  `values` were replaced by `fakes`; the store
   * answers for all of them; and in no text reached by putting some values back
   * does a stored fake occur except where scrub wrote it.  Then visiting the stored
   * fakes that occur, in any order, gives the input back and counts every piece.
   */
  lemma PutBackRebuilds(
    cfg: Config, s: Store, order: seq<string>, now: nat, gaps: seq<string>, values: seq<string>, fakes: seq<string>)
    requires |gaps| == |values| + 1 && Matched(values, fakes) && Answers(cfg, s, values, fakes, now)
    requires forall f :: f in s.byFake ==> NeverElsewhere(gaps, values, fakes, f)
    requires ListsFakes(s, Weave(gaps, fakes), order)
    ensures PutBack(cfg, s, order, now, Weave(gaps, fakes)).1 == Weave(gaps, values)
    ensures PutBackCount(cfg, s, order, now, Weave(gaps, fakes)) == |values|
  {
    var text := Weave(gaps, fakes);
    assert Mixed(values, fakes, {}) == fakes;
    forall n | 0 <= n < |order|
      ensures order[n] in s.byFake
      ensures StandsFor(values, fakes, {}, order[n])
    {
      assert order[n] in order && NeverElsewhere(gaps, values, fakes, order[n]);
      var p := Find(text, order[n], 0).value;
      assert OnlyWritten(gaps, values, fakes, {}, order[n]);
      assert OccursAt(Weave(gaps, Mixed(values, fakes, {})), order[n], p);
    }
    PutBackAll(cfg, s, order, now, gaps, values, fakes, {});
    var all := DoneAfter(values, fakes, {}, order);
    forall i | 0 <= i < |values|
      ensures values[i] in all
    {
      PieceOccurs(gaps, fakes, i);
      assert Contains(text, fakes[i]);
      assert Restored(cfg, s, fakes[i], now).1 == Some(values[i]);
      assert fakes[i] in order;
    }
    assert Mixed(values, fakes, all) == values;
    BackAll(values, all);
    BackNone(values);
  }
}
