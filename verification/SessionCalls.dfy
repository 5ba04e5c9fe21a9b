/**
 * Any number of `scrub --session` calls on one path, each in its own process: the
 * file adds up what they wrote, so the output of each can still be restored.
 */
module SessionCalls {
  import opened Basics
  import opened Text
  import opened ExactMatcher
  import opened SessionMaps
  import opened SessionRestore
  import opened Engine
  import opened RoundTrips
  import opened MixedRoundTrip
  import opened VaultIo
  import opened Vault
  import opened SessionFile
  import opened SessionCommands
  import SessionRuns

  // ----- pairs -----

  /** A fake and its value. */
  type Known = set<(string, string)>

  ghost function PairsIn(s: Store): Known {
    set f | f in s.byFake :: (f, s.byFake[f].secret)
  }

  lemma PairIsEntry(s: Store, p: (string, string))
    ensures p in PairsIn(s) <==> p.0 in s.byFake && s.byFake[p.0].secret == p.1
  {
  }

  ghost function Listed(entries: seq<(string, string)>): Known {
    set p | p in entries
  }

  /** The pairs of the first n uses. */
  ghost function Used(uses: seq<Pair>, n: nat): Known
    requires n <= |uses|
  {
    if n == 0 then {} else Used(uses, n - 1) + {(uses[n - 1].1, uses[n - 1].0)}
  }

  /** One fake per value and one value per fake. */
  ghost predicate Coherent(known: Known) {
    forall p, q :: p in known && q in known ==> (p.0 == q.0 <==> p.1 == q.1)
  }

  ghost function Values(known: Known): set<string> {
    set p | p in known :: p.1
  }

  lemma {:induction false} UsedHas(uses: seq<Pair>, n: nat, i: nat)
    requires i < n <= |uses|
    ensures (uses[i].1, uses[i].0) in Used(uses, n)
  {
    if i < n - 1 {
      UsedHas(uses, n - 1, i);
    }
  }

  // ----- one scrub adds its pairs -----

  /** A map that came out of a file: inverse, and all of one time. */
  ghost predicate Stamped(s: Store, now: nat) {
    Inverse(s) && forall f :: f in s.byFake ==> s.byFake[f].lastTouched == now
  }

  lemma {:induction false} StampedDoesNotExpire(cfg: Config, s: Store, now: nat)
    requires Stamped(s, now)
    ensures Prune(cfg, s, now) == s
  {
    SessionRuns.NothingExpires(cfg, s, now);
  }

  lemma {:induction false} RoomForNew(s: Store, value: string, known: Known, max: nat)
    requires Inverse(s) && value !in s.byReal && value in Values(known) && PairsIn(s) <= known && |Values(known)| <= max
    ensures |s.byFake| < max
  {
    SessionRuns.InverseIffNoOrphans(s);
    SessionRuns.OrphanCount(s);
    forall r | r in s.byReal.Keys + {value}
      ensures r in Values(known)
    {
      if r != value {
        assert (s.byReal[r], r) in PairsIn(s);
      }
    }
    SubsetSize(s.byReal.Keys + {value}, Values(known));
  }

  lemma {:induction false} TouchKeepsPairs(s: Store, fake: string, now: nat)
    requires Stamped(s, now) && fake in s.byFake
    ensures Touch(s, fake, now) == s
  {
  }

  lemma {:induction false} InsertAddsPair(s: Store, fake: string, value: string, now: nat)
    requires Stamped(s, now) && value !in s.byReal && fake !in s.byFake
    ensures Stamped(Insert(s, fake, value, now), now) && PairsIn(Insert(s, fake, value, now)) == PairsIn(s) + {(fake, value)}
  {
    var s' := Insert(s, fake, value, now);
    InsertKeeps(s, fake, value, now);
    forall p
      ensures p in PairsIn(s') <==> p in PairsIn(s) + {(fake, value)}
    {
      PairIsEntry(s, p);
      PairIsEntry(s', p);
    }
  }

  /** A known pair is added, unless it is there. */
  lemma {:induction false} TakeAddsPair(cfg: Config, s: Store, use: Pair, now: nat, s': Store, known: Known)
    requires Stamped(s, now) && TakesPair(cfg, s, use, now, s') && Coherent(known) && |Values(known)| <= cfg.maxEntries
    requires PairsIn(s) <= known && (use.1, use.0) in known
    ensures Stamped(s', now) && PairsIn(s') == PairsIn(s) + {(use.1, use.0)}
  {
    StampedDoesNotExpire(cfg, s, now);
    var fake :| GetsOrInserts(cfg, s, use.0, use.1, now, s', fake);
    if use.0 in s.byReal {
      assert (s.byReal[use.0], use.0) in PairsIn(s);
      TouchKeepsPairs(s, fake, now);
    } else {
      assert (use.1, use.0).1 in Values(known);
      RoomForNew(s, use.0, known, cfg.maxEntries);
      forall f | f in s.byFake
        ensures f != use.1
      {
        PairIsEntry(s, (f, s.byFake[f].secret));
      }
      InsertAddsPair(s, use.1, use.0, now);
    }
  }

  /** After the first k uses, their pairs and those there were before are there, and no others. */
  ghost predicate AddedUpTo(first: Known, uses: seq<Pair>, now: nat, s: Store, k: nat)
    requires k <= |uses|
  {
    Stamped(s, now) && PairsIn(s) == first + Used(uses, k)
  }

  lemma {:induction false} NextUseAdds(cfg: Config, first: Known, uses: seq<Pair>, now: nat, s: Store, s': Store, known: Known, k: nat)
    requires k < |uses| && AddedUpTo(first, uses, now, s, k) && TakesPair(cfg, s, uses[k], now, s')
    requires Coherent(known) && |Values(known)| <= cfg.maxEntries && first <= known && Used(uses, |uses|) <= known
    ensures AddedUpTo(first, uses, now, s', k + 1)
  {
    UsedHas(uses, |uses|, k);
    UsedGrows(uses, k, |uses|);
    TakeAddsPair(cfg, s, uses[k], now, s', known);
  }

  lemma {:induction false} HandsOverTakes(cfg: Config, uses: seq<Pair>, now: nat, stores: seq<Store>, k: nat)
    requires HandsOverAll(cfg, uses, now, stores) && 0 < k <= |uses|
    ensures TakesPair(cfg, stores[k - 1], uses[k - 1], now, stores[k])
  {
    assert HandsOver(cfg, uses, now, stores, k - 1);
  }

  lemma {:induction false} NextHandOverAdds(cfg: Config, first: Known, uses: seq<Pair>, now: nat, stores: seq<Store>, known: Known, k: nat)
    requires HandsOverAll(cfg, uses, now, stores) && 0 < k <= |uses| && AddedUpTo(first, uses, now, stores[k - 1], k - 1)
    requires Coherent(known) && |Values(known)| <= cfg.maxEntries && first <= known && Used(uses, |uses|) <= known
    ensures AddedUpTo(first, uses, now, stores[k], k)
  {
    var s, s', n := stores[k - 1], stores[k], k - 1;
    assert TakesPair(cfg, s, uses[n], now, s') by {
      HandsOverTakes(cfg, uses, now, stores, k);
    }
    NextUseAdds(cfg, first, uses, now, s, s', known, n);
  }

  lemma {:induction false} UsesAddPairs(cfg: Config, first: Known, uses: seq<Pair>, now: nat, stores: seq<Store>, known: Known, k: nat)
    requires HandsOverAll(cfg, uses, now, stores) && AddedUpTo(first, uses, now, stores[0], 0) && k <= |uses|
    requires Coherent(known) && |Values(known)| <= cfg.maxEntries && first <= known && Used(uses, |uses|) <= known
    ensures AddedUpTo(first, uses, now, stores[k], k)
  {
    if k > 0 {
      UsesAddPairs(cfg, first, uses, now, stores, known, k - 1);
      NextHandOverAdds(cfg, first, uses, now, stores, known, k);
    }
  }

  lemma {:induction false} UsedGrows(uses: seq<Pair>, m: nat, n: nat)
    requires m <= n <= |uses|
    ensures Used(uses, m) <= Used(uses, n)
  {
    if m < n {
      UsedGrows(uses, m, n - 1);
    }
  }

  // ----- calls -----

  /** One call: the engine it opened, its text, and what came of it. */
  datatype Scrubbed = Scrubbed(e: Engine, input: string, hits: seq<Hit>, instant: nat, s: Store, call: Call)

  ghost predicate Possible(x: Scrubbed) {
    && WellFormed(x.e) && LeftmostLongest(x.e.values, x.input, 0, x.hits) && Ordered(x.input, x.hits) && HitsFit(|x.e.refs|, x.hits)
    && |x.call.nonce| == NONCE_LEN
  }

  ghost function OutputOf(x: Scrubbed): string
    requires Possible(x)
  {
    Weave(Gaps(x.input, x.hits), Pieces(Plan(x.e, true), x.hits))
  }

  /** The pairs the call hands to its map. */
  ghost function PairsOf(x: Scrubbed): Known
    requires Possible(x)
  {
    var uses := Uses(Plan(x.e, true), x.e.values, x.hits, |x.hits|);
    Used(uses, |uses|)
  }

  /** What the scrub command does: nothing if the session cannot be loaded; else import, scrub, export, save. */
  ghost predicate Scrubs(c: SessionSecrecy, key: Key, path: string, files: Files, x: Scrubbed, files': Files) {
    && Possible(x) && files' == AfterCall(c, key, path, files, x.call)
    && var loaded := Load(c, key, files, path, x.call.now);
       !loaded.Failed? ==>
         && Stores(ScrubConfig(loaded, x.call.now), Imported(EMPTY, SessionCommands.Opened(loaded, x.call.now).entries, x.instant),
                   Uses(Plan(x.e, true), x.e.values, x.hits, |x.hits|), x.instant, x.s)
         && ListsEntries(x.s, x.call.entries)
  }

  /** The call loaded its session and got as far as the rename. */
  ghost predicate Lands(c: SessionSecrecy, key: Key, path: string, files: Files, x: Scrubbed) {
    !Load(c, key, files, path, x.call.now).Failed? && Renamed(files, TmpPath(path, x.call.pid), x.call.stop)
  }

  /** The hits of any text, found or not. */
  lemma {:induction false} SomeHits(e: Engine, input: string) returns (hits: seq<Hit>)
    requires WellFormed(e)
    ensures LeftmostLongest(e.values, input, 0, hits) && Ordered(input, hits) && HitsFit(|e.refs|, hits)
  {
    hits := Scan(e.values, input, 0);
    HitsAreOrdered(e.values, input, hits);
  }

  /** The command is such a call, and gives its text out only if it got as far as the rename. */
  method ScrubCall(c: SessionSecrecy, key: Key, disk: Disk, path: string, e: Engine, input: string,
                   readOk: bool, now: nat, instant: nat, nonce: Bytes, pid: nat, stop: Stop)
    returns (scrubbed: Option<string>, ghost x: Scrubbed)
    requires WellFormed(e) && |nonce| == NONCE_LEN
    modifies disk
    ensures x.e == e && x.input == input && (if readOk then Scrubs(c, key, path, old(disk.files), x, disk.files) else disk.files == old(disk.files))
    ensures scrubbed.Some? ==> readOk && Lands(c, key, path, old(disk.files), x) && scrubbed.value == OutputOf(x)
  {
    var count;
    ghost var hits, s, entries;
    scrubbed, count, hits, s, entries := ScrubCommand(c, key, disk, path, e, input, readOk, now, instant, nonce, pid, stop);
    if !readOk || Load(c, key, old(disk.files), path, now).Failed? {
      hits := SomeHits(e, input);
    }
    x := Scrubbed(e, input, hits, instant, s, Call(now, entries, nonce, pid, stop));
  }

  /** The file, if there is one, lists exactly these pairs, each once. */
  ghost predicate FileLists(c: SessionSecrecy, key: Key, path: string, files: Files, known: Known) {
    if path in files then
      exists nonce, contents ::
        |nonce| == NONCE_LEN && files[path] == EncryptSession(c, key, nonce, contents) && Paired(contents.entries) && Listed(contents.entries) == known
    else known == {}
  }

  lemma {:induction false} LoadedLists(c: SessionSecrecy, key: Key, path: string, files: Files, known: Known, now: nat)
    requires LawfulSession(c) && FileLists(c, key, path, files, known) && !Load(c, key, files, path, now).Failed?
    ensures var entries := SessionCommands.Opened(Load(c, key, files, path, now), now).entries; Paired(entries) && Listed(entries) == known
  {
    if path in files {
      var nonce, contents :| |nonce| == NONCE_LEN && files[path] == EncryptSession(c, key, nonce, contents) && Paired(contents.entries)
                             && Listed(contents.entries) == known;
      SessionFileRoundTrip(c, key, nonce, contents, now);
    }
  }

  lemma {:induction false} ListsPairs(s: Store, entries: seq<(string, string)>)
    requires ListsEntries(s, entries)
    ensures Listed(entries) == PairsIn(s)
  {
    forall p
      ensures p in Listed(entries) <==> p in PairsIn(s)
    {
      PairIsEntry(s, p);
    }
  }

  /** The map a call ends with holds what the file listed and what the call used. */
  lemma {:induction false} MapAddsUp(cfg: Config, found: seq<(string, string)>, uses: seq<Pair>, instant: nat, s: Store, entries: seq<(string, string)>, known: Known)
    requires Paired(found) && Stores(cfg, Imported(EMPTY, found, instant), uses, instant, s) && ListsEntries(s, entries)
    requires Coherent(known) && |Values(known)| <= cfg.maxEntries && Listed(found) + Used(uses, |uses|) <= known
    ensures Paired(entries) && Listed(entries) == Listed(found) + Used(uses, |uses|)
  {
    var m := Imported(EMPTY, found, instant);
    ImportOfPaired(found, instant);
    ListsPairs(m, found);
    var stores :| HandsOverAll(cfg, uses, instant, stores) && stores[0] == m && stores[|uses|] == s;
    assert AddedUpTo(Listed(found), uses, instant, stores[0], 0);
    UsesAddPairs(cfg, Listed(found), uses, instant, stores, known, |uses|);
    ListsPairs(s, entries);
    ExportIsPaired(s, entries);
  }

  lemma {:induction false} SavedLists(c: SessionSecrecy, key: Key, path: string, files: Files, known: Known, call: Call, listed: Known)
    requires FileLists(c, key, path, files, known) && |call.nonce| == NONCE_LEN && !Load(c, key, files, path, call.now).Failed?
    requires Paired(call.entries) && Listed(call.entries) == listed
    ensures FileLists(c, key, path, AfterCall(c, key, path, files, call),
                      if Renamed(files, TmpPath(path, call.pid), call.stop) then listed else known)
  {
    var loaded, after := Load(c, key, files, path, call.now), AfterCall(c, key, path, files, call);
    var bytes := EncryptSession(c, key, call.nonce, Merged(loaded, call));
    WriteIsAllOrNothing(files, path, call.pid, bytes, call.stop, path);
    if Renamed(files, TmpPath(path, call.pid), call.stop) {
      assert after[path] == EncryptSession(c, key, call.nonce, Merged(loaded, call));
    }
  }

  /** A call that gets as far as its rename adds its pairs to the file, and any other leaves the list as it is. */
  lemma {:induction false} CallAddsPairs(c: SessionSecrecy, key: Key, path: string, files: Files, x: Scrubbed, files': Files, listed: Known, known: Known)
    requires LawfulSession(c) && FileLists(c, key, path, files, listed) && Scrubs(c, key, path, files, x, files')
    requires Coherent(known) && |Values(known)| <= 4096 && listed + PairsOf(x) <= known
    ensures FileLists(c, key, path, files', if Lands(c, key, path, files, x) then listed + PairsOf(x) else listed)
  {
    var loaded := Load(c, key, files, path, x.call.now);
    if !loaded.Failed? {
      LoadedLists(c, key, path, files, listed, x.call.now);
      var uses := Uses(Plan(x.e, true), x.e.values, x.hits, |x.hits|);
      MapAddsUp(ScrubConfig(loaded, x.call.now), SessionCommands.Opened(loaded, x.call.now).entries, uses, x.instant, x.s, x.call.entries, known);
      SavedLists(c, key, path, files, listed, x.call, listed + PairsOf(x));
    }
  }

  // ----- sequences of calls -----

  ghost predicate CallAt(c: SessionSecrecy, key: Key, path: string, xs: seq<Scrubbed>, disks: seq<Files>, i: nat)
    requires i < |xs| && |disks| == |xs| + 1
  {
    Scrubs(c, key, path, disks[i], xs[i], disks[i + 1])
  }

  /** The files before and after each call. */
  ghost predicate AreCalls(c: SessionSecrecy, key: Key, path: string, xs: seq<Scrubbed>, disks: seq<Files>) {
    && |disks| == |xs| + 1
    && forall i {:trigger CallAt(c, key, path, xs, disks, i)} :: 0 <= i < |xs| ==> CallAt(c, key, path, xs, disks, i)
  }

  /** What call i adds to the file: its pairs, if it got as far as its rename. */
  ghost predicate AddsAt(c: SessionSecrecy, key: Key, path: string, xs: seq<Scrubbed>, disks: seq<Files>, adds: seq<Known>, i: nat)
    requires i < |xs| == |adds| < |disks|
  {
    Possible(xs[i]) && adds[i] == if Lands(c, key, path, disks[i], xs[i]) then PairsOf(xs[i]) else {}
  }

  ghost predicate AreAdded(c: SessionSecrecy, key: Key, path: string, xs: seq<Scrubbed>, disks: seq<Files>, adds: seq<Known>) {
    && |adds| == |xs| < |disks|
    && forall i {:trigger AddsAt(c, key, path, xs, disks, adds, i)} :: 0 <= i < |xs| ==> AddsAt(c, key, path, xs, disks, adds, i)
  }

  /** What was listed at first, and the first n additions. */
  ghost function Total(first: Known, adds: seq<Known>, n: nat): Known
    requires n <= |adds|
  {
    if n == 0 then first else Total(first, adds, n - 1) + adds[n - 1]
  }

  lemma {:induction false} TotalHas(first: Known, adds: seq<Known>, n: nat, j: nat)
    requires j < n <= |adds|
    ensures adds[j] <= Total(first, adds, n)
  {
    if j < n - 1 {
      TotalHas(first, adds, n - 1, j);
    }
  }

  lemma {:induction false} TotalWithin(first: Known, adds: seq<Known>, n: nat, known: Known)
    requires n <= |adds| && first <= known && forall i :: 0 <= i < |adds| ==> adds[i] <= known
    ensures Total(first, adds, n) <= known
  {
    if n > 0 {
      TotalWithin(first, adds, n - 1, known);
    }
  }

  ghost predicate KnownAt(xs: seq<Scrubbed>, known: Known, i: nat)
    requires i < |xs|
  {
    Possible(xs[i]) && PairsOf(xs[i]) <= known
  }

  /** Every pair of the file at first and of every call is known. */
  ghost predicate AllKnown(xs: seq<Scrubbed>, first: Known, known: Known) {
    first <= known && forall i :: 0 <= i < |xs| ==> KnownAt(xs, known, i)
  }

  lemma {:induction false} AddsAreKnown(c: SessionSecrecy, key: Key, path: string, xs: seq<Scrubbed>, disks: seq<Files>, adds: seq<Known>,
                                        first: Known, known: Known)
    requires AreAdded(c, key, path, xs, disks, adds) && AllKnown(xs, first, known)
    ensures forall i :: 0 <= i < |adds| ==> adds[i] <= known
  {
    forall i | 0 <= i < |adds|
      ensures adds[i] <= known
    {
      assert AddsAt(c, key, path, xs, disks, adds, i) && KnownAt(xs, known, i);
    }
  }

  /** One more call. */
  lemma {:induction false} NextAddsUp(c: SessionSecrecy, key: Key, path: string, files: Files, x: Scrubbed, files': Files, listed: Known, add: Known, known: Known)
    requires LawfulSession(c) && FileLists(c, key, path, files, listed) && Scrubs(c, key, path, files, x, files')
    requires add == if Lands(c, key, path, files, x) then PairsOf(x) else {}
    requires Coherent(known) && |Values(known)| <= 4096 && listed <= known && PairsOf(x) <= known
    ensures FileLists(c, key, path, files', listed + add)
  {
    CallAddsPairs(c, key, path, files, x, files', listed, known);
    assert listed + {} == listed;
  }

  lemma {:induction false} NextCallAddsUp(c: SessionSecrecy, key: Key, path: string, xs: seq<Scrubbed>, disks: seq<Files>, adds: seq<Known>,
                                          first: Known, known: Known, n: nat)
    requires LawfulSession(c) && AreCalls(c, key, path, xs, disks) && AreAdded(c, key, path, xs, disks, adds)
    requires n < |xs| && FileLists(c, key, path, disks[n], Total(first, adds, n))
    requires Coherent(known) && |Values(known)| <= 4096 && AllKnown(xs, first, known)
    ensures FileLists(c, key, path, disks[n + 1], Total(first, adds, n + 1))
  {
    AddsAreKnown(c, key, path, xs, disks, adds, first, known);
    TotalWithin(first, adds, n, known);
    assert CallAt(c, key, path, xs, disks, n) && AddsAt(c, key, path, xs, disks, adds, n) && KnownAt(xs, known, n);
    NextAddsUp(c, key, path, disks[n], xs[n], disks[n + 1], Total(first, adds, n), adds[n], known);
  }

  /**
   * Conservation: after any calls the file lists exactly what it listed at first and
   * what the calls that got as far as their rename used, as long as all the values
   * ever used fit the map and no fake ever stands for two of them.
   */
  lemma {:induction false} FileAddsUp(c: SessionSecrecy, key: Key, path: string, xs: seq<Scrubbed>, disks: seq<Files>, adds: seq<Known>,
                                      first: Known, known: Known, n: nat)
    requires LawfulSession(c) && AreCalls(c, key, path, xs, disks) && AreAdded(c, key, path, xs, disks, adds)
    requires FileLists(c, key, path, disks[0], first) && n <= |xs|
    requires Coherent(known) && |Values(known)| <= 4096 && AllKnown(xs, first, known)
    ensures FileLists(c, key, path, disks[n], Total(first, adds, n))
  {
    if n > 0 {
      FileAddsUp(c, key, path, xs, disks, adds, first, known, n - 1);
      NextCallAddsUp(c, key, path, xs, disks, adds, first, known, n - 1);
    }
  }

  /** The additions of the calls. */
  ghost function Additions(c: SessionSecrecy, key: Key, path: string, xs: seq<Scrubbed>, disks: seq<Files>): (adds: seq<Known>)
    requires |xs| < |disks| && forall i :: 0 <= i < |xs| ==> Possible(xs[i])
    ensures AreAdded(c, key, path, xs, disks, adds)
  {
    seq(|xs|, i requires 0 <= i < |xs| => if Lands(c, key, path, disks[i], xs[i]) then PairsOf(xs[i]) else {})
  }

  // ----- restoring the output of any of them -----

  /** What restoring a text needs beside the file: no redaction, no known fake where the call did not write it, no stray FF1 candidate. */
  ghost predicate StandsOut(x: Scrubbed, known: Known)
    requires Possible(x)
  {
    var values, pieces, mark := HitValues(x.e.values, x.hits), Pieces(Plan(x.e, true), x.hits), SessionHits(x.e, x.hits);
    MarkedSize(values, pieces, mark);
    && NoRedaction(x.e, x.hits) && CandidatesAreFakes(x.e, x.input, x.hits) && DistinctFakes(x.e.ff1, x.e.fpe)
    && forall p :: p in known ==>
         NeverElsewhere(Coarse(Gaps(x.input, x.hits), pieces, mark), Marked(values, mark), Marked(pieces, mark), p.0)
  }

  lemma {:induction false} ListedAnswers(cfg: Config, entries: seq<(string, string)>, instant: nat, reals: seq<string>, fakes: seq<string>, known: Known)
    requires Paired(entries) && |reals| == |fakes| && Coherent(known) && Listed(entries) <= known
    requires forall i :: 0 <= i < |reals| ==> reals[i] != [] && fakes[i] != [] && (fakes[i], reals[i]) in Listed(entries)
    ensures Matched(reals, fakes) && SessionRestore.Answers(cfg, Imported(EMPTY, entries, instant), reals, fakes, instant)
  {
    var m := Imported(EMPTY, entries, instant);
    ImportOfPaired(entries, instant);
    forall i | 0 <= i < |reals|
      ensures (fakes[i], reals[i]) in known && Restored(cfg, m, fakes[i], instant).1 == Some(reals[i])
    {
      assert (fakes[i], reals[i]) in entries;
    }
    forall i, j | 0 <= i < |reals| && 0 <= j < |reals|
      ensures reals[i] == reals[j] <==> fakes[i] == fakes[j]
    {
      assert (fakes[i], reals[i]) in known && (fakes[j], reals[j]) in known;
    }
  }

  lemma {:induction false} UsedByMarked(x: Scrubbed, i: nat)
    requires Possible(x) && NoRedaction(x.e, x.hits)
    requires var values, pieces, mark := HitValues(x.e.values, x.hits), Pieces(Plan(x.e, true), x.hits), SessionHits(x.e, x.hits);
             |Marked(values, mark)| == |Marked(pieces, mark)| && i < |Marked(values, mark)|
    ensures var values, pieces, mark := HitValues(x.e.values, x.hits), Pieces(Plan(x.e, true), x.hits), SessionHits(x.e, x.hits);
            (Marked(pieces, mark)[i], Marked(values, mark)[i]) in PairsOf(x)
  {
    UsesAreSessionPairs(x.e, x.hits);
    var uses := Uses(Plan(x.e, true), x.e.values, x.hits, |x.hits|);
    UsedHas(uses, |uses|, i);
  }

  lemma {:induction false} FileAnswers(x: Scrubbed, cfg: Config, entries: seq<(string, string)>, instant: nat, known: Known)
    requires Possible(x) && StandsOut(x, known) && Paired(entries) && Coherent(known) && PairsOf(x) <= Listed(entries) <= known
    ensures AnswersFor(x.e, x.hits, cfg, Imported(EMPTY, entries, instant), instant)
  {
    var values, pieces, mark := HitValues(x.e.values, x.hits), Pieces(Plan(x.e, true), x.hits), SessionHits(x.e, x.hits);
    SessionHitsHaveFakes(x.e, x.hits);
    MarkedSize(values, pieces, mark);
    MarkedNonEmpty(values, mark);
    MarkedNonEmpty(pieces, mark);
    forall i | 0 <= i < |Marked(values, mark)|
      ensures (Marked(pieces, mark)[i], Marked(values, mark)[i]) in Listed(entries)
    {
      UsedByMarked(x, i);
    }
    ListedAnswers(cfg, entries, instant, Marked(values, mark), Marked(pieces, mark), known);
  }

  lemma {:induction false} FileStandsOut(x: Scrubbed, entries: seq<(string, string)>, instant: nat, known: Known)
    requires Possible(x) && StandsOut(x, known) && Paired(entries) && Listed(entries) <= known
    ensures SessionFakesStandOut(x.e, x.input, x.hits, Imported(EMPTY, entries, instant))
  {
    var m := Imported(EMPTY, entries, instant);
    ImportOfPaired(entries, instant);
    forall f | f in m.byFake
      ensures (f, m.byFake[f].secret) in known
    {
      assert (f, m.byFake[f].secret) in entries;
    }
  }

  /** The file, if it can still be loaded, answers for a call that landed, and nothing in it disturbs that call's text. */
  lemma {:induction false} AnswersAfterAll(
    c: SessionSecrecy, key: Key, path: string, xs: seq<Scrubbed>, disks: seq<Files>, first: Known, known: Known, j: nat, later: nat, instant: nat)
    requires LawfulSession(c) && AreCalls(c, key, path, xs, disks) && FileLists(c, key, path, disks[0], first)
    requires Coherent(known) && |Values(known)| <= 4096 && AllKnown(xs, first, known)
    requires j < |xs| && Possible(xs[j]) && Lands(c, key, path, disks[j], xs[j]) && StandsOut(xs[j], known)
    requires Load(c, key, disks[|xs|], path, later).Contents?
    ensures var contents := Load(c, key, disks[|xs|], path, later).contents;
            var x, m := xs[j], Imported(EMPTY, contents.entries, instant);
            && AnswersFor(x.e, x.hits, MapConfig(contents, later), m, instant)
            && SessionFakesStandOut(x.e, x.input, x.hits, m)
  {
    forall i | 0 <= i < |xs|
      ensures Possible(xs[i])
    {
      assert KnownAt(xs, known, i);
    }
    var adds, n := Additions(c, key, path, xs, disks), |xs|;
    AddsAreKnown(c, key, path, xs, disks, adds, first, known);
    TotalWithin(first, adds, n, known);
    assert AddsAt(c, key, path, xs, disks, adds, j);
    TotalHas(first, adds, n, j);
    FileAddsUp(c, key, path, xs, disks, adds, first, known, n);
    LoadedLists(c, key, path, disks[n], Total(first, adds, n), later);
    var contents := Load(c, key, disks[n], path, later).contents;
    FileAnswers(xs[j], MapConfig(contents, later), contents.entries, instant, known);
    FileStandsOut(xs[j], contents.entries, instant, known);
  }

  /**
   * After any number of calls, restoring the output of any one of them that got as far
   * as its rename gives its input back, as long as the session has not expired.
   */
  method RestoreAnyOutput(c: SessionSecrecy, key: Key, disk: Disk, path: string, e: Engine, output: string, later: nat, laterInstant: nat, wipeOk: bool,
                          ghost xs: seq<Scrubbed>, ghost disks: seq<Files>, ghost first: Known, ghost known: Known, ghost j: nat)
    returns (restored: Option<string>, count: nat)
    requires LawfulSession(c) && AreCalls(c, key, path, xs, disks) && FileLists(c, key, path, disks[0], first) && disk.files == disks[|xs|]
    requires Coherent(known) && |Values(known)| <= 4096 && AllKnown(xs, first, known)
    requires j < |xs| && Possible(xs[j]) && Lands(c, key, path, disks[j], xs[j]) && StandsOut(xs[j], known)
    requires e == xs[j].e && output == OutputOf(xs[j]) && Load(c, key, disk.files, path, later).Contents?
    modifies disk
    ensures restored == Some(xs[j].input) && count == |xs[j].hits|
  {
    ghost var contents := Load(c, key, disk.files, path, later).contents;
    AnswersAfterAll(c, key, path, xs, disks, first, known, j, later, laterInstant);
    var out, n, unused, order, spans := RestoreCommand(c, key, disk, path, e, output, true, later, laterInstant, wipeOk);
    MixedRoundTrips(xs[j].e, xs[j].input, xs[j].hits, MapConfig(contents, later), Imported(EMPTY, contents.entries, laterInstant), laterInstant,
                    order, spans);
    return out, n;
  }
}
