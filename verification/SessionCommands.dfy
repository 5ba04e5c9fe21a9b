/**
 * The session branches of the two commands, `scrub --session` and
 * `restore --session`: the session map travels between them through the file.
 */
module SessionCommands {
  import opened Basics
  import opened Text
  import opened ExactMatcher
  import opened SessionMaps
  import SessionRuns
  import opened SessionRestore
  import opened Restore
  import opened Engine
  import opened RoundTrips
  import opened MixedRoundTrip
  import opened VaultIo
  import opened Vault
  import opened SessionFile

  const CLI_SESSION_MAP_CAPACITY: nat := 4096

  // ----- a map as a list of pairs, and back -----

  /** All (fake, value) pairs of the store, each once, in some order. */
  ghost predicate ListsEntries(s: Store, entries: seq<(string, string)>) {
    && (forall i, j :: 0 <= i < j < |entries| ==> entries[i].0 != entries[j].0)
    && (forall p :: p in entries <==> p.0 in s.byFake && s.byFake[p.0].secret == p.1)
  }

  method ExportEntries(session: SessionMap) returns (entries: seq<(string, string)>)
    ensures ListsEntries(session.View(), entries)
  {
    entries := [];
    var left := session.byFake.Keys;
    while left != {}
      invariant left <= session.byFake.Keys
      invariant forall i, j :: 0 <= i < j < |entries| ==> entries[i].0 != entries[j].0
      invariant forall p :: p in entries <==> p.0 in session.byFake.Keys - left && session.byFake[p.0].secret == p.1
      decreases left
    {
      var fake :| fake in left;
      left := left - {fake};
      assert forall i :: 0 <= i < |entries| ==> entries[i] in entries;
      entries := entries + [(fake, session.byFake[fake].secret)];
    }
  }

  /** No fake and no value comes twice. */
  ghost predicate Paired(entries: seq<(string, string)>) {
    forall i, j :: 0 <= i < j < |entries| ==> entries[i].0 != entries[j].0 && entries[i].1 != entries[j].1
  }

  /** An inverse map exports a list without repetitions. */
  lemma ExportIsPaired(s: Store, entries: seq<(string, string)>)
    requires Inverse(s) && ListsEntries(s, entries)
    ensures Paired(entries)
  {
    forall i, j | 0 <= i < j < |entries|
      ensures entries[i].1 != entries[j].1
    {
      assert entries[i] in entries && entries[j] in entries;
    }
  }

  /** The pair is there in both directions, stamped `now`. */
  ghost predicate HoldsBoth(m: Store, p: (string, string), now: nat) {
    p.0 in m.byFake && m.byFake[p.0] == Entry(p.1, now) && p.1 in m.byReal && m.byReal[p.1] == p.0
  }

  ghost predicate IsFake(entries: seq<(string, string)>, n: nat, f: string)
    requires n <= |entries|
  {
    exists i :: 0 <= i < n && entries[i].0 == f
  }

  ghost predicate IsValue(entries: seq<(string, string)>, n: nat, r: string)
    requires n <= |entries|
  {
    exists i :: 0 <= i < n && entries[i].1 == r
  }

  /** The store holds exactly the first n pairs. */
  ghost predicate HoldsExactly(m: Store, entries: seq<(string, string)>, n: nat, now: nat)
    requires n <= |entries|
  {
    && (forall i :: 0 <= i < n ==> HoldsBoth(m, entries[i], now))
    && (forall f :: f in m.byFake ==> IsFake(entries, n, f))
    && (forall r :: r in m.byReal ==> IsValue(entries, n, r))
  }

  lemma {:induction false} ImportHolds(entries: seq<(string, string)>, n: nat, now: nat)
    requires Paired(entries) && n <= |entries|
    ensures HoldsExactly(Imported(EMPTY, entries[..n], now), entries, n, now)
  {
    if n > 0 {
      ImportHolds(entries, n - 1, now);
      assert entries[..n][..n - 1] == entries[..n - 1];
      HoldsOneMore(Imported(EMPTY, entries[..n - 1], now), entries, n - 1, now);
    }
  }

  lemma {:induction false} InsertBesides(m: Store, p: (string, string), q: (string, string), now: nat)
    requires q.0 !in m.byFake && p.0 != q.0 && p.1 != q.1 && HoldsBoth(m, p, now)
    ensures HoldsBoth(Insert(m, q.0, q.1, now), p, now)
  {
  }

  lemma {:induction false} HoldsOneMore(m: Store, entries: seq<(string, string)>, n: nat, now: nat)
    requires n < |entries| && Paired(entries) && HoldsExactly(m, entries, n, now)
    ensures HoldsExactly(Insert(m, entries[n].0, entries[n].1, now), entries, n + 1, now)
  {
    var q := entries[n];
    var m' := Insert(m, q.0, q.1, now);
    assert !IsFake(entries, n, q.0);
    assert q.0 !in m.byFake;
    forall i | 0 <= i < n + 1
      ensures HoldsBoth(m', entries[i], now)
    {
      if i < n {
        InsertBesides(m, entries[i], q, now);
      }
    }
    forall f | f in m'.byFake
      ensures IsFake(entries, n + 1, f)
    {
      if f != q.0 {
        assert f in m.byFake && IsFake(entries, n, f);
      } else {
        assert entries[n].0 == f;
      }
    }
    forall r | r in m'.byReal
      ensures IsValue(entries, n + 1, r)
    {
      if r != q.1 {
        assert r in m.byReal && IsValue(entries, n, r);
      } else {
        assert entries[n].1 == r;
      }
    }
  }

  lemma {:induction false} HeldIsInverse(m: Store, entries: seq<(string, string)>, now: nat)
    requires HoldsExactly(m, entries, |entries|, now)
    ensures Inverse(m) && forall f :: f in m.byFake ==> m.byFake[f].lastTouched == now
  {
    forall f | f in m.byFake
      ensures m.byFake[f].secret in m.byReal && m.byReal[m.byFake[f].secret] == f && m.byFake[f].lastTouched == now
    {
      assert IsFake(entries, |entries|, f);
      var i :| 0 <= i < |entries| && entries[i].0 == f;
      assert HoldsBoth(m, entries[i], now);
    }
    forall r | r in m.byReal
      ensures m.byReal[r] in m.byFake && m.byFake[m.byReal[r]].secret == r
    {
      assert IsValue(entries, |entries|, r);
      var i :| 0 <= i < |entries| && entries[i].1 == r;
      assert HoldsBoth(m, entries[i], now);
    }
  }

  lemma {:induction false} HeldIsListed(m: Store, entries: seq<(string, string)>, now: nat)
    requires HoldsExactly(m, entries, |entries|, now) && Paired(entries)
    ensures ListsEntries(m, entries)
  {
    forall p
      ensures p in entries <==> p.0 in m.byFake && m.byFake[p.0].secret == p.1
    {
      if p in entries {
        var i :| 0 <= i < |entries| && entries[i] == p;
        assert HoldsBoth(m, entries[i], now);
      }
      if p.0 in m.byFake && m.byFake[p.0].secret == p.1 {
        assert IsFake(entries, |entries|, p.0);
        var i :| 0 <= i < |entries| && entries[i].0 == p.0;
        assert HoldsBoth(m, entries[i], now) && entries[i] == p;
      }
    }
  }

  /** Importing a list without repetitions gives inverse maps that list it again, all of one time. */
  lemma ImportOfPaired(entries: seq<(string, string)>, now: nat)
    requires Paired(entries)
    ensures var m := Imported(EMPTY, entries, now);
            Inverse(m) && ListsEntries(m, entries) && forall f :: f in m.byFake ==> m.byFake[f].lastTouched == now
  {
    ImportHolds(entries, |entries|, now);
    assert entries[..|entries|] == entries;
    HeldIsInverse(Imported(EMPTY, entries, now), entries, now);
    HeldIsListed(Imported(EMPTY, entries, now), entries, now);
  }

  /** Through the file and back: the same fakes for the same values, freshly stamped, inverse as before. */
  lemma ExportThenImport(s: Store, entries: seq<(string, string)>, now: nat)
    requires Inverse(s) && ListsEntries(s, entries)
    ensures var m := Imported(EMPTY, entries, now);
            && Inverse(m) && m.byFake.Keys == s.byFake.Keys
            && forall f :: f in m.byFake ==> m.byFake[f] == Entry(s.byFake[f].secret, now)
  {
    ExportIsPaired(s, entries);
    ImportOfPaired(entries, now);
    var m := Imported(EMPTY, entries, now);
    forall f
      ensures f in m.byFake <==> f in s.byFake
      ensures f in m.byFake ==> m.byFake[f] == Entry(s.byFake[f].secret, now)
    {
      if f in m.byFake {
        assert (f, m.byFake[f].secret) in entries;
      }
      if f in s.byFake {
        assert (f, s.byFake[f].secret) in entries;
      }
    }
  }

  lemma {:induction false} TakeKeepsInverse(cfg: Config, s: Store, use: Pair, now: nat, s': Store)
    requires Inverse(s) && TakesPair(cfg, s, use, now, s')
    ensures Inverse(s')
  {
    SessionRuns.SoundStep(cfg, s, SessionRuns.Use(use.0, use.1, now), s');
  }

  lemma {:induction false} HandOverKeepsInverse(cfg: Config, uses: seq<Pair>, now: nat, stores: seq<Store>, k: nat)
    requires HandsOverAll(cfg, uses, now, stores) && k < |uses| && Inverse(stores[k])
    ensures Inverse(stores[k + 1])
  {
    assert HandsOver(cfg, uses, now, stores, k);
    TakeKeepsInverse(cfg, stores[k], uses[k], now, stores[k + 1]);
  }

  /** Pairs handed over one by one keep the maps inverse. */
  lemma {:induction false} StoresKeepInverse(cfg: Config, uses: seq<Pair>, now: nat, stores: seq<Store>, k: nat)
    requires HandsOverAll(cfg, uses, now, stores) && k <= |uses| && Inverse(stores[0])
    ensures Inverse(stores[k])
  {
    if k > 0 {
      StoresKeepInverse(cfg, uses, now, stores, k - 1);
      HandOverKeepsInverse(cfg, uses, now, stores, k - 1);
    }
  }

  // ----- scrub --session -----

  /** The map a command works with: what the file lists, under the time the file has left. */
  function MapConfig(contents: SessionContents, now: nat): Config {
    Config(CLI_SESSION_MAP_CAPACITY, if contents.expiresAt > now then contents.expiresAt - now else 1)
  }

  /** A session that is created by the scrub has its whole time before it. */
  function ScrubConfig(loaded: LoadResult, now: nat): Config {
    if loaded.Contents? then MapConfig(loaded.contents, now) else Config(CLI_SESSION_MAP_CAPACITY, SESSION_TTL_SECS)
  }

  /** The contents a scrub starts from. */
  function Opened(loaded: LoadResult, now: nat): SessionContents
    requires !loaded.Failed?
  {
    if loaded.Contents? then loaded.contents else NewAt(now)
  }

  /** Every session file on this path holds a list without repetitions. */
  ghost predicate FileIsPaired(c: SessionSecrecy, key: Key, path: string, files: Files) {
    path in files ==> exists nonce, contents ::
      |nonce| == NONCE_LEN && files[path] == EncryptSession(c, key, nonce, contents) && Paired(contents.entries)
  }

  /** What is loaded from such a file has no repetitions. */
  lemma LoadedIsPaired(c: SessionSecrecy, key: Key, path: string, files: Files, now: nat)
    requires LawfulSession(c) && FileIsPaired(c, key, path, files) && !Load(c, key, files, path, now).Failed?
    ensures Paired(Opened(Load(c, key, files, path, now), now).entries)
  {
    if path in files {
      var nonce, contents :| |nonce| == NONCE_LEN && files[path] == EncryptSession(c, key, nonce, contents) && Paired(contents.entries);
      SessionFileRoundTrip(c, key, nonce, contents, now);
    }
  }

  /** A call that saves a list without repetitions leaves such a file, however far its save gets. */
  lemma CallKeepsPaired(c: SessionSecrecy, key: Key, path: string, files: Files, call: Call)
    requires FileIsPaired(c, key, path, files) && Paired(call.entries) && |call.nonce| == NONCE_LEN
    ensures FileIsPaired(c, key, path, AfterCall(c, key, path, files, call))
  {
    var loaded, after := Load(c, key, files, path, call.now), AfterCall(c, key, path, files, call);
    if !loaded.Failed? {
      var bytes := EncryptSession(c, key, call.nonce, Merged(loaded, call));
      WriteIsAllOrNothing(files, path, call.pid, bytes, call.stop, path);
      if Renamed(files, TmpPath(path, call.pid), call.stop) {
        assert after[path] == EncryptSession(c, key, call.nonce, Merged(loaded, call));
      } else {
        assert path in after ==> after[path] == files[path];
      }
    }
  }

  /** What a scrub exports from a map that came out of such a file. */
  lemma ScrubExportsPaired(cfg: Config, found: seq<(string, string)>, uses: seq<Pair>, instant: nat, s: Store, entries: seq<(string, string)>)
    requires Paired(found) && Stores(cfg, Imported(EMPTY, found, instant), uses, instant, s) && ListsEntries(s, entries)
    ensures Inverse(s) && Paired(entries)
  {
    ImportOfPaired(found, instant);
    var stores :| HandsOverAll(cfg, uses, instant, stores) && stores[0] == Imported(EMPTY, found, instant) && stores[|uses|] == s;
    StoresKeepInverse(cfg, uses, instant, stores, |uses|);
    ExportIsPaired(s, entries);
  }

  /** A scrub that started from such a file leaves such a file. */
  lemma SaveKeepsPaired(c: SessionSecrecy, key: Key, path: string, files: Files, cfg: Config, uses: seq<Pair>, instant: nat, s: Store, call: Call)
    requires LawfulSession(c) && FileIsPaired(c, key, path, files) && !Load(c, key, files, path, call.now).Failed?
    requires Stores(cfg, Imported(EMPTY, Opened(Load(c, key, files, path, call.now), call.now).entries, instant), uses, instant, s)
    requires ListsEntries(s, call.entries) && |call.nonce| == NONCE_LEN
    ensures FileIsPaired(c, key, path, AfterCall(c, key, path, files, call))
  {
    LoadedIsPaired(c, key, path, files, call.now);
    ScrubExportsPaired(cfg, Opened(Load(c, key, files, path, call.now), call.now).entries, uses, instant, s, call.entries);
    CallKeepsPaired(c, key, path, files, call);
  }

  /** Import, scrub, export. */
  method ScrubThroughMap(e: Engine, input: string, cfg: Config, contents: SessionContents, instant: nat)
    returns (output: string, count: nat, pairs: seq<(string, string)>, ghost hits: seq<Hit>, ghost s: Store)
    requires WellFormed(e)
    ensures LeftmostLongest(e.values, input, 0, hits) && Ordered(input, hits) && HitsFit(|e.refs|, hits)
    ensures output == Weave(Gaps(input, hits), Pieces(Plan(e, true), hits)) && count == |hits|
    ensures Stores(cfg, Imported(EMPTY, contents.entries, instant), Uses(Plan(e, true), e.values, hits, |hits|), instant, s)
    ensures ListsEntries(s, pairs)
  {
    var session := new SessionMap(cfg.maxEntries, cfg.ttl);
    session.Import(contents.entries, instant);
    var notices;
    output, count, notices, hits := ScrubImpl(e, input, session, instant);
    s := session.View();
    pairs := ExportEntries(session);
  }

  /**
   * Load or create, import, scrub, export, save.  The text is given out only if the
   * save succeeded; a load that fails leaves every file as it was.
   */
  method ScrubCommand(c: SessionSecrecy, key: Key, disk: Disk, path: string, e: Engine, input: string,
                      readOk: bool, now: nat, instant: nat, nonce: Bytes, pid: nat, stop: Stop)
    returns (scrubbed: Option<string>, count: nat, ghost hits: seq<Hit>, ghost s: Store, ghost entries: seq<(string, string)>)
    requires WellFormed(e)
    modifies disk
    ensures var loaded := Load(c, key, old(disk.files), path, now);
            if !readOk || loaded.Failed? then scrubbed.None? && disk.files == old(disk.files)
            else
              && disk.files == AfterCall(c, key, path, old(disk.files), Call(now, entries, nonce, pid, stop))
              && LeftmostLongest(e.values, input, 0, hits) && Ordered(input, hits) && HitsFit(|e.refs|, hits)
              && Stores(ScrubConfig(loaded, now), Imported(EMPTY, Opened(loaded, now).entries, instant),
                        Uses(Plan(e, true), e.values, hits, |hits|), instant, s)
              && ListsEntries(s, entries) && count == |hits|
              && scrubbed == (if ErrorStep(old(disk.files), TmpPath(path, pid), stop).None?
                              then Some(Weave(Gaps(input, hits), Pieces(Plan(e, true), hits))) else None)
    ensures LawfulSession(c) && |nonce| == NONCE_LEN && FileIsPaired(c, key, path, old(disk.files)) ==>
              FileIsPaired(c, key, path, disk.files)
  {
    scrubbed, count, hits, s, entries := None, 0, [], EMPTY, [];
    var read := disk.ReadIfExists(path, readOk);
    if read.ReadError? {
      return;
    }
    var loaded := Missing;
    if read.Present? {
      loaded := DecryptSession(c, key, read.bytes, now);
      if loaded.Failed? {
        return;
      }
    }
    var contents := Opened(loaded, now);
    var out, pairs;
    out, count, pairs, hits, s := ScrubThroughMap(e, input, ScrubConfig(loaded, now), contents, instant);
    entries := pairs;
    var error := disk.WriteAtomic(path, pid, EncryptSession(c, key, nonce, contents.(entries := pairs)), stop);
    if error.None? {
      scrubbed := Some(out);
    }
    if LawfulSession(c) && |nonce| == NONCE_LEN && FileIsPaired(c, key, path, old(disk.files)) {
      SaveKeepsPaired(c, key, path, old(disk.files), ScrubConfig(loaded, now), Uses(Plan(e, true), e.values, hits, |hits|),
                      instant, s, Call(now, entries, nonce, pid, stop));
    }
  }

  // ----- restore --session -----

  /** How many entries have a fake that the text does not contain. */
  function Unused(entries: seq<(string, string)>, input: string): nat {
    if entries == [] then 0 else (if Contains(input, entries[0].0) then 0 else 1) + Unused(entries[1..], input)
  }

  ghost predicate OccursNowhere(input: string, fake: string) {
    forall p :: !OccursAt(input, fake, p)
  }

  /** It counts the entries whose fake occurs nowhere in the text: here they are, each once. */
  lemma {:induction false} UnusedCounts(entries: seq<(string, string)>, input: string) returns (at: seq<nat>)
    ensures |at| == Unused(entries, input) && forall i, j :: 0 <= i < j < |at| ==> at[i] < at[j]
    ensures forall i :: 0 <= i < |entries| ==> (i in at <==> OccursNowhere(input, entries[i].0))
    ensures forall i :: 0 <= i < |at| ==> at[i] < |entries|
    decreases |entries|
  {
    if entries == [] {
      at := [];
    } else {
      var n := |entries| - 1;
      at := UnusedCounts(entries[..n], input);
      UnusedSnoc(entries[..n], entries[n], input);
      assert entries == entries[..n] + [entries[n]];
      if !Contains(input, entries[n].0) {
        at := at + [n];
      } else {
        assert !OccursNowhere(input, entries[n].0);
      }
    }
  }

  lemma {:induction false} UnusedSnoc(entries: seq<(string, string)>, entry: (string, string), input: string)
    ensures Unused(entries + [entry], input) == Unused(entries, input) + if Contains(input, entry.0) then 0 else 1
    decreases |entries|
  {
    if entries == [] {
      assert entries + [entry] == [entry];
    } else {
      assert (entries + [entry])[1..] == entries[1..] + [entry];
      UnusedSnoc(entries[1..], entry, input);
    }
  }

  /** Load, import, restore, remove the file.  A missing file is an error; one that cannot be removed is not. */
  method RestoreCommand(c: SessionSecrecy, key: Key, disk: Disk, path: string, e: Engine, input: string,
                        readOk: bool, now: nat, instant: nat, wipeOk: bool)
    returns (restored: Option<string>, count: nat, unused: nat, ghost order: seq<string>, ghost spans: seq<Span>)
    requires WellFormed(e)
    modifies disk
    ensures var loaded := Load(c, key, old(disk.files), path, now);
            if !readOk || !loaded.Contents? then restored.None? && disk.files == old(disk.files)
            else
              var cfg, m := MapConfig(loaded.contents, now), Imported(EMPTY, loaded.contents.entries, instant);
              && disk.files == (if wipeOk then old(disk.files) - {path} else old(disk.files))
              && unused == Unused(loaded.contents.entries, input)
              && ListsFakes(m, input, order)
              && var working := PutBack(cfg, m, order, instant, input).1;
                 && AreCandidates(e.fpe, working, spans)
                 && restored == Some(Walk(working, Attempts(e.ff1, e.fpe, working, spans), 0))
                 && count == PutBackCount(cfg, m, order, instant, input) + |Accepted(Attempts(e.ff1, e.fpe, working, spans), 0)|
  {
    restored, count, unused, order, spans := None, 0, 0, [], [];
    var read := disk.ReadIfExists(path, readOk);
    if !read.Present? {
      return;
    }
    var loaded := DecryptSession(c, key, read.bytes, now);
    if !loaded.Contents? {
      return;
    }
    var contents := loaded.contents;
    unused := Unused(contents.entries, input);
    var cfg := MapConfig(contents, now);
    var session := new SessionMap(cfg.maxEntries, cfg.ttl);
    session.Import(contents.entries, instant);
    var out;
    out, count, order, spans := RestoreWithSession(e.ff1, e.fpe, input, session, instant);
    restored := Some(out);
    if wipeOk {
      disk.files := disk.files - {path};
    }
  }

  // ----- both commands -----

  /** The premises of the mixed round trip that do not come from the file itself. */
  ghost predicate UndoableThroughFile(e: Engine, input: string, hits: seq<Hit>, cfg: Config, before: Store, instant: nat)
    requires WellFormed(e) && Ordered(input, hits) && HitsFit(|e.refs|, hits)
  {
    var pairs := SessionPairs(e, hits);
    && NoRedaction(e, hits) && OneToOne(pairs) && Agrees(before, pairs)
    && |Secrets(pairs) + FreshSecrets(before, instant)| <= cfg.maxEntries
    && CandidatesAreFakes(e, input, hits)
    && forall s :: Stores(cfg, before, Uses(Plan(e, true), e.values, hits, |hits|), instant, s) ==> SessionFakesStandOut(e, input, hits, s)
  }

  /** What one map answered, the map made from its list answers too, in its own time. */
  lemma {:induction false} AnswersThroughFile(cfg: Config, s: Store, before: nat, cfg': Config, m: Store, now: nat, reals: seq<string>, fakes: seq<string>)
    requires |reals| == |fakes| && SessionRestore.Answers(cfg, s, reals, fakes, before)
    requires m.byFake.Keys == s.byFake.Keys && forall f :: f in m.byFake ==> m.byFake[f] == Entry(s.byFake[f].secret, now)
    ensures SessionRestore.Answers(cfg', m, reals, fakes, now)
  {
    forall i | 0 <= i < |reals|
      ensures Restored(cfg', m, fakes[i], now).1 == Some(reals[i])
    {
      assert Restored(cfg, s, fakes[i], before).1 == Some(reals[i]);
    }
  }

  lemma {:induction false} InverseHasRoom(cfg: Config, before: Store, pairs: seq<Pair>, instant: nat)
    requires Inverse(before) && OneToOne(pairs) && Agrees(before, pairs)
    requires |Secrets(pairs) + FreshSecrets(before, instant)| <= cfg.maxEntries
    ensures RoomFor(cfg, before, pairs, instant)
  {
    SessionRuns.InverseIffNoOrphans(before);
    FitsPruned(cfg, before, pairs, instant);
  }

  /** The map that the restore command builds answers for everything the scrub command wrote. */
  lemma {:induction false} ImportedStoreAnswers(e: Engine, input: string, hits: seq<Hit>, cfg: Config, before: Store, instant: nat, s: Store,
                                                entries: seq<(string, string)>, cfg': Config, later: nat)
    requires WellFormed(e) && Ordered(input, hits) && HitsFit(|e.refs|, hits) && Inverse(before) && Inverse(s)
    requires UndoableThroughFile(e, input, hits, cfg, before, instant)
    requires Stores(cfg, before, Uses(Plan(e, true), e.values, hits, |hits|), instant, s) && ListsEntries(s, entries)
    ensures var m := Imported(EMPTY, entries, later);
            AnswersFor(e, hits, cfg', m, later) && SessionFakesStandOut(e, input, hits, m)
  {
    InverseHasRoom(cfg, before, SessionPairs(e, hits), instant);
    ScrubbedStoreAnswers(e, hits, cfg, before, instant, s, instant);
    ExportThenImport(s, entries, later);
    var values, pieces, mark := HitValues(e.values, hits), Pieces(Plan(e, true), hits), SessionHits(e, hits);
    MarkedSize(values, pieces, mark);
    AnswersThroughFile(cfg, s, instant, cfg', Imported(EMPTY, entries, later), later, Marked(values, mark), Marked(pieces, mark));
  }

  /** A renamed save can be loaded until the session expires. */
  lemma SavedThenLoaded(c: SessionSecrecy, key: Key, path: string, files: Files, call: Call, now: nat)
    requires LawfulSession(c) && ValidCall(call) && !Load(c, key, files, path, call.now).Failed?
    requires Renamed(files, TmpPath(path, call.pid), call.stop)
    ensures var saved := Merged(Load(c, key, files, path, call.now), call);
            Load(c, key, AfterCall(c, key, path, files, call), path, now) ==
              if saved.expiresAt <= now then Failed(Expired(saved.expiresAt)) else Contents(saved)
  {
    var saved := Merged(Load(c, key, files, path, call.now), call);
    WriteIsAllOrNothing(files, path, call.pid, EncryptSession(c, key, call.nonce, saved), call.stop, path);
    SessionFileRoundTrip(c, key, call.nonce, saved, now);
  }

  /** What the restore command finds after the scrub command, and what it makes of it. */
  lemma {:induction false} ThroughTheFile(
    c: SessionSecrecy, key: Key, path: string, files: Files, e: Engine, input: string, hits: seq<Hit>, cfg: Config, instant: nat, s: Store,
    call: Call, later: nat, laterInstant: nat)
    requires LawfulSession(c) && WellFormed(e) && ValidCall(call) && call.stop == Through && TmpPath(path, call.pid) !in files
    requires FileIsPaired(c, key, path, files) && !Load(c, key, files, path, call.now).Failed?
    requires Ordered(input, hits) && HitsFit(|e.refs|, hits)
    requires var found := Opened(Load(c, key, files, path, call.now), call.now);
             && later < found.expiresAt
             && UndoableThroughFile(e, input, hits, cfg, Imported(EMPTY, found.entries, instant), instant)
             && Stores(cfg, Imported(EMPTY, found.entries, instant), Uses(Plan(e, true), e.values, hits, |hits|), instant, s)
    requires ListsEntries(s, call.entries)
    ensures var saved := Opened(Load(c, key, files, path, call.now), call.now).(entries := call.entries);
            var m := Imported(EMPTY, call.entries, laterInstant);
            && Load(c, key, AfterCall(c, key, path, files, call), path, later) == Contents(saved)
            && path in AfterCall(c, key, path, files, call)
            && AnswersFor(e, hits, MapConfig(saved, later), m, laterInstant) && SessionFakesStandOut(e, input, hits, m)
  {
    var found := Opened(Load(c, key, files, path, call.now), call.now);
    LoadedIsPaired(c, key, path, files, call.now);
    ImportOfPaired(found.entries, instant);
    ScrubExportsPaired(cfg, found.entries, Uses(Plan(e, true), e.values, hits, |hits|), instant, s, call.entries);
    SavedThenLoaded(c, key, path, files, call, later);
    ImportedStoreAnswers(e, input, hits, cfg, Imported(EMPTY, found.entries, instant), instant, s, call.entries,
                         MapConfig(found.(entries := call.entries), later), laterInstant);
  }

  /**
   * `scrub --session` and later `restore --session` on its output, through the disk
   * and in two processes: before the session expires the input comes back, every
   * value that was scrubbed is counted as restored, and the file is gone if it could
   * be removed.  The file may be missing or hold what earlier scrubs left there.
   */
  method ScrubThenRestoreCommands(c: SessionSecrecy, key: Key, disk: Disk, path: string, e: Engine, input: string,
                                  now: nat, instant: nat, nonce: Bytes, pid: nat, later: nat, laterInstant: nat, wipeOk: bool)
    returns (restored: Option<string>, scrubbedCount: nat, restoredCount: nat)
    requires LawfulSession(c) && WellFormed(e) && DistinctFakes(e.ff1, e.fpe) && |nonce| == NONCE_LEN && now <= U64_MAX
    requires FileIsPaired(c, key, path, disk.files) && TmpPath(path, pid) !in disk.files
    requires !Load(c, key, disk.files, path, now).Failed? && later < Opened(Load(c, key, disk.files, path, now), now).expiresAt
    requires var found := Opened(Load(c, key, disk.files, path, now), now);
             forall hits :: LeftmostLongest(e.values, input, 0, hits) && Ordered(input, hits) && HitsFit(|e.refs|, hits) ==>
               UndoableThroughFile(e, input, hits, ScrubConfig(Load(c, key, disk.files, path, now), now), Imported(EMPTY, found.entries, instant), instant)
    modifies disk
    ensures restored == Some(input) && restoredCount == scrubbedCount
    ensures path in disk.files <==> !wipeOk
  {
    ghost var files, loaded := disk.files, Load(c, key, disk.files, path, now);
    var scrubbed, n, hits, s, entries := ScrubCommand(c, key, disk, path, e, input, true, now, instant, nonce, pid, Through);
    ThroughTheFile(c, key, path, files, e, input, hits, ScrubConfig(loaded, now), instant, s,
                   Call(now, entries, nonce, pid, Through), later, laterInstant);
    ghost var saved := Opened(loaded, now).(entries := entries);
    var out, m, unused, order, spans := RestoreCommand(c, key, disk, path, e, scrubbed.value, true, later, laterInstant, wipeOk);
    MixedRoundTrips(e, input, hits, MapConfig(saved, later), Imported(EMPTY, entries, laterInstant), laterInstant, order, spans);
    return out, n, m;
  }
}
