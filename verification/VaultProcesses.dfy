/**
 * Any number of processes on one vault.  Opening is four steps (orphan scan, fetch,
 * store, read), saving is five, and steps of different processes interleave: a scan
 * may remove the temporary file of a save that is under way, and two first opens may
 * both find the keychain empty.
 */
module VaultProcesses {
  import opened Basics
  import opened Text
  import opened VaultIo
  import opened Vault
  import opened VaultRuns

  type Pid = nat

  /** What a process is in the middle of; a save's `next` is the step it has to take. */
  datatype Doing =
    | Idle
    | FoundEmpty(generated: Key)
    | HasKey(held: Key)
    | Saving(next: WriteStep, key: Key, contents: VaultContents, bytes: Bytes)

  datatype Process = Process(memory: Option<OpenVault>, doing: Doing)

  /** The contents of the last save that reached its rename, and the key they were encrypted under. */
  datatype Saved = Saved(key: Key, contents: VaultContents)

  datatype Shared = Shared(files: Files, slot: Option<Key>, procs: map<Pid, Process>, saved: Option<Saved>)

  /** `ok` is false when the step fails. */
  datatype Move =
    | Begin(pid: Pid)
    | Scan(pid: Pid, removable: set<string>)
    | Fetch(pid: Pid, generated: Key, ok: bool)
    | StoreKey(pid: Pid, ok: bool)
    | Read(pid: Pid, ok: bool)
    | Edit(pid: Pid, entries: seq<VaultEntry>)
    | CreateTmp(pid: Pid, nonce: Bytes, ok: bool)
    | WriteBody(pid: Pid, written: nat, ok: bool)
    | FlushBody(pid: Pid, ok: bool)
    | RenameTmp(pid: Pid, ok: bool)
    | FlushDir(pid: Pid, ok: bool)
    | Die(pid: Pid)

  predicate At(p: Process, step: WriteStep) {
    p.doing.Saving? && p.doing.next == step
  }

  predicate Able(w: Shared, a: Move) {
    if a.Begin? then a.pid !in w.procs
    else
      a.pid in w.procs &&
      var p := w.procs[a.pid];
      match a
      case Scan(_, _) => p.doing.Idle?
      case Fetch(_, _, _) => p.doing.Idle?
      case StoreKey(_, _) => p.doing.FoundEmpty?
      case Read(_, _) => p.doing.HasKey?
      case Edit(_, _) => p.doing.Idle? && p.memory.Some?
      case CreateTmp(_, nonce, _) => p.doing.Idle? && p.memory.Some? && |nonce| == NONCE_LEN
      case WriteBody(_, _, _) => At(p, BodyWrite)
      case FlushBody(_, _) => At(p, BodyFsync)
      case RenameTmp(_, _) => At(p, Rename)
      case FlushDir(_, _) => At(p, ParentFsync)
      case Die(_) => true
  }

  function Put(w: Shared, pid: Pid, p: Process): Shared {
    w.(procs := w.procs[pid := p])
  }

  /** The next step of a save, or its end with an error. */
  function Onward(p: Process, ok: bool, next: WriteStep): Process
    requires p.doing.Saving?
  {
    p.(doing := if ok then p.doing.(next := next) else Idle)
  }

  /** A write to a temporary file that was removed meanwhile goes nowhere, and its rename fails. */
  function Moved(c: Secrecy, path: string, w: Shared, a: Move): Shared
    requires Able(w, a)
  {
    if a.Begin? then Put(w, a.pid, Process(None, Idle))
    else
      var p, tmp := w.procs[a.pid], TmpPath(path, a.pid);
      match a
      case Scan(pid, removable) => w.(files := Cleaned(w.files, path, removable))
      case Fetch(pid, generated, ok) =>
        Put(w, pid, Process(None, if !ok then Idle else if w.slot.Some? then HasKey(w.slot.value) else FoundEmpty(generated)))
      case StoreKey(pid, ok) =>
        if ok then Put(w.(slot := Some(p.doing.generated)), pid, p.(doing := HasKey(p.doing.generated)))
        else Put(w, pid, p.(doing := Idle))
      case Read(pid, ok) =>
        Put(w, pid, Process(if ok then ToOption(Loaded(c, p.doing.held, ReadFile(w.files, path))) else None, Idle))
      case Edit(pid, entries) =>
        Put(w, pid, p.(memory := Some(p.memory.value.(contents := p.memory.value.contents.(entries := entries)))))
      case CreateTmp(pid, nonce, ok) =>
        if !ok || tmp in w.files then w
        else
          var v := p.memory.value;
          Put(w.(files := w.files[tmp := []]), pid, p.(doing := Saving(BodyWrite, v.key, v.contents, EncryptVault(c, v.key, nonce, v.contents))))
      case WriteBody(pid, written, ok) =>
        var part := if ok then p.doing.bytes else p.doing.bytes[..Min(written, |p.doing.bytes|)];
        Put(w.(files := if tmp in w.files then w.files[tmp := part] else w.files), pid, Onward(p, ok, BodyFsync))
      case FlushBody(pid, ok) => Put(w, pid, Onward(p, ok, Rename))
      case RenameTmp(pid, ok) =>
        if ok && tmp in w.files then
          Put(w.(files := w.files[path := w.files[tmp]] - {tmp}, saved := Some(Saved(p.doing.key, p.doing.contents))),
              pid, Onward(p, true, ParentFsync))
        else Put(w, pid, p.(doing := Idle))
      case FlushDir(pid, ok) => Put(w, pid, p.(doing := Idle))
      case Die(pid) => w.(procs := w.procs - {pid})
  }

  ghost predicate Lawfully(c: Secrecy, path: string, w: Shared, moves: seq<Move>)
    decreases |moves|
  {
    moves != [] ==> Able(w, moves[0]) && Lawfully(c, path, Moved(c, path, w, moves[0]), moves[1..])
  }

  ghost function After(c: Secrecy, path: string, w: Shared, moves: seq<Move>): Shared
    requires Lawfully(c, path, w, moves)
    decreases |moves|
  {
    if moves == [] then w else After(c, path, Moved(c, path, w, moves[0]), moves[1..])
  }

  // ----- what every step keeps -----

  /** Bytes that encrypt the contents under the key. */
  ghost predicate Encrypts(c: Secrecy, key: Key, contents: VaultContents, bytes: Bytes) {
    exists nonce :: |nonce| == NONCE_LEN && bytes == EncryptVault(c, key, nonce, contents)
  }

  /** A process works under the slot's key, and what it is about to rename is whole. */
  ghost predicate InStep(c: Secrecy, path: string, w: Shared, pid: Pid)
    requires pid in w.procs
  {
    var p, tmp := w.procs[pid], TmpPath(path, pid);
    && (p.memory.Some? ==> w.slot == Some(p.memory.value.key))
    && match p.doing
       case Idle => true
       case FoundEmpty(_) => p.memory.None?
       case HasKey(key) => p.memory.None? && w.slot == Some(key)
       case Saving(next, key, contents, bytes) =>
         && p.memory.Some? && p.memory.value.key == key && Encrypts(c, key, contents, bytes)
         && (next == BodyFsync || next == Rename ==> tmp in w.files ==> w.files[tmp] == bytes)
  }

  ghost predicate SavedIsThere(c: Secrecy, path: string, w: Shared) {
    match w.saved
    case None => path !in w.files
    case Some(s) => w.slot == Some(s.key) && path in w.files && Encrypts(c, s.key, s.contents, w.files[path])
  }

  ghost predicate AllInStep(c: Secrecy, path: string, w: Shared) {
    SavedIsThere(c, path, w) && forall pid :: pid in w.procs ==> InStep(c, path, w, pid)
  }

  lemma TmpPathsDiffer(path: string, p: Pid, q: Pid)
    requires p != q
    ensures TmpPath(path, p) != TmpPath(path, q)
  {
    var front := path + ".tmp.";
    assert TmpPath(path, p)[|front|..] == Decimal(p) && TmpPath(path, q)[|front|..] == Decimal(q);
  }

  /** Nothing of a process depends on another one's temporary file or on the vault file. */
  lemma OthersStayInStep(c: Secrecy, path: string, w: Shared, w': Shared, pid: Pid, q: Pid)
    requires q in w.procs && q in w'.procs && w'.procs[q] == w.procs[q] && w'.slot == w.slot && InStep(c, path, w, q) && q != pid
    requires forall name :: name in w'.files && name != path && name != TmpPath(path, pid) ==> name in w.files && w'.files[name] == w.files[name]
    ensures InStep(c, path, w', q)
  {
    TmpPathsDiffer(path, pid, q);
    OrphansAreTemporaries(path, q);
  }

  /** A step changes no file but the vault and the process's own temporary, except that the scan removes some. */
  lemma FilesOf(c: Secrecy, path: string, w: Shared, a: Move)
    requires Able(w, a)
    ensures var w' := Moved(c, path, w, a);
            forall name :: name in w'.files && name != path && name != TmpPath(path, a.pid) ==> name in w.files && w'.files[name] == w.files[name]
  {
  }

  /** The one step that can go wrong: a key is stored over another one that somebody works under. */
  ghost predicate Overtakes(w: Shared, a: Move)
    requires Able(w, a)
  {
    && a.StoreKey? && a.ok && w.slot.Some? && w.slot.value != w.procs[a.pid].doing.generated
    && (|| w.saved.Some?
        || exists q :: q in w.procs && q != a.pid && (w.procs[q].memory.Some? || w.procs[q].doing.HasKey?))
  }

  lemma OthersOf(c: Secrecy, path: string, w: Shared, a: Move, q: Pid)
    requires AllInStep(c, path, w) && Able(w, a) && !Overtakes(w, a) && q in Moved(c, path, w, a).procs && q != a.pid
    ensures InStep(c, path, Moved(c, path, w, a), q)
  {
    var w' := Moved(c, path, w, a);
    assert InStep(c, path, w, q);
    FilesOf(c, path, w, a);
    if w'.slot == w.slot {
      OthersStayInStep(c, path, w, w', a.pid, q);
    } else {
      assert w.slot.None? || !(w.procs[q].memory.Some? || w.procs[q].doing.HasKey?);
    }
  }

  lemma SavedStays(c: Secrecy, path: string, w: Shared, a: Move)
    requires Lawful(c) && AllInStep(c, path, w) && Able(w, a) && !Overtakes(w, a)
    ensures SavedIsThere(c, path, Moved(c, path, w, a))
  {
    OrphansAreTemporaries(path, a.pid);
    if !a.Begin? {
      assert InStep(c, path, w, a.pid);
    }
  }

  lemma SelfStays(c: Secrecy, path: string, w: Shared, a: Move)
    requires Lawful(c) && AllInStep(c, path, w) && Able(w, a) && !Overtakes(w, a) && a.pid in Moved(c, path, w, a).procs
    ensures InStep(c, path, Moved(c, path, w, a), a.pid)
  {
    OrphansAreTemporaries(path, a.pid);
    if !a.Begin? {
      assert InStep(c, path, w, a.pid);
    }
    if a.Read? && a.ok {
      ReadGivesSaved(c, path, w, a.pid);
    }
  }

  /** Reading with the slot's key gives the last renamed save, or the empty vault. */
  lemma ReadGivesSaved(c: Secrecy, path: string, w: Shared, pid: Pid)
    requires Lawful(c) && AllInStep(c, path, w) && pid in w.procs && w.procs[pid].doing.HasKey?
    ensures var key := w.procs[pid].doing.held;
            && w.slot == Some(key)
            && Moved(c, path, w, Read(pid, true)).procs[pid].memory ==
               Some(OpenVault(key, if w.saved.Some? then w.saved.value.contents else DEFAULT_CONTENTS))
  {
    assert InStep(c, path, w, pid);
    if w.saved.Some? {
      var s := w.saved.value;
      var nonce :| |nonce| == NONCE_LEN && w.files[path] == EncryptVault(c, s.key, nonce, s.contents);
      VaultRoundTrip(c, s.key, nonce, s.contents);
    }
  }

  /** A step keeps everybody in step exactly if it does not overtake. */
  lemma StepKeepsIff(c: Secrecy, path: string, w: Shared, a: Move)
    requires Lawful(c) && AllInStep(c, path, w) && Able(w, a)
    ensures AllInStep(c, path, Moved(c, path, w, a)) <==> !Overtakes(w, a)
  {
    var w' := Moved(c, path, w, a);
    if !Overtakes(w, a) {
      SavedStays(c, path, w, a);
      forall q | q in w'.procs
        ensures InStep(c, path, w', q)
      {
        if q == a.pid {
          SelfStays(c, path, w, a);
        } else {
          OthersOf(c, path, w, a, q);
        }
      }
    } else if w.saved.None? {
      var q :| q in w.procs && q != a.pid && (w.procs[q].memory.Some? || w.procs[q].doing.HasKey?);
      assert InStep(c, path, w, q) && w'.procs[q] == w.procs[q];
      assert !InStep(c, path, w', q);
    }
  }

  // ----- whole runs -----

  ghost predicate NeverOvertaken(c: Secrecy, path: string, w: Shared, moves: seq<Move>)
    requires Lawfully(c, path, w, moves)
    decreases |moves|
  {
    moves != [] ==> !Overtakes(w, moves[0]) && NeverOvertaken(c, path, Moved(c, path, w, moves[0]), moves[1..])
  }

  ghost predicate AlwaysInStep(c: Secrecy, path: string, w: Shared, moves: seq<Move>)
    requires Lawfully(c, path, w, moves)
    decreases |moves|
  {
    AllInStep(c, path, w) && (moves != [] ==> AlwaysInStep(c, path, Moved(c, path, w, moves[0]), moves[1..]))
  }

  /** Throughout a run everybody is in step exactly if no store overtakes. */
  lemma {:induction false} RunKeepsIff(c: Secrecy, path: string, w: Shared, moves: seq<Move>)
    requires Lawful(c) && AllInStep(c, path, w) && Lawfully(c, path, w, moves)
    ensures AlwaysInStep(c, path, w, moves) <==> NeverOvertaken(c, path, w, moves)
    ensures NeverOvertaken(c, path, w, moves) ==> AllInStep(c, path, After(c, path, w, moves))
    decreases |moves|
  {
    if moves != [] {
      StepKeepsIff(c, path, w, moves[0]);
      if !Overtakes(w, moves[0]) {
        RunKeepsIff(c, path, Moved(c, path, w, moves[0]), moves[1..]);
      }
    }
  }

  ghost predicate Fresh(path: string, w: Shared) {
    path !in w.files && w.procs == map[] && w.saved.None?
  }

  /**
   * Any number of processes, their steps interleaved, stopped or dying anywhere: as
   * long as no store overtakes, whoever has its key and reads gets exactly the last
   * save that reached its rename, or the empty vault, under the slot's key.
   */
  lemma VaultSurvives(c: Secrecy, path: string, w: Shared, moves: seq<Move>, pid: Pid)
    requires Lawful(c) && Fresh(path, w) && Lawfully(c, path, w, moves) && NeverOvertaken(c, path, w, moves)
    requires var r := After(c, path, w, moves); pid in r.procs && r.procs[pid].doing.HasKey?
    ensures var r := After(c, path, w, moves);
            && r.slot == Some(r.procs[pid].doing.held)
            && Moved(c, path, r, Read(pid, true)).procs[pid].memory ==
               Some(OpenVault(r.slot.value, if r.saved.Some? then r.saved.value.contents else DEFAULT_CONTENTS))
            && (r.saved.Some? ==> r.saved.value.key == r.slot.value)
  {
    RunKeepsIff(c, path, w, moves);
    ReadGivesSaved(c, path, After(c, path, w, moves), pid);
  }

  /** No process is about to store a key. */
  ghost predicate NobodyStores(w: Shared) {
    w.slot.Some? && forall pid :: pid in w.procs ==> !w.procs[pid].doing.FoundEmpty?
  }

  /** Once the slot is filled and nobody is about to store, no run overtakes, and the key never changes. */
  lemma {:induction false} FilledSlotIsSafe(c: Secrecy, path: string, w: Shared, moves: seq<Move>)
    requires NobodyStores(w) && Lawfully(c, path, w, moves)
    ensures NeverOvertaken(c, path, w, moves) && After(c, path, w, moves).slot == w.slot
    decreases |moves|
  {
    if moves != [] {
      var w' := Moved(c, path, w, moves[0]);
      assert NobodyStores(w') && w'.slot == w.slot;
      FilledSlotIsSafe(c, path, w', moves[1..]);
    }
  }

  // ----- the race of two first opens -----

  /** Two processes that both found the slot empty, the first of which has stored its key. */
  function BothFoundEmpty(files: Files, k1: Key, k2: Key): Shared {
    Shared(files, Some(k1), map[1 := Process(None, HasKey(k1)), 2 := Process(None, FoundEmpty(k2))], None)
  }

  lemma {:induction false} LawfullyOne(c: Secrecy, path: string, w: Shared, a: Move, w': Shared, rest: seq<Move>)
    requires Able(w, a) && w' == Moved(c, path, w, a) && Lawfully(c, path, w', rest)
    ensures Lawfully(c, path, w, [a] + rest) && After(c, path, w, [a] + rest) == After(c, path, w', rest)
  {
    assert ([a] + rest)[1..] == rest;
  }

  lemma {:induction false} RaceBegins(c: Secrecy, path: string, files: Files, k1: Key, k2: Key, rest: seq<Move>) returns (moves: seq<Move>)
    requires Lawfully(c, path, BothFoundEmpty(files, k1, k2), rest)
    ensures var w := Shared(files, None, map[], None);
            Lawfully(c, path, w, moves) && After(c, path, w, moves) == After(c, path, BothFoundEmpty(files, k1, k2), rest)
  {
    var w := Shared(files, None, map[], None);
    var w1 := Moved(c, path, w, Begin(1));
    var w2 := Moved(c, path, w1, Begin(2));
    var w3 := Moved(c, path, w2, Fetch(1, k1, true));
    var w4 := Moved(c, path, w3, Fetch(2, k2, true));
    LawfullyOne(c, path, w4, StoreKey(1, true), BothFoundEmpty(files, k1, k2), rest);
    moves := [StoreKey(1, true)] + rest;
    LawfullyOne(c, path, w3, Fetch(2, k2, true), w4, moves);
    moves := [Fetch(2, k2, true)] + moves;
    LawfullyOne(c, path, w2, Fetch(1, k1, true), w3, moves);
    moves := [Fetch(1, k1, true)] + moves;
    LawfullyOne(c, path, w1, Begin(2), w2, moves);
    moves := [Begin(2)] + moves;
    LawfullyOne(c, path, w, Begin(1), w1, moves);
    moves := [Begin(1)] + moves;
  }

  /** A save that nobody disturbs ends with its contents under its process's key. */
  lemma {:induction false} UndisturbedSave(c: Secrecy, path: string, w: Shared, pid: Pid, nonce: Bytes) returns (moves: seq<Move>)
    requires pid in w.procs && w.procs[pid].doing.Idle? && w.procs[pid].memory.Some?
    requires |nonce| == NONCE_LEN && TmpPath(path, pid) !in w.files
    ensures Lawfully(c, path, w, moves)
    ensures var r, v := After(c, path, w, moves), w.procs[pid].memory.value;
            r.slot == w.slot && r.saved == Some(Saved(v.key, v.contents))
  {
    OrphansAreTemporaries(path, pid);
    var w1 := Moved(c, path, w, CreateTmp(pid, nonce, true));
    var w2 := Moved(c, path, w1, WriteBody(pid, 0, true));
    var w3 := Moved(c, path, w2, FlushBody(pid, true));
    var w4 := Moved(c, path, w3, RenameTmp(pid, true));
    LawfullyOne(c, path, w3, RenameTmp(pid, true), w4, []);
    moves := [RenameTmp(pid, true)] + [];
    LawfullyOne(c, path, w2, FlushBody(pid, true), w3, moves);
    moves := [FlushBody(pid, true)] + moves;
    LawfullyOne(c, path, w1, WriteBody(pid, 0, true), w2, moves);
    moves := [WriteBody(pid, 0, true)] + moves;
    LawfullyOne(c, path, w, CreateTmp(pid, nonce, true), w1, moves);
    moves := [CreateTmp(pid, nonce, true)] + moves;
  }

  /**
   * Two first opens that both find the slot empty: the second store overtakes the
   * first, and a save of the first process then lies under a key that the keychain no
   * longer holds.
   */
  lemma {:induction false} RacingOpens(c: Secrecy, path: string, k1: Key, k2: Key, nonce: Bytes) returns (moves: seq<Move>)
    requires k1 != k2 && |nonce| == NONCE_LEN
    ensures var w := Shared(map[], None, map[], None);
            && Fresh(path, w) && Lawfully(c, path, w, moves)
            && var r := After(c, path, w, moves);
               r.slot == Some(k2) && r.saved == Some(Saved(k1, DEFAULT_CONTENTS))
  {
    var w5 := BothFoundEmpty(map[], k1, k2);
    var w6 := Moved(c, path, w5, StoreKey(2, true));
    var w7 := Moved(c, path, w6, Read(1, true));
    var save := UndisturbedSave(c, path, w7, 1, nonce);
    LawfullyOne(c, path, w6, Read(1, true), w7, save);
    LawfullyOne(c, path, w5, StoreKey(2, true), w6, [Read(1, true)] + save);
    moves := RaceBegins(c, path, map[], k1, k2, [StoreKey(2, true)] + ([Read(1, true)] + save));
  }
}
