/**
 * Whose registrations survive when several processes work on one vault: a save
 * replaces the whole file by what its process has in memory.
 */
module VaultUpdates {
  import opened Basics
  import opened VaultIo
  import opened Vault
  import opened VaultProcesses

  ghost predicate HoldsEntry(p: Process, x: VaultEntry) {
    p.memory.Some? && x in p.memory.value.contents.entries
  }

  /** The processes that have the entry in memory. */
  ghost function Holders(w: Shared, x: VaultEntry): set<Pid> {
    set pid | pid in w.procs && HoldsEntry(w.procs[pid], x)
  }

  ghost predicate SavedHas(w: Shared, x: VaultEntry) {
    w.saved.Some? && x in w.saved.value.contents.entries
  }

  /** A save that is under way is of what its process has in memory. */
  ghost predicate SavesMemory(w: Shared) {
    forall pid :: pid in w.procs && w.procs[pid].doing.Saving? ==>
      w.procs[pid].memory == Some(OpenVault(w.procs[pid].doing.key, w.procs[pid].doing.contents))
  }

  /** An edit neither registers nor forgets the entry. */
  ghost predicate LeavesAlone(w: Shared, a: Move, x: VaultEntry)
    requires Able(w, a)
  {
    a.Edit? ==> (x in a.entries <==> HoldsEntry(w.procs[a.pid], x))
  }

  /** The step puts a new vault file in place. */
  predicate Replaces(path: string, w: Shared, a: Move) {
    a.RenameTmp? && a.ok && TmpPath(path, a.pid) in w.files
  }

  /** Who has read since, given who was up to date before: opening loses what was in memory, and reading brings it up to date. */
  function UpToDate(current: set<Pid>, a: Move): set<Pid> {
    match a
    case Begin(pid) => current - {pid}
    case Fetch(pid, _, _) => current - {pid}
    case Read(pid, ok) => if ok then current + {pid} else current - {pid}
    case Die(pid) => current - {pid}
    case _ => current
  }

  lemma {:induction false} ReadHolds(c: Secrecy, path: string, w: Shared, pid: Pid, x: VaultEntry)
    requires Lawful(c) && AllInStep(c, path, w) && Able(w, Read(pid, true)) && SavedHas(w, x)
    ensures HoldsEntry(Moved(c, path, w, Read(pid, true)).procs[pid], x)
  {
    ReadGivesSaved(c, path, w, pid);
  }

  lemma {:induction false} OthersHold(c: Secrecy, path: string, w: Shared, a: Move, q: Pid)
    requires Able(w, a) && q != a.pid
    ensures var w' := Moved(c, path, w, a); (q in w'.procs <==> q in w.procs) && (q in w.procs ==> w'.procs[q] == w.procs[q])
  {
  }

  lemma {:induction false} SelfHolds(c: Secrecy, path: string, w: Shared, a: Move, x: VaultEntry)
    requires Lawful(c) && AllInStep(c, path, w) && Able(w, a) && SavedHas(w, x) && LeavesAlone(w, a, x)
    ensures a.pid in Holders(Moved(c, path, w, a), x) <==> a.pid in UpToDate(Holders(w, x), a)
  {
    if a.Read? && a.ok {
      ReadHolds(c, path, w, a.pid, x);
    }
  }

  /** While the file has the entry, having it in memory is being up to date. */
  lemma {:induction false} HoldersStep(c: Secrecy, path: string, w: Shared, a: Move, x: VaultEntry)
    requires Lawful(c) && AllInStep(c, path, w) && Able(w, a) && SavedHas(w, x) && LeavesAlone(w, a, x)
    ensures Holders(Moved(c, path, w, a), x) == UpToDate(Holders(w, x), a)
  {
    var w' := Moved(c, path, w, a);
    forall q
      ensures q in Holders(w', x) <==> q in UpToDate(Holders(w, x), a)
    {
      if q == a.pid {
        SelfHolds(c, path, w, a, x);
      } else {
        OthersHold(c, path, w, a, q);
      }
    }
  }

  lemma {:induction false} SavesMemoryStep(c: Secrecy, path: string, w: Shared, a: Move)
    requires SavesMemory(w) && Able(w, a)
    ensures SavesMemory(Moved(c, path, w, a))
  {
    var w' := Moved(c, path, w, a);
    forall q | q in w'.procs && w'.procs[q].doing.Saving?
      ensures w'.procs[q].memory == Some(OpenVault(w'.procs[q].doing.key, w'.procs[q].doing.contents))
    {
      if q != a.pid {
        OthersHold(c, path, w, a, q);
      }
    }
  }

  /** Only a rename can take the entry from the file, and does so unless its process has it. */
  lemma {:induction false} SavedHasStep(c: Secrecy, path: string, w: Shared, a: Move, x: VaultEntry)
    requires SavesMemory(w) && Able(w, a) && SavedHas(w, x)
    ensures SavedHas(Moved(c, path, w, a), x) <==> (Replaces(path, w, a) ==> a.pid in Holders(w, x))
  {
  }

  ghost predicate LeftAlone(c: Secrecy, path: string, w: Shared, moves: seq<Move>, x: VaultEntry)
    requires Lawfully(c, path, w, moves)
    decreases |moves|
  {
    moves != [] ==> LeavesAlone(w, moves[0], x) && LeftAlone(c, path, Moved(c, path, w, moves[0]), moves[1..], x)
  }

  /** The entry is in the file all along. */
  ghost predicate AlwaysSaved(c: Secrecy, path: string, w: Shared, moves: seq<Move>, x: VaultEntry)
    requires Lawfully(c, path, w, moves)
    decreases |moves|
  {
    SavedHas(w, x) && (moves != [] ==> AlwaysSaved(c, path, Moved(c, path, w, moves[0]), moves[1..], x))
  }

  /** Only processes that are up to date replace the file. */
  ghost predicate NoStaleSave(c: Secrecy, path: string, w: Shared, moves: seq<Move>, current: set<Pid>)
    requires Lawfully(c, path, w, moves)
    decreases |moves|
  {
    moves != [] ==>
      && (Replaces(path, w, moves[0]) ==> moves[0].pid in current)
      && NoStaleSave(c, path, Moved(c, path, w, moves[0]), moves[1..], UpToDate(current, moves[0]))
  }

  /**
   * Any number of processes, their steps interleaved: as long as no store overtakes,
   * an entry that is in the file and that nobody registers or forgets stays in it if
   * and only if every process that replaces the file had it at the start or has read
   * the file since.
   */
  lemma {:induction false} EntrySurvivesIff(c: Secrecy, path: string, w: Shared, moves: seq<Move>, x: VaultEntry)
    requires Lawful(c) && AllInStep(c, path, w) && SavesMemory(w) && SavedHas(w, x)
    requires Lawfully(c, path, w, moves) && NeverOvertaken(c, path, w, moves) && LeftAlone(c, path, w, moves, x)
    ensures AlwaysSaved(c, path, w, moves, x) <==> NoStaleSave(c, path, w, moves, Holders(w, x))
    decreases |moves|
  {
    if moves != [] {
      var a := moves[0];
      var w' := Moved(c, path, w, a);
      StepKeepsIff(c, path, w, a);
      SavesMemoryStep(c, path, w, a);
      SavedHasStep(c, path, w, a, x);
      HoldersStep(c, path, w, a, x);
      if SavedHas(w', x) {
        EntrySurvivesIff(c, path, w', moves[1..], x);
      }
    }
  }

  /** From a first run on, a save under way is of its process's memory. */
  lemma {:induction false} SavesMemoryRun(c: Secrecy, path: string, w: Shared, moves: seq<Move>)
    requires SavesMemory(w) && Lawfully(c, path, w, moves)
    ensures SavesMemory(After(c, path, w, moves))
    decreases |moves|
  {
    if moves != [] {
      SavesMemoryStep(c, path, w, moves[0]);
      SavesMemoryRun(c, path, Moved(c, path, w, moves[0]), moves[1..]);
    }
  }

  // ----- a registration that is lost -----

  /** Two processes that have both read the same contents. */
  function BothOpen(key: Key, contents: VaultContents, files: Files, saved: Option<Saved>): Shared {
    Shared(files, Some(key), map[1 := Process(Some(OpenVault(key, contents)), Idle), 2 := Process(Some(OpenVault(key, contents)), Idle)], saved)
  }

  /** What a save that nobody disturbs leaves. */
  function SavedBy(c: Secrecy, path: string, w: Shared, pid: Pid, v: OpenVault, nonce: Bytes): Shared {
    Shared(w.files[path := EncryptVault(c, v.key, nonce, v.contents)], w.slot,
           w.procs[pid := Process(Some(v), Idle)], Some(Saved(v.key, v.contents)))
  }

  /** Its last three steps, once the temporary file is whole. */
  lemma {:induction false} RenameAndFlush(c: Secrecy, path: string, w: Shared, pid: Pid, v: OpenVault, nonce: Bytes, bytes: Bytes, w': Shared)
    returns (moves: seq<Move>)
    requires w == Shared(w'.files[TmpPath(path, pid) := bytes], w.slot, w.procs, w.saved) && TmpPath(path, pid) !in w'.files
    requires pid in w.procs && w.procs[pid] == Process(Some(v), Saving(BodyFsync, v.key, v.contents, bytes))
    requires bytes == EncryptVault(c, v.key, nonce, v.contents)
    ensures Lawfully(c, path, w, moves) && After(c, path, w, moves) == SavedBy(c, path, w.(files := w'.files), pid, v, nonce)
  {
    OrphansAreTemporaries(path, pid);
    var w1 := Moved(c, path, w, FlushBody(pid, true));
    var w2 := Moved(c, path, w1, RenameTmp(pid, true));
    var w3 := Moved(c, path, w2, FlushDir(pid, true));
    assert w3.files == w'.files[path := bytes];
    assert w3 == SavedBy(c, path, w.(files := w'.files), pid, v, nonce);
    LawfullyOne(c, path, w2, FlushDir(pid, true), w3, []);
    moves := [FlushDir(pid, true)] + [];
    LawfullyOne(c, path, w1, RenameTmp(pid, true), w2, moves);
    moves := [RenameTmp(pid, true)] + moves;
    LawfullyOne(c, path, w, FlushBody(pid, true), w1, moves);
    moves := [FlushBody(pid, true)] + moves;
  }

  /** An edit and a save that nobody disturbs. */
  lemma {:induction false} EditAndSave(c: Secrecy, path: string, w: Shared, pid: Pid, v: OpenVault, entries: seq<VaultEntry>, nonce: Bytes)
    returns (moves: seq<Move>)
    requires pid in w.procs && w.procs[pid] == Process(Some(v), Idle)
    requires |nonce| == NONCE_LEN && TmpPath(path, pid) !in w.files
    ensures Lawfully(c, path, w, moves)
    ensures After(c, path, w, moves) == SavedBy(c, path, w, pid, v.(contents := v.contents.(entries := entries)), nonce)
  {
    var edited := v.(contents := v.contents.(entries := entries));
    var bytes := EncryptVault(c, v.key, nonce, edited.contents);
    var w1 := Moved(c, path, w, Edit(pid, entries));
    var w2 := Moved(c, path, w1, CreateTmp(pid, nonce, true));
    var w3 := Moved(c, path, w2, WriteBody(pid, 0, true));
    assert w3.files == w.files[TmpPath(path, pid) := bytes];
    var rest := RenameAndFlush(c, path, w3, pid, edited, nonce, bytes, w);
    var done := SavedBy(c, path, w, pid, edited, nonce);
    assert SavedBy(c, path, w3.(files := w.files), pid, edited, nonce).procs == done.procs;
    LawfullyOne(c, path, w2, WriteBody(pid, 0, true), w3, rest);
    moves := [WriteBody(pid, 0, true)] + rest;
    LawfullyOne(c, path, w1, CreateTmp(pid, nonce, true), w2, moves);
    moves := [CreateTmp(pid, nonce, true)] + moves;
    LawfullyOne(c, path, w, Edit(pid, entries), w1, moves);
    moves := [Edit(pid, entries)] + moves;
  }

  lemma {:induction false} LawfullyBoth(c: Secrecy, path: string, w: Shared, first: seq<Move>, second: seq<Move>)
    requires Lawfully(c, path, w, first) && Lawfully(c, path, After(c, path, w, first), second)
    ensures Lawfully(c, path, w, first + second)
    ensures After(c, path, w, first + second) == After(c, path, After(c, path, w, first), second)
    decreases |first|
  {
    if first == [] {
      assert first + second == second;
    } else {
      LawfullyBoth(c, path, Moved(c, path, w, first[0]), first[1..], second);
      assert (first + second)[1..] == first[1..] + second;
    }
  }

  /** Two processes that both opened, each registers one entry and saves: the first one's is gone. */
  lemma {:induction false} RegistrationIsLost(
    c: Secrecy, path: string, key: Key, contents: VaultContents, files: Files, saved: Option<Saved>, x: VaultEntry, y: VaultEntry, nonce: Bytes)
    returns (moves: seq<Move>, first: seq<Move>)
    requires |nonce| == NONCE_LEN && TmpPath(path, 1) !in files && TmpPath(path, 2) !in files && x != y && x !in contents.entries
    ensures var w := BothOpen(key, contents, files, saved);
            && Lawfully(c, path, w, first) && SavedHas(After(c, path, w, first), x)
            && first <= moves && Lawfully(c, path, w, moves)
            && After(c, path, w, moves).saved == Some(Saved(key, contents.(entries := contents.entries + [y])))
            && !SavedHas(After(c, path, w, moves), x)
  {
    OrphansAreTemporaries(path, 2);
    var w, v := BothOpen(key, contents, files, saved), OpenVault(key, contents);
    first := EditAndSave(c, path, w, 1, v, contents.entries + [x], nonce);
    var w1 := SavedBy(c, path, w, 1, v.(contents := contents.(entries := contents.entries + [x])), nonce);
    var second := EditAndSave(c, path, w1, 2, v, contents.entries + [y], nonce);
    LawfullyBoth(c, path, w, first, second);
    moves := first + second;
  }
}
