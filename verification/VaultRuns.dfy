/** Runs of the vault over disk and keychain, with a stop possible at any write step. */
module VaultRuns {
  import opened Basics
  import opened VaultIo
  import opened Vault

  /** `memory` is the vault a process has open; `saved` records the last save that reached its rename. */
  datatype World = World(files: Files, slot: Option<Key>, memory: Option<OpenVault>, saved: Option<VaultContents>)

  datatype Action =
    | OpenAction(removable: set<string>, generated: Key, fetchOk: bool, storeOk: bool, readOk: bool)
    | RegisterAction(entry: VaultEntry)
    | ForgetAction(name: string)
    | SaveAction(pid: nat, nonce: Bytes, stop: Stop, crashed: bool)
    | CrashAction

  predicate Enabled(w: World, a: Action) {
    match a
    case OpenAction(_, _, _, _, _) => true
    case CrashAction => true
    case SaveAction(_, nonce, _, _) => w.memory.Some? && |nonce| == NONCE_LEN
    case _ => w.memory.Some?
  }

  function Cleaned(files: Files, path: string, removable: set<string>): Files {
    files - (set n | n in files && IsOrphan(path, n) && n in removable)
  }

  function ReadFile(files: Files, path: string): Option<Bytes> {
    if path in files then Some(files[path]) else None
  }

  /** A process works on the vault it opened; a crash loses what was not saved. */
  function Step(c: Secrecy, path: string, w: World, a: Action): World
    requires Enabled(w, a)
  {
    match a
    case OpenAction(removable, generated, fetchOk, storeOk, readOk) =>
      var files := Cleaned(w.files, path, removable);
      var (slot, key) := FetchOrCreate(w.slot, generated, fetchOk, storeOk);
      World(files, slot,
            if key.Some? && readOk then ToOption(Loaded(c, key.value, ReadFile(files, path))) else None,
            w.saved)
    case RegisterAction(entry) =>
      var v := w.memory.value;
      w.(memory := Some(v.(contents := v.contents.(entries := Registered(v.contents.entries, entry)))))
    case ForgetAction(name) =>
      var v := w.memory.value;
      w.(memory := Some(v.(contents := v.contents.(entries := Retain(v.contents.entries, name)))))
    case SaveAction(pid, nonce, stop, crashed) =>
      var v, tmp := w.memory.value, TmpPath(path, pid);
      World(AfterWrite(w.files, path, tmp, EncryptVault(c, v.key, nonce, v.contents), stop), w.slot,
            if crashed then None else w.memory,
            if Renamed(w.files, tmp, stop) then Some(v.contents) else w.saved)
    case CrashAction => w.(memory := None)
  }

  ghost predicate Legal(c: Secrecy, path: string, w: World, actions: seq<Action>)
    decreases |actions|
  {
    actions != [] ==> Enabled(w, actions[0]) && Legal(c, path, Step(c, path, w, actions[0]), actions[1..])
  }

  ghost function Run(c: Secrecy, path: string, w: World, actions: seq<Action>): World
    requires Legal(c, path, w, actions)
    decreases |actions|
  {
    if actions == [] then w else Run(c, path, Step(c, path, w, actions[0]), actions[1..])
  }

  /** No vault file yet and nothing in memory; other files and an old key may be there. */
  ghost predicate Start(path: string, w: World) {
    path !in w.files && w.memory.None? && w.saved.None?
  }

  /** The vault file is the encryption of the last save, under the key in the keychain. */
  ghost predicate Inv(c: Secrecy, path: string, w: World) {
    && (w.memory.Some? ==> w.slot == Some(w.memory.value.key))
    && match w.saved
       case None => path !in w.files
       case Some(contents) =>
         && w.slot.Some? && path in w.files
         && exists nonce :: |nonce| == NONCE_LEN && w.files[path] == EncryptVault(c, w.slot.value, nonce, contents)
  }

  /** A later open whose keychain and read succeed gives the last save, under the slot's key. */
  lemma OpenGivesLastSave(c: Secrecy, path: string, w: World, a: Action)
    requires Lawful(c) && Inv(c, path, w) && a.OpenAction? && a.fetchOk && a.readOk && (w.slot.None? ==> a.storeOk)
    ensures var key := if w.slot.Some? then w.slot.value else a.generated;
            var w' := Step(c, path, w, a);
            && w'.slot == Some(key)
            && w'.memory == Some(OpenVault(key, if w.saved.Some? then w.saved.value else DEFAULT_CONTENTS))
            && (path in w.files ==> path in w'.files && w'.files[path] == w.files[path])
  {
    OrphansAreTemporaries(path, 0);
    if w.saved.Some? {
      var nonce :| |nonce| == NONCE_LEN && w.files[path] == EncryptVault(c, w.slot.value, nonce, w.saved.value);
      VaultRoundTrip(c, w.slot.value, nonce, w.saved.value);
    }
  }

  lemma InvStep(c: Secrecy, path: string, w: World, a: Action)
    requires Lawful(c) && Inv(c, path, w) && Enabled(w, a)
    ensures Inv(c, path, Step(c, path, w, a))
    ensures w.slot.Some? ==> Step(c, path, w, a).slot == w.slot
  {
    OrphansAreTemporaries(path, 0);
    var w' := Step(c, path, w, a);
    if a.SaveAction? {
      var v := w.memory.value;
      var bytes := EncryptVault(c, v.key, a.nonce, v.contents);
      WriteIsAllOrNothing(w.files, path, a.pid, bytes, a.stop, path);
      if Renamed(w.files, TmpPath(path, a.pid), a.stop) {
        assert w'.files[path] == EncryptVault(c, w'.slot.value, a.nonce, w'.saved.value);
      }
    } else if a.OpenAction? && w.saved.Some? {
      var nonce :| |nonce| == NONCE_LEN && w.files[path] == EncryptVault(c, w.slot.value, nonce, w.saved.value);
      assert w'.files[path] == w.files[path] && w'.slot == w.slot;
    }
  }

  lemma {:induction false} InvRun(c: Secrecy, path: string, w: World, actions: seq<Action>)
    requires Lawful(c) && Inv(c, path, w) && Legal(c, path, w, actions)
    ensures Inv(c, path, Run(c, path, w, actions))
    ensures w.slot.Some? ==> Run(c, path, w, actions).slot == w.slot
    decreases |actions|
  {
    if actions != [] {
      InvStep(c, path, w, actions[0]);
      InvRun(c, path, Step(c, path, w, actions[0]), actions[1..]);
    }
  }

  /**
   * After any run of opens, registrations, removals, saves stopped anywhere and
   * crashes, an open whose keychain and read succeed returns exactly the contents
   * of the last save that reached its rename, or the empty vault, under the one
   * key the keychain ever held; and its orphan scan leaves the vault file alone.
   */
  lemma SavesSurvive(c: Secrecy, path: string, w: World, actions: seq<Action>, last: Action)
    requires Lawful(c) && Start(path, w) && Legal(c, path, w, actions)
    requires last.OpenAction? && last.fetchOk && last.readOk
    requires Run(c, path, w, actions).slot.None? ==> last.storeOk
    ensures var r := Run(c, path, w, actions);
            var key := if r.slot.Some? then r.slot.value else last.generated;
            var r' := Step(c, path, r, last);
            && r'.slot == Some(key)
            && r'.memory == Some(OpenVault(key, if r.saved.Some? then r.saved.value else DEFAULT_CONTENTS))
            && ReadFile(r'.files, path) == ReadFile(r.files, path)
    ensures forall n :: 0 <= n <= |actions| ==>
              Legal(c, path, w, actions[..n])
              && (Run(c, path, w, actions[..n]).slot.Some? ==>
                    && Run(c, path, w, actions).slot == Run(c, path, w, actions[..n]).slot
                    && Step(c, path, Run(c, path, w, actions), last).slot == Run(c, path, w, actions[..n]).slot)
  {
    InvRun(c, path, w, actions);
    var r := Run(c, path, w, actions);
    OpenGivesLastSave(c, path, r, last);
    forall n | 0 <= n <= |actions|
      ensures Legal(c, path, w, actions[..n])
      ensures Run(c, path, w, actions[..n]).slot.Some? ==> r.slot == Run(c, path, w, actions[..n]).slot
    {
      KeyNeverChanges(c, path, w, actions, n);
    }
  }

  /** Whatever key the keychain holds after some actions, it holds after all of them. */
  lemma {:induction false} KeyNeverChanges(c: Secrecy, path: string, w: World, actions: seq<Action>, n: nat)
    requires Lawful(c) && Inv(c, path, w) && Legal(c, path, w, actions) && n <= |actions|
    ensures Legal(c, path, w, actions[..n])
    ensures Run(c, path, w, actions[..n]).slot.Some? ==>
              Run(c, path, w, actions).slot == Run(c, path, w, actions[..n]).slot
    decreases |actions|
  {
    if n == 0 {
      InvRun(c, path, w, actions);
    } else {
      InvStep(c, path, w, actions[0]);
      KeyNeverChanges(c, path, Step(c, path, w, actions[0]), actions[1..], n - 1);
      assert actions[..n][1..] == actions[1..][..n - 1];
    }
  }

  /** A save does not depend on how it was stopped before the rename: what opens next is the save before. */
  lemma StoppedSaveIsInvisible(c: Secrecy, path: string, w: World, save: Action, open: Action)
    requires Lawful(c) && Inv(c, path, w) && save.SaveAction? && Enabled(w, save)
    requires !Renamed(w.files, TmpPath(path, save.pid), save.stop)
    requires open.OpenAction? && open.fetchOk && open.readOk
    ensures Step(c, path, Step(c, path, w, save), open).memory == Step(c, path, w, open).memory
  {
    InvStep(c, path, w, save);
    OpenGivesLastSave(c, path, w, open);
    OpenGivesLastSave(c, path, Step(c, path, w, save), open);
  }
}
