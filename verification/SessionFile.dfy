/** The `--session` file: its framing, and a time to live that no later scrub extends. */
module SessionFile {
  import opened Basics
  import opened VaultIo
  import opened Vault

  const SESSION_TTL_SECS: nat := 30 * 60
  const U64_MAX: nat := 0xFFFF_FFFF_FFFF_FFFF

  datatype SessionContents = SessionContents(
    schemaVersion: nat, createdAt: nat, expiresAt: nat, entries: seq<(string, string)>)

  function NewAt(now: nat): SessionContents {
    SessionContents(1, now, if now + SESSION_TTL_SECS <= U64_MAX then now + SESSION_TTL_SECS else U64_MAX, [])
  }

  datatype SessionSecrecy = SessionSecrecy(aead: Aead, derive: Key -> Key, json: Codec<SessionContents>)

  ghost predicate LawfulSession(c: SessionSecrecy) {
    AeadLaws(c.aead) && CodecLaws(c.json)
  }

  datatype LoadError = Frame(error: FrameError) | BadJson | Expired(expiredAt: nat)
  datatype LoadResult = Missing | Contents(contents: SessionContents) | Failed(error: LoadError)

  function EncryptSession(c: SessionSecrecy, key: Key, nonce: Bytes, contents: SessionContents): Bytes {
    Seal(c.aead, c.derive(key), SESSION_MAGIC, nonce, c.json.encode(contents))
  }

  function DecryptSession(c: SessionSecrecy, key: Key, file: Bytes, now: nat): LoadResult {
    MagicsDiffer();
    match Open(c.aead, c.derive(key), SESSION_MAGIC, file)
    case Refused(e) => Failed(Frame(e))
    case Plain(text) =>
      match c.json.decode(text)
      case None => Failed(BadJson)
      case Some(contents) => if contents.expiresAt <= now then Failed(Expired(contents.expiresAt)) else Contents(contents)
  }

  function Load(c: SessionSecrecy, key: Key, files: Files, path: string, now: nat): LoadResult {
    if path in files then DecryptSession(c, key, files[path], now) else Missing
  }

  lemma SessionFileRoundTrip(c: SessionSecrecy, key: Key, nonce: Bytes, contents: SessionContents, now: nat)
    requires LawfulSession(c) && |nonce| == NONCE_LEN
    ensures DecryptSession(c, key, EncryptSession(c, key, nonce, contents), now) ==
            if contents.expiresAt <= now then Failed(Expired(contents.expiresAt)) else Contents(contents)
  {
    MagicsDiffer();
    SealThenOpen(c.aead, c.derive(key), SESSION_MAGIC, nonce, c.json.encode(contents), key, SESSION_MAGIC);
  }

  /** A session file gives its contents if and only if it is the seal, as a session, of a text that parses as them, and they have not expired. */
  lemma {:induction false} DecryptSessionIff(c: SessionSecrecy, key: Key, file: Bytes, now: nat, contents: SessionContents)
    requires AeadLaws(c.aead)
    ensures DecryptSession(c, key, file, now) == Contents(contents) <==>
              && now < contents.expiresAt
              && exists text :: IsSealOf(c.aead, c.derive(key), SESSION_MAGIC, file, text) && c.json.decode(text) == Some(contents)
    ensures forall e :: DecryptSession(c, key, file, now) == Failed(Frame(e)) <==> Open(c.aead, c.derive(key), SESSION_MAGIC, file) == Refused(e)
    ensures DecryptSession(c, key, file, now) == Failed(BadJson) <==>
            exists text :: IsSealOf(c.aead, c.derive(key), SESSION_MAGIC, file, text) && c.json.decode(text) == None
  {
    MagicsDiffer();
    var k := c.derive(key);
    forall text
      ensures Open(c.aead, k, SESSION_MAGIC, file) == Plain(text) <==> IsSealOf(c.aead, k, SESSION_MAGIC, file, text)
    {
      OpenIff(c.aead, k, SESSION_MAGIC, file, text);
    }
    if Open(c.aead, k, SESSION_MAGIC, file).Plain? {
      assert IsSealOf(c.aead, k, SESSION_MAGIC, file, Open(c.aead, k, SESSION_MAGIC, file).text);
    }
  }

  /** Vault bytes and session bytes are never accepted for one another, whatever the keys. */
  lemma KindsAreNotConfused(v: Secrecy, c: SessionSecrecy, key: Key, key': Key, nonce: Bytes,
                            vault: VaultContents, session: SessionContents, now: nat)
    requires Vault.Lawful(v) && LawfulSession(c) && |nonce| == NONCE_LEN
    ensures DecryptSession(c, key', EncryptVault(v, key, nonce, vault), now) == Failed(Frame(BadMagic))
    ensures DecryptVault(v, key', EncryptSession(c, key, nonce, session)) == Failure(Framing(BadMagic))
  {
    MagicsDiffer();
    SealThenOpen(v.aead, v.derive(key), VAULT_MAGIC, nonce, v.json.encode(vault), c.derive(key'), SESSION_MAGIC);
    SealThenOpen(c.aead, c.derive(key), SESSION_MAGIC, nonce, c.json.encode(session), v.derive(key'), VAULT_MAGIC);
  }

  // ----- scrub --session -----

  /** One call: its time, the entries its session map ends with, and where its save stops. */
  datatype Call = Call(now: nat, entries: seq<(string, string)>, nonce: Bytes, pid: nat, stop: Stop)

  predicate ValidCall(call: Call) {
    call.now <= U64_MAX && |call.nonce| == NONCE_LEN
  }

  /** What the call is about to save: the loaded or fresh contents with the new entries. */
  function Merged(loaded: LoadResult, call: Call): SessionContents
    requires !loaded.Failed?
  {
    (if loaded.Contents? then loaded.contents else NewAt(call.now)).(entries := call.entries)
  }

  function AfterCall(c: SessionSecrecy, key: Key, path: string, files: Files, call: Call): Files {
    var loaded := Load(c, key, files, path, call.now);
    if loaded.Failed? then files
    else AfterWrite(files, path, TmpPath(path, call.pid), EncryptSession(c, key, call.nonce, Merged(loaded, call)), call.stop)
  }

  ghost function AfterCalls(c: SessionSecrecy, key: Key, path: string, files: Files, calls: seq<Call>): Files
    decreases |calls|
  {
    if calls == [] then files else AfterCalls(c, key, path, AfterCall(c, key, path, files, calls[0]), calls[1..])
  }

  /** The file holds a session created at `born`, to expire half an hour later. */
  ghost predicate SessionSince(c: SessionSecrecy, key: Key, path: string, files: Files, born: nat) {
    path in files && exists nonce, contents ::
      && |nonce| == NONCE_LEN && files[path] == EncryptSession(c, key, nonce, contents)
      && contents.schemaVersion == 1 && contents.createdAt == born && contents.expiresAt == Min(born + 1800, 0xFFFF_FFFF_FFFF_FFFF)
  }

  /** It loads, with these times, at any time before that, and at none from then on. */
  lemma LoadSince(c: SessionSecrecy, key: Key, path: string, files: Files, born: nat, now: nat)
    requires LawfulSession(c) && SessionSince(c, key, path, files, born)
    ensures var r, expiry := Load(c, key, files, path, now), Min(born + 1800, 0xFFFF_FFFF_FFFF_FFFF);
            if now < expiry then r.Contents? && r.contents == SessionContents(1, born, expiry, r.contents.entries)
            else r == Failed(Expired(expiry))
  {
    var nonce, contents :| |nonce| == NONCE_LEN && files[path] == EncryptSession(c, key, nonce, contents) && contents.schemaVersion == 1
                           && contents.createdAt == born && contents.expiresAt == Min(born + 1800, 0xFFFF_FFFF_FFFF_FFFF);
    SessionFileRoundTrip(c, key, nonce, contents, now);
  }

  /** The first call to reach its rename fixes creation and expiry. */
  lemma FirstCallCreates(c: SessionSecrecy, key: Key, path: string, files: Files, call: Call, now: nat)
    requires LawfulSession(c) && ValidCall(call) && path !in files
    ensures var after := AfterCall(c, key, path, files, call);
            if Renamed(files, TmpPath(path, call.pid), call.stop) then
              && SessionSince(c, key, path, after, call.now)
              && var r, expiry := Load(c, key, after, path, now), Min(call.now + 1800, 0xFFFF_FFFF_FFFF_FFFF);
                 if now < expiry then r == Contents(SessionContents(1, call.now, expiry, call.entries)) else r == Failed(Expired(expiry))
            else path !in after
  {
    var after := AfterCall(c, key, path, files, call);
    var bytes := EncryptSession(c, key, call.nonce, NewAt(call.now).(entries := call.entries));
    WriteIsAllOrNothing(files, path, call.pid, bytes, call.stop, path);
    if Renamed(files, TmpPath(path, call.pid), call.stop) {
      var contents := SessionContents(1, call.now, Min(call.now + 1800, 0xFFFF_FFFF_FFFF_FFFF), call.entries);
      assert after[path] == EncryptSession(c, key, call.nonce, contents);
      SessionFileRoundTrip(c, key, call.nonce, contents, now);
    }
  }

  lemma LaterCallKeeps(c: SessionSecrecy, key: Key, path: string, files: Files, born: nat, call: Call)
    requires LawfulSession(c) && ValidCall(call) && SessionSince(c, key, path, files, born)
    ensures SessionSince(c, key, path, AfterCall(c, key, path, files, call), born)
    ensures call.now >= Min(born + 1800, 0xFFFF_FFFF_FFFF_FFFF) <==> Load(c, key, files, path, call.now).Failed?
    ensures call.now >= Min(born + 1800, 0xFFFF_FFFF_FFFF_FFFF) ==> AfterCall(c, key, path, files, call) == files
  {
    LoadSince(c, key, path, files, born, call.now);
    var loaded, after := Load(c, key, files, path, call.now), AfterCall(c, key, path, files, call);
    if !loaded.Failed? {
      var bytes := EncryptSession(c, key, call.nonce, Merged(loaded, call));
      WriteIsAllOrNothing(files, path, call.pid, bytes, call.stop, path);
      assert Merged(loaded, call) == SessionContents(1, born, Min(born + 1800, 0xFFFF_FFFF_FFFF_FFFF), call.entries);
      if Renamed(files, TmpPath(path, call.pid), call.stop) {
        assert after[path] == EncryptSession(c, key, call.nonce, Merged(loaded, call));
      } else {
        assert after[path] == files[path];
      }
    }
  }

  /** The session of this birth is what a call at `now` finds, or it has expired and the call changes nothing. */
  ghost predicate LivesSince(c: SessionSecrecy, key: Key, path: string, files: Files, born: nat, call: Call) {
    && SessionSince(c, key, path, files, born)
    && var r, expiry := Load(c, key, files, path, call.now), Min(born + 1800, 0xFFFF_FFFF_FFFF_FFFF);
       if call.now < expiry then r.Contents? && r.contents.createdAt == born && r.contents.expiresAt == expiry
       else r == Failed(Expired(expiry)) && AfterCall(c, key, path, files, call) == files
  }

  /**
   * However many scrubs follow, the session keeps the creation time of the first and
   * expires half an hour after it: any call before that loads it, and from then on
   * every call fails and leaves every file as it was.
   */
  lemma {:induction false} TtlNeverExtends(c: SessionSecrecy, key: Key, path: string, files: Files, born: nat, calls: seq<Call>, call: Call)
    requires LawfulSession(c) && SessionSince(c, key, path, files, born)
    requires (forall i :: 0 <= i < |calls| ==> ValidCall(calls[i])) && ValidCall(call)
    ensures LivesSince(c, key, path, AfterCalls(c, key, path, files, calls), born, call)
    decreases |calls|
  {
    if calls == [] {
      LoadSince(c, key, path, files, born, call.now);
    } else {
      LaterCallKeeps(c, key, path, files, born, calls[0]);
      TtlNeverExtends(c, key, path, AfterCall(c, key, path, files, calls[0]), born, calls[1..], call);
    }
  }

  /** The first call to reach its rename, if any. */
  ghost function FirstRenamed(c: SessionSecrecy, key: Key, path: string, files: Files, calls: seq<Call>): (r: Option<nat>)
    ensures r.Some? ==> r.value < |calls|
    decreases |calls|
  {
    if calls == [] then None
    else if Renamed(files, TmpPath(path, calls[0].pid), calls[0].stop) then Some(0)
    else
      var rest := FirstRenamed(c, key, path, AfterCall(c, key, path, files, calls[0]), calls[1..]);
      if rest.Some? then Some(rest.value + 1) else None
  }

  /**
   * The whole life of a session, from a path without a file: there is none until a
   * call reaches its rename; that call's time is the creation for good, every call in
   * the half hour after it loads the session, and every later one fails and leaves
   * every file as it was.
   */
  lemma {:induction false} SessionLife(c: SessionSecrecy, key: Key, path: string, files: Files, calls: seq<Call>, call: Call)
    requires LawfulSession(c) && path !in files
    requires (forall i :: 0 <= i < |calls| ==> ValidCall(calls[i])) && ValidCall(call)
    ensures var after, first := AfterCalls(c, key, path, files, calls), FirstRenamed(c, key, path, files, calls);
            match first
            case None => path !in after
            case Some(k) => LivesSince(c, key, path, after, calls[k].now, call)
    decreases |calls|
  {
    if calls != [] {
      FirstCallCreates(c, key, path, files, calls[0], 0);
      var files' := AfterCall(c, key, path, files, calls[0]);
      if Renamed(files, TmpPath(path, calls[0].pid), calls[0].stop) {
        TtlNeverExtends(c, key, path, files', calls[0].now, calls[1..], call);
      } else {
        SessionLife(c, key, path, files', calls[1..], call);
      }
    }
  }
}
