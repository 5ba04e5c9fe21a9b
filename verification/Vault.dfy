/** The vault: file framing, entries, keychain, and what survives crashes. */
module Vault {
  import opened Basics
  import opened VaultIo
  import opened Fpe

  type Key = Bytes

  datatype EntryKind = FpeEntry(tweak: Bytes, prefix: string, alphabet: string) | SessionEntry(kind: SessionFakeKind)
  datatype VaultEntry = VaultEntry(name: string, value: string, kind: EntryKind)
  datatype VaultContents = VaultContents(schemaVersion: nat, entries: seq<VaultEntry>)

  const DEFAULT_CONTENTS := VaultContents(1, [])

  /** The AEAD: sealing and opening under key, nonce and associated data. */
  datatype Aead = Aead(
    seal: (Key, Bytes, Bytes, Bytes) -> Bytes,
    open: (Key, Bytes, Bytes, Bytes) -> Option<Bytes>)

  /** A serialiser and its parser. */
  datatype Codec<!T> = Codec(encode: T -> Bytes, decode: Bytes -> Option<T>)

  const AAD_LEN: nat := 20
  const NONCE_LEN: nat := 24
  const TAG_LEN: nat := 16

  /** Opening undoes sealing, and opens nothing else. */
  ghost predicate AeadLaws(a: Aead) {
    && (forall k, n, ad, m {:trigger a.seal(k, n, ad, m)} ::
          |a.seal(k, n, ad, m)| == |m| + TAG_LEN && a.open(k, n, ad, a.seal(k, n, ad, m)) == Some(m))
    && (forall k, n, ad, ct {:trigger a.open(k, n, ad, ct)} ::
          a.open(k, n, ad, ct).Some? ==> ct == a.seal(k, n, ad, a.open(k, n, ad, ct).value))
  }

  ghost predicate CodecLaws<T(!new)>(c: Codec<T>) {
    forall x {:trigger c.encode(x)} :: c.decode(c.encode(x)) == Some(x)
  }

  // ----- framing, shared by vault and session files -----

  /** ASCII text as octets. */
  function Ascii(s: string): (r: Bytes)
    requires forall i :: 0 <= i < |s| ==> s[i] as int < 128
    ensures |r| == |s| && forall i :: 0 <= i < |s| ==> r[i] == s[i] as int
  {
    seq(|s|, i requires 0 <= i < |s| => s[i] as int)
  }

  const VAULT_MAGIC: Bytes := Ascii("INVISIBOOL_VAULT")
  const SESSION_MAGIC: Bytes := Ascii("INVISIBOOL_SESSN")
  const VERSION: Byte := 1

  /** Magic, version and three reserved octets. */
  function Header(magic: Bytes): Bytes {
    magic + [VERSION, 0, 0, 0]
  }

  datatype FrameError = TruncatedFile | BadMagic | UnsupportedVersion(version: Byte) | AeadFailure
  datatype Opened = Plain(text: Bytes) | Refused(error: FrameError)

  function Seal(a: Aead, key: Key, magic: Bytes, nonce: Bytes, plaintext: Bytes): Bytes {
    var aad := Header(magic);
    aad + nonce + a.seal(key, nonce, aad, plaintext)
  }

  /** The checks in their order: length, magic, version, then authentication of the whole header. */
  function Open(a: Aead, key: Key, magic: Bytes, file: Bytes): Opened
    requires |magic| == 16
  {
    if |file| < AAD_LEN + NONCE_LEN + TAG_LEN then Refused(TruncatedFile)
    else if file[..16] != magic then Refused(BadMagic)
    else if file[16] != VERSION then Refused(UnsupportedVersion(file[16]))
    else
      match a.open(key, file[AAD_LEN..AAD_LEN + NONCE_LEN], file[..AAD_LEN], file[AAD_LEN + NONCE_LEN..])
      case Some(text) => Plain(text)
      case None => Refused(AeadFailure)
  }

  /** Opening what was sealed gives the plaintext; under another magic it is refused as the wrong kind. */
  lemma SealThenOpen(a: Aead, key: Key, magic: Bytes, nonce: Bytes, plaintext: Bytes, key': Key, magic': Bytes)
    requires AeadLaws(a) && |magic| == 16 && |nonce| == NONCE_LEN && |magic'| == 16
    ensures var file := Seal(a, key, magic, nonce, plaintext);
            && IsSealWith(a, key, magic, file, plaintext, [0, 0, 0], nonce)
            && Open(a, key, magic, file) == Plain(plaintext)
            && (magic' != magic ==> Open(a, key', magic', file) == Refused(BadMagic))
  {
    var file, aad := Seal(a, key, magic, nonce, plaintext), Header(magic);
    var ct := a.seal(key, nonce, aad, plaintext);
    assert magic + [1] + [0, 0, 0] == aad;
    assert file == aad + (nonce + ct);
    assert file[..AAD_LEN] == aad && file[AAD_LEN..] == nonce + ct;
    assert file[AAD_LEN..AAD_LEN + NONCE_LEN] == nonce && file[AAD_LEN + NONCE_LEN..] == ct;
    assert file[..16] == aad[..16] == magic && file[16] == aad[16];
  }

  /** The file is magic, version 1, three octets, a nonce, and the seal of the text under the nonce and those twenty octets. */
  ghost predicate IsSealOf(a: Aead, key: Key, magic: Bytes, file: Bytes, text: Bytes) {
    exists reserved: Bytes, nonce: Bytes :: IsSealWith(a, key, magic, file, text, reserved, nonce)
  }

  ghost predicate IsSealWith(a: Aead, key: Key, magic: Bytes, file: Bytes, text: Bytes, reserved: Bytes, nonce: Bytes) {
    && |reserved| == 3 && |nonce| == 24
    && var aad := magic + [1] + reserved; file == aad + nonce + a.seal(key, nonce, aad, text)
  }

  lemma {:induction false} FileParts(magic: Bytes, reserved: Bytes, nonce: Bytes, ct: Bytes)
    requires |magic| == 16 && |reserved| == 3 && |nonce| == 24
    ensures var aad, file := magic + [1] + reserved, magic + [1] + reserved + nonce + ct;
            file[..16] == magic && file[16] == 1 && file[..20] == aad && file[20..44] == nonce && file[44..] == ct
  {
    var aad := magic + [1] + reserved;
    var file := aad + nonce + ct;
    assert file == aad + (nonce + ct) && file[..20] == aad && aad[..16] == magic && aad[16] == 1;
    assert file[..16] == file[..20][..16] && file[16] == file[..20][16];
  }

  lemma {:induction false} FileSplits(file: Bytes)
    requires |file| >= 44
    ensures var magic, reserved, nonce := file[..16], file[17..20], file[20..44];
            file[..20] == magic + [file[16]] + reserved && file == magic + [file[16]] + reserved + nonce + file[44..]
  {
  }

  /** A file opens as a text if and only if it is the seal of that text. */
  lemma {:induction false} OpenIff(a: Aead, key: Key, magic: Bytes, file: Bytes, text: Bytes)
    requires AeadLaws(a) && |magic| == 16
    ensures Open(a, key, magic, file) == Plain(text) <==> IsSealOf(a, key, magic, file, text)
  {
    if Open(a, key, magic, file) == Plain(text) {
      FileSplits(file);
      assert a.open(key, file[20..44], file[..20], file[44..]) == Some(text);
      assert IsSealWith(a, key, magic, file, text, file[17..20], file[20..44]);
    }
    if IsSealOf(a, key, magic, file, text) {
      var reserved: Bytes, nonce: Bytes :| IsSealWith(a, key, magic, file, text, reserved, nonce);
      var aad := magic + [1] + reserved;
      FileParts(magic, reserved, nonce, a.seal(key, nonce, aad, text));
      assert a.open(key, nonce, aad, a.seal(key, nonce, aad, text)) == Some(text);
    }
  }

  /** Why a file is refused: too short for header, nonce and tag; else another kind; else another version; else not authentic. */
  lemma {:induction false} RefusedIff(a: Aead, key: Key, magic: Bytes, file: Bytes)
    requires AeadLaws(a) && |magic| == 16
    ensures var r := Open(a, key, magic, file);
            && (r == Refused(TruncatedFile) <==> |file| < 60)
            && (r == Refused(BadMagic) <==> |file| >= 60 && file[..16] != magic)
            && (forall v :: r == Refused(UnsupportedVersion(v)) <==> |file| >= 60 && file[..16] == magic && file[16] == v && v != 1)
            && (r == Refused(AeadFailure) <==>
                  |file| >= 60 && file[..16] == magic && file[16] == 1 && forall text :: !IsSealOf(a, key, magic, file, text))
  {
    forall text
      ensures Open(a, key, magic, file) == Plain(text) <==> IsSealOf(a, key, magic, file, text)
    {
      OpenIff(a, key, magic, file, text);
    }
    if Open(a, key, magic, file).Plain? {
      assert IsSealOf(a, key, magic, file, Open(a, key, magic, file).text);
    }
  }

  lemma MagicsDiffer()
    ensures |VAULT_MAGIC| == |SESSION_MAGIC| == 16 && VAULT_MAGIC != SESSION_MAGIC
  {
    assert VAULT_MAGIC[11] == 'V' as int && SESSION_MAGIC[11] == 'S' as int;
  }

  // ----- entries -----

  function Retain(entries: seq<VaultEntry>, name: string): seq<VaultEntry> {
    if entries == [] then []
    else (if entries[0].name != name then [entries[0]] else []) + Retain(entries[1..], name)
  }

  function Registered(entries: seq<VaultEntry>, entry: VaultEntry): seq<VaultEntry> {
    Retain(entries, entry.name) + [entry]
  }

  ghost predicate NamesDistinct(entries: seq<VaultEntry>) {
    forall i, j :: 0 <= i < j < |entries| ==> entries[i].name != entries[j].name
  }

  lemma {:induction false} RetainMembers(entries: seq<VaultEntry>, name: string)
    ensures forall e :: e in Retain(entries, name) <==> e in entries && e.name != name
    ensures |Retain(entries, name)| <= |entries|
    ensures |Retain(entries, name)| == |entries| <==> forall e :: e in entries ==> e.name != name
    decreases |entries|
  {
    if entries != [] {
      RetainMembers(entries[1..], name);
      assert entries == [entries[0]] + entries[1..];
    }
  }

  lemma {:induction false} RetainKeepsDistinct(entries: seq<VaultEntry>, name: string)
    requires NamesDistinct(entries)
    ensures NamesDistinct(Retain(entries, name))
    decreases |entries|
  {
    if entries != [] {
      var rest := Retain(entries[1..], name);
      RetainKeepsDistinct(entries[1..], name);
      RetainMembers(entries[1..], name);
      forall i | 0 <= i < |rest|
        ensures rest[i].name != entries[0].name
      {
        assert rest[i] in rest;
        var k :| 0 <= k < |entries[1..]| && entries[1..][k] == rest[i];
        assert entries[1..][k] == entries[k + 1];
      }
    }
  }

  /** What is kept, is kept in its order and as often as it was there. */
  ghost predicate KeepsOrder(entries: seq<VaultEntry>, kept: seq<VaultEntry>, at: seq<nat>) {
    && |at| == |kept| && (forall i, j :: 0 <= i < j < |at| ==> at[i] < at[j])
    && forall i :: 0 <= i < |at| ==> at[i] < |entries| && entries[at[i]] == kept[i]
  }

  function Shifted(at: seq<nat>): (r: seq<nat>)
    ensures |r| == |at| && forall k :: 0 <= k < |at| ==> r[k] == at[k] + 1
  {
    seq(|at|, k requires 0 <= k < |at| => at[k] + 1)
  }

  lemma {:induction false} ShiftedHas(at: seq<nat>, i: nat)
    ensures i + 1 in Shifted(at) <==> i in at
    ensures 0 !in Shifted(at)
  {
    if i in at {
      var k :| 0 <= k < |at| && at[k] == i;
      assert Shifted(at)[k] == i + 1;
    }
  }

  lemma {:induction false} KeepsOrderMore(e: VaultEntry, entries: seq<VaultEntry>, kept: seq<VaultEntry>, at: seq<nat>)
    requires KeepsOrder(entries, kept, at)
    ensures KeepsOrder([e] + entries, kept, Shifted(at)) && KeepsOrder([e] + entries, [e] + kept, [0] + Shifted(at))
  {
    var more := Shifted(at);
    assert KeepsOrder([e] + entries, kept, more);
    forall i | 0 <= i < |at| + 1
      ensures ([0] + more)[i] < |entries| + 1 && ([e] + entries)[([0] + more)[i]] == ([e] + kept)[i]
    {
      if i > 0 {
        assert ([0] + more)[i] == more[i - 1] && ([e] + kept)[i] == kept[i - 1];
      }
    }
  }

  lemma {:induction false} RetainInOrder(entries: seq<VaultEntry>, name: string) returns (at: seq<nat>)
    ensures KeepsOrder(entries, Retain(entries, name), at)
    ensures forall i :: 0 <= i < |entries| ==> (i in at <==> entries[i].name != name)
    decreases |entries|
  {
    if entries == [] {
      at := [];
    } else {
      var rest := RetainInOrder(entries[1..], name);
      assert entries == [entries[0]] + entries[1..];
      KeepsOrderMore(entries[0], entries[1..], Retain(entries[1..], name), rest);
      at := if entries[0].name != name then [0] + Shifted(rest) else Shifted(rest);
      HeadAndShifted(entries, name, rest, at);
      assert [entries[0]] + Retain(entries[1..], name) == Retain(entries, name) || Retain(entries[1..], name) == Retain(entries, name);
    }
  }

  lemma {:induction false} HeadAndShifted(entries: seq<VaultEntry>, name: string, rest: seq<nat>, at: seq<nat>)
    requires entries != [] && at == if entries[0].name != name then [0] + Shifted(rest) else Shifted(rest)
    requires forall i :: 0 <= i < |entries[1..]| ==> (i in rest <==> entries[1..][i].name != name)
    ensures forall i :: 0 <= i < |entries| ==> (i in at <==> entries[i].name != name)
  {
    forall i | 0 <= i < |entries|
      ensures i in at <==> entries[i].name != name
    {
      if i > 0 {
        ShiftedHas(rest, i - 1);
        assert entries[1..][i - 1] == entries[i];
      } else {
        ShiftedHas(rest, 0);
      }
    }
  }

  lemma RetainDrops(entries: seq<VaultEntry>, name: string)
    ensures forall e :: e in Retain(entries, name) <==> e in entries && e.name != name
    ensures NamesDistinct(entries) ==> NamesDistinct(Retain(entries, name))
    ensures |Retain(entries, name)| == |entries| <==> forall e :: e in entries ==> e.name != name
  {
    RetainMembers(entries, name);
    if NamesDistinct(entries) {
      RetainKeepsDistinct(entries, name);
    }
  }

  /** Registering replaces by name and keeps the names distinct. */
  lemma RegisterReplaces(entries: seq<VaultEntry>, entry: VaultEntry)
    ensures var r := Registered(entries, entry);
            && (forall e :: e in r <==> e == entry || (e in entries && e.name != entry.name))
            && (NamesDistinct(entries) ==> NamesDistinct(r))
            && r != [] && r[|r| - 1] == entry && r[..|r| - 1] == Retain(entries, entry.name)
  {
    RetainDrops(entries, entry.name);
    var kept := Retain(entries, entry.name);
    forall i | 0 <= i < |kept|
      ensures kept[i].name != entry.name
    {
      assert kept[i] in kept;
    }
  }

  // ----- the keychain -----

  /** fetch, and only on an empty slot generate, store, then return. */
  function FetchOrCreate(slot: Option<Key>, generated: Key, fetchOk: bool, storeOk: bool): (r: (Option<Key>, Option<Key>))
    ensures r.1.Some? ==> r.0 == r.1
    ensures slot.Some? ==> r.0 == slot
    ensures r.1.Some? <==> fetchOk && (slot.Some? || storeOk)
    ensures slot.None? ==> r.0 == if fetchOk && storeOk then Some(generated) else None
  {
    if !fetchOk then (slot, None)
    else if slot.Some? then (slot, slot)
    else if !storeOk then (slot, None)
    else (Some(generated), Some(generated))
  }

  class Keychain {
    var slot: Option<Key>

    constructor ()
      ensures slot == None
    {
      slot := None;
    }

    method FetchOrCreateKey(generated: Key, fetchOk: bool, storeOk: bool) returns (key: Option<Key>)
      modifies this
      ensures (slot, key) == FetchOrCreate(old(slot), generated, fetchOk, storeOk)
    {
      if !fetchOk {
        return None;
      }
      if slot.Some? {
        return slot;
      }
      if !storeOk {
        return None;
      }
      slot := Some(generated);
      return Some(generated);
    }
  }

  // ----- the vault -----

  datatype Secrecy = Secrecy(aead: Aead, derive: Key -> Key, json: Codec<VaultContents>)

  ghost predicate Lawful(c: Secrecy) {
    AeadLaws(c.aead) && CodecLaws(c.json)
  }

  function EncryptVault(c: Secrecy, key: Key, nonce: Bytes, contents: VaultContents): Bytes {
    Seal(c.aead, c.derive(key), VAULT_MAGIC, nonce, c.json.encode(contents))
  }

  datatype OpenError = KeychainFailed | ReadFailed | Framing(error: FrameError) | BadPlaintext
  datatype OpenResult<T> = Success(value: T) | Failure(error: OpenError)

  function DecryptVault(c: Secrecy, key: Key, file: Bytes): OpenResult<VaultContents> {
    MagicsDiffer();
    match Open(c.aead, c.derive(key), VAULT_MAGIC, file)
    case Refused(e) => Failure(Framing(e))
    case Plain(text) =>
      match c.json.decode(text)
      case None => Failure(BadPlaintext)
      case Some(contents) => Success(contents)
  }

  lemma VaultRoundTrip(c: Secrecy, key: Key, nonce: Bytes, contents: VaultContents)
    requires Lawful(c) && |nonce| == NONCE_LEN
    ensures DecryptVault(c, key, EncryptVault(c, key, nonce, contents)) == Success(contents)
  {
    MagicsDiffer();
    SealThenOpen(c.aead, c.derive(key), VAULT_MAGIC, nonce, c.json.encode(contents), key, VAULT_MAGIC);
  }

  /** The bytes are the seal, as a vault, of a text that parses as the contents. */
  ghost predicate IsVaultOf(c: Secrecy, key: Key, file: Bytes, contents: VaultContents) {
    exists text :: IsSealOf(c.aead, c.derive(key), VAULT_MAGIC, file, text) && c.json.decode(text) == Some(contents)
  }

  /** Decrypting gives contents if and only if the file is a vault of them; otherwise the error says which step refused it. */
  lemma {:induction false} DecryptVaultIff(c: Secrecy, key: Key, file: Bytes, contents: VaultContents)
    requires AeadLaws(c.aead)
    ensures DecryptVault(c, key, file) == Success(contents) <==> IsVaultOf(c, key, file, contents)
    ensures forall e :: DecryptVault(c, key, file) == Failure(Framing(e)) <==> Open(c.aead, c.derive(key), VAULT_MAGIC, file) == Refused(e)
    ensures DecryptVault(c, key, file) == Failure(BadPlaintext) <==>
            exists text :: IsSealOf(c.aead, c.derive(key), VAULT_MAGIC, file, text) && c.json.decode(text) == None
  {
    MagicsDiffer();
    var k := c.derive(key);
    forall text
      ensures Open(c.aead, k, VAULT_MAGIC, file) == Plain(text) <==> IsSealOf(c.aead, k, VAULT_MAGIC, file, text)
    {
      OpenIff(c.aead, k, VAULT_MAGIC, file, text);
    }
    if Open(c.aead, k, VAULT_MAGIC, file).Plain? {
      assert IsSealOf(c.aead, k, VAULT_MAGIC, file, Open(c.aead, k, VAULT_MAGIC, file).text);
    }
  }

  /** The vault in memory. */
  datatype OpenVault = OpenVault(key: Key, contents: VaultContents)

  function Loaded(c: Secrecy, key: Key, file: Option<Bytes>): OpenResult<OpenVault> {
    match file
    case None => Success(OpenVault(key, DEFAULT_CONTENTS))
    case Some(bytes) =>
      match DecryptVault(c, key, bytes)
      case Success(contents) => Success(OpenVault(key, contents))
      case Failure(e) => Failure(e)
  }

  function ToOption<T>(r: OpenResult<T>): Option<T> {
    match r
    case Success(v) => Some(v)
    case Failure(_) => None
  }

  /** What `Vault::open` gives once the orphans are gone: the vault, or the first thing that went wrong. */
  function OpenOutcome(c: Secrecy, key: Option<Key>, readOk: bool, file: Option<Bytes>): OpenResult<OpenVault> {
    if key.None? then Failure(KeychainFailed) else if !readOk then Failure(ReadFailed) else Loaded(c, key.value, file)
  }

  /**
   * Opening succeeds if and only if there is a key, the read succeeds, and the file is
   * missing, for the empty vault, or a vault of the contents under that key.
   */
  lemma {:induction false} OpenOutcomeIff(c: Secrecy, key: Option<Key>, readOk: bool, file: Option<Bytes>, v: OpenVault)
    requires AeadLaws(c.aead)
    ensures OpenOutcome(c, key, readOk, file) == Success(v) <==>
              && key == Some(v.key) && readOk
              && (if file.None? then v.contents == VaultContents(1, []) else IsVaultOf(c, v.key, file.value, v.contents))
    ensures OpenOutcome(c, key, readOk, file) == Failure(KeychainFailed) <==> key.None?
    ensures OpenOutcome(c, key, readOk, file) == Failure(ReadFailed) <==> key.Some? && !readOk
  {
    if key.Some? && file.Some? {
      DecryptVaultIff(c, key.value, file.value, v.contents);
    }
  }

  class VaultFile {
    var vaultKey: Key
    var contents: VaultContents

    constructor (key: Key, contents: VaultContents)
      ensures vaultKey == key && this.contents == contents
    {
      vaultKey, this.contents := key, contents;
    }

    /** Clean up, fetch the key, read, decrypt; each may fail. */
    static method OpenAt(c: Secrecy, disk: Disk, path: string, keychain: Keychain, removable: set<string>,
                         generated: Key, fetchOk: bool, storeOk: bool, readOk: bool)
      returns (result: OpenResult<VaultFile>)
      modifies disk, keychain
      ensures disk.files == old(disk.files) - (set n | n in old(disk.files) && IsOrphan(path, n) && n in removable)
      ensures keychain.slot == FetchOrCreate(old(keychain.slot), generated, fetchOk, storeOk).0
      ensures var key := FetchOrCreate(old(keychain.slot), generated, fetchOk, storeOk).1;
              var file := if path in disk.files then Some(disk.files[path]) else None;
              match OpenOutcome(c, key, readOk, file)
              case Failure(e) => result == Failure(e)
              case Success(v) => result.Success? && fresh(result.value) && OpenVault(result.value.vaultKey, result.value.contents) == v
      ensures AeadLaws(c.aead) && result.Success? && path in disk.files ==>
                readOk && IsVaultOf(c, result.value.vaultKey, disk.files[path], result.value.contents)
    {
      disk.CleanOrphans(path, removable);
      var key := keychain.FetchOrCreateKey(generated, fetchOk, storeOk);
      if key.None? {
        return Failure(KeychainFailed);
      }
      var read := disk.ReadIfExists(path, readOk);
      if read.ReadError? {
        return Failure(ReadFailed);
      }
      var contents := Success(DEFAULT_CONTENTS);
      if read.Present? {
        contents := DecryptVault(c, key.value, read.bytes);
      }
      if contents.Failure? {
        return Failure(contents.error);
      }
      if AeadLaws(c.aead) && read.Present? {
        DecryptVaultIff(c, key.value, read.bytes, contents.value);
      }
      var vault := new VaultFile(key.value, contents.value);
      return Success(vault);
    }

    method Register(entry: VaultEntry)
      modifies `contents
      ensures contents == old(contents).(entries := Registered(old(contents.entries), entry))
    {
      contents := contents.(entries := Retain(contents.entries, entry.name) + [entry]);
    }

    method Forget(name: string) returns (removed: bool)
      modifies `contents
      ensures contents == old(contents).(entries := Retain(old(contents.entries), name))
      ensures removed <==> exists e :: e in old(contents.entries) && e.name == name
    {
      RetainDrops(contents.entries, name);
      var before := |contents.entries|;
      contents := contents.(entries := Retain(contents.entries, name));
      removed := before != |contents.entries|;
    }

    method Save(c: Secrecy, disk: Disk, path: string, pid: nat, nonce: Bytes, stop: Stop) returns (error: Option<WriteStep>)
      modifies disk
      ensures error == ErrorStep(old(disk.files), TmpPath(path, pid), stop)
      ensures disk.files == AfterWrite(old(disk.files), path, TmpPath(path, pid), EncryptVault(c, vaultKey, nonce, contents), stop)
    {
      var plaintext := c.json.encode(contents);
      var fileBytes := Seal(c.aead, c.derive(vaultKey), VAULT_MAGIC, nonce, plaintext);
      error := disk.WriteAtomic(path, pid, fileBytes, stop);
    }
  }
}
