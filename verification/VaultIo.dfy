/** The atomic write as its five steps, any of which may be the last, and the orphan scan. */
module VaultIo {
  import opened Basics
  import opened Text

  /** The files of the vault's directory, by name. */
  type Files = map<string, Bytes>

  datatype WriteStep = TmpCreate | BodyWrite | BodyFsync | Rename | ParentFsync

  function TmpPath(path: string, pid: nat): string {
    path + ".tmp." + Decimal(pid)
  }

  predicate IsOrphan(path: string, name: string) {
    path + ".tmp." <= name
  }

  /** A temporary file is always found by the scan, and the file itself never is. */
  lemma OrphansAreTemporaries(path: string, pid: nat)
    ensures IsOrphan(path, TmpPath(path, pid)) && !IsOrphan(path, path) && TmpPath(path, pid) != path
  {
    var tmp := TmpPath(path, pid);
    assert tmp[..|path + ".tmp."|] == path + ".tmp.";
  }

  /**
   * Where a write stops: at the given step, in which a body write has put down
   * `partial` bytes; `Through` is a write that is not stopped.  A crash between two
   * steps leaves the same files as a failure of the later one.
   */
  datatype Stop = Through | At(step: WriteStep, partial: nat)

  /** The step at which the write ends in error, if any. */
  function ErrorStep(files: Files, tmp: string, stop: Stop): Option<WriteStep> {
    if tmp in files then Some(TmpCreate)
    else if stop.At? then Some(stop.step)
    else None
  }

  predicate Renamed(files: Files, tmp: string, stop: Stop) {
    var e := ErrorStep(files, tmp, stop);
    e.None? || e == Some(ParentFsync)
  }

  /** The files that a write leaves behind. */
  function AfterWrite(files: Files, path: string, tmp: string, bytes: Bytes, stop: Stop): Files {
    match ErrorStep(files, tmp, stop)
    case Some(TmpCreate) => files
    case Some(BodyWrite) => files[tmp := bytes[..Min(stop.partial, |bytes|)]]
    case Some(BodyFsync) => files[tmp := bytes]
    case Some(Rename) => files[tmp := bytes]
    case Some(ParentFsync) => files[path := bytes]
    case None => files[path := bytes]
  }

  datatype ReadOutcome = NotThere | Present(bytes: Bytes) | ReadError

  class Disk {
    var files: Files

    constructor (files: Files)
      ensures this.files == files
    {
      this.files := files;
    }

    method WriteAtomic(path: string, pid: nat, bytes: Bytes, stop: Stop) returns (error: Option<WriteStep>)
      modifies this
      ensures error == ErrorStep(old(files), TmpPath(path, pid), stop)
      ensures files == AfterWrite(old(files), path, TmpPath(path, pid), bytes, stop)
    {
      var tmp := TmpPath(path, pid);
      OrphansAreTemporaries(path, pid);
      // 1. Create the temporary file, refusing to reuse one that exists.
      if tmp in files || (stop.At? && stop.step == TmpCreate) {
        return Some(TmpCreate);
      }
      files := files[tmp := []];
      // 2. Write the body.
      if stop.At? && stop.step == BodyWrite {
        files := files[tmp := bytes[..Min(stop.partial, |bytes|)]];
        return Some(BodyWrite);
      }
      files := files[tmp := bytes];
      // 3. Flush the body.
      if stop.At? && stop.step == BodyFsync {
        return Some(BodyFsync);
      }
      // 4. Rename over the target.
      if stop.At? && stop.step == Rename {
        return Some(Rename);
      }
      files := files[path := files[tmp]] - {tmp};
      assert files == old(files)[path := bytes];
      // 5. Flush the directory.
      if stop.At? && stop.step == ParentFsync {
        return Some(ParentFsync);
      }
      return None;
    }

    /** A missing file is not an error; `ok` is false when the read fails otherwise. */
    method ReadIfExists(path: string, ok: bool) returns (r: ReadOutcome)
      ensures r == if !ok then ReadError else if path in files then Present(files[path]) else NotThere
    {
      if !ok {
        return ReadError;
      }
      if path in files {
        return Present(files[path]);
      }
      return NotThere;
    }

    /** The orphan scan: removes what it can of the files it lists, and nothing else. */
    method CleanOrphans(path: string, removable: set<string>)
      modifies this
      ensures files == old(files) - (set n | n in old(files) && IsOrphan(path, n) && n in removable)
    {
      var orphans := set n | n in files && IsOrphan(path, n);
      ghost var gone: set<string> := {};
      while orphans != {}
        invariant orphans + gone == set n | n in old(files) && IsOrphan(path, n)
        invariant files == old(files) - (gone * removable)
        decreases orphans
      {
        var orphan :| orphan in orphans;
        if orphan in removable {
          files := files - {orphan};
        }
        orphans, gone := orphans - {orphan}, gone + {orphan};
        assert files == old(files) - (gone * removable);
      }
      assert gone * removable == set n | n in old(files) && IsOrphan(path, n) && n in removable;
    }
  }

  /**
   * The target holds the new bytes exactly if the rename was reached, and is untouched
   * otherwise; a temporary file that the write made is gone after the rename, and until
   * then holds a beginning of the bytes, all of them once the body was written; nothing
   * else changes.
   */
  lemma {:induction false} WriteIsAllOrNothing(files: Files, path: string, pid: nat, bytes: Bytes, stop: Stop, name: string)
    ensures var tmp := TmpPath(path, pid);
            var after := AfterWrite(files, path, tmp, bytes, stop);
            && (ErrorStep(files, tmp, stop) == if tmp in files then Some(TmpCreate) else if stop.Through? then None else Some(stop.step))
            && (Renamed(files, tmp, stop) <==> tmp !in files && (stop.Through? || stop.step == ParentFsync))
            && (Renamed(files, tmp, stop) ==> path in after && after[path] == bytes && tmp !in after)
            && (!Renamed(files, tmp, stop) ==> (path in after <==> path in files) && (path in files ==> after[path] == files[path]))
            && (!Renamed(files, tmp, stop) && tmp !in files ==>
                  (tmp in after <==> stop.step != TmpCreate) && (tmp in after ==> after[tmp] <= bytes)
                  && (stop.step == BodyFsync || stop.step == Rename ==> after[tmp] == bytes))
            && (tmp in files ==> after == files)
            && (name != path && name != tmp ==> (name in after <==> name in files) && (name in files ==> after[name] == files[name]))
  {
    OrphansAreTemporaries(path, pid);
  }
}
