/**
 The file system and the clock the updater works on. Every operation may fail where the real one
 can, takes some time, and leaves each state the files were in on record, so that what a stop
 after any step would leave behind can be stated. Nothing else changes the files.
 */
module Disk {
  import opened Wrappers

  type Path = string

  newtype byte = x: int | 0 <= x < 256

  type Bytes = seq<byte>

  /** Times are nanoseconds since the Unix epoch. */
  datatype File = File(content: Bytes, mtime: int)

  type Files = map<Path, File>

  function ContentAt(files: Files, path: Path): Option<Bytes> {
    if path in files then Some(files[path].content) else None
  }

  class Disk {
    var files: Files
    var clock: int                     // never runs backwards
    ghost var past: seq<Files>         // every state of the files, the last being the current one
    ghost var renamed: seq<Path>       // the destination of every rename that worked
    ghost var confirmed: seq<Path>     // every file touched or renamed to
    ghost var stuck: seq<Path>         // files that could not be removed, each time that happened
    ghost var faults: nat              // operations that failed

    ghost predicate Valid()
      reads this
    {
      past != [] && past[|past| - 1] == files
    }

    constructor (files: Files, clock: int)
      ensures Valid() && this.files == files && this.clock == clock
      ensures past == [files] && renamed == [] && confirmed == [] && stuck == [] && faults == 0
    {
      this.files, this.clock := files, clock;
      past, renamed, confirmed, stuck, faults := [files], [], [], [], 0;
    }

    /** Whether an operation works. One that does not counts as a fault. */
    method Works() returns (ok: bool)
      modifies this`faults
      ensures faults == if ok then old(faults) else old(faults) + 1
    {
      ok := *;
      if !ok {
        faults := faults + 1;
      }
    }

    /** Anything that takes time and leaves the files alone. */
    method Pass()
      modifies this`clock
      ensures clock >= old(clock)
    {
      var elapsed: nat :| true;
      clock := clock + elapsed;
    }

    method SleepUntil(due: int)
      modifies this`clock
      ensures clock >= old(clock) && clock >= due
    {
      if clock < due {
        clock := due;
      }
      Pass();
    }

    /** An operation that may fail and touches no file the updater knows. */
    method Try() returns (ok: bool)
      modifies this`clock, this`faults
      ensures clock >= old(clock)
      ensures faults == if ok then old(faults) else old(faults) + 1
    {
      Pass();
      ok := Works();
    }

    method Stat(path: Path) returns (mtime: Option<int>)
      modifies this`clock
      ensures clock >= old(clock)
      ensures mtime == if path in files then Some(files[path].mtime) else None
    {
      Pass();
      mtime := if path in files then Some(files[path].mtime) else None;
    }

    /** On success the file has a time from within the call and keeps its content. */
    method Touch(path: Path) returns (ok: bool)
      requires Valid()
      modifies this`files, this`clock, this`past, this`faults, this`confirmed
      ensures Valid() && clock >= old(clock)
      ensures faults >= old(faults) && (path in old(files) && faults == old(faults) ==> ok)
      ensures confirmed == old(confirmed) + if ok then [path] else []
      ensures ok ==> path in old(files) && path in files && old(clock) <= files[path].mtime <= clock
      ensures ok ==> files == old(files)[path := old(files)[path].(mtime := files[path].mtime)]
      ensures ok ==> past == old(past) + [files]
      ensures !ok ==> files == old(files) && past == old(past)
    {
      Pass();
      ok := Works();
      ok := ok && path in files;
      if ok {
        files := files[path := files[path].(mtime := clock)];
        past := past + [files];
        confirmed := confirmed + [path];
        Pass();
      }
    }

    /** An empty file under a new name beside path. */
    method CreateTemp(path: Path) returns (tmp: Option<Path>)
      requires Valid()
      modifies this`files, this`clock, this`past, this`faults
      ensures Valid() && clock >= old(clock)
      ensures faults >= old(faults) && (faults == old(faults) ==> tmp.Some?)
      ensures tmp.Some? ==> tmp.value != path && tmp.value !in old(files)
      ensures tmp.Some? ==> exists m :: old(clock) <= m <= clock && files == old(files)[tmp.value := File([], m)]
      ensures tmp.Some? ==> past == old(past) + [files]
      ensures tmp == None ==> files == old(files) && past == old(past)
    {
      Pass();
      var suffix: string := *;
      var name := path + "." + suffix;
      assert |name| > |path|;
      if name in files {
        faults := faults + 1;
        return None;
      }
      var ok := Works();
      if !ok {
        return None;
      }
      files := files[name := File([], clock)];
      past := past + [files];
      tmp := Some(name);
    }

    /** Writes at the end of a file. A write that fails may have written some of the bytes. */
    method Append(path: Path, chunk: Bytes) returns (ok: bool)
      requires Valid() && path in files
      modifies this`files, this`clock, this`past, this`faults
      ensures Valid() && clock >= old(clock)
      ensures faults == if ok then old(faults) else old(faults) + 1
      ensures path in files && old(clock) <= files[path].mtime <= clock
      ensures files == old(files)[path := files[path]] && past == old(past) + [files]
      ensures ok ==> files[path].content == old(files)[path].content + chunk
    {
      Pass();
      ok := Works();
      var n: nat :| n <= |chunk|;
      var written := if ok then chunk else chunk[..n];
      files := files[path := File(files[path].content + written, clock)];
      past := past + [files];
      Pass();
    }

    /** Moves a file over another one in one step, or does nothing. */
    method Rename(source: Path, path: Path) returns (ok: bool)
      requires Valid() && source in files && source != path
      modifies this`files, this`clock, this`past, this`renamed, this`confirmed, this`faults
      ensures Valid() && clock >= old(clock)
      ensures faults == if ok then old(faults) else old(faults) + 1
      ensures ok ==> files == old(files)[path := old(files)[source]] - {source}
      ensures ok ==> past == old(past) + [files] && renamed == old(renamed) + [path]
      ensures !ok ==> files == old(files) && past == old(past) && renamed == old(renamed)
      ensures confirmed == old(confirmed) + if ok then [path] else []
    {
      Pass();
      ok := Works();
      if ok {
        files := files[path := files[source]] - {source};
        past := past + [files];
        renamed, confirmed := renamed + [path], confirmed + [path];
        Pass();
      }
    }

    /** Removes a file if it is there. Nobody looks at a failure. */
    method Remove(path: Path)
      requires Valid()
      modifies this`files, this`clock, this`past, this`stuck, this`faults
      ensures Valid() && clock >= old(clock)
      ensures faults >= old(faults) && (stuck == old(stuck) || (stuck == old(stuck) + [path] && faults > old(faults)))
      ensures files == old(files) - {path} || (files == old(files) && stuck == old(stuck) + [path])
      ensures past == old(past) || past == old(past) + [files]
    {
      Pass();
      if path !in files {
        assert files - {path} == files;
        return;
      }
      var ok := Works();
      if ok {
        files := files - {path};
        past := past + [files];
      } else {
        stuck := stuck + [path];
      }
    }
  }
}
