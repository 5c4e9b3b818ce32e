/**
 * The periodic clean-up of the upload folder: one pass over a snapshot of
 * the folder's entries removes every regular file older than the file
 * lifetime. Timestamps are whole seconds; the current time is a parameter.
 */
module UploadSweep {
  import Config

  /** A directory entry: whether it is a regular file, and its last-modification time. */
  datatype Entry = Entry(isFile: bool, mtime: int)

  /** An entry the sweep at time `now` removes: a regular file whose age exceeds the lifetime. */
  predicate Expired(e: Entry, now: int)
  {
    e.isFile && now - e.mtime > Config.FileLifetime
  }

  /** The folder left by one sweep at time `now`. */
  function Swept(dir: map<string, Entry>, now: int): map<string, Entry>
  {
    map name | name in dir && !Expired(dir[name], now) :: dir[name]
  }

  /** The upload folder: entry names mapped to their entries. */
  class UploadFolder {
    var entries: map<string, Entry>

    constructor (entries: map<string, Entry>)
      ensures this.entries == entries
    {
      this.entries := entries;
    }

    /** Whether `name` is present and a regular file. */
    function IsFile(name: string): bool
      reads this
    {
      name in entries && entries[name].isFile
    }

    /** Deletes the regular file `name`. */
    method Remove(name: string)
      requires IsFile(name)
      modifies this
      ensures entries == old(entries) - {name}
    {
      entries := entries - {name};
    }

    /** One sweep at time `now` over the names listed when it starts. */
    method Clean(now: int)
      modifies this
      ensures entries == Swept(old(entries), now)
    {
      ghost var before := entries;
      var listing := entries.Keys;
      var pending := listing;
      while pending != {}
        invariant pending <= listing == before.Keys
        invariant entries == map name | name in before && (name in pending || !Expired(before[name], now)) :: before[name]
        decreases pending
      {
        var name :| name in pending;
        if IsFile(name) {
          var fileAge := now - entries[name].mtime;
          if fileAge > Config.FileLifetime {
            Remove(name);
          }
        }
        pending := pending - {name};
      }
    }
  }

  /** An entry is gone after the sweep iff it was an expired regular file; survivors are unchanged. */
  lemma SweptExactly(dir: map<string, Entry>, now: int, name: string)
    requires name in dir
    ensures name !in Swept(dir, now) <==> dir[name].isFile && now - dir[name].mtime > 86400
    ensures name in Swept(dir, now) ==> Swept(dir, now)[name] == dir[name]
  {
  }

  /** The sweep only removes entries and adds none. */
  lemma SweptSubset(dir: map<string, Entry>, now: int)
    ensures Swept(dir, now).Keys <= dir.Keys
  {
  }

  /** A second sweep at the same time removes nothing more. */
  lemma SweptIdempotent(dir: map<string, Entry>, now: int)
    ensures Swept(Swept(dir, now), now) == Swept(dir, now)
  {
  }

  /** A later sweep removes at least what an earlier one would, and sweeping twice is sweeping at the later time. */
  lemma SweptLater(dir: map<string, Entry>, now: int, later: int)
    requires now <= later
    ensures Swept(dir, later).Keys <= Swept(dir, now).Keys
    ensures Swept(Swept(dir, now), later) == Swept(dir, later)
  {
  }

  /** At 25 hours a file is removed; at 23 or exactly 24 hours it stays, and a directory always stays. */
  lemma SweepExamples(now: int)
    ensures "old" !in Swept(map["old" := Entry(true, now - 25 * 3600)], now)
    ensures "recent" in Swept(map["recent" := Entry(true, now - 23 * 3600)], now)
    ensures "boundary" in Swept(map["boundary" := Entry(true, now - 24 * 3600)], now)
    ensures "dir" in Swept(map["dir" := Entry(false, now - 1000 * 3600)], now)
  {
  }
}
