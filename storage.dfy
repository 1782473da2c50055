/**
 * The upload folder and its retention sweep `cleanup_old_files`.
 * The folder is a table from entry name to entry, changed in place by
 * saves and by the sweep.
 */
module Storage {
  import opened Imaging

  /**
   * A directory entry as the sweep sees it: a regular file with its
   * `ctime` (on POSIX the inode status-change time, in seconds since the
   * epoch; a write sets it) and the picture it holds, or anything else (a
   * sub-directory, a socket).
   */
  datatype Entry = File(ctime: real, content: Picture) | NonFile(ctime: real)

  /** Files older than this many seconds are swept. */
  const MAX_AGE_SECONDS: real := 3600.0

  /** What the sweep deletes: a regular file strictly more than an hour old. */
  predicate Expired(e: Entry, now: real)
  {
    e.File? && now - e.ctime > MAX_AGE_SECONDS
  }

  /** The folder after the sweep has looked at every name in `visited`. */
  function SweepOver(files: map<string, Entry>, now: real, visited: set<string>): (r: map<string, Entry>)
    ensures forall n :: n in r ==> n in files && r[n] == files[n]
    ensures forall n :: n in files && n !in visited ==> n in r
  {
    map n | n in files && !(n in visited && Expired(files[n], now)) :: files[n]
  }

  /** The folder after a sweep that reached every entry. */
  function Sweep(files: map<string, Entry>, now: real): (r: map<string, Entry>)
    ensures forall n :: n in r && r[n].File? ==> now - r[n].ctime <= MAX_AGE_SECONDS
  {
    SweepOver(files, now, files.Keys)
  }

  /**
   * Even a sweep cut short deletes only expired regular files it reached,
   * and leaves every other entry exactly as it was.
   */
  lemma PartialSweepSound(files: map<string, Entry>, now: real, visited: set<string>)
    ensures var after := SweepOver(files, now, visited);
      && (forall n :: n in files && n !in after ==> n in visited && Expired(files[n], now))
      && (forall n :: n in after ==> n in files && after[n] == files[n])
      && (forall n :: n in files && !files[n].File? ==> n in after)
  {
  }

  /**
   * After a complete sweep every regular file left is at most an hour old
   * (one exactly 3600 s old survives), every expired one is gone, and
   * nothing else was touched.
   */
  lemma CompleteSweepFresh(files: map<string, Entry>, now: real)
    ensures var after := Sweep(files, now);
      && (forall n :: n in after && after[n].File? ==> now - after[n].ctime <= MAX_AGE_SECONDS)
      && (forall n :: n in files ==> (n in after <==> !Expired(files[n], now)))
      && (forall n :: n in after ==> after[n] == files[n])
  {
  }

  /** A second sweep at the same instant deletes nothing. */
  lemma SweepIdempotent(files: map<string, Entry>, now: real)
    ensures Sweep(Sweep(files, now), now) == Sweep(files, now)
  {
  }

  /** Finishing an interrupted sweep gives the same folder as one uninterrupted sweep. */
  lemma SweepResumes(files: map<string, Entry>, now: real, visited: set<string>)
    ensures Sweep(SweepOver(files, now, visited), now) == Sweep(files, now)
  {
  }

  /** A later sweep keeps no more than an earlier one. */
  lemma SweepMonotonicInTime(files: map<string, Entry>, t1: real, t2: real)
    requires t1 <= t2
    ensures Sweep(files, t2).Keys <= Sweep(files, t1).Keys
  {
  }

  /** One more name looked at: the entry is deleted if it is expired, and nothing else changes. */
  lemma SweepOverStep(files: map<string, Entry>, now: real, visited: set<string>, name: string)
    requires name in files && name !in visited
    ensures SweepOver(files, now, visited + {name})
         == if Expired(files[name], now) then SweepOver(files, now, visited) - {name}
            else SweepOver(files, now, visited)
  {
  }

  /** Backdated by 3601 s a file goes; by 3599 s, or by exactly 3600 s, it stays. */
  lemma SweepScenario(now: real, p: Picture)
    ensures var files := map["old" := File(now - 3601.0, p), "recent" := File(now - 3599.0, p),
                             "edge" := File(now - 3600.0, p), "sub" := NonFile(now - 9999.0)];
      Sweep(files, now) == map["recent" := File(now - 3599.0, p), "edge" := File(now - 3600.0, p),
                               "sub" := NonFile(now - 9999.0)]
  {
  }

  /** The upload folder, shared by all requests. */
  class UploadFolder {
    var files: map<string, Entry>

    constructor (initial: map<string, Entry>)
      ensures files == initial
    {
      files := initial;
    }

    /** Writes (or overwrites) entry `name` with a picture at time `now`. */
    method Save(name: string, content: Picture, now: real)
      modifies this
      ensures files == old(files)[name := File(now, content)]
    {
      files := files[name := File(now, content)];
    }

    /**
     * `cleanup_old_files` at clock reading `now`. The names are listed once
     * and visited in an unspecified order. `failing` holds the names whose
     * removal raises (a permission error, say); the one `try` around the
     * loop ends the whole sweep at the first such name. `visited` is the set
     * of names the sweep got through.
     */
    method CleanupOldFiles(now: real, failing: set<string>) returns (ghost visited: set<string>)
      modifies this
      ensures visited <= old(files).Keys
      ensures files == SweepOver(old(files), now, visited)
      ensures forall n :: n in visited && n in failing ==> !Expired(old(files)[n], now)
      ensures (forall n :: n in old(files) && Expired(old(files)[n], now) ==> n !in failing)
          ==> files == Sweep(old(files), now)
    {
      var listing := files.Keys;
      ghost var start := files;
      var pending := listing;
      visited := {};
      while pending != {}
        invariant pending <= listing && visited == listing - pending
        invariant files == SweepOver(start, now, visited)
        invariant forall n :: n in pending ==> n in files && files[n] == start[n]
        invariant forall n :: n in visited && n in failing ==> !Expired(start[n], now)
        decreases pending
      {
        var name :| name in pending;
        SweepOverStep(start, now, visited, name);
        if name in files && files[name].File? {
          if now - files[name].ctime > MAX_AGE_SECONDS {
            if name in failing {
              return;
            }
            files := files - {name};
          }
        }
        pending := pending - {name};
        visited := visited + {name};
      }
    }
  }
}
