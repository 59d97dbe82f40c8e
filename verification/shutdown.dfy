/**
  The shutdown hook: try to delete the artifact of every registered transfer,
  ignoring files that are already gone, then empty the registry.
 */
module Shutdown {
  import opened Common
  import opened Storage
  import opened Transfer

  /** Paths of the artifacts the registry points at. */
  function RegisteredPaths(files: map<string, Record>): set<Path>
  {
    PathsOf(files, files.Keys)
  }

  /** Paths of the artifacts of the entries `ids` names. */
  function PathsOf(files: map<string, Record>, ids: set<string>): set<Path>
  {
    set id | id in ids && id in files :: ArtifactPath(files[id].filename)
  }

  /**
    Afterwards no registered artifact is left on disk, every other file
    (the key file, orphans) is untouched, and the registry is empty. The
    result does not depend on which artifacts were already missing: a failed
    deletion does not stop the sweep.
   */
  method CleanupFiles(s: Server) returns (r: Server)
    ensures r.key == s.key
    ensures r.files == map[]
    ensures r.disk.Keys == s.disk.Keys - RegisteredPaths(s.files)
    ensures forall p | p in r.disk :: r.disk[p] == s.disk[p]
    ensures Inv(s) ==> Inv(r)
  {
    var pending := s.files.Keys;
    ghost var done: set<string> := {};
    var disk := s.disk;
    while pending != {}
      invariant pending + done == s.files.Keys
      invariant disk.Keys == s.disk.Keys - PathsOf(s.files, done)
      invariant forall p | p in disk :: disk[p] == s.disk[p]
      decreases pending
    {
      var id :| id in pending;
      var path := ArtifactPath(s.files[id].filename);
      match RemoveFile(disk, path) {
        case Some(d) => disk := d;
        case None => // already gone: the exception is swallowed
      }
      assert PathsOf(s.files, done + {id}) == PathsOf(s.files, done) + {path};
      pending := pending - {id};
      done := done + {id};
    }
    r := Server(s.key, map[], disk);
    if Inv(s) {
      forall id | id in s.files
        ensures ArtifactPath(s.files[id].filename) != KeyPath
      {
        ArtifactIsNotKeyFile(s.files[id].filename);
      }
    }
  }
}
