/**
  The file system as the transfer store uses it: a map from path to file
  contents. Paths are strings on a case-sensitive POSIX file system; the only
  structure the model relies on is the `/` separator, the fixed upload
  directory and the fixed key file name.
 */
module Storage {
  import opened Common

  type Path = string

  type Disk = map<Path, Bytes>

  /** Directory that receives the encrypted uploads. */
  const UploadDir: string := "uploaded_files"

  /** File holding the process-wide encryption key. */
  const KeyPath: Path := "secret.key"

  /**
    Where an artifact named `name` lives. This is `os.path.join` for a
    relative name; artifact names always start with an id token, so the
    absolute-name case of `os.path.join` never arises.
   */
  function ArtifactPath(name: string): (p: Path)
    ensures |p| == |UploadDir| + 1 + |name|
    ensures p[..|UploadDir| + 1] == UploadDir + "/"
    ensures p[|UploadDir| + 1..] == name
  {
    UploadDir + "/" + name
  }

  /** Two artifact names share a path only if they are the same name. */
  lemma ArtifactPathInjective(a: string, b: string)
    ensures ArtifactPath(a) == ArtifactPath(b) <==> a == b
  {
    if ArtifactPath(a) == ArtifactPath(b) {
      assert a == ArtifactPath(a)[|UploadDir| + 1..];
    }
  }

  /** No artifact can overwrite or delete the key file. */
  lemma ArtifactIsNotKeyFile(name: string)
    ensures ArtifactPath(name) != KeyPath
  {
    assert ArtifactPath(name)[0] == 'u';
  }

  /**
    Whether `open(ArtifactPath(name), 'wb')` can create the file. A '/' in the
    name puts the file in a sub-directory of the upload directory, and nothing
    ever creates one, so the open raises; Python rejects a NUL character in a
    path outright.
   */
  predicate CreatableName(name: string)
  {
    forall i | 0 <= i < |name| :: name[i] != '/' && name[i] != '\0'
  }

  /** Reading a file: absent when the path does not exist. */
  function ReadFile(disk: Disk, path: Path): (r: Option<Bytes>)
    ensures r.Some? <==> path in disk
    ensures r.Some? ==> r.value == disk[path]
  {
    if path in disk then Some(disk[path]) else None
  }

  /** Writing a file in mode 'wb': creates it or replaces its contents. */
  function WriteFile(disk: Disk, path: Path, data: Bytes): (d: Disk)
    ensures d.Keys == disk.Keys + {path}
    ensures d[path] == data
    ensures forall q | q in disk && q != path :: d[q] == disk[q]
  {
    disk[path := data]
  }

  /** `os.remove`: fails (None) when the file does not exist. */
  function RemoveFile(disk: Disk, path: Path): (r: Option<Disk>)
    ensures r.Some? <==> path in disk
    ensures r.Some? ==> r.value.Keys == disk.Keys - {path}
    ensures r.Some? ==> forall q | q in r.value :: r.value[q] == disk[q]
  {
    if path in disk then Some(disk - {path}) else None
  }
}
