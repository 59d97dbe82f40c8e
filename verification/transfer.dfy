/**
  The password-gated, single-use transfer store: the registry of live
  transfers, the encrypted artifacts on disk, and the two request handlers
  that change them (upload and download).
 */
module Transfer {
  import opened Common
  import opened Storage
  import Fernet
  import KeyFile

  /** Length of `secrets.token_urlsafe(8)`: 8 random bytes in unpadded base64url. */
  const TokenLength: nat := 11

  predicate UrlSafeChar(c: char)
  {
    'A' <= c <= 'Z' || 'a' <= c <= 'z' || '0' <= c <= '9' || c == '-' || c == '_'
  }

  predicate IsToken(s: string)
  {
    |s| == TokenLength && forall i | 0 <= i < |s| :: UrlSafeChar(s[i])
  }

  /** A transfer id as the upload handler draws it. */
  type Token = s: string | IsToken(s) witness "AAAAAAAAAAA"

  /** One registry entry: artifact file name, password, name shown on download. */
  datatype Record = Record(filename: string, password: string, origName: string)

  /**
    The whole mutable state: the key in use, the registry (id -> record) and
    the file system.
   */
  datatype Server = Server(key: Bytes, files: map<string, Record>, disk: Disk)

  /** An uploaded form file: its client-side name and its bytes. */
  datatype FilePart = FilePart(name: string, data: Bytes)

  /** The download route is reached by GET, or by POST with an optional password field. */
  datatype Request = Get | Post(password: Option<string>)

  datatype UploadOutcome =
    | UploadForm        // the form again, without a link
    | Linked(id: Token) // the form with the link to /download/<id>
    | WriteFailed       // opening the artifact for writing raised (an HTTP 500)

  /** Internal errors the download handler does not catch (an HTTP 500). */
  datatype Fault = ArtifactMissing | InvalidToken | SendFailed

  datatype DownloadOutcome =
    | NotFound                          // 'Invalid link or file expired', 404
    | PasswordPage(wrongPassword: bool) // the password form, with or without the error line
    | Sent(name: string, data: Bytes)   // the decrypted file as an attachment
    | ServerError(fault: Fault)

  /** Artifact file name of an upload: `{id}_{name}.enc`. */
  function StorageName(id: string, name: string): (r: string)
    ensures |r| == |id| + |name| + 5
    ensures r[..|id|] == id
    ensures r[|id|] == '_'
    ensures r[|id| + 1..|r| - 4] == name
    ensures r[|r| - 4..] == ".enc"
  {
    id + "_" + name + ".enc"
  }

  /** Because ids have a fixed length, different uploads get different artifacts. */
  lemma StorageNameInjective(a: Token, n: string, b: Token, m: string)
    ensures StorageName(a, n) == StorageName(b, m) <==> a == b && n == m
  {
    var s := StorageName(a, n);
    if s == StorageName(b, m) {
      assert a == s[..TokenLength] == b;
      assert n == s[TokenLength + 1..|s| - 4] == m;
    }
  }

  predicate WellFormed(id: string, rec: Record)
  {
    && IsToken(id)
    && rec.filename == StorageName(id, rec.origName)
    && rec.origName != ""
    && rec.password != ""
  }

  /**
    What every reachable state keeps: the key file holds the key in use, and
    every registered record names an artifact that is on disk and decrypts
    under that key.
   */
  predicate Inv(s: Server)
  {
    && KeyPath in s.disk
    && s.disk[KeyPath] == s.key
    && forall id | id in s.files ::
         && WellFormed(id, s.files[id])
         && ArtifactPath(s.files[id].filename) in s.disk
         && Fernet.Decrypt(s.key, s.disk[ArtifactPath(s.files[id].filename)]).Some?
  }

  /** Process start: load or create the key; the registry starts empty. */
  function Boot(disk: Disk, generated: Bytes): (s: Server)
    ensures Inv(s)
    ensures s.files == map[]
    ensures s.key == KeyFile.LoadKey(disk, generated).0
    ensures s.disk.Keys == disk.Keys + {KeyPath}
    ensures forall p | p in disk && p != KeyPath :: s.disk[p] == disk[p]
  {
    var (key, disk') := KeyFile.LoadKey(disk, generated);
    Server(key, map[], disk')
  }

  /** The first half of a successful upload: the encrypted artifact is written. */
  function WriteArtifact(s: Server, filename: string, token: Bytes): Server
  {
    s.(disk := WriteFile(s.disk, ArtifactPath(filename), token))
  }

  /** The second half: the record is inserted, replacing any entry with that id. */
  function Register(s: Server, id: string, rec: Record): Server
  {
    s.(files := s.files[id := rec])
  }

  /**
    `if file and password`: a form file counts only when it has a file name,
    and the password field must be present and non-empty.
   */
  predicate Accepts(file: Option<FilePart>, password: Option<string>)
    ensures Accepts(file, password) ==> file.Some? && password.Some?
    ensures Accepts(file, password) ==> forall id: Token :: WellFormed(id, NewRecord(id, file.value, password.value))
  {
    file.Some? && file.value.name != "" && password.Some? && password.value != ""
  }

  /** An accepted form whose artifact can also be created: the upload is stored. */
  predicate Stores(file: Option<FilePart>, password: Option<string>, id: Token)
  {
    Accepts(file, password) && CreatableName(StorageName(id, file.value.name))
  }

  function NewRecord(id: Token, file: FilePart, password: string): Record
  {
    Record(StorageName(id, file.name), password, file.name)
  }

  /**
    POST to the index page. `id` and `iv` are the random values the handler
    and the cipher would draw. A rejected form changes nothing, and neither
    does an accepted one whose artifact cannot be created (the open raises
    before the record is inserted). Otherwise the upload stores an artifact
    that decrypts to the uploaded bytes and registers it under `id`, leaving
    every other entry and file as it was.
   */
  function Upload(s: Server, file: Option<FilePart>, password: Option<string>, id: Token, iv: Fernet.Iv)
    : (r: (UploadOutcome, Server))
    ensures !Accepts(file, password) ==> r == (UploadForm, s)
    ensures Accepts(file, password) && !Stores(file, password, id) ==> r == (WriteFailed, s)
    ensures Stores(file, password, id) ==>
      var path := ArtifactPath(StorageName(id, file.value.name));
      && r.0 == Linked(id)
      && r.1.key == s.key
      && r.1.files.Keys == s.files.Keys + {id}
      && r.1.files[id] == Record(StorageName(id, file.value.name), password.value, file.value.name)
      && (forall other | other in s.files && other != id :: r.1.files[other] == s.files[other])
      && r.1.disk.Keys == s.disk.Keys + {path}
      && Fernet.Decrypt(s.key, r.1.disk[path]) == Some(file.value.data)
      && (forall p | p in s.disk && p != path :: r.1.disk[p] == s.disk[p])
  {
    if !Accepts(file, password) then (UploadForm, s)
    else
      var rec := NewRecord(id, file.value, password.value);
      if !CreatableName(rec.filename) then (WriteFailed, s)
      else
        var token := Fernet.Encrypt(s.key, iv, file.value.data);
        Fernet.DecryptEncrypt(s.key, iv, file.value.data);
        (Linked(id), Register(WriteArtifact(s, rec.filename, token), id, rec))
  }

  /** `os.remove` of an artifact the handler has just read, so it exists. */
  function RemoveArtifact(s: Server, path: Path): Server
    requires path in s.disk
  {
    s.(disk := RemoveFile(s.disk, path).value)
  }

  /** `del FILES[id]`. */
  function Unregister(s: Server, id: string): Server
  {
    s.(files := s.files - {id})
  }

  predicate PasswordMatches(rec: Record, req: Request)
  {
    req.Post? && req.password == Some(rec.password)
  }

  /**
    Whether `send_file(..., download_name=name)` can build its response. The
    name goes into the Content-Disposition header, and Werkzeug refuses a
    header value that contains a carriage return or a line feed.
   */
  predicate SendableName(name: string)
  {
    forall i | 0 <= i < |name| :: name[i] != '\r' && name[i] != '\n'
  }

  /**
    The right password was given and the artifact was read and decrypted, so
    the handler goes on to remove the artifact and the entry.
   */
  predicate Consumes(s: Server, id: string, req: Request)
  {
    && id in s.files
    && PasswordMatches(s.files[id], req)
    && ArtifactPath(s.files[id].filename) in s.disk
    && Fernet.Decrypt(s.key, s.disk[ArtifactPath(s.files[id].filename)]).Some?
  }

  /**
    GET or POST on /download/<id>. Unknown ids are not found; a GET or a wrong
    password shows the form again. With the right password a failed read or
    decryption raises before anything is removed; otherwise the artifact and
    then the entry are removed, and only then is the response built: the file
    is delivered under its original name when that name can go into a header,
    and the request fails with the transfer already gone when it cannot.
    The state changes exactly when the transfer is consumed.
   */
  function Download(s: Server, id: string, req: Request): (r: (DownloadOutcome, Server))
    ensures id !in s.files ==> r == (NotFound, s)
    ensures id in s.files && !PasswordMatches(s.files[id], req) ==> r == (PasswordPage(req.Post?), s)
    ensures id in s.files && PasswordMatches(s.files[id], req) ==>
      var path := ArtifactPath(s.files[id].filename);
      && (path !in s.disk ==> r == (ServerError(ArtifactMissing), s))
      && (path in s.disk && Fernet.Decrypt(s.key, s.disk[path]).None? ==> r == (ServerError(InvalidToken), s))
    ensures Consumes(s, id, req) ==>
      var rec := s.files[id];
      var path := ArtifactPath(rec.filename);
      && r.1 == Server(s.key, s.files - {id}, s.disk - {path})
      && (SendableName(rec.origName) ==> r.0 == Sent(rec.origName, Fernet.Decrypt(s.key, s.disk[path]).value))
      && (!SendableName(rec.origName) ==> r.0 == ServerError(SendFailed))
    ensures !Consumes(s, id, req) ==> r.1 == s
    ensures r.0.Sent? <==> Consumes(s, id, req) && SendableName(s.files[id].origName)
  {
    if id !in s.files then (NotFound, s)
    else
      var rec := s.files[id];
      if !PasswordMatches(rec, req) then (PasswordPage(req.Post?), s)
      else
        var path := ArtifactPath(rec.filename);
        match ReadFile(s.disk, path)
        case None => (ServerError(ArtifactMissing), s)
        case Some(token) =>
          match Fernet.Decrypt(s.key, token)
          case None => (ServerError(InvalidToken), s)
          case Some(plaintext) =>
            var consumed := Unregister(RemoveArtifact(s, path), id);
            if SendableName(rec.origName) then (Sent(rec.origName, plaintext), consumed)
            else (ServerError(SendFailed), consumed)
  }

  /**
    The download handler with the response built before the removals, so
    that a name which cannot be sent leaves the transfer in place. A
    transfer is then consumed only by delivering it.
   */
  function DownloadSendFirst(s: Server, id: string, req: Request): (r: (DownloadOutcome, Server))
    ensures r.1 == s || r.0.Sent?
    ensures r.0.Sent? ==> r == Download(s, id, req)
    ensures !r.0.Sent? ==> r.0 == Download(s, id, req).0
  {
    var r := Download(s, id, req);
    if r.0.Sent? then r else (r.0, s)
  }
}
