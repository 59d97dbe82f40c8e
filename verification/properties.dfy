/**
  Properties of the transfer store that relate several steps: the state
  invariant, single-use consumption, password gating and the upload/download
  round trip.
 */
module TransferProperties {
  import opened Common
  import opened Storage
  import Fernet
  import opened Transfer

  /** Well-formed records that differ in id or in name have different artifacts. */
  lemma DistinctArtifacts(id1: string, rec1: Record, id2: string, rec2: Record)
    requires WellFormed(id1, rec1) && WellFormed(id2, rec2)
    requires id1 != id2 || rec1.origName != rec2.origName
    ensures ArtifactPath(rec1.filename) != ArtifactPath(rec2.filename)
  {
    ArtifactPathInjective(rec1.filename, rec2.filename);
    StorageNameInjective(id1, rec1.origName, id2, rec2.origName);
  }

  /**
    In a state with the invariant, every live transfer owns its artifact: no
    two entries share a file, and none of them is the key file.
   */
  lemma InvSeparatesArtifacts(s: Server)
    requires Inv(s)
    ensures forall a, b | a in s.files && b in s.files && a != b ::
      ArtifactPath(s.files[a].filename) != ArtifactPath(s.files[b].filename)
    ensures forall id | id in s.files :: ArtifactPath(s.files[id].filename) != KeyPath
  {
    forall a, b | a in s.files && b in s.files && a != b
      ensures ArtifactPath(s.files[a].filename) != ArtifactPath(s.files[b].filename)
    {
      DistinctArtifacts(a, s.files[a], b, s.files[b]);
    }
  }

  /**
    Writing the artifact before inserting the record means the state between
    the two steps already satisfies the invariant: no entry ever points at a
    file that is not yet written.
   */
  lemma UploadWriteBeforeRegister(s: Server, file: FilePart, password: string, id: Token, iv: Fernet.Iv)
    requires Inv(s)
    requires Stores(Some(file), Some(password), id)
    ensures Inv(WriteArtifact(s, StorageName(id, file.name), Fernet.Encrypt(s.key, iv, file.data)))
  {
    var name := StorageName(id, file.name);
    var mid := WriteArtifact(s, name, Fernet.Encrypt(s.key, iv, file.data));
    ArtifactIsNotKeyFile(name);
    Fernet.DecryptEncrypt(s.key, iv, file.data);
    forall other | other in mid.files
      ensures Fernet.Decrypt(mid.key, mid.disk[ArtifactPath(mid.files[other].filename)]).Some?
    {
      var p := ArtifactPath(mid.files[other].filename);
      if p != ArtifactPath(name) {
        assert mid.disk[p] == s.disk[p];
      }
    }
  }

  /** Every upload, accepted or not, keeps the invariant. */
  lemma UploadPreservesInv(s: Server, file: Option<FilePart>, password: Option<string>, id: Token, iv: Fernet.Iv)
    requires Inv(s)
    ensures Inv(Upload(s, file, password, id, iv).1)
  {
    if Stores(file, password, id) {
      var name := StorageName(id, file.value.name);
      UploadWriteBeforeRegister(s, file.value, password.value, id, iv);
      var mid := WriteArtifact(s, name, Fernet.Encrypt(s.key, iv, file.value.data));
      assert Upload(s, file, password, id, iv).1 == Register(mid, id, NewRecord(id, file.value, password.value));
      Fernet.DecryptEncrypt(s.key, iv, file.value.data);
    }
  }

  /** Every download, whatever its outcome, keeps the invariant. */
  lemma DownloadPreservesInv(s: Server, id: string, req: Request)
    requires Inv(s)
    ensures Inv(Download(s, id, req).1)
  {
    var r := Download(s, id, req);
    if Consumes(s, id, req) {
      var path := ArtifactPath(s.files[id].filename);
      ArtifactIsNotKeyFile(s.files[id].filename);
      forall other | other in r.1.files
        ensures ArtifactPath(r.1.files[other].filename) in r.1.disk
        ensures r.1.disk[ArtifactPath(r.1.files[other].filename)] == s.disk[ArtifactPath(s.files[other].filename)]
      {
        DistinctArtifacts(other, s.files[other], id, s.files[id]);
      }
    }
  }

  /**
    With the invariant, the right password always consumes the transfer. It
    delivers the file under its original name when that name can be sent,
    and fails after the removals when it cannot.
   */
  lemma CorrectPasswordDelivers(s: Server, id: string)
    requires Inv(s)
    requires id in s.files
    ensures Consumes(s, id, Post(Some(s.files[id].password)))
    ensures var r := Download(s, id, Post(Some(s.files[id].password)));
      SendableName(s.files[id].origName) ==> r.0.Sent? && r.0.name == s.files[id].origName
    ensures var r := Download(s, id, Post(Some(s.files[id].password)));
      !SendableName(s.files[id].origName) ==> r.0 == ServerError(SendFailed)
  {
  }

  /**
    Single use: once a request has consumed a transfer, delivered or not,
    the same id is not found, whatever is sent.
   */
  lemma ExactlyOnce(s: Server, id: string, req: Request, again: Request)
    requires Consumes(s, id, req)
    ensures Download(Download(s, id, req).1, id, again) == (NotFound, Download(s, id, req).1)
  {
  }

  /**
    A wrong password (or a missing one) is answered with the password form and
    changes nothing, so a later attempt with the right password is answered
    exactly as if the wrong attempt had not happened.
   */
  lemma WrongPasswordThenRetry(s: Server, id: string, wrong: Option<string>)
    requires id in s.files
    requires wrong != Some(s.files[id].password)
    ensures Download(s, id, Post(wrong)) == (PasswordPage(true), s)
    ensures var right := Post(Some(s.files[id].password));
      Download(Download(s, id, Post(wrong)).1, id, right) == Download(s, id, right)
  {
  }

  /**
    Round trip: a stored upload is delivered, byte for byte and under its own
    name, to the first request with its password, provided the name can be
    sent; otherwise that request fails and the transfer is lost. Either way
    the store is then exactly as it was before the upload when the id and the
    artifact path were unused.
   */
  lemma UploadThenDownload(s: Server, file: FilePart, password: string, id: Token, iv: Fernet.Iv)
    requires Stores(Some(file), Some(password), id)
    ensures var up := Upload(s, Some(file), Some(password), id, iv).1;
      SendableName(file.name) ==> Download(up, id, Post(Some(password))).0 == Sent(file.name, file.data)
    ensures var up := Upload(s, Some(file), Some(password), id, iv).1;
      !SendableName(file.name) ==> Download(up, id, Post(Some(password))).0 == ServerError(SendFailed)
    ensures var up := Upload(s, Some(file), Some(password), id, iv).1;
      id !in s.files && ArtifactPath(StorageName(id, file.name)) !in s.disk ==>
        Download(up, id, Post(Some(password))).1 == s
  {
    var up := Upload(s, Some(file), Some(password), id, iv).1;
    var path := ArtifactPath(StorageName(id, file.name));
    assert up.files[id].filename == StorageName(id, file.name);
    assert Fernet.Decrypt(s.key, up.disk[path]) == Some(file.data);
    assert Consumes(up, id, Post(Some(password)));
    var down := Download(up, id, Post(Some(password)));
    if id !in s.files && path !in s.disk {
      assert down.1.files == up.files - {id} == s.files;
      assert down.1.disk == up.disk - {path} == s.disk;
    }
  }

  /**
    Ids are not checked for collisions: an upload under an id that is already
    registered replaces that transfer. The earlier password no longer opens
    it, and when the names differ the earlier artifact stays on disk with no
    entry pointing at it.
   */
  lemma UploadCollisionReplaces(s: Server, file: FilePart, password: string, id: Token, iv: Fernet.Iv)
    requires Inv(s)
    requires Stores(Some(file), Some(password), id)
    requires id in s.files
    ensures var up := Upload(s, Some(file), Some(password), id, iv).1;
      && up.files[id].password == password
      && (s.files[id].password != password ==>
            Download(up, id, Post(Some(s.files[id].password))) == (PasswordPage(true), up))
    ensures var up := Upload(s, Some(file), Some(password), id, iv).1;
      var previous := ArtifactPath(s.files[id].filename);
      s.files[id].origName != file.name ==>
        && previous in up.disk
        && forall k | k in up.files :: ArtifactPath(up.files[k].filename) != previous
  {
    var up := Upload(s, Some(file), Some(password), id, iv).1;
    var previous := ArtifactPath(s.files[id].filename);
    UploadPreservesInv(s, Some(file), Some(password), id, iv);
    if s.files[id].origName != file.name {
      forall k | k in up.files
        ensures ArtifactPath(up.files[k].filename) != previous
      {
        DistinctArtifacts(k, up.files[k], id, s.files[id]);
      }
    }
  }

  /**
    The handler removes the artifact before the registry entry. In the state
    between the two removals the entry still exists but its file does not,
    so the invariant is broken there, if only for that moment.
   */
  lemma DanglingEntryBetweenRemovals(s: Server, id: string, req: Request)
    requires Inv(s)
    requires Consumes(s, id, req)
    ensures var mid := RemoveArtifact(s, ArtifactPath(s.files[id].filename));
      && id in mid.files
      && ArtifactPath(mid.files[id].filename) !in mid.disk
      && !Inv(mid)
      && Unregister(mid, id) == Download(s, id, req).1
  {
  }

  /**
    The transfer is removed before the response is built, so a name that
    cannot go into the Content-Disposition header costs the recipient the
    file: the request fails, and every later request is not found.
   */
  lemma UnsendableNameLost(s: Server, id: string, req: Request, again: Request)
    requires Consumes(s, id, req)
    requires !SendableName(s.files[id].origName)
    ensures Download(s, id, req).0 == ServerError(SendFailed)
    ensures Download(Download(s, id, req).1, id, again).0 == NotFound
  {
  }

  /**
    A concrete case: a file named "a\nb" uploaded to a fresh store is never
    delivered; the first request with its password fails and the second is
    not found.
   */
  lemma NewlineNameLost()
    ensures var s := Boot(map[], [1]);
      var id: Token := "AAAAAAAAAAA";
      var iv: Fernet.Iv := [0, 0, 0, 0, 0, 0, 0, 0, 0, 0, 0, 0, 0, 0, 0, 0];
      var up := Upload(s, Some(FilePart("a\nb", [7])), Some("pw"), id, iv);
      var first := Download(up.1, id, Post(Some("pw")));
      && up.0 == Linked(id)
      && first.0 == ServerError(SendFailed)
      && Download(first.1, id, Post(Some("pw"))).0 == NotFound
  {
    var s := Boot(map[], [1]);
    var id: Token := "AAAAAAAAAAA";
    var iv: Fernet.Iv := [0, 0, 0, 0, 0, 0, 0, 0, 0, 0, 0, 0, 0, 0, 0, 0];
    var file := FilePart("a\nb", [7]);
    assert !SendableName(file.name) by { assert file.name[1] == '\n'; }
    assert CreatableName(StorageName(id, file.name));
    UploadThenDownload(s, file, "pw", id, iv);
  }

  /**
    The corrected handler agrees with the one in the code on every name that
    can be sent, and on a name that cannot it keeps the transfer, so a retry
    meets the same transfer again.
   */
  lemma SendFirstKeepsUnsendable(s: Server, id: string, req: Request)
    ensures id in s.files && SendableName(s.files[id].origName) ==>
      DownloadSendFirst(s, id, req) == Download(s, id, req)
    ensures Consumes(s, id, req) && !SendableName(s.files[id].origName) ==>
      DownloadSendFirst(s, id, req) == (ServerError(SendFailed), s)
  {
  }
}
