# Password-gated single-use file transfer store

This project models the core of a small Flask application that lets a user upload a
file with a password and hands the recipient a link that works once. Four parts are
modelled:

- The upload handler encrypts the bytes with one process-wide key and writes the
  artifact to `uploaded_files/{id}_{name}.enc`. It then records
  `{filename, password, orig_name}` under the id in the in-memory registry `FILES`.
- The download handler is a small state machine. An unknown id is not found. A GET or
  a wrong password shows the password form again. The right password decrypts the
  file, deletes the artifact and then the registry entry, and sends the plaintext
  under its original name.
- The shutdown hook tries to delete every registered artifact, ignores failures, and
  empties the registry.
- The key bootstrap loads the key file if it exists. Otherwise it generates a key and
  writes it there.

The state is an immutable value, `Transfer.Server`. It holds the key in use, the
registry (`map<string, Record>`) and the file system. The file system is a
`map<Path, Bytes>` that holds both the key file and the artifacts. Each handler is a
pure function from a state (plus the request) to an outcome and the next state. The
shutdown hook is a method whose loop mirrors the sweep over the registry.

Randomness becomes parameters:
- the transfer id, which `secrets.token_urlsafe(8)` would draw: an 11-character
  URL-safe string, the type `Transfer.Token`;
- the Fernet IV;
- the generated key.

Fernet is replaced by the concrete stand-in cipher in `fernet.dfy`. It keeps Fernet's
version byte and 16-byte IV, and adds a one-byte tag and an XOR keystream. Its round
trip is proved rather than assumed. Its `Decrypt` accepts a token only if the token is
exactly the encryption of the plaintext it returns.

Files: `common.dfy` (bytes, `Option`), `storage.dfy` (paths and file operations),
`fernet.dfy`, `keyfile.dfy`, `transfer.dfy` (state, invariant, upload, download),
`shutdown.dfy`, `properties.dfy` (lemmas that relate several steps).

The invariant `Transfer.Inv` has two parts:
- the key file holds the key in use;
- every registry entry is well formed, and its artifact is on disk and
  decrypts under the key. Well formed means an 11-character token id,
  `filename == id + "_" + orig_name + ".enc"`, a non-empty `orig_name` and a
  non-empty password.

Behaviour of the code that the model keeps as written:
- The code does not check ids for collisions. An upload under a live id silently replaces its entry (app.py:109). `TransferProperties.UploadCollisionReplaces` states what happens then.
- On delivery the code removes the artifact (app.py:137) before the entry (app.py:138). An interruption between the two leaves an entry with no file. `TransferProperties.DanglingEntryBetweenRemovals` shows that this intermediate state breaks the invariant. The final state is the same as with the other order.
- The form file counts as present only when it has a non-empty file name, because Werkzeug's `FileStorage` is falsy otherwise. So an upload with an empty file name is rejected like a missing file.
- The transfer is removed (app.py:137-138) before `send_file` builds the response (app.py:140). Werkzeug refuses a Content-Disposition value containing CR or LF. So a client file name with a line break, which the multipart parser accepts, makes the right password consume the transfer and then fail with a 500. The model returns `ServerError(SendFailed)` with the transfer gone. See "## Findings".
- Opening the artifact for writing (app.py:107) fails when the client's file name contains a `/`, because nothing creates sub-directories of the upload directory. It also fails when the name contains a NUL character. The handler then raises before inserting the record. The model returns `WriteFailed` and changes nothing.

## Model

| member | source | states |
|---|---|---|
| Storage.ArtifactPathInjective | app.py:106 | Two artifact names give the same path under the upload directory exactly when they are the same name |
| Storage.ArtifactIsNotKeyFile | app.py:13-16 | No artifact path is the key file, so uploads and deletions never touch the key |
| Fernet.Decrypt | app.py:135 | A short token or one with the wrong version byte is rejected; any accepted token is exactly the encryption of the returned plaintext under the same key and its own IV |
| Fernet.DecryptEncrypt | app.py:103 | Decrypting a token with the key that produced it returns the original bytes |
| Fernet.EncryptFreshIv | app.py:103 | Encrypting the same bytes with two different IVs gives two different tokens |
| KeyFile.GenerateKey | app.py:18-22 | The generated key is returned and persisted in the key file; no other file changes |
| KeyFile.LoadKey | app.py:24-28 | If the key file exists, its contents are returned and the disk is unchanged; otherwise the generated key is written and returned; either way the key file afterwards holds the returned key and no other file changes |
| KeyFile.LoadKeyIdempotent | app.py:24-28 | A second load returns the same key and leaves the disk as the first left it, whatever key it would have generated |
| Storage.ArtifactPath | app.py:106 | The artifact path is the upload directory, a `/`, then the artifact name, which can be read back from the path |
| Storage.ReadFile | app.py:133-134 | Reading gives the file's contents when the path exists and nothing otherwise |
| Storage.WriteFile | app.py:107-108 | Writing creates or replaces exactly that path with the given bytes; every other file is unchanged |
| Storage.RemoveFile | app.py:149 | Removal fails exactly when the path is absent; otherwise exactly that path disappears and other files keep their contents |
| Fernet.Encrypt | app.py:103 | The token is the plaintext length plus a fixed header, starts with the version byte and carries the IV it was made with |
| Transfer.StorageName | app.py:105 | The artifact name starts with the id and a `_`, ends with `.enc`, and the client's file name can be read back from between the two |
| Transfer.Accepts | app.py:99-101 | An accepted form has a file with a non-empty name and a non-empty password, so the record it would make is well formed under any id |
| TransferProperties.InvSeparatesArtifacts | app.py:15-16 | In a state with the invariant (`Transfer.Inv`: key file holds the key, every entry well formed with an artifact on disk that decrypts), distinct live ids never share an artifact file and no artifact is the key file |
| Transfer.StorageNameInjective | app.py:104-105 | Because ids have a fixed length, `{id}_{name}.enc` names coincide exactly when id and name both coincide |
| Transfer.Boot | app.py:15-31 | Start-up yields an empty registry, the loaded key and the invariant; the only file it may add is the key file, and every other file keeps its contents |
| Transfer.Upload | app.py:98-109 | A missing or nameless file or an empty or missing password changes nothing; a file name the artifact cannot be created under fails with no change; otherwise the link is for the id, the id maps to `{filename, password, orig_name}`, the new artifact decrypts to the uploaded bytes, and every other entry and file is unchanged |
| Transfer.Download | app.py:125-144 | Unknown id gives not-found and no change; GET or wrong password gives the form and no change; with the right password a missing artifact or a token that fails to decrypt is a server error with no change. Otherwise the transfer is consumed: exactly that entry and that artifact are removed, and the plaintext is sent under `orig_name` if that name has no CR or LF, else the request fails with `SendFailed`. The state changes exactly when the transfer is consumed |
| Transfer.DownloadSendFirst | app.py:132-140 | Corrected handler that builds the response before the removals: the state changes only when the file is delivered, and outcomes and deliveries otherwise match the handler as written |
| Shutdown.CleanupFiles | app.py:146-152 | Afterwards the registry is empty, every registered artifact is gone, every other file is unchanged, missing files do not stop the sweep, and the invariant is kept |
| TransferProperties.DistinctArtifacts | app.py:104-106 | Well-formed records with different ids or names never share an artifact file |
| TransferProperties.UploadWriteBeforeRegister | app.py:107-109 | The state after writing the artifact but before inserting the entry already satisfies the invariant |
| TransferProperties.UploadPreservesInv | app.py:98-109 | Every upload, accepted or rejected, keeps the invariant |
| TransferProperties.DownloadPreservesInv | app.py:125-144 | Every download, whatever its outcome, keeps the invariant |
| TransferProperties.CorrectPasswordDelivers | app.py:131-140 | Under the invariant, the right password for a registered id always consumes the transfer; it delivers under the original name when that name has no CR or LF, and fails with `SendFailed` otherwise |
| TransferProperties.ExactlyOnce | app.py:126-140 | After a request consumes a transfer, delivered or not, any further request for the same id is not found and changes nothing |
| TransferProperties.WrongPasswordThenRetry | app.py:129-144 | A wrong or missing password gives the form with the error and no change, so a later right password is answered as if the wrong attempt never happened |
| TransferProperties.UploadThenDownload | app.py:98-140 | In any state, a stored upload requested with its password is delivered byte for byte under its name when the name has no CR or LF, and fails with `SendFailed` otherwise; if the id and artifact path were unused, the store is then exactly as it was before the upload |
| TransferProperties.UploadCollisionReplaces | app.py:104-109 | An upload under a registered id replaces the entry; the earlier password no longer opens it, and with a different name the earlier artifact is left on disk with no entry pointing at it |
| TransferProperties.DanglingEntryBetweenRemovals | app.py:137-138 | Between removing the artifact and deleting the entry, the entry exists without its file and the invariant is broken; deleting the entry then gives the final consumed state |
| TransferProperties.UnsendableNameLost | app.py:137-140 | When the right password consumes a transfer whose name has a CR or LF, the request fails with `SendFailed` and every later request for the id is not found |
| TransferProperties.NewlineNameLost | app.py:98-140 | A file named `a\nb` uploaded to a fresh store gets a link, its first correct-password request fails with `SendFailed`, and the next is not found |
| TransferProperties.SendFirstKeepsUnsendable | app.py:132-140 | The corrected handler equals the one as written on every sendable name, and on an unsendable one it fails with `SendFailed` and leaves the state unchanged |
| Transfer.SendableName | app.py:140 | A name can go into the Content-Disposition header exactly when it has no carriage return or line feed |
| Storage.CreatableName | app.py:107 | On a POSIX file system, opening the artifact for writing fails whenever its name has a `/` or a NUL character; the other failures are listed under "## Left out" |
| Transfer.IsToken | app.py:104 | The shape of a `secrets.token_urlsafe(8)` id: exactly 11 characters, each a letter, a digit, `-` or `_` |
| Transfer.NewRecord | app.py:105-109 | The record an upload registers: artifact name `{id}_{name}.enc`, the submitted password, and the client's file name as `orig_name` |
| Transfer.Stores | app.py:101-107 | An upload is stored exactly when the form is accepted and the artifact file can be created |
| Transfer.Inv | app.py:15-16 | The state invariant: the key file holds the key in use, and every registry entry is well formed and owns an artifact on disk that decrypts under the key |
| Transfer.WellFormed | app.py:104-109 | A registry entry as uploads make it: a token id, `filename == id + "_" + orig_name + ".enc"`, a non-empty `orig_name` and a non-empty password |
| Transfer.PasswordMatches | app.py:129-131 | The password gate: only a POST whose password field is present and equal to the stored password passes, so a missing field never matches |
| Transfer.Consumes | app.py:131-135 | The guard for consumption: the right password, an artifact that can be read, and a token that decrypts |
| Transfer.WriteArtifact | app.py:107-108 | The first step of a stored upload: writes the token at the artifact path, nothing else |
| Transfer.Register | app.py:109 | The second step: inserts the record under the id, replacing any entry with that id |
| Transfer.RemoveArtifact | app.py:137 | The first removal on consumption: deletes the artifact file, nothing else |
| Transfer.Unregister | app.py:138 | The second removal: deletes the registry entry, nothing else |

## Left out

- HTTP routing, the HTML templates and `render_template_string`: user interface only. The outcomes are datatypes instead.
- Link building with `url_for(..., _external=True)`, QR rendering and base64 encoding of the PNG (app.py:111-120): these are library calls. An accepted upload reports only the id the link is built from.
- Fernet internals: the stand-in cipher is not AES or HMAC. Its one-byte tag is a plain checksum that some changed tokens pass, so tamper detection is not claimed. What is proved is the round trip, and that an accepted token is an encryption of the returned plaintext.
- Transfer.Boot: always succeeds. In the code, a key file that is not a valid Fernet key makes `Fernet(encryption_key)` (app.py:31) raise, so the server never starts.
- `secrets.token_urlsafe`, `os.urandom` and key generation: these are random, so their results are parameters.
- Concurrency (`threaded=True`): the code takes no lock, so no race-freedom property can be claimed. Each handler is modelled as one atomic step.
- `atexit` registration, `os.makedirs` and `app.secret_key`: process plumbing. The upload directory is assumed to exist.
- Storage.CreatableName: assumes a case-sensitive POSIX file system. On Windows or a FAT volume, a name containing `\`, `*`, `?`, `"`, `<`, `>`, `|` or a control character also makes the open at app.py:107 raise, while the model stores the upload. On a case-insensitive file system (the macOS default, Windows, FAT), two ids that differ only in letter case share one artifact file. `Transfer.StorageNameInjective` and `TransferProperties.InvSeparatesArtifacts` then do not describe the disk. That needs ids that match apart from case, which is about as unlikely as an exact id collision.
- Transfer.Upload: does not model a write that fails because the artifact name is longer than the file system allows, or because the disk is full or permissions are missing. The code would then answer with an error and register nothing. The model stores the upload. The failures it does model are a `/` or a NUL in the name.
- Other I/O failures (disk full, permission errors) on reading, removing or writing the key file are not modelled. A missing artifact or a failing decryption during download is modelled: it is a `ServerError` outcome that leaves the state unchanged.
- Shutdown.CleanupFiles: the sweep visits entries in an arbitrary order rather than dict insertion order. The result does not depend on the order.

## Findings

| source | as written | input that shows it | evidently intended | confidence | as-written member | corrected member |
|---|---|---|---|---|---|---|
| app.py:137-140 | The artifact and the registry entry are removed before `send_file` builds the response, and the response fails when the download name contains CR or LF | Upload a file named `a\nb` with any password, then request it with that password: the request fails with a 500, and the next request is not found | A transfer is consumed only when it is delivered, so a failed response leaves it in place | medium, not executed | Transfer.Download, TransferProperties.NewlineNameLost | Transfer.DownloadSendFirst, TransferProperties.SendFirstKeepsUnsendable |

The other lemmas are stated about `Transfer.Download`, the handler as the code has it. `TransferProperties.SendFirstKeepsUnsendable` shows the corrected handler equals it on every sendable name. So every lemma about deliveries of sendable names holds for the corrected handler too.
