/**
  Key bootstrap: the encryption key is read from the key file when it
  exists and otherwise generated and written there. The key the library
  would generate is a parameter, since it is random.
 */
module KeyFile {
  import opened Common
  import opened Storage

  /** Persist a freshly generated key and return it. */
  function GenerateKey(disk: Disk, generated: Bytes): (r: (Bytes, Disk))
    ensures r.0 == generated
    ensures r.1.Keys == disk.Keys + {KeyPath}
    ensures r.1[KeyPath] == generated
    ensures forall p | p in disk && p != KeyPath :: r.1[p] == disk[p]
  {
    (generated, WriteFile(disk, KeyPath, generated))
  }

  /**
    Load the key, creating the key file first if it is absent. Either way the
    returned key is what the key file holds afterwards, and no other file is
    touched.
   */
  function LoadKey(disk: Disk, generated: Bytes): (r: (Bytes, Disk))
    ensures KeyPath in r.1 && r.1[KeyPath] == r.0
    ensures r.1.Keys == disk.Keys + {KeyPath}
    ensures forall p | p in disk && p != KeyPath :: r.1[p] == disk[p]
    ensures KeyPath in disk ==> r.0 == disk[KeyPath] && r.1 == disk
    ensures KeyPath !in disk ==> r.0 == generated
  {
    if KeyPath !in disk then GenerateKey(disk, generated)
    else (ReadFile(disk, KeyPath).value, disk)
  }

  /**
    Loading a second time, whatever key the second call would generate,
    returns the same key and leaves the disk as the first call left it.
   */
  lemma LoadKeyIdempotent(disk: Disk, generated1: Bytes, generated2: Bytes)
    ensures LoadKey(LoadKey(disk, generated1).1, generated2) == LoadKey(disk, generated1)
  {
  }
}
