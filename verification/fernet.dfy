/**
  A stand-in for the Fernet token format used by the application.

  The real library is authenticated AES with an HMAC; its internals are not
  part of this model. The stand-in keeps the parts of its contract the
  transfer store relies on: a token starts with a version byte and carries a
  fresh random IV (taken here as a parameter); decrypting a token with the
  key that made it gives the plaintext back; and a token that `Decrypt`
  accepts is an encryption of the plaintext it returns. Its one-byte tag is
  a plain checksum, so unlike the real HMAC it does not reject every changed
  token. The round trip is proved rather than assumed.

  Token layout: version byte | IV (16 bytes) | tag byte | masked body.
 */
module Fernet {
  import opened Common

  const Version: byte := 0x80

  const IvLength: nat := 16

  /** Offset of the tag byte, directly after the version byte and the IV. */
  const TagOffset: nat := 1 + IvLength

  /** Number of bytes a token carries besides the body. */
  const HeaderLength: nat := TagOffset + 1

  type Iv = s: Bytes | |s| == IvLength
    witness [0, 0, 0, 0, 0, 0, 0, 0, 0, 0, 0, 0, 0, 0, 0, 0]

  /** Byte `i` of the keystream derived from the key and the IV. */
  function KeyByte(key: Bytes, iv: Iv, i: nat): byte
  {
    var k: byte := if |key| == 0 then 0 else key[i % |key|];
    k ^ iv[i % IvLength]
  }

  /** XOR with the keystream; applying it twice gives the input back. */
  function Mask(key: Bytes, iv: Iv, data: Bytes): (r: Bytes)
    ensures |r| == |data|
  {
    seq(|data|, i requires 0 <= i < |data| => data[i] ^ KeyByte(key, iv, i))
  }

  lemma MaskInvolutive(key: Bytes, iv: Iv, data: Bytes)
    ensures Mask(key, iv, Mask(key, iv, data)) == data
  {
    var once := Mask(key, iv, data);
    forall i | 0 <= i < |data|
      ensures Mask(key, iv, once)[i] == data[i]
    {
      var k := KeyByte(key, iv, i);
      assert once[i] == data[i] ^ k;
      assert (data[i] ^ k) ^ k == data[i];
    }
  }

  /** Wrapping byte sum, standing in for the authentication code. */
  function Checksum(s: Bytes): byte
  {
    if |s| == 0 then 0 else s[0] + Checksum(s[1..])
  }

  function Tag(key: Bytes, iv: Iv, plaintext: Bytes): byte
  {
    Checksum(key + iv + plaintext)
  }

  /** `Fernet(key).encrypt(plaintext)` with the IV the library would draw. */
  function Encrypt(key: Bytes, iv: Iv, plaintext: Bytes): (token: Bytes)
    ensures |token| == HeaderLength + |plaintext|
    ensures token[0] == Version
    ensures token[1..TagOffset] == iv
  {
    [Version] + iv + [Tag(key, iv, plaintext)] + Mask(key, iv, plaintext)
  }

  /**
    `Fernet(key).decrypt(token)`: None stands for `InvalidToken`. A token is
    accepted only if it is exactly the encryption, under this key and the IV
    it carries, of the plaintext returned.
   */
  function Decrypt(key: Bytes, token: Bytes): (r: Option<Bytes>)
    ensures |token| < HeaderLength || token[0] != Version ==> r == None
    ensures r.Some? ==> |token| >= HeaderLength
    ensures r.Some? ==> token == Encrypt(key, token[1..TagOffset], r.value)
  {
    if |token| < HeaderLength || token[0] != Version then None
    else
      var iv: Iv := token[1..TagOffset];
      var body := token[HeaderLength..];
      var plaintext := Mask(key, iv, body);
      if token[TagOffset] != Tag(key, iv, plaintext) then None
      else
        MaskInvolutive(key, iv, body);
        assert token == [token[0]] + token[1..TagOffset] + [token[TagOffset]] + body;
        Some(plaintext)
  }

  /** Decrypting with the key that encrypted gives the plaintext back. */
  lemma DecryptEncrypt(key: Bytes, iv: Iv, plaintext: Bytes)
    ensures Decrypt(key, Encrypt(key, iv, plaintext)) == Some(plaintext)
  {
    var token := Encrypt(key, iv, plaintext);
    assert token[HeaderLength..] == Mask(key, iv, plaintext);
    assert token[TagOffset] == Tag(key, iv, plaintext);
    MaskInvolutive(key, iv, plaintext);
  }

  /** Encrypting the same plaintext under two IVs gives two tokens. */
  lemma EncryptFreshIv(key: Bytes, iv1: Iv, iv2: Iv, plaintext: Bytes)
    requires iv1 != iv2
    ensures Encrypt(key, iv1, plaintext) != Encrypt(key, iv2, plaintext)
  {
  }
}
