/**
 * The encryption service: field-level AES-256-CBC with a fresh IV per value, the
 * stored blob being base64(iv ++ ciphertext), plus bcrypt password hashing.
 *
 * The cipher, base64, SHA-256 and bcrypt are library code this model does not
 * open up. They are the fields of a `Primitives` value, and `Sound` collects the
 * facts about them that the proofs rely on; every promise that depends on the
 * library is stated under `Sound(prims)`.
 */
module Crypto {
  import opened Wrappers

  /** A PHP byte string. */
  type Bytes = string

  /** `openssl_cipher_iv_length('aes-256-cbc')`: one AES block. */
  const IvLength: nat := 16

  /** Length in bytes of a raw SHA-256 digest, i.e. of the AES-256 key. */
  const KeyLength: nat := 32

  /** The work factor handed to `password_hash`. */
  const BcryptCost: nat := 12

  datatype Primitives = Primitives(
    /** `base64_encode` */
    base64Encode: Bytes -> string,
    /** `base64_decode` (non-strict: never fails) */
    base64Decode: string -> Bytes,
    /** `hash('sha256', x, true)` */
    sha256: Bytes -> Bytes,
    /** `openssl_encrypt(data, 'aes-256-cbc', key, OPENSSL_RAW_DATA, iv)`; `None` is PHP `false` */
    cipherEncrypt: (Bytes, Bytes, Bytes) -> Option<Bytes>,
    /** `openssl_decrypt(data, 'aes-256-cbc', key, OPENSSL_RAW_DATA, iv)`; `None` is PHP `false` */
    cipherDecrypt: (Bytes, Bytes, Bytes) -> Option<Bytes>,
    /** `password_hash(password, PASSWORD_BCRYPT, ['cost' => cost])` with the given salt */
    bcryptHash: (Bytes, Bytes, nat) -> Bytes,
    /** `password_verify(password, hash)` */
    bcryptVerify: (Bytes, Bytes) -> bool)

  /** What the libraries are taken to guarantee. */
  ghost predicate Sound(p: Primitives) {
    // base64 decoding inverts encoding, and an encoding has 4 characters per started 3 bytes
    && (forall b :: p.base64Decode(p.base64Encode(b)) == b)
    && (forall b :: |p.base64Encode(b)| == 4 * ((|b| + 2) / 3))
    // a raw SHA-256 digest is 32 bytes
    && (forall b :: |p.sha256(b)| == KeyLength)
    // with a 32-byte key and a 16-byte IV, CBC encryption succeeds, emits at least one
    // padded block, and decryption under the same key and IV inverts it
    && (forall d, k, iv :: |k| == KeyLength && |iv| == IvLength ==>
          p.cipherEncrypt(d, k, iv).Some? && |p.cipherEncrypt(d, k, iv).value| > 0)
    && (forall d, k, iv :: |k| == KeyLength && |iv| == IvLength && p.cipherEncrypt(d, k, iv).Some? ==>
          p.cipherDecrypt(p.cipherEncrypt(d, k, iv).value, k, iv) == Some(d))
    // an empty ciphertext has no padding block, so decryption fails
    && (forall k, iv :: p.cipherDecrypt([], k, iv) == None)
    // bcrypt verifies the password it hashed
    && (forall pw, salt, cost :: p.bcryptVerify(pw, p.bcryptHash(pw, salt, cost)))
  }

  /** The framing: the IV prepended to the ciphertext. */
  function Frame(iv: Bytes, ciphertext: Bytes): Bytes {
    iv + ciphertext
  }

  /**
   * The unframing `decrypt` does: `substr($data, 0, 16)` and `substr($data, 16)`,
   * which on a shorter string give the whole string and "".
   */
  function Split(data: Bytes): (parts: (Bytes, Bytes))
    ensures |parts.0| <= IvLength
    ensures parts.0 + parts.1 == data
    ensures |data| >= IvLength ==> |parts.0| == IvLength
    ensures |data| <= IvLength ==> parts.1 == []
  {
    if |data| >= IvLength then (data[..IvLength], data[IvLength..]) else (data, [])
  }

  /** Split-after-frame: a framed IV of the right length comes back off unchanged. */
  lemma SplitFrame(iv: Bytes, ciphertext: Bytes)
    requires |iv| == IvLength
    ensures Split(Frame(iv, ciphertext)) == (iv, ciphertext)
  {
    var d := Frame(iv, ciphertext);
    assert d[..IvLength] == iv;
    assert d[IvLength..] == ciphertext;
  }

  /** Frame-after-split: splitting loses nothing. */
  lemma FrameSplit(data: Bytes)
    ensures Frame(Split(data).0, Split(data).1) == data
  {
  }

  /** The service object: its key is fixed when it is built and never changes. */
  datatype Encryption = Encryption(prims: Primitives, key: Bytes) {

    /**
     * `encrypt`: base64 of the IV followed by the cipher output. A cipher failure
     * (PHP `false`) concatenates as "", so the blob then holds the IV alone.
     */
    function Encrypt(data: Bytes, iv: Bytes): (blob: string)
      requires |iv| == IvLength
      ensures Sound(prims) ==> |blob| > IvLength
      ensures Sound(prims) && |key| == KeyLength ==>
        exists ct :: |ct| > 0 && prims.base64Decode(blob) == Frame(iv, ct)
    {
      var ciphertext := match prims.cipherEncrypt(data, key, iv)
        case Some(c) => c
        case None => [];
      assert Sound(prims) && |key| == KeyLength ==>
        prims.base64Decode(prims.base64Encode(Frame(iv, ciphertext))) == Frame(iv, ciphertext);
      prims.base64Encode(Frame(iv, ciphertext))
    }

    /** `decrypt`: decode, split off the IV, decrypt the rest; `None` is PHP `false`. */
    function Decrypt(blob: string): (r: Option<Bytes>)
      ensures Sound(prims) && |prims.base64Decode(blob)| <= IvLength ==> r == None
    {
      var parts := Split(prims.base64Decode(blob));
      prims.cipherDecrypt(parts.1, key, parts.0)
    }

    /** `hashPassword`: bcrypt at cost 12; the salt stands for the fresh one bcrypt draws. */
    function HashPassword(password: Bytes, salt: Bytes): (h: Bytes)
      ensures Sound(prims) ==> prims.bcryptVerify(password, h)
    {
      prims.bcryptHash(password, salt, BcryptCost)
    }

    /** `verifyPassword`: delegates to bcrypt's own check. */
    function VerifyPassword(password: Bytes, hash: Bytes): (r: bool)
      ensures Sound(prims) ==> forall salt :: hash == prims.bcryptHash(password, salt, BcryptCost) ==> r
    {
      prims.bcryptVerify(password, hash)
    }
  }

  /** The constructor: the key is the raw SHA-256 digest of the configured secret. */
  function NewEncryption(prims: Primitives, secret: Bytes): (e: Encryption)
    ensures e.prims == prims
    ensures Sound(prims) ==> |e.key| == KeyLength
  {
    Encryption(prims, prims.sha256(secret))
  }

  /** `decrypt` recovers the IV and the ciphertext `encrypt` framed. */
  lemma EncryptLayout(e: Encryption, data: Bytes, iv: Bytes)
    requires Sound(e.prims) && |e.key| == KeyLength && |iv| == IvLength
    ensures e.prims.cipherEncrypt(data, e.key, iv).Some?
    ensures Split(e.prims.base64Decode(e.Encrypt(data, iv)))
      == (iv, e.prims.cipherEncrypt(data, e.key, iv).value)
  {
    var ct := e.prims.cipherEncrypt(data, e.key, iv).value;
    assert e.prims.base64Decode(e.Encrypt(data, iv)) == Frame(iv, ct);
    SplitFrame(iv, ct);
  }

  /** Round trip: decrypting what was encrypted gives the plaintext back. */
  lemma RoundTrip(e: Encryption, data: Bytes, iv: Bytes)
    requires Sound(e.prims) && |e.key| == KeyLength && |iv| == IvLength
    ensures e.Decrypt(e.Encrypt(data, iv)) == Some(data)
  {
    EncryptLayout(e, data, iv);
  }

  /**
   * Each request builds its own `Encryption`; since the key is derived from the
   * configured secret alone, a blob written through one instance is read back
   * through any other built from the same secret.
   */
  lemma SharedSecretRoundTrip(prims: Primitives, secret: Bytes, data: Bytes, iv: Bytes)
    requires Sound(prims) && |iv| == IvLength
    ensures NewEncryption(prims, secret).Decrypt(NewEncryption(prims, secret).Encrypt(data, iv)) == Some(data)
  {
    RoundTrip(NewEncryption(prims, secret), data, iv);
  }

  /** Distinct IVs give blobs whose decoded prefixes, and hence the blobs, differ. */
  lemma FreshIvDistinguishes(e: Encryption, d1: Bytes, d2: Bytes, iv1: Bytes, iv2: Bytes)
    requires Sound(e.prims) && |e.key| == KeyLength
    requires |iv1| == IvLength && |iv2| == IvLength && iv1 != iv2
    ensures Split(e.prims.base64Decode(e.Encrypt(d1, iv1))).0 != Split(e.prims.base64Decode(e.Encrypt(d2, iv2))).0
    ensures e.Encrypt(d1, iv1) != e.Encrypt(d2, iv2)
  {
    EncryptLayout(e, d1, iv1);
    EncryptLayout(e, d2, iv2);
  }

  /**
   * When the cipher itself fails, `encrypt` does not report it: the blob holds the
   * IV alone and can never be decrypted.
   */
  lemma CipherFailureStoresUndecryptable(e: Encryption, data: Bytes, iv: Bytes)
    requires Sound(e.prims) && |iv| == IvLength
    requires e.prims.cipherEncrypt(data, e.key, iv).None?
    ensures e.prims.base64Decode(e.Encrypt(data, iv)) == iv
    ensures e.Decrypt(e.Encrypt(data, iv)) == None
  {
    assert Frame(iv, []) == iv;
  }

  /** A password verifies against its own bcrypt hash, whatever salt was drawn. */
  lemma HashThenVerify(e: Encryption, password: Bytes, salt: Bytes)
    requires Sound(e.prims)
    ensures e.VerifyPassword(password, e.HashPassword(password, salt))
  {
  }
}
