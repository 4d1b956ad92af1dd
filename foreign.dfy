/*
 * The foreign primitives the key layer calls. Each is an uninterpreted constant of
 * function type: the model fixes only its signature and, through a subset type,
 * the length of what it returns. Nothing else about the cryptography is assumed.
 */

/** golang.org/x/crypto/curve25519 */
module Curve25519 {
  import opened Common

  /** curve25519.ScalarSize (also the size of a point) */
  const ScalarSize: nat := 32

  /** curve25519.Basepoint: the canonical generator, 9 followed by 31 zero bytes */
  const Basepoint: seq<byte> := [9] + Zeros(31)

  /** Functions that, when they succeed, return a 32-byte point. */
  type X25519Function = f: (seq<byte>, seq<byte>) -> Result<seq<byte>> |
    forall scalar, point :: f(scalar, point).Success? ==> |f(scalar, point).value| == ScalarSize
    witness (scalar: seq<byte>, point: seq<byte>) => Failure(Foreign("x25519"))

  /** curve25519.X25519(scalar, point): scalar multiplication, failing on a low-order point */
  const X25519: X25519Function
}

/** gopkg.shib.me/xipher/chacha20poly1305 */
module Chacha20Poly1305 {
  import opened Common

  /** the AEAD cipher context; its nonce handling is not part of this model */
  type Cipher

  /** chacha20poly1305.Get(key) */
  const Get: seq<byte> -> Result<Cipher>
}

/** crypto/sha256 */
module Sha256 {
  import opened Common

  type DigestFunction = f: seq<byte> -> seq<byte> | forall m :: |f(m)| == 32
    witness (m: seq<byte>) => Zeros(32)

  /** sha256.Sum256: always a 32-byte digest */
  const Sum256: DigestFunction
}

/** The password KDF of package xipher (kdfSpec and its methods), whose files are not part of this model. */
module Kdf {
  import opened Common

  /** a kdfSpec value, opaque here */
  type KdfSpec(!new)

  /** kdfSpecLength: the length of a spec's encoding */
  const KdfSpecLength: nat

  /** cipherKeyLength: the length of a derived key */
  const CipherKeyLength: nat := 32

  type SpecEncoder = f: KdfSpec -> seq<byte> | forall s :: |f(s)| == KdfSpecLength
    witness (s: KdfSpec) => Zeros(KdfSpecLength)

  type KeyDeriver = f: (KdfSpec, seq<byte>) -> seq<byte> | forall s, pwd :: |f(s, pwd)| == CipherKeyLength
    witness (s: KdfSpec, pwd: seq<byte>) => Zeros(CipherKeyLength)

  /** kdfSpec.bytes() */
  const SpecBytes: SpecEncoder

  /** kdfSpec.getCipherKey(password) */
  const GetCipherKey: KeyDeriver

  /** parseKdfSpec(bytes) */
  const ParseKdfSpec: seq<byte> -> Result<KdfSpec>

  /** A setter of one cost parameter; the identity stands in as the type's witness. */
  type SpecSetter = f: (KdfSpec, byte) -> KdfSpec | true
    witness (s: KdfSpec, b: byte) => s

  /** kdfSpec.setIterations / setMemory / setThreads (zero keeps the default) */
  const SetIterations: SpecSetter
  const SetMemory: SpecSetter
  const SetThreads: SpecSetter
}

/** dev.shib.me/xipher/internal/ecc, the curve package that package asx imports */
module AsxEcc {
  import opened Common

  type PrivateKey
  type PublicKey(!new)

  type PublicKeyEncoder = f: PublicKey -> seq<byte> | forall p :: |f(p)| == 32
    witness (p: PublicKey) => Zeros(32)

  /** ecc.ParsePrivateKey(bytes) */
  const ParsePrivateKey: seq<byte> -> Result<PrivateKey>
  /** (*ecc.PrivateKey).PublicKey() */
  const PublicKeyOf: PrivateKey -> Result<PublicKey>
  /** (*ecc.PublicKey).Bytes() */
  const PublicKeyBytes: PublicKeyEncoder
  /** ecc.ParsePublicKey(bytes) */
  const ParsePublicKey: seq<byte> -> Result<PublicKey>
}

/** dev.shib.me/xipher/internal/kyb */
module Kyber {
  import opened Common

  type PrivateKey
  type PublicKey

  /** kyb.NewPrivateKeyForSeed(seed) */
  const NewPrivateKeyForSeed: seq<byte> -> Result<PrivateKey>
  /** (*kyb.PrivateKey).PublicKey() */
  const PublicKeyOf: PrivateKey -> Result<PublicKey>
  /** (*kyb.PublicKey).Bytes(): encoding may itself fail */
  const PublicKeyBytes: PublicKey -> Result<seq<byte>>
  /** kyb.ParsePublicKey(bytes) */
  const ParsePublicKey: seq<byte> -> Result<PublicKey>
}
