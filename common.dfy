/** Values shared by every package of the model: bytes, results and errors. */
module Common {

  /** One octet, as Go's `byte`. */
  type byte = x: int | 0 <= x < 256

  /** The zero-filled buffer Go's `make([]byte, n)` returns. */
  function Zeros(n: nat): (r: seq<byte>)
    ensures |r| == n
    ensures forall i :: 0 <= i < n ==> r[i] == 0
  {
    seq(n, _ => 0)
  }

  datatype Option<+T> = None | Some(value: T)

  /** A Go `(value, error)` pair: exactly one of the two is meaningful. */
  datatype Result<+T> = Success(value: T) | Failure(error: Error)

  /** The error values the modelled packages return. */
  datatype Error =
    /** ecc: `errInvalidKeyLength` */
    | InvalidKeyLength
    /** xipher: `errInvalidPassword` */
    | InvalidPassword
    /** xipher: `errPrivKeyUnavailableForPwd` */
    | PrivKeyUnavailableForPwd
    /** xipher: ParsePrivateKey's length error, carrying the required and the given length */
    | PrivateKeyLengthMismatch(expected: nat, got: nat)
    /** xipher: ParsePublicKey's length error, carrying the required and the given length */
    | PublicKeyLengthMismatch(expected: nat, got: nat)
    /** asx: `errInvalidPrivateKeyLength` */
    | InvalidPrivateKeyLength
    /** asx: `errInvalidPublicKeyLength` */
    | InvalidPublicKeyLength
    /** asx: `errInvalidPublicKey` */
    | InvalidPublicKey
    /** an error produced inside a foreign primitive (crypto/rand, curve25519, the KDF, Kyber, zlib) */
    | Foreign(message: string)
}
