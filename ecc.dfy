/**
 * Package ecc: X25519 private and public keys, interned by their 32 raw bytes, with a
 * private key's public key and a public key's encrypter computed once and kept.
 *
 * Go keeps the two interning tables in package variables; here they are the fields of
 * one Registry object that every operation touching them receives.
 */
module Ecc {
  import opened Common
  import opened Curve25519
  import Chacha20Poly1305

  /** a 32-byte point, the only length GetPublicKey lets through */
  type Point = k: seq<byte> | |k| == ScalarSize witness Zeros(ScalarSize)

  /**
   * The ECIES handshake of getEncrypter as a value: the ephemeral public key, and the
   * cipher keyed by the shared secret between the ephemeral scalar and `peer`.
   * The first failing step decides the error.
   */
  function Handshake(ephPrivKey: seq<byte>, peer: seq<byte>): (r: Result<(seq<byte>, Chacha20Poly1305.Cipher)>)
    ensures r.Success? <==>
              && X25519(ephPrivKey, Basepoint).Success?
              && X25519(ephPrivKey, peer).Success?
              && Chacha20Poly1305.Get(X25519(ephPrivKey, peer).value).Success?
    ensures r.Success? ==>
              && |r.value.0| == ScalarSize
              && r.value.0 == X25519(ephPrivKey, Basepoint).value
              && Chacha20Poly1305.Get(X25519(ephPrivKey, peer).value) == Success(r.value.1)
    ensures X25519(ephPrivKey, Basepoint).Failure? ==> r == Failure(X25519(ephPrivKey, Basepoint).error)
    ensures X25519(ephPrivKey, Basepoint).Success? && X25519(ephPrivKey, peer).Failure? ==>
              r == Failure(X25519(ephPrivKey, peer).error)
    ensures X25519(ephPrivKey, Basepoint).Success? && X25519(ephPrivKey, peer).Success?
              && Chacha20Poly1305.Get(X25519(ephPrivKey, peer).value).Failure? ==>
              r == Failure(Chacha20Poly1305.Get(X25519(ephPrivKey, peer).value).error)
  {
    match X25519(ephPrivKey, Basepoint)
    case Failure(e) => Failure(e)
    case Success(ephPubKey) =>
      match X25519(ephPrivKey, peer)
      case Failure(e) => Failure(e)
      case Success(sharedKey) =>
        match Chacha20Poly1305.Get(sharedKey)
        case Failure(e) => Failure(e)
        case Success(cipher) => Success((ephPubKey, cipher))
  }

  /** encrypter: an ephemeral public key and the cipher shared with one peer. */
  class Encrypter {
    const ephPubKey: seq<byte>
    const cipher: Chacha20Poly1305.Cipher
    /** the ephemeral scalar; the source drops it once the cipher exists */
    ghost const ephPrivKey: seq<byte>
    /** the bytes of the public key this encrypter seals to */
    ghost const peer: seq<byte>

    ghost predicate Valid() {
      Handshake(ephPrivKey, peer) == Success((ephPubKey, cipher))
    }

    constructor (ephPubKey: seq<byte>, cipher: Chacha20Poly1305.Cipher, ghost ephPrivKey: seq<byte>, ghost peer: seq<byte>)
      requires Handshake(ephPrivKey, peer) == Success((ephPubKey, cipher))
      ensures Valid()
      ensures this.ephPubKey == ephPubKey && this.cipher == cipher
      ensures this.ephPrivKey == ephPrivKey && this.peer == peer
    {
      this.ephPubKey := ephPubKey;
      this.cipher := cipher;
      this.ephPrivKey := ephPrivKey;
      this.peer := peer;
    }
  }

  class PublicKey {
    const key: Point
    var encrypter: Encrypter?

    ghost predicate Valid()
      reads this
    {
      encrypter != null ==> encrypter.peer == key && encrypter.Valid()
    }

    constructor (key: Point)
      ensures Valid() && this.key == key && encrypter == null
    {
      this.key := key;
      encrypter := null;
    }

    /** Bytes: the stored 32-byte point. */
    function Bytes(): Point {
      key
    }

    /**
     * getEncrypter: on the first call draws the ephemeral scalar from `random` (the
     * result of crypto/rand.Read) and builds the encrypter; every later call returns
     * that same object. A failure keeps nothing, so a later call tries again.
     */
    method GetEncrypter(random: Result<seq<byte>>) returns (r: Result<Encrypter>)
      requires Valid()
      requires random.Success? ==> |random.value| == ScalarSize
      modifies this
      ensures Valid()
      ensures old(encrypter) != null ==> r == Success(old(encrypter)) && encrypter == old(encrypter)
      ensures old(encrypter) == null && random.Failure? ==> r == Failure(random.error) && encrypter == null
      ensures old(encrypter) == null && random.Success? ==>
                var h := Handshake(random.value, key);
                && (h.Failure? ==> r == Failure(h.error) && encrypter == null)
                && (h.Success? ==>
                      && r.Success? && fresh(r.value) && encrypter == r.value
                      && r.value.ephPubKey == h.value.0 && r.value.cipher == h.value.1
                      && r.value.ephPrivKey == random.value && r.value.peer == key)
    {
      if encrypter == null {
        if random.Failure? {
          return Failure(random.error);
        }
        var ephPrivKey := random.value;
        var ephPubKey := X25519(ephPrivKey, Basepoint);
        if ephPubKey.Failure? {
          return Failure(ephPubKey.error);
        }
        var sharedKey := X25519(ephPrivKey, key);
        if sharedKey.Failure? {
          return Failure(sharedKey.error);
        }
        var cipher := Chacha20Poly1305.Get(sharedKey.value);
        if cipher.Failure? {
          return Failure(cipher.error);
        }
        encrypter := new Encrypter(ephPubKey.value, cipher.value, ephPrivKey, key);
      }
      return Success(encrypter);
    }
  }

  class PrivateKey {
    const key: seq<byte>
    var publicKey: PublicKey?

    constructor (key: seq<byte>)
      ensures this.key == key && publicKey == null
    {
      this.key := key;
      publicKey := null;
    }

    /** Bytes: the stored scalar bytes. */
    function Bytes(): seq<byte> {
      key
    }

    /** The cached public key, once set, is the interned key for X25519(key, Basepoint). */
    ghost predicate Derived(publicKeys: map<seq<byte>, PublicKey>)
      reads this
    {
      publicKey != null ==>
        && X25519(key, Basepoint).Success?
        && X25519(key, Basepoint).value in publicKeys
        && publicKeys[X25519(key, Basepoint).value] == publicKey
    }

    /**
     * PublicKey: derives X25519(key, Basepoint) once, interns it in the public-key table
     * and caches it; later calls return the cached object.
     * Only GetPrivateKey creates private keys, so `this` is always registered.
     */
    method PublicKey(reg: Registry) returns (r: Result<PublicKey>)
      requires reg.Valid() && key in reg.privateKeys && reg.privateKeys[key] == this
      modifies this, reg
      ensures reg.Valid()
      ensures reg.privateKeys == old(reg.privateKeys)
      ensures old(publicKey) != null ==>
                r == Success(old(publicKey)) && publicKey == old(publicKey) && reg.publicKeys == old(reg.publicKeys)
      ensures X25519(key, Basepoint).Failure? ==>
                r == Failure(X25519(key, Basepoint).error) && publicKey == null && reg.publicKeys == old(reg.publicKeys)
      ensures X25519(key, Basepoint).Success? ==>
                var pk := X25519(key, Basepoint).value;
                && r.Success? && publicKey == r.value
                && pk in reg.publicKeys && reg.publicKeys[pk] == r.value && r.value.key == pk
                && (pk in old(reg.publicKeys) ==> reg.publicKeys == old(reg.publicKeys))
                && (pk !in old(reg.publicKeys) ==>
                      fresh(r.value) && r.value.encrypter == null && reg.publicKeys == old(reg.publicKeys)[pk := r.value])
    {
      if publicKey == null {
        var derived := X25519(key, Basepoint);
        if derived.Failure? {
          return Failure(derived.error);
        }
        var pk := derived.value;
        var pubKey: PublicKey;
        if pk in reg.publicKeys {
          pubKey := reg.publicKeys[pk];
        } else {
          pubKey := new PublicKey(pk);
          reg.publicKeys := reg.publicKeys[pk := pubKey];
        }
        publicKey := pubKey;
      }
      return Success(publicKey);
    }
  }

  /** privateKeyMap and publicKeyMap: raw key bytes to the one object for them. */
  class Registry {
    var privateKeys: map<seq<byte>, PrivateKey>
    var publicKeys: map<seq<byte>, PublicKey>

    ghost predicate Valid()
      reads this, privateKeys.Values, publicKeys.Values
    {
      && (forall k | k in privateKeys ::
            |k| == ScalarSize && privateKeys[k].key == k && privateKeys[k].Derived(publicKeys))
      && (forall k | k in publicKeys :: publicKeys[k].key == k && publicKeys[k].Valid())
    }

    constructor ()
      ensures Valid() && privateKeys == map[] && publicKeys == map[]
    {
      privateKeys := map[];
      publicKeys := map[];
    }

    /**
     * GetPrivateKey: the one private key for 32 bytes `key`, created and registered on
     * first sight; any other length fails with InvalidKeyLength.
     */
    method GetPrivateKey(key: seq<byte>) returns (r: Result<PrivateKey>)
      requires Valid()
      modifies this
      ensures Valid()
      ensures publicKeys == old(publicKeys)
      ensures |key| != ScalarSize ==> r == Failure(InvalidKeyLength) && privateKeys == old(privateKeys)
      ensures |key| == ScalarSize ==>
                && r.Success? && r.value.Bytes() == key
                && key in privateKeys && privateKeys[key] == r.value
      ensures key in old(privateKeys) ==> r == Success(old(privateKeys)[key]) && privateKeys == old(privateKeys)
      ensures |key| == ScalarSize && key !in old(privateKeys) ==>
                fresh(r.value) && r.value.publicKey == null && privateKeys == old(privateKeys)[key := r.value]
    {
      if |key| != ScalarSize {
        return Failure(InvalidKeyLength);
      }
      var privateKey: PrivateKey;
      if key in privateKeys {
        privateKey := privateKeys[key];
      } else {
        privateKey := new PrivateKey(key);
        privateKeys := privateKeys[key := privateKey];
      }
      return Success(privateKey);
    }

    /** NewPrivateKey: interns 32 bytes drawn from crypto/rand (given as `random`). */
    method NewPrivateKey(random: Result<seq<byte>>) returns (r: Result<PrivateKey>)
      requires Valid()
      requires random.Success? ==> |random.value| == ScalarSize
      modifies this
      ensures Valid()
      ensures publicKeys == old(publicKeys)
      ensures random.Failure? ==> r == Failure(random.error) && privateKeys == old(privateKeys)
      ensures random.Success? ==>
                && r.Success? && r.value.Bytes() == random.value
                && random.value in privateKeys && privateKeys[random.value] == r.value
      ensures random.Success? && random.value in old(privateKeys) ==>
                r == Success(old(privateKeys)[random.value]) && privateKeys == old(privateKeys)
      ensures random.Success? && random.value !in old(privateKeys) ==>
                fresh(r.value) && r.value.publicKey == null && privateKeys == old(privateKeys)[random.value := r.value]
    {
      if random.Failure? {
        return Failure(random.error);
      }
      r := GetPrivateKey(random.value);
    }

    /**
     * GetPublicKey: the one public key for 32 bytes `key`, created and registered on
     * first sight; any other length fails with InvalidKeyLength.
     */
    method GetPublicKey(key: seq<byte>) returns (r: Result<PublicKey>)
      requires Valid()
      modifies this
      ensures Valid()
      ensures privateKeys == old(privateKeys)
      ensures |key| != ScalarSize ==> r == Failure(InvalidKeyLength) && publicKeys == old(publicKeys)
      ensures |key| == ScalarSize ==>
                && r.Success? && r.value.Bytes() == key && r.value.Valid()
                && key in publicKeys && publicKeys[key] == r.value
      ensures key in old(publicKeys) ==> r == Success(old(publicKeys)[key]) && publicKeys == old(publicKeys)
      ensures |key| == ScalarSize && key !in old(publicKeys) ==>
                fresh(r.value) && r.value.encrypter == null && publicKeys == old(publicKeys)[key := r.value]
    {
      if |key| != ScalarSize {
        return Failure(InvalidKeyLength);
      }
      var publicKey: PublicKey;
      if key in publicKeys {
        publicKey := publicKeys[key];
      } else {
        publicKey := new PublicKey(key);
        publicKeys := publicKeys[key := publicKey];
      }
      return Success(publicKey);
    }
  }

  /**
   * Interning is injective: distinct byte strings never share a key object, in either table.
   */
  lemma InterningInjective(reg: Registry, k1: seq<byte>, k2: seq<byte>)
    requires reg.Valid()
    requires k1 != k2
    ensures k1 in reg.privateKeys && k2 in reg.privateKeys ==> reg.privateKeys[k1] != reg.privateKeys[k2]
    ensures k1 in reg.publicKeys && k2 in reg.publicKeys ==> reg.publicKeys[k1] != reg.publicKeys[k2]
  {
  }

  /**
   * A derived public key is the interned one: GetPublicKey of its bytes returns the
   * very object PrivateKey.PublicKey cached, and adds nothing to the table beyond what
   * PrivateKey.PublicKey interned.
   */
  method DerivedKeyIsInterned(reg: Registry, privateKey: PrivateKey) returns (derived: Result<PublicKey>, parsed: Result<PublicKey>)
    requires reg.Valid() && privateKey.key in reg.privateKeys && reg.privateKeys[privateKey.key] == privateKey
    modifies reg, privateKey
    ensures reg.Valid() && reg.privateKeys == old(reg.privateKeys)
    ensures derived.Success? ==> parsed == derived && privateKey.publicKey == derived.value
    ensures derived.Failure? ==> parsed == derived && reg.publicKeys == old(reg.publicKeys)
    ensures derived.Success? ==>
              var pk := derived.value.key;
              && reg.publicKeys == old(reg.publicKeys)[pk := derived.value]
              && (pk in old(reg.publicKeys) ==> reg.publicKeys == old(reg.publicKeys))
  {
    derived := privateKey.PublicKey(reg);
    if derived.Failure? {
      parsed := derived;
      return;
    }
    parsed := reg.GetPublicKey(derived.value.Bytes());
  }

  /** A public key object creates its ephemeral key and cipher at most once. */
  method EncrypterIsMemoised(publicKey: PublicKey, first: Result<seq<byte>>, second: Result<seq<byte>>)
      returns (r1: Result<Encrypter>, r2: Result<Encrypter>)
    requires publicKey.Valid()
    requires first.Success? ==> |first.value| == ScalarSize
    requires second.Success? ==> |second.value| == ScalarSize
    modifies publicKey
    ensures publicKey.Valid()
    ensures old(publicKey.encrypter) != null ==> r1 == Success(old(publicKey.encrypter))
    ensures r1.Success? ==> r2 == r1 && r1.value.peer == publicKey.key && r1.value.Valid()
    ensures r2.Success? ==> publicKey.encrypter == r2.value
    ensures r2.Failure? ==> publicKey.encrypter == null
  {
    r1 := publicKey.GetEncrypter(first);
    r2 := publicKey.GetEncrypter(second);
  }
}
