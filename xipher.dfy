/**
 * Package xipher (keys.go): private keys that are either derived from a password under a
 * KDF spec or given raw, interned by password or by raw bytes; and the self-describing
 * public key, a curve public key followed by a KDF-spec region that is all zeros when the
 * key is not password based.
 *
 * Go keeps pwdXipherMap and keyXipherMap in package variables; here they are the fields
 * of one Keyring object. The curve keys live in an Ecc.Registry.
 */
module Xipher {
  import opened Common
  import opened Kdf
  import opened Curve25519
  import Ecc

  /** PrivateKeyLength: the length ParsePrivateKey accepts */
  const PrivateKeyLength: nat

  /** PublicKeyLength: a curve public key and a KDF-spec region */
  const PublicKeyLength: nat := CipherKeyLength + KdfSpecLength

  /** The encoding of PublicKey.Bytes: the curve key, then the spec's bytes or zeros. */
  function EncodePublicKey(curveKey: seq<byte>, spec: Option<KdfSpec>): (r: seq<byte>)
    ensures |r| == |curveKey| + KdfSpecLength
    ensures r[..|curveKey|] == curveKey
    ensures spec.Some? ==> r[|curveKey|..] == SpecBytes(spec.value)
    ensures spec.None? ==> r[|curveKey|..] == Zeros(KdfSpecLength)
  {
    if spec.Some? then curveKey + SpecBytes(spec.value) else curveKey + Zeros(KdfSpecLength)
  }

  /**
   * The byte layout ParsePublicKey reads: exact length, then the curve key, then the
   * spec region, parsed as a KDF spec only when it is not all zeros.
   */
  function DecodePublicKey(pubKeyBytes: seq<byte>): (r: Result<(seq<byte>, Option<KdfSpec>)>)
    ensures |pubKeyBytes| != PublicKeyLength ==>
              r == Failure(PublicKeyLengthMismatch(PublicKeyLength, |pubKeyBytes|))
    ensures r.Success? ==>
              && |pubKeyBytes| == PublicKeyLength
              && r.value.0 == pubKeyBytes[..CipherKeyLength]
              && (r.value.1.None? <==> pubKeyBytes[CipherKeyLength..] == Zeros(KdfSpecLength))
              && (r.value.1.Some? ==> ParseKdfSpec(pubKeyBytes[CipherKeyLength..]) == Success(r.value.1.value))
    ensures |pubKeyBytes| == PublicKeyLength && pubKeyBytes[CipherKeyLength..] != Zeros(KdfSpecLength) ==>
              (r.Failure? <==> ParseKdfSpec(pubKeyBytes[CipherKeyLength..]).Failure?)
    ensures r.Failure? && |pubKeyBytes| == PublicKeyLength ==>
              && pubKeyBytes[CipherKeyLength..] != Zeros(KdfSpecLength)
              && ParseKdfSpec(pubKeyBytes[CipherKeyLength..]).Failure?
              && r.error == ParseKdfSpec(pubKeyBytes[CipherKeyLength..]).error
  {
    if |pubKeyBytes| != PublicKeyLength then
      Failure(PublicKeyLengthMismatch(PublicKeyLength, |pubKeyBytes|))
    else
      var curveKey := pubKeyBytes[..CipherKeyLength];
      var specBytes := pubKeyBytes[CipherKeyLength..];
      if specBytes == Zeros(KdfSpecLength) then
        Success((curveKey, None))
      else
        match ParseKdfSpec(specBytes)
        case Failure(e) => Failure(e)
        case Success(spec) => Success((curveKey, Some(spec)))
  }

  /** A public key that is not password based decodes back to itself. */
  lemma DecodeEncodeNotPwdBased(curveKey: seq<byte>)
    requires |curveKey| == CipherKeyLength
    ensures DecodePublicKey(EncodePublicKey(curveKey, None)) == Success((curveKey, None))
  {
  }

  /**
   * A password-based public key decodes back to its curve key and spec, when the spec's
   * bytes are not all zeros and parseKdfSpec reads back what bytes() wrote.
   */
  lemma DecodeEncodePwdBased(curveKey: seq<byte>, spec: KdfSpec)
    requires |curveKey| == CipherKeyLength
    requires SpecBytes(spec) != Zeros(KdfSpecLength)
    requires ParseKdfSpec(SpecBytes(spec)) == Success(spec)
    ensures DecodePublicKey(EncodePublicKey(curveKey, Some(spec))) == Success((curveKey, Some(spec)))
  {
  }

  /**
   * Re-encoding a decoded public key gives back its bytes, when the spec, if any, encodes
   * to the bytes it was parsed from.
   */
  lemma EncodeDecode(pubKeyBytes: seq<byte>)
    requires DecodePublicKey(pubKeyBytes).Success?
    requires DecodePublicKey(pubKeyBytes).value.1.Some? ==>
               SpecBytes(DecodePublicKey(pubKeyBytes).value.1.value) == pubKeyBytes[CipherKeyLength..]
    ensures EncodePublicKey(DecodePublicKey(pubKeyBytes).value.0, DecodePublicKey(pubKeyBytes).value.1) == pubKeyBytes
  {
  }

  class PublicKey {
    const publicKey: Ecc.PublicKey
    const spec: Option<KdfSpec>

    constructor (publicKey: Ecc.PublicKey, spec: Option<KdfSpec>)
      ensures this.publicKey == publicKey && this.spec == spec
    {
      this.publicKey := publicKey;
      this.spec := spec;
    }

    /**
     * isPwdBased: exactly when a spec is attached, even one whose bytes are all zero; the
     * tail of Bytes is then spec.bytes(), and zeros otherwise.
     */
    function IsPwdBased(): (r: bool)
      ensures spec.Some? ==> r
      ensures r ==> spec.Some? && Bytes()[CipherKeyLength..] == SpecBytes(spec.value)
      ensures !r ==> Bytes()[CipherKeyLength..] == Zeros(KdfSpecLength)
    {
      spec.Some?
    }

    /** Bytes: always PublicKeyLength bytes; the tail says whether the key is password based. */
    function Bytes(): (r: seq<byte>)
      ensures |r| == PublicKeyLength
      ensures r[..CipherKeyLength] == publicKey.Bytes()
      ensures spec.Some? ==> r[CipherKeyLength..] == SpecBytes(spec.value)
      ensures spec.None? ==> r[CipherKeyLength..] == Zeros(KdfSpecLength)
    {
      EncodePublicKey(publicKey.Bytes(), spec)
    }
  }

  class PrivateKey {
    const password: Option<seq<byte>>
    const spec: Option<KdfSpec>
    const key: seq<byte>
    var publicKey: PublicKey?
    var specKeyMap: map<seq<byte>, seq<byte>>

    /** the cached public key, once set, carries this key's spec and its curve public key */
    ghost predicate Valid()
      reads this
    {
      publicKey != null ==>
        && publicKey.spec == spec
        && X25519(key, Basepoint).Success?
        && publicKey.publicKey.key == X25519(key, Basepoint).value
    }

    constructor (password: Option<seq<byte>>, spec: Option<KdfSpec>, key: seq<byte>)
      ensures Valid()
      ensures this.password == password && this.spec == spec && this.key == key
      ensures publicKey == null && specKeyMap == map[]
    {
      this.password := password;
      this.spec := spec;
      this.key := key;
      publicKey := null;
      specKeyMap := map[];
    }

    /**
     * isPwdBased: both the password and the spec are attached. A password-based key refuses
     * raw export, but so does a key carrying only one of the two, which is not password based.
     */
    function IsPwdBased(): (r: bool)
      ensures r ==> password.Some? && spec.Some?
      ensures r ==> Bytes() == Failure(PrivKeyUnavailableForPwd)
      ensures !r && Bytes().Failure? ==> password.Some? != spec.Some?
    {
      password.Some? && spec.Some?
    }

    /** Bytes: the raw key, refused as soon as a password or a spec is attached. */
    function Bytes(): (r: Result<seq<byte>>)
      ensures r.Failure? <==> password.Some? || spec.Some?
      ensures r.Failure? ==> r.error == PrivKeyUnavailableForPwd
      ensures r.Success? ==> r.value == key
    {
      if password.Some? || spec.Some? then Failure(PrivKeyUnavailableForPwd) else Success(key)
    }

    /**
     * PublicKey: built once from the curve public key of `key` (interned through ecc) and
     * this key's spec, then kept.
     */
    method PublicKey(reg: Ecc.Registry) returns (r: Result<PublicKey>)
      requires Valid() && reg.Valid()
      modifies this`publicKey, reg, reg.privateKeys.Values
      ensures Valid() && reg.Valid()
      ensures old(publicKey) != null ==>
                && r == Success(old(publicKey)) && publicKey == old(publicKey)
                && reg.privateKeys == old(reg.privateKeys) && reg.publicKeys == old(reg.publicKeys)
      ensures old(publicKey) == null && |key| != ScalarSize ==>
                && r == Failure(InvalidKeyLength) && publicKey == null
                && reg.privateKeys == old(reg.privateKeys) && reg.publicKeys == old(reg.publicKeys)
      ensures old(publicKey) == null && |key| == ScalarSize ==>
                && key in reg.privateKeys
                && reg.privateKeys == old(reg.privateKeys)[key := reg.privateKeys[key]]
                && (key in old(reg.privateKeys) ==> reg.privateKeys == old(reg.privateKeys))
                && (key !in old(reg.privateKeys) ==> fresh(reg.privateKeys[key]))
      ensures old(publicKey) == null && |key| == ScalarSize && X25519(key, Basepoint).Failure? ==>
                && r == Failure(X25519(key, Basepoint).error) && publicKey == null
                && reg.privateKeys[key].publicKey == null && reg.publicKeys == old(reg.publicKeys)
      ensures old(publicKey) == null && |key| == ScalarSize && X25519(key, Basepoint).Success? ==>
                var pk := X25519(key, Basepoint).value;
                && r.Success? && fresh(r.value) && publicKey == r.value
                && pk in reg.publicKeys && r.value.publicKey == reg.publicKeys[pk]
                && reg.privateKeys[key].publicKey == reg.publicKeys[pk]
                && reg.publicKeys == old(reg.publicKeys)[pk := reg.publicKeys[pk]]
                && (pk in old(reg.publicKeys) ==> reg.publicKeys == old(reg.publicKeys))
                && (pk !in old(reg.publicKeys) ==> fresh(reg.publicKeys[pk]) && reg.publicKeys[pk].encrypter == null)
      ensures forall k | k in old(reg.privateKeys) && k != key ::
                old(reg.privateKeys)[k].publicKey == old(reg.privateKeys[k].publicKey)
      ensures old(publicKey) != null && key in old(reg.privateKeys) ==>
                old(reg.privateKeys)[key].publicKey == old(reg.privateKeys[key].publicKey)
      ensures r.Success? ==>
                && r.value.spec == spec && (r.value.IsPwdBased() <==> spec.Some?)
                && X25519(key, Basepoint).Success? && r.value.publicKey.key == X25519(key, Basepoint).value
    {
      if publicKey == null {
        var eccPrivKey := reg.GetPrivateKey(key);
        if eccPrivKey.Failure? {
          return Failure(eccPrivKey.error);
        }
        var eccPubKey := eccPrivKey.value.PublicKey(reg);
        if eccPubKey.Failure? {
          return Failure(eccPubKey.error);
        }
        publicKey := new PublicKey(eccPubKey.value, spec);
      }
      return Success(publicKey);
    }
  }

  /** pwdXipherMap (password to key) and keyXipherMap (raw key bytes to key). */
  class Keyring {
    var pwdKeys: map<seq<byte>, PrivateKey>
    var rawKeys: map<seq<byte>, PrivateKey>

    ghost predicate Valid()
      reads this, pwdKeys.Values, rawKeys.Values
    {
      && (forall pwd | pwd in pwdKeys ::
            && |pwd| > 0 && pwdKeys[pwd].password == Some(pwd) && pwdKeys[pwd].spec.Some?
            && pwdKeys[pwd].key == GetCipherKey(pwdKeys[pwd].spec.value, pwd)
            && pwdKeys[pwd].Valid())
      && (forall k | k in rawKeys ::
            && rawKeys[k].key == k && rawKeys[k].password.None? && rawKeys[k].spec.None?
            && rawKeys[k].Valid())
    }

    constructor ()
      ensures Valid() && pwdKeys == map[] && rawKeys == map[]
    {
      pwdKeys := map[];
      rawKeys := map[];
    }

    /**
     * newPrivateKeyForPwdAndSpec: the one key for a non-empty password. A new key derives
     * its cipher key from the password under `spec` and records it under the spec's bytes;
     * a password seen before returns its existing key, whatever `spec` is.
     */
    method NewPrivateKeyForPwdAndSpec(password: seq<byte>, spec: KdfSpec) returns (r: Result<PrivateKey>)
      requires Valid()
      modifies this
      ensures Valid()
      ensures rawKeys == old(rawKeys)
      ensures |password| == 0 ==> r == Failure(InvalidPassword) && pwdKeys == old(pwdKeys)
      ensures password in old(pwdKeys) ==> r == Success(old(pwdKeys)[password]) && pwdKeys == old(pwdKeys)
      ensures |password| > 0 && password !in old(pwdKeys) ==>
                && r.Success? && fresh(r.value)
                && r.value.password == Some(password) && r.value.spec == Some(spec)
                && r.value.key == GetCipherKey(spec, password)
                && r.value.specKeyMap == map[SpecBytes(spec) := GetCipherKey(spec, password)]
                && r.value.publicKey == null
                && pwdKeys == old(pwdKeys)[password := r.value]
      ensures r.Success? ==>
                && password in pwdKeys && pwdKeys[password] == r.value
                && r.value.IsPwdBased() && r.value.Bytes() == Failure(PrivKeyUnavailableForPwd)
    {
      if |password| == 0 {
        return Failure(InvalidPassword);
      }
      var privateKey: PrivateKey;
      if password in pwdKeys {
        privateKey := pwdKeys[password];
      } else {
        privateKey := new PrivateKey(Some(password), Some(spec), GetCipherKey(spec, password));
        pwdKeys := pwdKeys[password := privateKey];
        privateKey.specKeyMap := map[SpecBytes(spec) := privateKey.key];
      }
      return Success(privateKey);
    }

    /** NewPrivateKeyForPassword: the password's key under a default spec (`newSpec`, which may fail). */
    method NewPrivateKeyForPassword(password: seq<byte>, newSpec: Result<KdfSpec>) returns (r: Result<PrivateKey>)
      requires Valid()
      modifies this
      ensures Valid()
      ensures rawKeys == old(rawKeys)
      ensures newSpec.Failure? ==> r == Failure(newSpec.error) && pwdKeys == old(pwdKeys)
      ensures newSpec.Success? && |password| == 0 ==> r == Failure(InvalidPassword) && pwdKeys == old(pwdKeys)
      ensures newSpec.Success? && password in old(pwdKeys) ==> r == Success(old(pwdKeys)[password]) && pwdKeys == old(pwdKeys)
      ensures newSpec.Success? && |password| > 0 && password !in old(pwdKeys) ==>
                && r.Success? && fresh(r.value)
                && r.value.password == Some(password) && r.value.spec == Some(newSpec.value)
                && r.value.key == GetCipherKey(newSpec.value, password)
                && r.value.specKeyMap == map[SpecBytes(newSpec.value) := GetCipherKey(newSpec.value, password)]
                && r.value.publicKey == null
                && pwdKeys == old(pwdKeys)[password := r.value]
      ensures r.Success? ==>
                && password in pwdKeys && pwdKeys[password] == r.value
                && r.value.IsPwdBased() && r.value.Bytes() == Failure(PrivKeyUnavailableForPwd)
    {
      if newSpec.Failure? {
        return Failure(newSpec.error);
      }
      r := NewPrivateKeyForPwdAndSpec(password, newSpec.value);
    }

    /**
     * NewPrivateKeyForPasswordAndSpec: as NewPrivateKeyForPassword, with the default spec's
     * iterations, memory and threads overridden first.
     */
    method NewPrivateKeyForPasswordAndSpec(password: seq<byte>, iterations: byte, memory: byte, threads: byte,
                                           newSpec: Result<KdfSpec>) returns (r: Result<PrivateKey>)
      requires Valid()
      modifies this
      ensures Valid()
      ensures rawKeys == old(rawKeys)
      ensures newSpec.Failure? ==> r == Failure(newSpec.error) && pwdKeys == old(pwdKeys)
      ensures newSpec.Success? && |password| == 0 ==> r == Failure(InvalidPassword) && pwdKeys == old(pwdKeys)
      ensures newSpec.Success? && password in old(pwdKeys) ==> r == Success(old(pwdKeys)[password]) && pwdKeys == old(pwdKeys)
      ensures newSpec.Success? && |password| > 0 && password !in old(pwdKeys) ==>
                var spec := SetThreads(SetMemory(SetIterations(newSpec.value, iterations), memory), threads);
                && r.Success? && fresh(r.value)
                && r.value.password == Some(password) && r.value.spec == Some(spec)
                && r.value.key == GetCipherKey(spec, password)
                && r.value.specKeyMap == map[SpecBytes(spec) := GetCipherKey(spec, password)]
                && r.value.publicKey == null
                && pwdKeys == old(pwdKeys)[password := r.value]
      ensures r.Success? ==>
                && password in pwdKeys && pwdKeys[password] == r.value
                && r.value.IsPwdBased() && r.value.Bytes() == Failure(PrivKeyUnavailableForPwd)
    {
      if newSpec.Failure? {
        return Failure(newSpec.error);
      }
      var spec := SetThreads(SetMemory(SetIterations(newSpec.value, iterations), memory), threads);
      r := NewPrivateKeyForPwdAndSpec(password, spec);
    }

    /**
     * NewPrivateKey: a raw key of cipherKeyLength bytes drawn from crypto/rand (given as
     * `random`). The table entry for those bytes is overwritten without a lookup.
     */
    method NewPrivateKey(random: Result<seq<byte>>) returns (r: Result<PrivateKey>)
      requires Valid()
      requires random.Success? ==> |random.value| == CipherKeyLength
      modifies this
      ensures Valid()
      ensures pwdKeys == old(pwdKeys)
      ensures random.Failure? ==> r == Failure(random.error) && rawKeys == old(rawKeys)
      ensures random.Success? ==>
                && r.Success? && fresh(r.value) && r.value.Bytes() == Success(random.value)
                && r.value.publicKey == null && r.value.specKeyMap == map[]
                && rawKeys == old(rawKeys)[random.value := r.value]
    {
      if random.Failure? {
        return Failure(random.error);
      }
      var privateKey := new PrivateKey(None, None, random.value);
      rawKeys := rawKeys[random.value := privateKey];
      return Success(privateKey);
    }

    /**
     * ParsePrivateKey: the one raw key for PrivateKeyLength bytes, created and registered
     * on first sight; other lengths fail with a length-mismatch error.
     */
    method ParsePrivateKey(key: seq<byte>) returns (r: Result<PrivateKey>)
      requires Valid()
      modifies this
      ensures Valid()
      ensures pwdKeys == old(pwdKeys)
      ensures |key| != PrivateKeyLength ==>
                r == Failure(PrivateKeyLengthMismatch(PrivateKeyLength, |key|)) && rawKeys == old(rawKeys)
      ensures |key| == PrivateKeyLength ==>
                && r.Success? && r.value.Bytes() == Success(key) && !r.value.IsPwdBased()
                && key in rawKeys && rawKeys[key] == r.value
      ensures key in old(rawKeys) && |key| == PrivateKeyLength ==>
                r == Success(old(rawKeys)[key]) && rawKeys == old(rawKeys)
      ensures |key| == PrivateKeyLength && key !in old(rawKeys) ==>
                && fresh(r.value) && r.value.publicKey == null && r.value.specKeyMap == map[]
                && rawKeys == old(rawKeys)[key := r.value]
    {
      if |key| != PrivateKeyLength {
        return Failure(PrivateKeyLengthMismatch(PrivateKeyLength, |key|));
      }
      var privateKey: PrivateKey;
      if key in rawKeys {
        privateKey := rawKeys[key];
      } else {
        privateKey := new PrivateKey(None, None, key);
        rawKeys := rawKeys[key := privateKey];
      }
      return Success(privateKey);
    }
  }

  /**
   * ParsePublicKey: checks the length, interns the curve key through ecc, and reads the
   * spec region. The curve key stays interned even when the spec region fails to parse.
   */
  method ParsePublicKey(reg: Ecc.Registry, pubKeyBytes: seq<byte>) returns (r: Result<PublicKey>)
    requires reg.Valid()
    modifies reg
    ensures reg.Valid() && reg.privateKeys == old(reg.privateKeys)
    ensures |pubKeyBytes| != PublicKeyLength ==>
              r == Failure(PublicKeyLengthMismatch(PublicKeyLength, |pubKeyBytes|)) && reg.publicKeys == old(reg.publicKeys)
    ensures |pubKeyBytes| == PublicKeyLength ==>
              var curveKey := pubKeyBytes[..CipherKeyLength];
              && curveKey in reg.publicKeys
              && reg.publicKeys == old(reg.publicKeys)[curveKey := reg.publicKeys[curveKey]]
              && (curveKey in old(reg.publicKeys) ==> reg.publicKeys == old(reg.publicKeys))
              && (curveKey !in old(reg.publicKeys) ==>
                    fresh(reg.publicKeys[curveKey]) && reg.publicKeys[curveKey].encrypter == null)
    ensures DecodePublicKey(pubKeyBytes).Failure? ==> r == Failure(DecodePublicKey(pubKeyBytes).error)
    ensures DecodePublicKey(pubKeyBytes).Success? ==>
              && r.Success? && fresh(r.value)
              && r.value.publicKey == reg.publicKeys[pubKeyBytes[..CipherKeyLength]]
              && r.value.spec == DecodePublicKey(pubKeyBytes).value.1
              && (r.value.IsPwdBased() <==> pubKeyBytes[CipherKeyLength..] != Zeros(KdfSpecLength))
    ensures r.Success? && (r.value.spec.Some? ==> SpecBytes(r.value.spec.value) == pubKeyBytes[CipherKeyLength..]) ==>
              r.value.Bytes() == pubKeyBytes
  {
    if |pubKeyBytes| != PublicKeyLength {
      return Failure(PublicKeyLengthMismatch(PublicKeyLength, |pubKeyBytes|));
    }
    var eccPubKey := reg.GetPublicKey(pubKeyBytes[..CipherKeyLength]);
    var specBytes := pubKeyBytes[CipherKeyLength..];
    var spec: Option<KdfSpec> := None;
    if specBytes != Zeros(KdfSpecLength) {
      var parsed := ParseKdfSpec(specBytes);
      if parsed.Failure? {
        return Failure(parsed.error);
      }
      spec := Some(parsed.value);
    }
    var publicKey := new PublicKey(eccPubKey.value, spec);
    if spec.Some? ==> SpecBytes(spec.value) == specBytes {
      EncodeDecode(pubKeyBytes);
    }
    return Success(publicKey);
  }

  /**
   * A key derived from a raw private key re-parses as not password based, to a public
   * key with the same bytes whose curve key is the interned one for those bytes.
   */
  method NotPwdBasedRoundTrip(reg: Ecc.Registry, privateKey: PrivateKey)
      returns (derived: Result<PublicKey>, parsed: Result<PublicKey>)
    requires privateKey.Valid() && reg.Valid() && privateKey.spec.None?
    modifies privateKey`publicKey, reg, reg.privateKeys.Values
    ensures privateKey.Valid() && reg.Valid()
    ensures derived.Success? ==> privateKey.publicKey == derived.value
    ensures derived.Failure? ==> privateKey.publicKey == null && reg.publicKeys == old(reg.publicKeys)
    ensures forall k | k in old(reg.privateKeys) :: k in reg.privateKeys && reg.privateKeys[k] == old(reg.privateKeys)[k]
    ensures reg.privateKeys.Keys <= old(reg.privateKeys).Keys + {privateKey.key}
    ensures forall k | k in old(reg.publicKeys) :: k in reg.publicKeys && reg.publicKeys[k] == old(reg.publicKeys)[k]
    ensures derived.Success? ==> reg.publicKeys.Keys <= old(reg.publicKeys).Keys + {derived.value.publicKey.key}
    ensures derived.Success? ==>
              && parsed.Success? && !parsed.value.IsPwdBased()
              && parsed.value.Bytes() == derived.value.Bytes()
              && parsed.value.publicKey.key == derived.value.publicKey.key
              && derived.value.publicKey.key in reg.publicKeys
              && parsed.value.publicKey == reg.publicKeys[derived.value.publicKey.key]
  {
    derived := privateKey.PublicKey(reg);
    if derived.Failure? {
      parsed := derived;
      return;
    }
    var curveKey := derived.value.publicKey.Bytes();
    DecodeEncodeNotPwdBased(curveKey);
    assert derived.value.Bytes()[..CipherKeyLength] == curveKey;
    parsed := ParsePublicKey(reg, derived.value.Bytes());
  }
}
