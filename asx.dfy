/**
 * Package asx: a 64-byte seed from which a curve sub-key (through SHA-256) and a Kyber
 * sub-key (through Kyber's seed expansion) are derived on demand and kept, and a public
 * key that is one of the two, encoded as one algorithm tag byte and the payload.
 */
module Asx {
  import opened Common
  import Sha256
  import AsxEcc
  import Kyber

  /** PrivateKeyLength: the seed length */
  const PrivateKeyLength: nat := 64

  /** AlgoECC: the tag of a curve public key */
  const AlgoECC: byte

  type KyberTag = b: byte | b != AlgoECC witness if AlgoECC == 0 then 1 else 0

  /** AlgoKyber: the tag of a Kyber public key, distinct from AlgoECC */
  const AlgoKyber: KyberTag

  type NonEmptyLength = n: nat | 1 <= n witness 1

  /** MinPublicKeyLength: at least the tag byte, which ParsePublicKey reads unguarded */
  const MinPublicKeyLength: NonEmptyLength

  /**
   * PublicKey: the Go struct of two optional fields. Bytes reads ePub first, and fails
   * when neither is set; ParsePublicKey always sets exactly one.
   */
  datatype PublicKey = PublicKey(ePub: Option<AsxEcc.PublicKey>, kPub: Option<Kyber.PublicKey>) {

    /** exactly one of the two variants is present */
    predicate IsTagged() {
      ePub.Some? != kPub.Some?
    }

    /** Bytes: the algorithm tag followed by the chosen variant's own encoding. */
    function Bytes(): (r: Result<seq<byte>>)
      ensures r.Success? ==> |r.value| >= 1 && (r.value[0] == AlgoECC <==> ePub.Some?)
      ensures r.Success? && ePub.Some? ==>
                r.value[1..] == AsxEcc.PublicKeyBytes(ePub.value) && |r.value| == 33
      ensures r.Success? && ePub.None? ==>
                r.value[0] == AlgoKyber && kPub.Some? && Kyber.PublicKeyBytes(kPub.value) == Success(r.value[1..])
      ensures r.Failure? ==> ePub.None?
      ensures ePub.None? && kPub.None? ==> r == Failure(InvalidPublicKey)
      ensures ePub.None? && kPub.Some? && Kyber.PublicKeyBytes(kPub.value).Failure? ==>
                r == Failure(Kyber.PublicKeyBytes(kPub.value).error)
      ensures ePub.None? && kPub.Some? && Kyber.PublicKeyBytes(kPub.value).Success? ==>
                r == Success([AlgoKyber] + Kyber.PublicKeyBytes(kPub.value).value)
    {
      if ePub.Some? then
        Success([AlgoECC] + AsxEcc.PublicKeyBytes(ePub.value))
      else if kPub.Some? then
        match Kyber.PublicKeyBytes(kPub.value)
        case Failure(e) => Failure(e)
        case Success(kybPubKeyBytes) => Success([AlgoKyber] + kybPubKeyBytes)
      else
        Failure(InvalidPublicKey)
    }
  }

  /**
   * ParsePublicKey: length check, then dispatch on the tag; only the tagged algorithm's
   * parser sees the payload `key[1..]`.
   */
  function ParsePublicKey(key: seq<byte>): (r: Result<PublicKey>)
    ensures |key| < MinPublicKeyLength ==> r == Failure(InvalidPublicKeyLength)
    ensures |key| >= MinPublicKeyLength && key[0] != AlgoECC && key[0] != AlgoKyber ==> r == Failure(InvalidPublicKey)
    ensures r.Success? ==> r.value.IsTagged() && |key| >= MinPublicKeyLength
    ensures r.Success? ==> (r.value.ePub.Some? <==> key[0] == AlgoECC) && (r.value.kPub.Some? <==> key[0] == AlgoKyber)
    ensures |key| >= MinPublicKeyLength && key[0] == AlgoECC ==>
              match AsxEcc.ParsePublicKey(key[1..])
              case Success(p) => r == Success(PublicKey(Some(p), None))
              case Failure(e) => r == Failure(e)
    ensures |key| >= MinPublicKeyLength && key[0] == AlgoKyber ==>
              match Kyber.ParsePublicKey(key[1..])
              case Success(p) => r == Success(PublicKey(None, Some(p)))
              case Failure(e) => r == Failure(e)
  {
    if |key| < MinPublicKeyLength then
      Failure(InvalidPublicKeyLength)
    else if key[0] == AlgoECC then
      match AsxEcc.ParsePublicKey(key[1..])
      case Failure(e) => Failure(e)
      case Success(eccPubKey) => Success(PublicKey(Some(eccPubKey), None))
    else if key[0] == AlgoKyber then
      match Kyber.ParsePublicKey(key[1..])
      case Failure(e) => Failure(e)
      case Success(kybPubKey) => Success(PublicKey(None, Some(kybPubKey)))
    else
      Failure(InvalidPublicKey)
  }

  /** A parsed key re-encodes to its input, when each algorithm's encoding undoes its parsing. */
  lemma ParseThenBytes(key: seq<byte>)
    requires ParsePublicKey(key).Success?
    requires AsxEcc.ParsePublicKey(key[1..]).Success? ==>
               AsxEcc.PublicKeyBytes(AsxEcc.ParsePublicKey(key[1..]).value) == key[1..]
    requires Kyber.ParsePublicKey(key[1..]).Success? ==>
               Kyber.PublicKeyBytes(Kyber.ParsePublicKey(key[1..]).value) == Success(key[1..])
    ensures ParsePublicKey(key).value.Bytes() == Success(key)
  {
    assert key == [key[0]] + key[1..];
  }

  /**
   * An encoded key parses back to the variant it encoded, when each algorithm's parsing
   * undoes its encoding; a key holding both variants comes back as its curve variant.
   */
  lemma BytesThenParse(p: PublicKey)
    requires p.Bytes().Success? && |p.Bytes().value| >= MinPublicKeyLength
    requires p.ePub.Some? ==> AsxEcc.ParsePublicKey(AsxEcc.PublicKeyBytes(p.ePub.value)) == Success(p.ePub.value)
    requires p.kPub.Some? && Kyber.PublicKeyBytes(p.kPub.value).Success? ==>
               Kyber.ParsePublicKey(Kyber.PublicKeyBytes(p.kPub.value).value) == Success(p.kPub.value)
    ensures ParsePublicKey(p.Bytes().value) ==
              Success(if p.ePub.Some? then PublicKey(p.ePub, None) else PublicKey(None, p.kPub))
  {
  }

  /**
   * The curve public key of a seed, wrapped as the ECC variant. Like PublicKeyECC, it
   * derives the curve sub-key itself from the SHA-256 digest of the seed.
   */
  function EccPublicKeyFor(seed: seq<byte>): (r: Result<PublicKey>)
    ensures r.Success? ==>
              && r.value.ePub.Some? && r.value.kPub.None?
              && AsxEcc.ParsePrivateKey(Sha256.Sum256(seed)).Success?
              && AsxEcc.PublicKeyOf(AsxEcc.ParsePrivateKey(Sha256.Sum256(seed)).value) == Success(r.value.ePub.value)
    ensures r.Failure? <==>
              || AsxEcc.ParsePrivateKey(Sha256.Sum256(seed)).Failure?
              || AsxEcc.PublicKeyOf(AsxEcc.ParsePrivateKey(Sha256.Sum256(seed)).value).Failure?
  {
    match AsxEcc.ParsePrivateKey(Sha256.Sum256(seed))
    case Failure(e) => Failure(e)
    case Success(eccPrivKey) =>
      match AsxEcc.PublicKeyOf(eccPrivKey)
      case Failure(e) => Failure(e)
      case Success(eccPubKey) => Success(PublicKey(Some(eccPubKey), None))
  }

  /**
   * The Kyber public key of a seed, wrapped as the Kyber variant. Like PublicKeyKyber, it
   * expands the Kyber sub-key itself from the seed.
   */
  function KyberPublicKeyFor(seed: seq<byte>): (r: Result<PublicKey>)
    ensures r.Success? ==>
              && r.value.kPub.Some? && r.value.ePub.None?
              && Kyber.NewPrivateKeyForSeed(seed).Success?
              && Kyber.PublicKeyOf(Kyber.NewPrivateKeyForSeed(seed).value) == Success(r.value.kPub.value)
    ensures r.Failure? <==>
              || Kyber.NewPrivateKeyForSeed(seed).Failure?
              || Kyber.PublicKeyOf(Kyber.NewPrivateKeyForSeed(seed).value).Failure?
  {
    match Kyber.NewPrivateKeyForSeed(seed)
    case Failure(e) => Failure(e)
    case Success(kybPrivKey) =>
      match Kyber.PublicKeyOf(kybPrivKey)
      case Failure(e) => Failure(e)
      case Success(kybPubKey) => Success(PublicKey(None, Some(kybPubKey)))
  }

  /**
   * The curve sub-key getEccPrivKey derives from a seed is the one PublicKeyECC derives
   * its public key from: a failure of the one is a failure of the other, and on success
   * PublicKeyECC's key is the public key of this sub-key.
   */
  function EccSubKey(seed: seq<byte>): (r: Result<AsxEcc.PrivateKey>)
    ensures r.Failure? ==> EccPublicKeyFor(seed) == Failure(r.error)
    ensures r.Success? ==>
              match AsxEcc.PublicKeyOf(r.value)
              case Failure(e) => EccPublicKeyFor(seed) == Failure(e)
              case Success(p) => EccPublicKeyFor(seed) == Success(PublicKey(Some(p), None))
  {
    AsxEcc.ParsePrivateKey(Sha256.Sum256(seed))
  }

  /**
   * The Kyber sub-key getKybPrivKey expands from a seed is the one PublicKeyKyber derives
   * its public key from, in the same sense as EccSubKey.
   */
  function KyberSubKey(seed: seq<byte>): (r: Result<Kyber.PrivateKey>)
    ensures r.Failure? ==> KyberPublicKeyFor(seed) == Failure(r.error)
    ensures r.Success? ==>
              match Kyber.PublicKeyOf(r.value)
              case Failure(e) => KyberPublicKeyFor(seed) == Failure(e)
              case Success(p) => KyberPublicKeyFor(seed) == Success(PublicKey(None, Some(p)))
  {
    Kyber.NewPrivateKeyForSeed(seed)
  }

  /** A seed's two public keys always carry different tags. */
  lemma DerivedKeysAreTagged(seed: seq<byte>)
    requires EccPublicKeyFor(seed).Success? && KyberPublicKeyFor(seed).Success?
    ensures EccPublicKeyFor(seed).value.Bytes().Success?
    ensures KyberPublicKeyFor(seed).value.Bytes().Success? ==>
              EccPublicKeyFor(seed).value.Bytes().value[0] != KyberPublicKeyFor(seed).value.Bytes().value[0]
  {
  }

  class PrivateKey {
    const key: seq<byte>
    var eccPrivKey: Option<AsxEcc.PrivateKey>
    var kybPrivKey: Option<Kyber.PrivateKey>
    var pubKeyECC: Option<PublicKey>
    var pubKeyKyb: Option<PublicKey>

    /** every cached field holds what the seed derives */
    ghost predicate Valid()
      reads this
    {
      && |key| == PrivateKeyLength
      && (eccPrivKey.Some? ==> EccSubKey(key) == Success(eccPrivKey.value))
      && (kybPrivKey.Some? ==> KyberSubKey(key) == Success(kybPrivKey.value))
      && (pubKeyECC.Some? ==> EccPublicKeyFor(key) == Success(pubKeyECC.value))
      && (pubKeyKyb.Some? ==> KyberPublicKeyFor(key) == Success(pubKeyKyb.value))
    }

    constructor (key: seq<byte>)
      requires |key| == PrivateKeyLength
      ensures Valid() && this.key == key
      ensures eccPrivKey == None && kybPrivKey == None && pubKeyECC == None && pubKeyKyb == None
    {
      this.key := key;
      eccPrivKey, kybPrivKey := None, None;
      pubKeyECC, pubKeyKyb := None, None;
    }

    /** Bytes: the stored 64-byte seed. */
    function Bytes(): seq<byte> {
      key
    }

    /** getEccPrivKey: the curve sub-key, derived on the first successful call and kept. */
    method GetEccPrivKey() returns (r: Result<AsxEcc.PrivateKey>)
      requires Valid()
      modifies this`eccPrivKey
      ensures Valid()
      ensures r == EccSubKey(key)
      ensures old(eccPrivKey).Some? ==> eccPrivKey == old(eccPrivKey)
      ensures old(eccPrivKey).None? ==> eccPrivKey == if r.Success? then Some(r.value) else None
    {
      if eccPrivKey.None? {
        var eccPrivKeyBytes := Sha256.Sum256(key);
        var parsed := AsxEcc.ParsePrivateKey(eccPrivKeyBytes);
        if parsed.Failure? {
          return Failure(parsed.error);
        }
        eccPrivKey := Some(parsed.value);
      }
      return Success(eccPrivKey.value);
    }

    /** getKybPrivKey: the Kyber sub-key, derived on the first successful call and kept. */
    method GetKybPrivKey() returns (r: Result<Kyber.PrivateKey>)
      requires Valid()
      modifies this`kybPrivKey
      ensures Valid()
      ensures r == KyberSubKey(key)
      ensures old(kybPrivKey).Some? ==> kybPrivKey == old(kybPrivKey)
      ensures old(kybPrivKey).None? ==> kybPrivKey == if r.Success? then Some(r.value) else None
    {
      if kybPrivKey.None? {
        var derived := Kyber.NewPrivateKeyForSeed(key);
        if derived.Failure? {
          return Failure(derived.error);
        }
        kybPrivKey := Some(derived.value);
      }
      return Success(kybPrivKey.value);
    }

    /**
     * PublicKeyECC: the curve public key, kept after the first success. It derives the
     * curve sub-key afresh and leaves eccPrivKey alone.
     */
    method PublicKeyECC() returns (r: Result<PublicKey>)
      requires Valid()
      modifies this`pubKeyECC
      ensures Valid()
      ensures r == EccPublicKeyFor(key)
      ensures r.Success? ==> r.value.ePub.Some? && r.value.kPub.None?
      ensures old(pubKeyECC).Some? ==> pubKeyECC == old(pubKeyECC)
      ensures old(pubKeyECC).None? ==> pubKeyECC == if r.Success? then Some(r.value) else None
    {
      if pubKeyECC.None? {
        var eccPrivKeyBytes := Sha256.Sum256(key);
        var eccPrivKey := AsxEcc.ParsePrivateKey(eccPrivKeyBytes);
        if eccPrivKey.Failure? {
          return Failure(eccPrivKey.error);
        }
        var eccPubKey := AsxEcc.PublicKeyOf(eccPrivKey.value);
        if eccPubKey.Failure? {
          return Failure(eccPubKey.error);
        }
        pubKeyECC := Some(PublicKey(Some(eccPubKey.value), None));
      }
      return Success(pubKeyECC.value);
    }

    /**
     * PublicKeyKyber: the Kyber public key, kept after the first success. It expands the
     * seed afresh and leaves kybPrivKey alone.
     */
    method PublicKeyKyber() returns (r: Result<PublicKey>)
      requires Valid()
      modifies this`pubKeyKyb
      ensures Valid()
      ensures r == KyberPublicKeyFor(key)
      ensures r.Success? ==> r.value.kPub.Some? && r.value.ePub.None?
      ensures old(pubKeyKyb).Some? ==> pubKeyKyb == old(pubKeyKyb)
      ensures old(pubKeyKyb).None? ==> pubKeyKyb == if r.Success? then Some(r.value) else None
    {
      if pubKeyKyb.None? {
        var kybPrivKey := Kyber.NewPrivateKeyForSeed(key);
        if kybPrivKey.Failure? {
          return Failure(kybPrivKey.error);
        }
        var kybPubKey := Kyber.PublicKeyOf(kybPrivKey.value);
        if kybPubKey.Failure? {
          return Failure(kybPubKey.error);
        }
        pubKeyKyb := Some(PublicKey(None, Some(kybPubKey.value)));
      }
      return Success(pubKeyKyb.value);
    }
  }

  /** ParsePrivateKey: a new, uncached key for exactly 64 bytes; nothing is interned. */
  method ParsePrivateKey(key: seq<byte>) returns (r: Result<PrivateKey>)
    ensures |key| != PrivateKeyLength ==> r == Failure(InvalidPrivateKeyLength)
    ensures |key| == PrivateKeyLength ==>
              && r.Success? && fresh(r.value) && r.value.Valid() && r.value.Bytes() == key
              && r.value.eccPrivKey.None? && r.value.kybPrivKey.None?
              && r.value.pubKeyECC.None? && r.value.pubKeyKyb.None?
  {
    if |key| != PrivateKeyLength {
      return Failure(InvalidPrivateKeyLength);
    }
    var privateKey := new PrivateKey(key);
    return Success(privateKey);
  }

  /** NewPrivateKey: a seed of 64 bytes drawn from crypto/rand (given as `random`). */
  method NewPrivateKey(random: Result<seq<byte>>) returns (r: Result<PrivateKey>)
    requires random.Success? ==> |random.value| == PrivateKeyLength
    ensures random.Failure? ==> r == Failure(random.error)
    ensures random.Success? ==>
              && r.Success? && fresh(r.value) && r.value.Valid() && r.value.Bytes() == random.value
              && r.value.eccPrivKey.None? && r.value.kybPrivKey.None?
              && r.value.pubKeyECC.None? && r.value.pubKeyKyb.None?
  {
    if random.Failure? {
      return Failure(random.error);
    }
    r := ParsePrivateKey(random.value);
  }
}
