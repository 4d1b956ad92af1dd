# Xipher key layer in Dafny

A model of the key-identity layer of the xipher hybrid encryption library, with proofs
about it:

- **ecc** (`ecc.dfy`). X25519 private and public keys are interned by their 32 raw bytes
  in two tables, `privateKeyMap` and `publicKeyMap`, modelled together as `Ecc.Registry`.
  A private key derives its public key once, interns it and caches it. A public key builds
  its ECIES encrypter once and caches it. The encrypter holds an ephemeral public key and
  a chacha20poly1305 cipher keyed by the shared secret.
- **xipher** (`xipher.dfy`). Private keys are either derived from a password under a KDF
  spec or given raw. They are interned by password (`pwdXipherMap`) or by raw bytes
  (`keyXipherMap`), modelled as `Xipher.Keyring`. Raw export of a password-derived key is
  refused. The public key is self-describing: a 32-byte curve key, then a KDF-spec region
  that is all zeros when the key is not password based.
- **asx** (`asx.dfy`). A 64-byte seed derives a curve sub-key (from SHA-256 of the seed)
  and a Kyber sub-key (from the seed itself), each on demand and cached, along with their
  public keys. A public key is encoded as one algorithm tag byte plus the payload, and
  parsing dispatches on that tag.
- **commons** (`compression.dfy`). The compression envelope: a flag byte, then either the
  data itself or its zlib form. The zlib form is used only when it is strictly smaller.

The source mutates objects in place, so the model keeps that form. Interning tables are
`map` fields of a registry class. Memoised fields are `var` fields that are written once.
Each operation's `ensures` gives the new state in terms of the old one. The three methods
that only compose calls give less but still state their effect:
- `Ecc.EncrypterIsMemoised` gives the encrypter it leaves cached.
- `Ecc.DerivedKeyIsInterned` gives how the public-key table grows.
- `Xipher.NotPwdBasedRoundTrip` gives the cache it sets, and bounds how both tables grow.

Encodings and parsings are pure functions, and round-trip lemmas connect them.

The foreign primitives are uninterpreted constants of function type. `foreign.dfy` declares
X25519, SHA-256, chacha20poly1305.Get, the KDF (`kdfSpec.bytes`, `getCipherKey`,
`parseKdfSpec` and the cost setters), and asx's curve and Kyber packages. zlib
(`ZCompress`/`ZDecompress`) is declared in `compression.dfy`. Only their signatures and output lengths are fixed, the lengths through subset types.
Every law a lemma needs about them is one of that lemma's preconditions, and
`Compression.ZlibInverse` is the zlib inverse law. Randomness (`crypto/rand.Read`, and
`newSpec`, which may fail) enters as a `Result` parameter, so the failure branch is
also modelled.

Constants the shown code does not define are symbolic:

- `Kdf.KdfSpecLength`
- `Xipher.PrivateKeyLength`
- `Asx.AlgoECC`
- `Asx.MinPublicKeyLength`, which must be at least 1 because ParsePublicKey reads `key[0]`
  unguarded.

`Asx.AlgoKyber` has a subset type that makes it differ from `AlgoECC`.
`Xipher.PublicKeyLength` is defined as `32 + KdfSpecLength`.

The model follows the code in these points of its behaviour, which a reader might not expect:

- Xipher `ParsePublicKey` interns the curve key in the ecc table before it parses the spec
  region. A failing spec parse therefore still leaves the table grown: parsing is not
  all-or-nothing.
- Xipher `NewPrivateKey` overwrites `keyXipherMap[key]` without a lookup, whereas
  `ParsePrivateKey` interns.
- A repeated password returns the existing key whatever spec is passed. The new spec is
  ignored.
- Xipher `PrivateKey.Bytes` refuses when the password *or* the spec is set. `isPwdBased`
  needs both. Both rules agree on every key the code can build.
- `NewPrivateKeyForPassword(AndSpec)` fails on a `newSpec` error before it checks for an
  empty password.
- Asx `ParsePrivateKey` does not intern. Asx `PublicKeyECC` and `PublicKeyKyber` derive
  afresh and do not use the cached sub-keys.
- The asx public key is a struct of two optional fields, not a strict sum type. `Bytes`
  prefers the curve variant when both are set and fails when neither is set. Parsing always
  sets exactly one.
- `Decompress` treats every flag other than 1 as "stored", not only 0.
- The shown code has no nonce counter in the encrypter.

## Model

| member | source | states |
|---|---|---|
| `Ecc.Registry.GetPrivateKey` | ecc/keys.go:41-54 | length ≠ 32 fails with InvalidKeyLength and changes nothing; otherwise returns the table's object for the bytes, and `Bytes()` gives the input back; an existing entry is returned and kept; a new one is fresh with no cached public key; the public-key table is untouched |
| `Ecc.Registry.NewPrivateKey` | ecc/keys.go:32-39 | a rand failure is returned with the tables unchanged; otherwise the random bytes are interned exactly as GetPrivateKey does: an existing entry is returned and kept, and a new one is fresh with no cached public key and is the only new table entry |
| `Ecc.Registry.GetPublicKey` | ecc/keys.go:75-93 | length ≠ 32 fails with InvalidKeyLength and changes nothing; otherwise interns exactly as GetPrivateKey does, and `Bytes()` gives the input back |
| `Ecc.PrivateKey.PublicKey` | ecc/keys.go:56-73 | a cached public key is returned unchanged; an X25519 failure is returned and nothing is cached; otherwise the result is the table entry for X25519(key, Basepoint), added only if absent, never replacing one, and cached on the private key |
| `Ecc.PublicKey.GetEncrypter` | ecc/keys.go:95-119 | a cached encrypter is returned unchanged; otherwise a rand, X25519 or cipher failure is returned and nothing is cached; on success a fresh encrypter holds X25519(eph, Basepoint) and the cipher keyed by X25519(eph, key) |
| `Ecc.Handshake` | ecc/keys.go:101-112 | the handshake succeeds exactly when all three foreign steps do; the ephemeral public key is 32 bytes and the cipher is keyed by the shared secret; the first failing step's error (X25519 with the base point, X25519 with the peer, or the cipher constructor) is returned |
| `Ecc.InterningInjective` | ecc/keys.go:46-52 | distinct byte strings never map to the same key object, in either table |
| `Ecc.DerivedKeyIsInterned` | ecc/keys.go:57-88 | GetPublicKey of a derived public key's bytes returns exactly the object that PrivateKey.PublicKey cached; the private-key table is unchanged, and the public-key table gains at most the derived entry |
| `Ecc.EncrypterIsMemoised` | ecc/keys.go:95-119 | two successive getEncrypter calls on one public key return the same encrypter, whatever randomness the second call is given; an encrypter cached beforehand is the one returned; afterwards the key caches the second call's encrypter, or nothing when both calls failed |
| `Xipher.Keyring.NewPrivateKeyForPwdAndSpec` | keys.go:39-55 | an empty password fails with InvalidPassword and changes nothing; a known password returns its existing key whatever the spec; a new key has key = getCipherKey(spec, password), a specKeyMap of exactly {spec.bytes() ↦ key}, and is the only new table entry; the result is password based and refuses raw export |
| `Xipher.Keyring.NewPrivateKeyForPassword` | keys.go:20-27 | a newSpec failure is returned first; otherwise it has the outcome of newPrivateKeyForPwdAndSpec under the drawn spec: the empty-password error, the existing key for a known password, or a fresh key with that password, spec, derived key and specKeyMap and no cached public key, as the only new table entry |
| `Xipher.Keyring.NewPrivateKeyForPasswordAndSpec` | keys.go:29-37 | as NewPrivateKeyForPassword, with the spec after setIterations, setMemory and setThreads, on every path including the new key's spec, key and specKeyMap |
| `Xipher.Keyring.NewPrivateKey` | keys.go:57-68 | a rand failure is returned unchanged; otherwise a fresh raw key with nothing cached exports its bytes and overwrites the raw-key table entry for them |
| `Xipher.Keyring.ParsePrivateKey` | keys.go:70-83 | length ≠ PrivateKeyLength fails with the expected and actual lengths; otherwise interns by raw bytes (equal inputs give the same object, and a new one has nothing cached), the key is not password based, and `Bytes()` gives the input back |
| `Xipher.PrivateKey.Bytes` | keys.go:89-95 | fails with PrivKeyUnavailableForPwd exactly when a password or a spec is attached; otherwise returns the raw key |
| `Xipher.PrivateKey.IsPwdBased` | keys.go:85-95 | true exactly when both the password and the spec are attached; every password-based key refuses raw export, and a key that refuses it without being password based carries exactly one of the two |
| `Xipher.PublicKey.IsPwdBased` | keys.go:143-154 | true exactly when a spec is attached, even one whose bytes are all zero; a password-based public key ends in its spec's bytes, and one that is not ends in KdfSpecLength zeros |
| `Xipher.PrivateKey.PublicKey` | keys.go:97-114 | a cached public key is returned and nothing changes; a key that is not 32 bytes fails with InvalidKeyLength and both ecc tables are unchanged; otherwise the private-key table gains at most this key's entry (fresh when new), an X25519 failure leaves the public-key table unchanged and caches nothing, and a success adds at most the derived public key (fresh, with no encrypter, when new) and caches it on both the ecc key and the new xipher public key; no other ecc private key's cache changes; any result carries the private key's spec, so it is password based exactly when the spec is set |
| `Xipher.PublicKey.Bytes` | keys.go:147-154 | always PublicKeyLength bytes: the curve key, then spec.bytes() when a spec is set and zeros otherwise |
| `Xipher.EncodePublicKey` | keys.go:148-154 | the curve key followed by exactly KdfSpecLength bytes of spec encoding or zeros |
| `Xipher.DecodePublicKey` | keys.go:122-141 | length ≠ PublicKeyLength fails with a length mismatch; an all-zero tail yields no spec; a non-zero tail yields parseKdfSpec's spec, or its error |
| `Xipher.ParsePublicKey` | keys.go:121-145 | the layout of DecodePublicKey; the curve key is interned (even when the spec parse then fails), only added and never replacing an entry, and a new entry is fresh with no encrypter; the key is password based exactly when the tail is not all zero; it re-encodes to its input when the spec re-encodes to the tail |
| `Xipher.DecodeEncodeNotPwdBased` | keys.go:122-154 | a public key that is not password based decodes back to its curve key and no spec |
| `Xipher.DecodeEncodePwdBased` | keys.go:122-154 | a password-based public key decodes back to its curve key and spec, provided spec.bytes() is not all zero and parseKdfSpec reads it back |
| `Xipher.EncodeDecode` | keys.go:122-154 | re-encoding a decoded public key reproduces its bytes, provided the spec re-encodes to the tail |
| `Xipher.NotPwdBasedRoundTrip` | keys.go:98-154 | the public key of a raw private key re-parses as not password based, with the same bytes and the interned curve key for them; the private key caches the derived public key; existing table entries are kept, and each table gains at most the entry for this key or its curve public key |
| `Asx.ParsePrivateKey` | internal/asx/keys.go:40-48 | length ≠ 64 fails with InvalidPrivateKeyLength; otherwise a fresh key with nothing cached, whose `Bytes()` gives the input back |
| `Asx.NewPrivateKey` | internal/asx/keys.go:31-38 | a rand failure is returned; otherwise a fresh key with nothing cached, whose seed is the random bytes |
| `Asx.PrivateKey.GetEccPrivKey` | internal/asx/keys.go:50-60 | returns ecc.ParsePrivateKey(sha256(seed)); once cached, the sub-key is kept; only its own field changes |
| `Asx.PrivateKey.GetKybPrivKey` | internal/asx/keys.go:62-71 | returns kyb.NewPrivateKeyForSeed(seed); once cached, the sub-key is kept; only its own field changes |
| `Asx.PrivateKey.PublicKeyECC` | internal/asx/keys.go:73-90 | returns the seed's curve public key, with ePub set and kPub unset; once cached it is kept; the cached sub-keys are not touched |
| `Asx.PrivateKey.PublicKeyKyber` | internal/asx/keys.go:92-108 | returns the seed's Kyber public key, with kPub set and ePub unset; once cached it is kept; the cached sub-keys are not touched |
| `Asx.EccSubKey` | internal/asx/keys.go:52-53 | the sub-key getEccPrivKey derives is the one PublicKeyECC derives the public key from: its failure is PublicKeyECC's failure, and on success PublicKeyECC's result is this sub-key's public key or its error |
| `Asx.KyberSubKey` | internal/asx/keys.go:64 | the sub-key getKybPrivKey expands is the one PublicKeyKyber derives the public key from, in the same sense |
| `Asx.EccPublicKeyFor` | internal/asx/keys.go:76-87 | succeeds exactly when the SHA-256-derived curve sub-key parses and yields a public key; the result is the curve variant only |
| `Asx.KyberPublicKeyFor` | internal/asx/keys.go:95-105 | succeeds exactly when the seed-expanded Kyber sub-key yields a public key; the result is the Kyber variant only |
| `Asx.DerivedKeysAreTagged` | internal/asx/keys.go:74-123 | a seed's curve public key always encodes, and its tag differs from the Kyber public key's |
| `Asx.PublicKey.Bytes` | internal/asx/keys.go:110-123 | the curve variant encodes as AlgoECC followed by its 32 bytes; otherwise the Kyber variant encodes as AlgoKyber followed by its bytes, or fails with their error; with neither set it fails with InvalidPublicKey |
| `Asx.ParsePublicKey` | internal/asx/keys.go:125-150 | fails with InvalidPublicKeyLength below MinPublicKeyLength and with InvalidPublicKey on any unknown tag; with tag AlgoECC only the curve parser sees `key[1..]`, and with AlgoKyber only the Kyber parser does; on success exactly one variant is set, and it is the tagged one |
| `Asx.ParseThenBytes` | internal/asx/keys.go:110-150 | a parsed public key re-encodes to its input, when each algorithm's encoding undoes its parser |
| `Asx.BytesThenParse` | internal/asx/keys.go:110-150 | an encoded public key parses back to the variant it encoded (the curve variant, if both were set), when each parser undoes its encoding |
| `Compression.Compress` | commons/compression.go:29-41 | a zlib failure is returned and nothing else is produced; otherwise the output starts with flag 0 followed by the data, when zlib did not shrink it, or with flag 1 followed by the zlib form, which is then at most the data's length; the output is never longer than the data plus one |
| `Compression.Decompress` | commons/compression.go:43-50 | for non-empty input: with flag 1 it returns zlib's decompression of the rest; with any other flag it returns the rest verbatim |
| `Compression.CompressRoundTrip` | commons/compression.go:29-50 | under the zlib inverse law, Decompress(Compress(d)) = d |
| `Compression.IncompressibleIsStored` | commons/compression.go:30-41 | data that zlib cannot shrink is stored verbatim behind flag 0, and comes back unchanged |

The `Bytes` accessors of `Ecc.PrivateKey`, `Ecc.PublicKey` and `Asx.PrivateKey` (ecc/keys.go:28-30,
90-93, internal/asx/keys.go:27-29) return the stored key. Their contract is stated by the
rows of the methods that create the keys.

## Left out

- Concurrency and locking: the shown code has none, so the model is sequential.
- Randomness: `crypto/rand.Read` and `newSpec` are parameters; their failure branch is modelled, their distribution is not.
- X25519, SHA-256, chacha20poly1305, the KDF and kdfSpec internals, Kyber and asx's curve
  package: these are foreign code, modelled as uninterpreted functions with fixed output
  lengths.
- zlib (`zCompress`/`zDecompress` bodies): foreign streaming code, uninterpreted.
- The encrypter's nonce handling: it is not in the shown code.
- `symEncrypter` in the xipher private key: the shown code never sets or reads it.
- Go slice aliasing: `GetPrivateKey`/`GetPublicKey` keep the caller's slice, and `append`
  on a `Bytes()` result may write into a shared backing array. The model works on values.
- `internal/cli/commands/commons.go` (process exit and terminal colour) and the
  commented-out asx `getEncrypter`: these are not part of the core.
- Asx.PrivateKey.PublicKeyECC: caches the public key as a value, so the model states "the same value on every call", not "the same pointer".
- Asx.PrivateKey.PublicKeyKyber: caches the public key as a value, so the model states "the same value on every call", not "the same pointer".
- Asx.PrivateKey.GetEccPrivKey: the opaque sub-key is a value, so repeated derivations are equal, and the object identity of the cached pointer is not modelled.
- Asx.PrivateKey.GetKybPrivKey: the opaque sub-key is a value, so repeated derivations are equal, and the object identity of the cached pointer is not modelled.
- Xipher.NotPwdBasedRoundTrip: states equal curve-key bytes, and object identity only through the registry. This is because a public key cached before the call is not tied to the one process-wide registry.
- Ecc.PrivateKey.PublicKey: requires the key to be registered. In the source this always holds, because only GetPrivateKey builds private keys.
- Decompress of an empty buffer: Go panics on it (an index out of range), so this is a precondition rather than an error path.
