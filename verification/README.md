# Signature cache with randomised eviction, and service-flag formatting

This project models two parts of a bitcoin-style node.

The first is `SigCacheXor`. It remembers ECDSA signatures that have already been verified, so a peer cannot make the node verify the same signature again and again. The cache maps a 32-byte signature hash to the `(signature, public key)` pair verified over it. Its size is bounded by `maxEntries`. When an insert would go over the bound, one entry is evicted:

- four xorshift128+ outputs are written big-endian into a random 32-byte threshold;
- the victim is the first key, in Go's map iteration order, that is byte-lexicographically greater than the threshold;
- if no key is greater, the victim is the fallback the scan kept.

The second is `ServiceFlag.String`, which renders a peer's service bit set as text.

The model is functional:

- The cache is an immutable datatype holding a `map<Hash, SigCacheEntry>`, the bound, and the generator state.
- `Add` and `Exists` are pure functions. `Add` takes as parameters the generator's step function `next` and the map's iteration order `order`, a sequence listing every key exactly once.
- Every general property is proved for all iteration orders and all generators. The concrete scenarios `MaxThresholdBeatsSmallHashes` and `ReAddEvictsOther` fix one generator and one order.

Files:

- `bytes.dfy` (module `Bytes`): byte and `uint64` types, `binary.BigEndian` packing, and `bytes.Compare`.
- `sigcache.dfy` (module `SigCache`): the cache state, `NewSigCacheXor`, `Exists`, the eviction scan and `Add`.
- `sigcache_properties.dfy` (module `SigCacheProperties`): the eviction rule stated declaratively, and the lemmas about `Add` and `Exists`.
- `protocol.dfy` (module `Protocol`): `ServiceFlag.String` with its trimming and hex helpers, and its lemmas.

Two behaviours of the code differ from what its own comments suggest. The model follows the code:

- **Fallback victim.** The comment in `Add` (`txscript/sigcache_xor_eviction.go:99-103`) says the first entry visited is the fallback when no key beats the threshold. But the scan uses the all-zero hash as an "unset" marker (`txscript/sigcache_xor_eviction.go:104-109`), so the fallback is the first *non-zero* key in iteration order. It is the zero hash only when the zero hash is the only key. The zero hash is never strictly greater than a 32-byte threshold, so the victim is always a present key.
- **Re-adding an existing key.** The doc comment of `Add` (`txscript/sigcache_xor_eviction.go:74-77`) says an entry is evicted "to make space for the new entry". The code evicts whenever `len + 1 > maxEntries`, even if `sigHash` is already present and no space is needed (`txscript/sigcache_xor_eviction.go:91`). In a full cache, re-adding a key can therefore evict a different entry and shrink the cache by one. `ReAddAtCapacity` states this in general and `ReAddEvictsOther` gives a concrete instance. Idempotence holds only while the cache has room (`AddIdempotentBelowCapacity`).

Each eviction calls the generator's `Next` four times, one call per 8-byte word of the threshold.

## Model

| member | source | states |
|---|---|---|
| Bytes.PutUint64 | txscript/sigcache_xor_eviction.go:96 | writes exactly 8 bytes; which bits go in which byte is stated by PutUint64Byte |
| Bytes.PutUint64Byte | txscript/sigcache_xor_eviction.go:96 | byte j of `PutUint64(v)` is `(v / 256^(7-j)) % 256`, i.e. bits 56-8j..63-8j of v |
| Bytes.Uint64 | txscript/sigcache_xor_eviction.go:52 | the decoded seed is a `uint64` whose big-endian bytes are exactly the 8 input bytes |
| Bytes.Uint64PutUint64 | txscript/sigcache_xor_eviction.go:52 | decoding the big-endian bytes of v gives back v, so the seed value is unique |
| Bytes.Compare | txscript/sigcache_xor_eviction.go:110 | `bytes.Compare` returns -1, 0 or 1, and returns 0 exactly when the two byte strings are equal |
| Bytes.GreaterMeaning | txscript/sigcache_xor_eviction.go:110 | `Compare(a, b) > 0` holds exactly when a is longer than b with b as a prefix, or a has the larger byte at the first position where they differ |
| Bytes.CompareAntisymmetric | txscript/sigcache_xor_eviction.go:110 | swapping the operands of `bytes.Compare` negates its result |
| SigCache.NewSigCacheXor | txscript/sigcache_xor_eviction.go:41-56 | fails exactly when the entropy read fails; otherwise the cache is empty, keeps `maxEntries`, and its generator is seeded with the value whose big-endian encoding is the 8 entropy bytes |
| SigCache.Exists | txscript/sigcache_xor_eviction.go:63-72 | true exactly when the pair (hash, entry with this signature and this key) is in the map, so a present hash with another signature or key is a miss |
| SigCache.Add | txscript/sigcache_xor_eviction.go:81-119 | the bound is unchanged; with `maxEntries == 0` the cache is unchanged; otherwise the new pair is found by `Exists`; no key other than `sigHash` appears, and every surviving key other than `sigHash` keeps its entry |
| SigCache.Draws | txscript/sigcache_xor_eviction.go:93-95 | n calls to `Next` give n outputs; DrawsAdd states that successive calls compose, each continuing from the state the previous one left |
| SigCache.PackBigEndian | txscript/sigcache_xor_eviction.go:93-97 | the outputs written one after another take 8 bytes each |
| SigCache.PackBigEndianByte | txscript/sigcache_xor_eviction.go:93-97 | byte 8*i+j of the packing is byte j of the big-endian encoding of output i, as `PutUint64(randHashBytes[i*8:], …)` writes it |
| SigCache.RandomHash | txscript/sigcache_xor_eviction.go:93-97 | output i fills bytes 8*i..8*i+7 of the threshold, most significant byte first |
| SigCache.DrawThreshold | txscript/sigcache_xor_eviction.go:93-97 | byte 8*i+j of the threshold is byte j of the i-th of the four outputs drawn from the current generator state |
| SigCache.ScanFrom | txscript/sigcache_xor_eviction.go:104-115 | the loop ends with the candidate it already held or with a key it visited; which one is stated by EvictionVictimCharacterised |
| SigCache.EvictionVictim | txscript/sigcache_xor_eviction.go:104-115 | the deleted key is a key of the map or the zero hash; EvictionVictimCharacterised identifies it with the eviction rule |
| SigCacheProperties.DrawsAdd | txscript/sigcache_xor_eviction.go:93-95 | drawing n + m outputs gives the n outputs, then the m outputs drawn from the state they left, and ends in the state after all of them |
| SigCacheProperties.ZeroHashNeverGreater | txscript/sigcache_xor_eviction.go:104-110 | the all-zero hash is never strictly greater than a threshold |
| SigCacheProperties.EvictionVictimIsVictim | txscript/sigcache_xor_eviction.go:104-115 | the scan picks the first key above the threshold; failing that, the first non-zero key; failing that, the zero hash |
| SigCacheProperties.IsVictimUnique | txscript/sigcache_xor_eviction.go:104-115 | the eviction rule names a single key |
| SigCacheProperties.EvictionVictimCharacterised | txscript/sigcache_xor_eviction.go:104-115 | a key satisfies the eviction rule if and only if it is the key the scan deletes |
| SigCacheProperties.EvictionVictimPresent | txscript/sigcache_xor_eviction.go:104-115 | over a non-empty map the victim is a present key; it is the zero hash only if every key visited is the zero hash |
| SigCacheProperties.RandomHashByte | txscript/sigcache_xor_eviction.go:93-97 | byte 8*i+j of the threshold is bits 56-8j..63-8j of the i-th generator output |
| SigCacheProperties.RandomHashWords | txscript/sigcache_xor_eviction.go:93-97 | reading bytes 8*i..8*i+8 of the threshold big-endian gives back the i-th generator output |
| SigCacheProperties.AddBelowCapacity | txscript/sigcache_xor_eviction.go:89-118 | with room left, nothing is evicted and the generator is not advanced; the keys become the old keys plus `sigHash`, mapped to the new entry, and every other key keeps its entry |
| SigCacheProperties.AddAtCapacity | txscript/sigcache_xor_eviction.go:89-118 | in a full cache exactly one present key is removed: the scan's victim for the threshold of the next four outputs, which EvictionVictimCharacterised identifies with the eviction rule; the generator advances by those four outputs; `sigHash` maps to the new entry; every other key keeps its entry |
| SigCacheProperties.AddKeepsBound | txscript/sigcache_xor_eviction.go:89-118 | `|validSigs| <= maxEntries` is preserved by every Add; a genuinely new key added to a full cache leaves exactly `maxEntries` entries |
| SigCacheProperties.ReAddAtCapacity | txscript/sigcache_xor_eviction.go:91-118 | re-adding a present key to a full cache shrinks it by one, unless the victim is that key itself |
| SigCacheProperties.ReAddEvictsOther | txscript/sigcache_xor_eviction.go:91-118 | a concrete full two-entry cache in which re-adding a cached pair evicts the other entry |
| SigCacheProperties.AddIdempotentBelowCapacity | txscript/sigcache_xor_eviction.go:89-118 | adding a pair that is already cached to a cache with room leaves the whole state, generator included, unchanged |
| SigCacheProperties.ExistsAfterAdd | txscript/sigcache_xor_eviction.go:67-118 | after Add with `maxEntries > 0`, `Exists` on that hash holds for the added pair and for no other pair |
| SigCacheProperties.ZeroCapacityInert | txscript/sigcache_xor_eviction.go:85-87 | a valid cache with bound 0 is empty, stays empty after Add, and never reports a hit |
| SigCacheProperties.CapacityOneReplaces | txscript/sigcache_xor_eviction.go:89-118 | with bound 1, adding a second hash leaves exactly that hash with its entry |
| SigCacheProperties.CapacityTwoEvictsOne | txscript/sigcache_xor_eviction.go:89-118 | with bound 2 and two cached hashes, a third hash leaves two entries: the new one, plus exactly one of the old two |
| Protocol.BitAnd | protocol.go:63-65 | `a & b` is at most each operand, so clearing a contained flag never underflows; the value, bit by bit, is stated by BitAndBit |
| Protocol.BitAndBit | protocol.go:63 | bit i of `a & b` is set exactly when bit i is set in both a and b |
| Protocol.NameFlags | protocol.go:60-67 | the loop only clears bits, so what is left never exceeds f; its exact result for `sfStrings` is stated by NameFlagsTable |
| Protocol.NameFlagsTable | protocol.go:60-67 | the loop over the one-entry `sfStrings` appends `SFNodeNetwork|` and clears bit 0 exactly when bit 0 is set |
| Protocol.TrimRight | protocol.go:70 | the result is a prefix that does not end with the cut character, and everything removed was that character |
| Protocol.TrimLeft | protocol.go:74 | the result is a suffix that does not start with the cut character, and everything removed was that character |
| Protocol.FormatHex | protocol.go:72 | `FormatUint(x, 16)` gives lower-case hex digits, non-empty, with no leading zero for x > 0 and one digit exactly when x < 16 |
| Protocol.ParseFormatHex | protocol.go:72 | the hex form of x, parsed back in base 16, is x |
| Protocol.FormatParseHex | protocol.go:72 | every canonical hex string is the hex form of the value it parses to |
| Protocol.ServiceFlagString | protocol.go:54-76 | has no ensures of its own; its output is stated by ServiceFlagStringCases, ServiceFlagStringNoEdgeSeparators and ServiceFlagStringLeftover |
| Protocol.ServiceFlagStringCases | protocol.go:54-76 | `String(0) == "0x0"`, `String(1) == "SFNodeNetwork"`; odd f > 1 gives `"SFNodeNetwork|0x"` + hex(f - 1); even f > 0 gives `"0x"` + hex(f) |
| Protocol.ServiceFlagStringNoEdgeSeparators | protocol.go:70-74 | the result is never empty and never begins or ends with `|` |
| Protocol.ServiceFlagStringLeftover | protocol.go:62-74 | the trailing hex digits of the result parse back to exactly the bits no named flag accounts for |

## Left out

- Locking (`sync.RWMutex`): each call is modelled as one atomic step. The lock only serialises calls; it does not change what they compute.
- `crypto/rand.Read`: modelled as an `Entropy` input that is either 8 bytes or a failure. Go reports a short read as an error, so a short read is folded into `ReadFailed`.
- The xorshift128+ generator from the external `xorshift` package: its source is not part of this model. Seeding (`newXorShift`) and stepping (`next`) are function parameters, and the lemmas hold for every such function.
- `btcec.Signature` and `btcec.PublicKey`: their code is not part of this model. They are treated as opaque values compared with `Equals`, which the model takes to be datatype equality. Their cryptography is not modelled.
- Go's randomised map iteration order: supplied as the `order` parameter, which must list each key exactly once.
- SigCache.Add: `uint(len + 1)` is computed with unbounded integers. The map cannot hold 2^64 entries, so the 64-bit wrap-around of this sum is not modelled.
- `chaincfg/chainhash/hashfuncs.go`: thin wrappers over SHA-256 and an external X13 hash, with no logic of their own.
- The port, protocol-version and network-magic constants in `protocol.go` (lines 12-39 and 85-94): plain data with no behaviour.
- Protocol.TrimRight, Protocol.TrimLeft: Go's cutset argument is a string; the model takes a single character, which is all `ServiceFlag.String` uses.
