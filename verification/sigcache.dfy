/**
 The signature verification cache `SigCacheXor`: a bounded map from a 32-byte
 signature hash to the (signature, public key) pair that was verified over it,
 with a randomised eviction rule driven by a xorshift128+ generator.

 The model is functional. Each call is atomic (the cache's read/write lock
 only serialises calls). The parts the cache does not own are parameters:
 - `next` is the generator's step function (one 64-bit output and the new
   generator state), and `newXorShift` builds a generator from a seed;
 - `order` is the order in which Go's `range` happens to visit the map's keys;
 - `entropy` is the outcome of reading 8 bytes from `crypto/rand`.
 */
module SigCache {
  import opened Bytes

  /** wire.HashSize */
  const HashSize: nat := 32

  type Hash = h: seq<byte> | |h| == HashSize witness Zeros(32)

  /** The zero value of wire.ShaHash, used by the eviction scan as "unset". */
  const ZeroHash: Hash := Zeros(HashSize)

  /** btcec.Signature, an opaque value that Exists compares with Equals;
      two signatures are equal here exactly when they are the same datatype
      value, whatever its components stand for. */
  datatype Signature = Signature(r: nat, s: nat)

  /** btcec.PublicKey, an opaque value compared with Equals in the same way. */
  datatype PublicKey = PublicKey(x: nat, y: nat)

  datatype SigCacheEntry = SigCacheEntry(sig: Signature, pubKey: PublicKey)

  /** The cache's state; S is the state of the xorshift generator. */
  datatype SigCacheXor<S> = SigCacheXor(
    validSigs: map<Hash, SigCacheEntry>,
    maxEntries: uint64,
    xorShift: S)

  /** The size bound every completed Add keeps. */
  ghost predicate Valid<S>(c: SigCacheXor<S>)
  {
    |c.validSigs| <= c.maxEntries
  }

  /* ---------------------------------------------------------------------- */
  /* Construction                                                            */
  /* ---------------------------------------------------------------------- */

  type Seed = b: seq<byte> | |b| == 8 witness [0, 0, 0, 0, 0, 0, 0, 0]

  /** Outcome of `rand.Read` into an 8-byte buffer; a short read is an error. */
  datatype Entropy = SeedBytes(bytes: Seed) | ReadFailed

  datatype NewResult<S> = Created(cache: SigCacheXor<S>) | InitError

  /** NewSigCacheXor: an empty cache whose generator is seeded with the
      big-endian value of the 8 entropy bytes. */
  function NewSigCacheXor<S>(maxEntries: uint64, entropy: Entropy, newXorShift: uint64 -> S)
    : (r: NewResult<S>)
    ensures r.InitError? <==> entropy.ReadFailed?
    ensures r.Created? ==>
      && r.cache.validSigs == map[]
      && r.cache.maxEntries == maxEntries
      && Valid(r.cache)
      && forall seed: uint64 :: PutUint64(seed) == entropy.bytes ==> r.cache.xorShift == newXorShift(seed)
  {
    match entropy
    case ReadFailed => InitError
    case SeedBytes(seed) =>
      var randSeed := Uint64(seed);
      SeedDetermined(seed);
      Created(SigCacheXor(map[], maxEntries, newXorShift(randSeed)))
  }

  /** The only 64-bit value whose big-endian bytes are b is Uint64(b). */
  lemma SeedDetermined(b: Seed)
    ensures forall v: uint64 :: PutUint64(v) == b ==> v == Uint64(b)
  {
    forall v: uint64 | PutUint64(v) == b
      ensures v == Uint64(b)
    {
      Uint64PutUint64(v);
    }
  }

  /* ---------------------------------------------------------------------- */
  /* Lookup                                                                  */
  /* ---------------------------------------------------------------------- */

  /** Exists: the hash is cached with exactly this signature and key. */
  function Exists<S>(c: SigCacheXor<S>, sigHash: Hash, sig: Signature, pubKey: PublicKey): (b: bool)
    ensures b <==> (sigHash, SigCacheEntry(sig, pubKey)) in c.validSigs.Items
  {
    if sigHash in c.validSigs then
      var entry := c.validSigs[sigHash];
      assert (sigHash, entry) in c.validSigs.Items;
      entry.pubKey == pubKey && entry.sig == sig
    else
      false
  }

  /* ---------------------------------------------------------------------- */
  /* Eviction                                                                */
  /* ---------------------------------------------------------------------- */

  /** `order` lists every key of m exactly once, as a `range` over m does. */
  ghost predicate IsIterationOrder(order: seq<Hash>, m: map<Hash, SigCacheEntry>)
  {
    && (forall i, j :: 0 <= i < j < |order| ==> order[i] != order[j])
    && (forall k :: k in m <==> k in order)
  }

  /** n successive outputs of the generator, and the state after them. */
  function Draws<S>(next: S -> (uint64, S), s: S, n: nat): (r: (seq<uint64>, S))
    ensures |r.0| == n
  {
    if n == 0 then ([], s)
    else
      var step := next(s);
      var rest := Draws(next, step.1, n - 1);
      ([step.0] + rest.0, rest.1)
  }

  /** The outputs written one after another with PutUint64. */
  function PackBigEndian(vs: seq<uint64>): (b: seq<byte>)
    ensures |b| == 8 * |vs|
  {
    if |vs| == 0 then [] else PutUint64(vs[0]) + PackBigEndian(vs[1..])
  }

  /** Bytes 8*i .. 8*i+7 of the packing are the big-endian bytes of vs[i]. */
  lemma {:induction false} PackBigEndianByte(vs: seq<uint64>, i: nat, j: nat)
    requires i < |vs| && j < 8
    ensures PackBigEndian(vs)[8 * i + j] == PutUint64(vs[i])[j]
  {
    if i > 0 {
      PackBigEndianByte(vs[1..], i - 1, j);
    }
  }

  /** The random threshold hash built from four generator outputs: output i
      fills bytes 8*i .. 8*i+7, most significant byte first. */
  function RandomHash(vs: seq<uint64>): (r: Hash)
    requires |vs| == 4
    ensures forall i, j :: 0 <= i < 4 && 0 <= j < 8 ==> r[8 * i + j] == PutUint64(vs[i])[j]
  {
    forall i, j | 0 <= i < 4 && 0 <= j < 8
      ensures PackBigEndian(vs)[8 * i + j] == PutUint64(vs[i])[j]
    {
      PackBigEndianByte(vs, i, j);
    }
    PackBigEndian(vs)
  }

  /** The eviction loop of Add from the point where `order` remains to be
      visited and `found` is the current candidate (ZeroHash = unset). */
  function ScanFrom(order: seq<Hash>, r: Hash, found: Hash): (v: Hash)
    ensures v == found || v in order
  {
    if |order| == 0 then found
    else
      var sigEntry := order[0];
      var found' := if found == ZeroHash then sigEntry else found;
      if Greater(sigEntry, r) then sigEntry
      else ScanFrom(order[1..], r, found')
  }

  /** The key the eviction loop deletes: a visited key, or the zero hash. */
  function EvictionVictim(order: seq<Hash>, r: Hash): (v: Hash)
    ensures v == ZeroHash || v in order
  {
    ScanFrom(order, r, ZeroHash)
  }

  /** The threshold drawn from generator state s, and the state after it:
      byte 8*i+j of the threshold is byte j of the i-th output from s. */
  function DrawThreshold<S>(next: S -> (uint64, S), s: S): (r: (Hash, S))
    ensures forall i, j :: 0 <= i < 4 && 0 <= j < 8 ==>
      r.0[8 * i + j] == PutUint64(Draws(next, s, 4).0[i])[j]
  {
    var drawn := Draws(next, s, 4);
    (RandomHash(drawn.0), drawn.1)
  }

  /* ---------------------------------------------------------------------- */
  /* Insertion                                                               */
  /* ---------------------------------------------------------------------- */

  /** Add: store (sig, pubKey) under sigHash, first evicting one entry when
      `len + 1 > maxEntries`, whether or not sigHash is already present. */
  function Add<S>(c: SigCacheXor<S>, next: S -> (uint64, S), order: seq<Hash>,
                  sigHash: Hash, sig: Signature, pubKey: PublicKey): (c': SigCacheXor<S>)
    requires IsIterationOrder(order, c.validSigs)
    ensures c'.maxEntries == c.maxEntries
    ensures c.maxEntries == 0 ==> c' == c
    ensures c.maxEntries > 0 ==> Exists(c', sigHash, sig, pubKey)
    ensures c'.validSigs.Keys <= c.validSigs.Keys + {sigHash}
    ensures forall k :: k in c'.validSigs && k != sigHash ==> c'.validSigs[k] == c.validSigs[k]
  {
    if c.maxEntries == 0 then c
    else
      var evicted :=
        if |c.validSigs| + 1 > c.maxEntries then
          var drawn := DrawThreshold(next, c.xorShift);
          var foundEntry := EvictionVictim(order, drawn.0);
          c.(validSigs := c.validSigs - {foundEntry}, xorShift := drawn.1)
        else c;
      evicted.(validSigs := evicted.validSigs[sigHash := SigCacheEntry(sig, pubKey)])
  }
}
