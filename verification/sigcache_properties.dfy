/**
 What `SigCache.Add` and `SigCache.Exists` promise: a declarative statement of
 which key the eviction scan removes, the size bound, the frame condition,
 membership after insertion, and the byte layout of the random threshold.
 Every general property holds for every iteration order and every
 generator; the closing scenarios fix one of each.
 */
module SigCacheProperties {
  import opened Bytes
  import opened SigCache

  /* ---------------------------------------------------------------------- */
  /* The eviction rule, stated without the scan's bookkeeping                */
  /* ---------------------------------------------------------------------- */

  /** order[i] is the first key in iteration order above the threshold. */
  ghost predicate FirstGreaterAt(order: seq<Hash>, r: Hash, i: int)
  {
    && 0 <= i < |order|
    && Greater(order[i], r)
    && forall j :: 0 <= j < i ==> !Greater(order[j], r)
  }

  /** order[i] is the first non-zero key in iteration order. */
  ghost predicate FirstNonZeroAt(order: seq<Hash>, i: int)
  {
    && 0 <= i < |order|
    && order[i] != ZeroHash
    && forall j :: 0 <= j < i ==> order[j] == ZeroHash
  }

  /** v is the key the eviction rule removes: the first key above r; failing
      that the first non-zero key; failing that the zero hash. */
  ghost predicate IsVictim(order: seq<Hash>, r: Hash, v: Hash)
  {
    if exists i :: 0 <= i < |order| && Greater(order[i], r) then
      exists i :: FirstGreaterAt(order, r, i) && order[i] == v
    else if exists i :: 0 <= i < |order| && order[i] != ZeroHash then
      exists i :: FirstNonZeroAt(order, i) && order[i] == v
    else
      v == ZeroHash
  }

  /** The zero hash can never be strictly greater than a threshold. */
  lemma ZeroHashNeverGreater(r: Hash)
    ensures !Greater(ZeroHash, r)
  {
    ZerosNotGreater(ZeroHash, r);
  }

  /** What the scan knows after visiting order[..k]: the candidate is still
      unset while every visited key was zero, else it is the first non-zero
      key visited. */
  ghost predicate FoundSoFar(order: seq<Hash>, k: int, found: Hash)
  {
    && 0 <= k <= |order|
    && (|| ((forall j :: 0 <= j < k ==> order[j] == ZeroHash) && found == ZeroHash)
        || (exists j :: 0 <= j < k && FirstNonZeroAt(order, j) && order[j] == found))
  }

  lemma {:induction false} ScanFromIsVictim(order: seq<Hash>, k: nat, r: Hash, found: Hash)
    requires k <= |order|
    requires forall j :: 0 <= j < k ==> !Greater(order[j], r)
    requires FoundSoFar(order, k, found)
    ensures IsVictim(order, r, ScanFrom(order[k..], r, found))
    decreases |order| - k
  {
    if k == |order| {
      assert order[k..] == [];
      if exists i :: 0 <= i < |order| && order[i] != ZeroHash {
        var i :| 0 <= i < |order| && order[i] != ZeroHash;
        assert !(forall j :: 0 <= j < k ==> order[j] == ZeroHash) by {
          assert order[i] != ZeroHash;
        }
      }
    } else {
      var sigEntry := order[k];
      var found' := if found == ZeroHash then sigEntry else found;
      assert order[k..][0] == sigEntry;
      assert order[k..][1..] == order[k + 1..];
      if Greater(sigEntry, r) {
        assert FirstGreaterAt(order, r, k);
      } else {
        assert FoundSoFar(order, k + 1, found') by {
          if j :| 0 <= j < k && FirstNonZeroAt(order, j) && order[j] == found {
            assert found != ZeroHash;
          } else if sigEntry != ZeroHash && found == ZeroHash {
            assert FirstNonZeroAt(order, k);
          }
        }
        ScanFromIsVictim(order, k + 1, r, found');
      }
    }
  }

  /** The scan in Add removes exactly the key the eviction rule names. */
  lemma EvictionVictimIsVictim(order: seq<Hash>, r: Hash)
    ensures IsVictim(order, r, EvictionVictim(order, r))
  {
    ScanFromIsVictim(order, 0, r, ZeroHash);
  }

  /** The eviction rule names a single key. */
  lemma IsVictimUnique(order: seq<Hash>, r: Hash, v1: Hash, v2: Hash)
    requires IsVictim(order, r, v1) && IsVictim(order, r, v2)
    ensures v1 == v2
  {
    if exists i :: 0 <= i < |order| && Greater(order[i], r) {
      var i1 :| FirstGreaterAt(order, r, i1) && order[i1] == v1;
      var i2 :| FirstGreaterAt(order, r, i2) && order[i2] == v2;
    } else if exists i :: 0 <= i < |order| && order[i] != ZeroHash {
      var i1 :| FirstNonZeroAt(order, i1) && order[i1] == v1;
      var i2 :| FirstNonZeroAt(order, i2) && order[i2] == v2;
    }
  }

  /** The scan's result is characterised by the eviction rule, both ways. */
  lemma EvictionVictimCharacterised(order: seq<Hash>, r: Hash, v: Hash)
    ensures IsVictim(order, r, v) <==> v == EvictionVictim(order, r)
  {
    EvictionVictimIsVictim(order, r);
    if IsVictim(order, r, v) {
      IsVictimUnique(order, r, v, EvictionVictim(order, r));
    }
  }

  /** Over a non-empty key list the victim is one of the listed keys, and it
      is the zero hash only when nothing else is listed before it. */
  lemma EvictionVictimPresent(order: seq<Hash>, r: Hash)
    requires |order| > 0
    ensures EvictionVictim(order, r) in order
    ensures EvictionVictim(order, r) == ZeroHash ==>
      forall i :: 0 <= i < |order| ==> order[i] == ZeroHash
  {
    var v := EvictionVictim(order, r);
    EvictionVictimIsVictim(order, r);
    if exists i :: 0 <= i < |order| && Greater(order[i], r) {
      var i :| FirstGreaterAt(order, r, i) && order[i] == v;
      ZeroHashNeverGreater(r);
    } else if exists i :: 0 <= i < |order| && order[i] != ZeroHash {
      var i :| FirstNonZeroAt(order, i) && order[i] == v;
    } else {
      assert order[0] == ZeroHash;
    }
  }

  /* ---------------------------------------------------------------------- */
  /* The random threshold                                                    */
  /* ---------------------------------------------------------------------- */

  /** Byte 8*i+j of the threshold holds bits 56-8j .. 63-8j of output i. */
  lemma RandomHashByte(vs: seq<uint64>, i: nat, j: nat)
    requires |vs| == 4 && i < 4 && j < 8
    ensures RandomHash(vs)[8 * i + j] == (vs[i] / Pow256(7 - j)) % 256
  {
    PackBigEndianByte(vs, i, j);
    PutUint64Byte(vs[i], j);
  }

  /** Reading the threshold back eight bytes at a time gives the outputs. */
  lemma RandomHashWords(vs: seq<uint64>, i: nat)
    requires |vs| == 4 && i < 4
    ensures Uint64(RandomHash(vs)[8 * i .. 8 * i + 8]) == vs[i]
  {
    var word := RandomHash(vs)[8 * i .. 8 * i + 8];
    forall j | 0 <= j < 8
      ensures word[j] == PutUint64(vs[i])[j]
    {
      PackBigEndianByte(vs, i, j);
    }
    assert word == PutUint64(vs[i]);
    Uint64PutUint64(vs[i]);
  }

  /** Drawing n + m outputs is drawing n, then m more from the state reached. */
  lemma {:induction false} DrawsAdd<S>(next: S -> (uint64, S), s: S, n: nat, m: nat)
    ensures var first := Draws(next, s, n);
      var rest := Draws(next, first.1, m);
      Draws(next, s, n + m) == (first.0 + rest.0, rest.1)
  {
    if n > 0 {
      var step := next(s);
      DrawsAdd(next, step.1, n - 1, m);
      var first := Draws(next, step.1, n - 1);
      var rest := Draws(next, first.1, m);
      assert [step.0] + (first.0 + rest.0) == ([step.0] + first.0) + rest.0;
    } else {
      var rest := Draws(next, s, m);
      assert [] + rest.0 == rest.0;
    }
  }

  /* ---------------------------------------------------------------------- */
  /* Add                                                                     */
  /* ---------------------------------------------------------------------- */

  /** The key the next eviction of c would remove. */
  function NextVictim<S>(c: SigCacheXor<S>, next: S -> (uint64, S), order: seq<Hash>): Hash
  {
    EvictionVictim(order, DrawThreshold(next, c.xorShift).0)
  }

  lemma CardRemoveKey<K, V>(m: map<K, V>, k: K)
    requires k in m
    ensures |m - {k}| == |m| - 1
  {
    assert (m - {k}).Keys == m.Keys - {k};
    assert |m.Keys - {k}| == |m.Keys| - 1;
  }

  /** A cache with room: nothing is evicted, the generator is not advanced,
      and the only change is that sigHash maps to the new entry. */
  lemma AddBelowCapacity<S>(c: SigCacheXor<S>, next: S -> (uint64, S), order: seq<Hash>,
                            sigHash: Hash, sig: Signature, pubKey: PublicKey)
    requires IsIterationOrder(order, c.validSigs)
    requires |c.validSigs| < c.maxEntries
    ensures var c' := Add(c, next, order, sigHash, sig, pubKey);
      && c'.validSigs.Keys == c.validSigs.Keys + {sigHash}
      && c'.validSigs[sigHash] == SigCacheEntry(sig, pubKey)
      && (forall k :: k in c.validSigs && k != sigHash ==> c'.validSigs[k] == c.validSigs[k])
      && c'.xorShift == c.xorShift
  {}

  /** A full cache: exactly one present key, the one the eviction rule names
      for the threshold of the next four generator outputs, is removed; the
      generator advances by those four outputs; every other key keeps its
      entry and sigHash maps to the new entry. */
  lemma AddAtCapacity<S>(c: SigCacheXor<S>, next: S -> (uint64, S), order: seq<Hash>,
                         sigHash: Hash, sig: Signature, pubKey: PublicKey)
    requires IsIterationOrder(order, c.validSigs)
    requires 0 < c.maxEntries <= |c.validSigs|
    ensures var drawn := DrawThreshold(next, c.xorShift);
      var v := NextVictim(c, next, order);
      var c' := Add(c, next, order, sigHash, sig, pubKey);
      && v in c.validSigs
      && c'.validSigs.Keys == (c.validSigs.Keys - {v}) + {sigHash}
      && c'.validSigs[sigHash] == SigCacheEntry(sig, pubKey)
      && (forall k :: k in c.validSigs && k != v && k != sigHash ==> c'.validSigs[k] == c.validSigs[k])
      && c'.xorShift == drawn.1
  {
    var drawn := DrawThreshold(next, c.xorShift);
    assert c.validSigs != map[];
    var k :| k in c.validSigs;
    assert k in order;
    EvictionVictimPresent(order, drawn.0);
    EvictionVictimIsVictim(order, drawn.0);
  }

  /** The size bound survives every Add, and a genuinely new key added to a
      full cache leaves it exactly full. */
  lemma AddKeepsBound<S>(c: SigCacheXor<S>, next: S -> (uint64, S), order: seq<Hash>,
                         sigHash: Hash, sig: Signature, pubKey: PublicKey)
    requires IsIterationOrder(order, c.validSigs)
    requires Valid(c)
    ensures Valid(Add(c, next, order, sigHash, sig, pubKey))
    ensures sigHash !in c.validSigs && 0 < c.maxEntries == |c.validSigs| ==>
      |Add(c, next, order, sigHash, sig, pubKey).validSigs| == c.maxEntries
  {
    var c' := Add(c, next, order, sigHash, sig, pubKey);
    if c.maxEntries > 0 {
      if |c.validSigs| < c.maxEntries {
        AddBelowCapacity(c, next, order, sigHash, sig, pubKey);
        assert c'.validSigs == c.validSigs[sigHash := SigCacheEntry(sig, pubKey)];
      } else {
        AddAtCapacity(c, next, order, sigHash, sig, pubKey);
        var v := NextVictim(c, next, order);
        CardRemoveKey(c.validSigs, v);
        assert c'.validSigs == (c.validSigs - {v})[sigHash := SigCacheEntry(sig, pubKey)];
        if sigHash !in c.validSigs {
          assert sigHash !in c.validSigs - {v};
        }
      }
    }
  }

  /** Re-adding a key that is already present to a full cache still evicts:
      the cache shrinks by one unless the victim is that very key. */
  lemma ReAddAtCapacity<S>(c: SigCacheXor<S>, next: S -> (uint64, S), order: seq<Hash>,
                           sigHash: Hash, sig: Signature, pubKey: PublicKey)
    requires IsIterationOrder(order, c.validSigs)
    requires 0 < c.maxEntries <= |c.validSigs|
    requires sigHash in c.validSigs
    ensures |Add(c, next, order, sigHash, sig, pubKey).validSigs| ==
      if NextVictim(c, next, order) == sigHash then |c.validSigs| else |c.validSigs| - 1
  {
    var c' := Add(c, next, order, sigHash, sig, pubKey);
    var v := NextVictim(c, next, order);
    AddAtCapacity(c, next, order, sigHash, sig, pubKey);
    CardRemoveKey(c.validSigs, v);
    if v == sigHash {
      assert c'.validSigs.Keys == c.validSigs.Keys;
      assert |c'.validSigs| == |c'.validSigs.Keys|;
    } else {
      assert c'.validSigs == (c.validSigs - {v})[sigHash := SigCacheEntry(sig, pubKey)];
      assert sigHash in c.validSigs - {v};
    }
  }

  /** Adding a pair that is already cached to a cache with room changes
      nothing at all. */
  lemma AddIdempotentBelowCapacity<S>(c: SigCacheXor<S>, next: S -> (uint64, S), order: seq<Hash>,
                                      sigHash: Hash, sig: Signature, pubKey: PublicKey)
    requires IsIterationOrder(order, c.validSigs)
    requires |c.validSigs| < c.maxEntries
    requires Exists(c, sigHash, sig, pubKey)
    ensures Add(c, next, order, sigHash, sig, pubKey) == c
  {
    var c' := Add(c, next, order, sigHash, sig, pubKey);
    assert c'.validSigs == c.validSigs;
  }

  /* ---------------------------------------------------------------------- */
  /* Exists                                                                  */
  /* ---------------------------------------------------------------------- */

  /** After Add on a cache that can hold entries, the hash answers Exists for
      exactly the pair just added and for no other pair. */
  lemma ExistsAfterAdd<S>(c: SigCacheXor<S>, next: S -> (uint64, S), order: seq<Hash>,
                          sigHash: Hash, sig: Signature, pubKey: PublicKey,
                          sig': Signature, pubKey': PublicKey)
    requires IsIterationOrder(order, c.validSigs)
    requires c.maxEntries > 0
    ensures Exists(Add(c, next, order, sigHash, sig, pubKey), sigHash, sig', pubKey')
        <==> sig' == sig && pubKey' == pubKey
  {
    var c' := Add(c, next, order, sigHash, sig, pubKey);
    assert (sigHash, SigCacheEntry(sig, pubKey)) in c'.validSigs.Items;
  }

  /** A cache of capacity zero stays empty and never reports a hit. */
  lemma ZeroCapacityInert<S>(c: SigCacheXor<S>, next: S -> (uint64, S), order: seq<Hash>,
                             sigHash: Hash, sig: Signature, pubKey: PublicKey)
    requires IsIterationOrder(order, c.validSigs)
    requires Valid(c) && c.maxEntries == 0
    ensures Add(c, next, order, sigHash, sig, pubKey).validSigs == map[]
    ensures !Exists(c, sigHash, sig, pubKey)
  {
    assert c.validSigs == map[];
  }

  /* ---------------------------------------------------------------------- */
  /* Scenarios                                                               */
  /* ---------------------------------------------------------------------- */

  /** Capacity 1: adding a second hash replaces the first. */
  lemma CapacityOneReplaces<S>(c: SigCacheXor<S>, next: S -> (uint64, S), order: seq<Hash>,
                               h1: Hash, e1: SigCacheEntry,
                               h2: Hash, sig2: Signature, pubKey2: PublicKey)
    requires c.maxEntries == 1 && c.validSigs == map[h1 := e1]
    requires IsIterationOrder(order, c.validSigs)
    ensures Add(c, next, order, h2, sig2, pubKey2).validSigs == map[h2 := SigCacheEntry(sig2, pubKey2)]
  {
    var c' := Add(c, next, order, h2, sig2, pubKey2);
    AddAtCapacity(c, next, order, h2, sig2, pubKey2);
    assert c'.validSigs.Keys == {h2};
  }

  /** Capacity 2, two hashes cached: a third evicts exactly one of them. */
  lemma CapacityTwoEvictsOne<S>(c: SigCacheXor<S>, next: S -> (uint64, S), order: seq<Hash>,
                                h1: Hash, e1: SigCacheEntry, h2: Hash, e2: SigCacheEntry,
                                h3: Hash, sig3: Signature, pubKey3: PublicKey)
    requires c.maxEntries == 2 && h1 != h2 && h3 != h1 && h3 != h2
    requires c.validSigs == map[h1 := e1, h2 := e2]
    requires IsIterationOrder(order, c.validSigs)
    ensures var m := Add(c, next, order, h3, sig3, pubKey3).validSigs;
      && |m| == 2
      && Exists(Add(c, next, order, h3, sig3, pubKey3), h3, sig3, pubKey3)
      && ((h1 in m && h2 !in m) || (h1 !in m && h2 in m))
  {
    var c' := Add(c, next, order, h3, sig3, pubKey3);
    assert |c.validSigs| == 2 by {
      assert c.validSigs.Keys == {h1, h2};
    }
    AddAtCapacity(c, next, order, h3, sig3, pubKey3);
    AddKeepsBound(c, next, order, h3, sig3, pubKey3);
  }

  /** The hash whose last byte is b and whose other bytes are zero. */
  function SmallHash(b: byte): Hash
  {
    Zeros(31) + [b]
  }

  /** A generator stuck at its largest output. */
  function MaxOutput(s: int): (uint64, int)
  {
    (TwoTo64 - 1, s)
  }

  lemma MaxThresholdBeatsSmallHashes(b: byte)
    ensures !Greater(SmallHash(b), DrawThreshold(MaxOutput, 0).0)
  {
    var vs := Draws(MaxOutput, 0, 4).0;
    var r := RandomHash(vs);
    assert r[0] == 255 by {
      RandomHashByte(vs, 0, 0);
      assert vs[0] == TwoTo64 - 1;
      assert Pow256(7) == 0x100_0000_0000_0000;
      assert (TwoTo64 - 1) / 0x100_0000_0000_0000 == 255;
    }
    assert SmallHash(b)[0] == 0;
    assert Compare(SmallHash(b), r) == -1;
  }

  /** A concrete full cache where re-adding a cached pair evicts the other
      entry: a generator that always yields 2^64-1 gives a threshold no key
      exceeds, so the first non-zero key in iteration order goes. */
  lemma ReAddEvictsOther()
    ensures
      var e := SigCacheEntry(Signature(1, 1), PublicKey(1, 1));
      var c := SigCacheXor(map[SmallHash(1) := e, SmallHash(2) := e], 2, 0);
      && IsIterationOrder([SmallHash(2), SmallHash(1)], c.validSigs)
      && Exists(c, SmallHash(1), e.sig, e.pubKey)
      && Add(c, MaxOutput, [SmallHash(2), SmallHash(1)], SmallHash(1), e.sig, e.pubKey).validSigs
         == map[SmallHash(1) := e]
  {
    var one, two := SmallHash(1), SmallHash(2);
    var e := SigCacheEntry(Signature(1, 1), PublicKey(1, 1));
    var c := SigCacheXor(map[one := e, two := e], 2, 0);
    var order := [two, one];
    assert one != two by {
      assert one[31] != two[31];
    }
    assert two != ZeroHash by {
      assert two[31] != ZeroHash[31];
    }
    assert IsIterationOrder(order, c.validSigs);
    var r := DrawThreshold(MaxOutput, 0).0;
    MaxThresholdBeatsSmallHashes(1);
    MaxThresholdBeatsSmallHashes(2);
    assert order[1..] == [one] && [one][1..] == [];
    assert ScanFrom(order, r, ZeroHash) == ScanFrom([one], r, two);
    assert ScanFrom([one], r, two) == ScanFrom([], r, two);
    assert EvictionVictim(order, r) == two;
    assert |c.validSigs| == 2 by {
      assert c.validSigs.Keys == {one, two};
    }
    var c' := Add(c, MaxOutput, order, one, e.sig, e.pubKey);
    assert c'.validSigs == (c.validSigs - {two})[one := e];
  }
}
