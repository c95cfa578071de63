/** Which host an interface is given: the one its hash asks for, or the nearest after it that no interface before it has. */
module NatSlots {
  import opened ByteOrder
  import opened Numerals
  import opened NatAllocator

  /** The slot k places on, cyclically. */
  function Onwards(from: nat, k: nat, slots: nat): nat
    requires slots > 0
  {
    (from + k) % slots
  }

  lemma {:induction false} ProbesOnwards(preferred: nat, used: set<nat>, slots: nat, probe: nat, free: nat) returns (k: nat)
    requires probe <= free < slots && Onwards(preferred, free, slots) !in used
    ensures probe <= k <= free && Probe(preferred, used, slots, probe) == Onwards(preferred, k, slots) && Onwards(preferred, k, slots) !in used
    ensures forall j | probe <= j < k :: Onwards(preferred, j, slots) in used
    decreases slots - probe
  {
    if Onwards(preferred, probe, slots) !in used {
      k := probe;
    } else {
      k := ProbesOnwards(preferred, used, slots, probe + 1, free);
    }
  }

  lemma FreeIsOnwards(preferred: nat, c: nat, slots: nat) returns (k: nat)
    requires preferred < slots && c < slots
    ensures k < slots && Onwards(preferred, k, slots) == c
  {
    k := if c >= preferred then c - preferred else c - preferred + slots;
    WrapAround(preferred + k, slots);
  }

  /** The slot is k places after the one preferred, and every nearer one is taken. */
  predicate Nearest(preferred: nat, k: nat, slot: nat, taken: set<nat>, slots: nat)
    requires slots > 0
  {
    slot == Onwards(preferred, k, slots) && slot !in taken && forall j | 0 <= j < k :: Onwards(preferred, j, slots) in taken
  }

  lemma ClaimIsNearest(keys: seq<bytes>, hash: Hash, slots: nat, i: nat) returns (k: nat)
    requires 0 < slots && i < |keys| <= slots
    ensures var claims := Claims(keys, hash, slots);
      k < slots && Nearest(hash(keys[i]) % slots, k, claims[i], Taken(claims[..i]), slots)
  {
    hide Probe, Claims;
    var preferred := hash(keys[i]) % slots;
    ClaimOfNext(keys, hash, slots, i);
    ClaimsOfPrefix(keys, hash, slots, i);
    var taken := Taken(Claims(keys[..i], hash, slots));
    TakenCount(Claims(keys[..i], hash, slots));
    FreeSlotIsProbed(preferred, taken, slots);
    var free := FreeIsOnwards(preferred, Probe(preferred, taken, slots, 0), slots);
    k := ProbesOnwards(preferred, taken, slots, 0, free);
  }

  /** The slots of the members of a pool that come before this one in byte order. */
  ghost predicate TakenBefore(pool: set<bytes>, target: bytes, slots: nat, hash: Hash, slot: nat)
    requires slots > 0
  {
    exists key :: key in pool && Less(key, target) && HostIn(pool, key, slots, hash) == Some(FIRST_HOST + slot)
  }

  lemma HostOfIndex(pool: set<bytes>, i: nat, slots: nat, hash: Hash)
    requires 0 < slots && |pool| <= slots && i < |Ordered(pool)|
    ensures var keys := Ordered(pool); keys[i] in pool && HostIn(pool, keys[i], slots, hash) == Some(FIRST_HOST + Claims(keys, hash, slots)[i])
  {
    var keys := Ordered(pool);
    assert keys[i] in Elements(keys);
    UniqueIndex(keys, keys[i], i);
  }

  lemma LesserIsEarlier(keys: seq<bytes>, i: nat, j: nat)
    requires Ascending(keys) && i < |keys| && j < |keys|
    ensures Less(keys[j], keys[i]) <==> j < i
  {
    hide Less;
    LessIsTotal(keys[i], keys[j]);
    LessIsTotal(keys[j], keys[i]);
  }

  lemma TakenWasClaimed(pool: set<bytes>, i: nat, slots: nat, hash: Hash, slot: nat)
    requires 0 < slots && |pool| <= slots && i < |Ordered(pool)| && TakenBefore(pool, Ordered(pool)[i], slots, hash, slot)
    ensures slot in Claims(Ordered(pool), hash, slots)[..i]
  {
    hide HostIn, Claims, Less;
    var keys := Ordered(pool);
    var key :| key in pool && Less(key, keys[i]) && HostIn(pool, key, slots, hash) == Some(FIRST_HOST + slot);
    assert key in Elements(keys);
    var j :| 0 <= j < |keys| && keys[j] == key;
    HostOfIndex(pool, j, slots, hash);
    LesserIsEarlier(keys, i, j);
    assert Claims(keys, hash, slots)[..i][j] == slot;
  }

  lemma ClaimedIsTaken(pool: set<bytes>, i: nat, slots: nat, hash: Hash, slot: nat)
    requires 0 < slots && |pool| <= slots && i < |Ordered(pool)| && slot in Claims(Ordered(pool), hash, slots)[..i]
    ensures TakenBefore(pool, Ordered(pool)[i], slots, hash, slot)
  {
    hide HostIn, Claims, Less;
    var keys := Ordered(pool);
    var j :| 0 <= j < i && Claims(keys, hash, slots)[j] == slot;
    HostOfIndex(pool, j, slots, hash);
    LesserIsEarlier(keys, i, j);
  }

  lemma BeforeInWords(pool: set<bytes>, i: nat, slots: nat, hash: Hash, slot: nat)
    requires 0 < slots && |pool| <= slots && i < |Ordered(pool)|
    ensures TakenBefore(pool, Ordered(pool)[i], slots, hash, slot) <==> slot in Taken(Claims(Ordered(pool), hash, slots)[..i])
  {
    hide TakenBefore, Claims;
    if slot in Claims(Ordered(pool), hash, slots)[..i] { ClaimedIsTaken(pool, i, slots, hash, slot); }
    if TakenBefore(pool, Ordered(pool)[i], slots, hash, slot) { TakenWasClaimed(pool, i, slots, hash, slot); }
  }

  /**
   The host of an interface is the one its hash asks for, or the nearest after it, cyclically, that no interface with a
   lesser key has.
   */
  lemma HostIsNearest(pool: set<bytes>, target: bytes, slots: nat, hash: Hash) returns (k: nat)
    requires 0 < slots && |pool| <= slots && target in pool
    ensures var preferred := hash(target) % slots;
      && k < slots && HostIn(pool, target, slots, hash) == Some(FIRST_HOST + Onwards(preferred, k, slots))
      && !TakenBefore(pool, target, slots, hash, Onwards(preferred, k, slots))
      && forall j | 0 <= j < k :: TakenBefore(pool, target, slots, hash, Onwards(preferred, j, slots))
  {
    hide HostIn, Claims, Onwards, TakenBefore, Taken;
    var keys := Ordered(pool);
    AscendingCount(keys);
    assert target in Elements(keys);
    var i :| 0 <= i < |keys| && keys[i] == target;
    k := ClaimIsNearest(keys, hash, slots, i);
    HostOfIndex(pool, i, slots, hash);
    forall slot: nat { BeforeInWords(pool, i, slots, hash, slot); }
  }

  /** Alone on its network an interface has the host its hash asks for. */
  lemma AloneAsHashed(containers: seq<Container>, matches: Nic -> bool, ct: Container, index: nat, slots: nat, hash: Hash)
    requires 0 < slots && MatchingKeys(containers, matches) == {EndpointKey(ct.id, index)}
    ensures HostOf(containers, matches, ct, index, slots, hash) == Some(20 + hash(EndpointKey(ct.id, index)) % slots)
  {
    hide HostIn, TakenBefore;
    var target := EndpointKey(ct.id, index);
    var k := HostIsNearest({target}, target, slots, hash);
    assert Pool(containers, matches, target) == {target};
    NobodyBefore(target, slots, hash);
    assert !TakenBefore({target}, target, slots, hash, Onwards(hash(target) % slots, 0, slots));
    WrapAround(hash(target) % slots, slots);
  }

  lemma NobodyBefore(target: bytes, slots: nat, hash: Hash)
    requires slots > 0
    ensures forall slot: nat :: !TakenBefore({target}, target, slots, hash, slot)
  {
    LessIsTotal(target, target);
  }
}
