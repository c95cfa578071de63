/**
 Host addresses on NAT networks. No table of leases exists: every container interface asks for
 its own address, and each call recomputes the whole assignment from the lab by sorted-key open
 addressing. What has to hold is agreement between the separate calls.
 */
module NatAllocator {
  import opened ByteOrder
  import opened Numerals

  datatype Nic = Nic(network: string, externalLink: string)
  datatype Container = Container(id: string, dhcp: bool, networks: seq<Nic>)

  /** FNV-1a is not modelled: any function from text to a 32-bit value. */
  type Hash = bytes -> nat

  const FIRST_HOST: nat := 20
  const SWITCH_SLOTS: nat := 80
  const EXTERNAL_SLOTS: nat := 200

  // ---------------------------------------------------------------- endpoint keys

  function EndpointKey(id: string, index: nat): bytes {
    id + "|" + Itoa(index)
  }

  /** The last bar splits a key, so keys are injective even where an id contains bars itself. */
  lemma EndpointKeyInjective(id1: string, index1: nat, id2: string, index2: nat)
    requires EndpointKey(id1, index1) == EndpointKey(id2, index2)
    ensures id1 == id2 && index1 == index2
  {
    var key := EndpointKey(id1, index1);
    LastBar(id1, index1);
    LastBar(id2, index2);
    assert |id1| == |id2|;
    assert id1 == key[..|id1|] && id2 == key[..|id1|];
    assert Itoa(index1) == key[|id1| + 1..] && Itoa(index2) == key[|id1| + 1..];
    ItoaInjective(index1, index2);
  }

  lemma LastBar(id: string, index: nat)
    ensures var key := EndpointKey(id, index);
      key[|id|] == '|' && forall i | |id| < i < |key| :: key[i] != '|'
  {
    var key := EndpointKey(id, index);
    assert forall i | |id| < i < |key| :: key[i] == NatText(index)[i - |id| - 1];
  }

  function ContainerKeys(ct: Container, matches: Nic -> bool, n: nat): set<bytes>
    requires n <= |ct.networks|
  {
    if n == 0 then {}
    else
      var before := ContainerKeys(ct, matches, n - 1);
      if matches(ct.networks[n - 1]) then before + {EndpointKey(ct.id, n - 1)} else before
  }

  /** Keys of the matching interfaces of every container that is not a DHCP service. */
  function MatchingKeys(containers: seq<Container>, matches: Nic -> bool): set<bytes> {
    if containers == [] then {}
    else
      var last := containers[|containers| - 1];
      MatchingKeys(containers[..|containers| - 1], matches)
      + (if last.dhcp then {} else ContainerKeys(last, matches, |last.networks|))
  }

  predicate Endpoint(containers: seq<Container>, matches: Nic -> bool, ct: Container, index: nat) {
    ct in containers && !ct.dhcp && index < |ct.networks| && matches(ct.networks[index])
  }

  lemma {:induction false} ContainerKeysHas(ct: Container, matches: Nic -> bool, n: nat, index: nat)
    requires index < n <= |ct.networks| && matches(ct.networks[index])
    ensures EndpointKey(ct.id, index) in ContainerKeys(ct, matches, n)
  {
    if index < n - 1 {
      ContainerKeysHas(ct, matches, n - 1, index);
    }
  }

  lemma {:induction false} EndpointIsCollected(containers: seq<Container>, matches: Nic -> bool, ct: Container, index: nat)
    requires Endpoint(containers, matches, ct, index)
    ensures EndpointKey(ct.id, index) in MatchingKeys(containers, matches)
  {
    var last := containers[|containers| - 1];
    if ct == last {
      ContainerKeysHas(ct, matches, |ct.networks|, index);
    } else {
      EndpointIsCollected(containers[..|containers| - 1], matches, ct, index);
    }
  }

  lemma {:induction false} CollectedIsEndpoint(containers: seq<Container>, matches: Nic -> bool, key: bytes)
      returns (ct: Container, index: nat)
    requires key in MatchingKeys(containers, matches)
    ensures Endpoint(containers, matches, ct, index) && key == EndpointKey(ct.id, index)
  {
    ct := containers[|containers| - 1];
    if !ct.dhcp && key in ContainerKeys(ct, matches, |ct.networks|) {
      index := |ct.networks| - 1;
      while !(matches(ct.networks[index]) && key == EndpointKey(ct.id, index))
        invariant index < |ct.networks| && key in ContainerKeys(ct, matches, index + 1)
        decreases index
      {
        assert index > 0;
        index := index - 1;
      }
    } else {
      ct, index := CollectedIsEndpoint(containers[..|containers| - 1], matches, key);
    }
  }

  // ---------------------------------------------------------------- open addressing

  function Candidate(preferred: nat, probe: nat, slots: nat): (c: nat)
    requires slots > 0
    ensures c < slots
  {
    (preferred + probe) % slots
  }

  /** The first free slot from preferred onwards, cyclically; preferred itself if none is free. */
  function Probe(preferred: nat, used: set<nat>, slots: nat, probe: nat): nat
    requires slots > 0
    decreases slots - probe
  {
    if probe >= slots then preferred
    else
      var candidate := Candidate(preferred, probe, slots);
      if candidate !in used then candidate else Probe(preferred, used, slots, probe + 1)
  }

  function Taken(claims: seq<nat>): set<nat> {
    set c | c in claims
  }

  /** Slots in key order: each key takes the first free slot after its hash. */
  function Claims(keys: seq<bytes>, hash: Hash, slots: nat): (claims: seq<nat>)
    requires slots > 0
    ensures |claims| == |keys|
  {
    if keys == [] then []
    else
      var before := Claims(keys[..|keys| - 1], hash, slots);
      before + [Probe(hash(keys[|keys| - 1]) % slots, Taken(before), slots, 0)]
  }

  lemma WrapAround(x: nat, slots: nat)
    requires x < 2 * slots
    ensures x % slots == if x < slots then x else x - slots
  {
    var q := x / slots;
    assert x == q * slots + x % slots;
    assert q >= 2 ==> q * slots >= 2 * slots;
    assert q == 1 ==> q * slots == slots;
  }

  lemma {:induction false} ProbeFindsFree(preferred: nat, used: set<nat>, slots: nat, probe: nat)
    requires slots > 0
    requires exists p :: probe <= p < slots && Candidate(preferred, p, slots) !in used
    ensures Probe(preferred, used, slots, probe) < slots && Probe(preferred, used, slots, probe) !in used
    decreases slots - probe
  {
    if Candidate(preferred, probe, slots) in used {
      ProbeFindsFree(preferred, used, slots, probe + 1);
    }
  }

  /** Pigeonhole: while fewer than slots are taken, cyclic probing from anywhere meets a free one. */
  lemma FreeSlotIsProbed(preferred: nat, used: set<nat>, slots: nat)
    requires preferred < slots && |used| < slots
    ensures Probe(preferred, used, slots, 0) < slots && Probe(preferred, used, slots, 0) !in used
  {
    if Below(slots) <= used {
      SubsetCount(Below(slots), used);
      assert false;
    }
    var c :| c in Below(slots) && c !in used;
    var p := if c >= preferred then c - preferred else c - preferred + slots;
    WrapAround(preferred + p, slots);
    assert Candidate(preferred, p, slots) == c;
    ProbeFindsFree(preferred, used, slots, 0);
  }

  function Below(n: nat): (s: set<nat>)
    ensures |s| == n && forall c: nat :: c in s <==> c < n
  {
    if n == 0 then {} else Below(n - 1) + {n - 1}
  }

  lemma SubsetCount(a: set<nat>, b: set<nat>)
    requires a <= b
    ensures |a| <= |b|
  {
    assert b == a + (b - a);
  }

  lemma {:induction false} TakenCount(claims: seq<nat>)
    ensures |Taken(claims)| <= |claims|
  {
    if claims != [] {
      var init := claims[..|claims| - 1];
      TakenCount(init);
      assert Taken(claims) == Taken(init) + {claims[|claims| - 1]};
    }
  }

  /** Up to slots keys receive pairwise different slots, all in range: no key falls back. */
  lemma {:induction false} ClaimsAreDistinct(keys: seq<bytes>, hash: Hash, slots: nat)
    requires 0 < slots && |keys| <= slots
    ensures forall i | 0 <= i < |keys| :: Claims(keys, hash, slots)[i] < slots
    ensures forall i, j | 0 <= i < j < |keys| :: Claims(keys, hash, slots)[i] != Claims(keys, hash, slots)[j]
  {
    hide Probe;
    if keys != [] {
      var before := Claims(keys[..|keys| - 1], hash, slots);
      ClaimsAreDistinct(keys[..|keys| - 1], hash, slots);
      TakenCount(before);
      var preferred := hash(keys[|keys| - 1]) % slots;
      FreeSlotIsProbed(preferred, Taken(before), slots);
      var next := Probe(preferred, Taken(before), slots, 0);
      assert Claims(keys, hash, slots) == before + [next];
      assert forall i | 0 <= i < |before| :: before[i] in Taken(before);
    }
  }

  lemma {:induction false} ClaimsOfPrefix(keys: seq<bytes>, hash: Hash, slots: nat, n: nat)
    requires slots > 0 && n <= |keys|
    ensures Claims(keys[..n], hash, slots) == Claims(keys, hash, slots)[..n]
  {
    if n == |keys| {
      assert keys[..n] == keys;
    } else {
      ClaimsOfPrefix(keys[..|keys| - 1], hash, slots, n);
      assert keys[..|keys| - 1][..n] == keys[..n];
    }
  }

  // ---------------------------------------------------------------- one call

  ghost function IndexOf(keys: seq<bytes>, key: bytes): (i: nat)
    requires key in keys
    ensures i < |keys| && keys[i] == key
  {
    var i :| 0 <= i < |keys| && keys[i] == key;
    i
  }

  /** The host a pool of keys gives one of its members. */
  ghost function HostIn(pool: set<bytes>, target: bytes, slots: nat, hash: Hash): Option<nat>
    requires slots > 0 && target in pool
  {
    if |pool| > slots then None
    else
      assert target in Elements(Ordered(pool));
      Some(FIRST_HOST + Claims(Ordered(pool), hash, slots)[IndexOf(Ordered(pool), target)])
  }

  function Pool(containers: seq<Container>, matches: Nic -> bool, target: bytes): set<bytes> {
    {target} + MatchingKeys(containers, matches)
  }

  lemma {:induction false} DistinctCount(keys: seq<bytes>)
    requires Distinct(keys)
    ensures |Elements(keys)| == |keys|
  {
    if keys != [] {
      DistinctCount(keys[1..]);
      assert keys == [keys[0]] + keys[1..];
      assert Elements(keys) == Elements(keys[1..]) + {keys[0]};
      assert keys[0] !in Elements(keys[1..]);
    }
  }

  method CollectKeys(containers: seq<Container>, target: bytes, matches: Nic -> bool) returns (keys: seq<bytes>)
    ensures Distinct(keys) && Elements(keys) == Pool(containers, matches, target)
  {
    keys := [target];
    var seen := {target};
    for c := 0 to |containers|
      invariant Distinct(keys) && Elements(keys) == seen == Pool(containers[..c], matches, target)
    {
      var ct := containers[c];
      assert containers[..c + 1][..c] == containers[..c];
      if ct.dhcp {
        continue;
      }
      for index := 0 to |ct.networks|
        invariant Distinct(keys) && Elements(keys) == seen
        invariant seen == Pool(containers[..c], matches, target) + ContainerKeys(ct, matches, index)
      {
        if !matches(ct.networks[index]) {
          continue;
        }
        var key := EndpointKey(ct.id, index);
        if key in seen {
          continue;
        }
        assert key !in Elements(keys);
        seen := seen + {key};
        keys := keys + [key];
      }
    }
    assert containers[..|containers|] == containers;
  }

  /** natContainerHost: the loop over sorted keys, returning when the target's turn comes. */
  method NatContainerHost(containers: seq<Container>, targetId: string, targetIndex: nat, slots: nat,
                          matches: Nic -> bool, hash: Hash) returns (host: Option<nat>)
    requires slots > 0
    ensures var target := EndpointKey(targetId, targetIndex);
      host == HostIn(Pool(containers, matches, target), target, slots, hash)
  {
    hide Claims, SortKeys, MatchingKeys, Ascending, Distinct;
    var target := EndpointKey(targetId, targetIndex);
    var keys := CollectKeys(containers, target, matches);
    ghost var pool := Pool(containers, matches, target);
    DistinctCount(keys);
    if |keys| > slots {
      return None;
    }
    SortKeysSorts(keys);
    keys := SortKeys(keys);
    AscendingIsUnique(keys, Ordered(pool));
    AscendingCount(keys);
    assert target in Elements(keys);
    var result := HostOfSorted(keys, target, slots, hash);
    return Some(result);
  }

  method HostOfSorted(keys: seq<bytes>, target: bytes, slots: nat, hash: Hash) returns (host: nat)
    requires 0 < slots && Ascending(keys) && target in keys
    ensures host == FIRST_HOST + Claims(keys, hash, slots)[IndexOf(keys, target)]
  {
    hide Probe, Ascending;
    var used: set<nat> := {};
    for k := 0 to |keys|
      invariant used == Taken(Claims(keys[..k], hash, slots))
      invariant target !in keys[..k]
    {
      ClaimOfNext(keys, hash, slots, k);
      var preferred := hash(keys[k]) % slots;
      var slot := AssignSlot(preferred, used, slots);
      used := used + {slot};
      if keys[k] == target {
        UniqueIndex(keys, target, k);
        return FIRST_HOST + slot;
      }
      assert keys[..k + 1] == keys[..k] + [keys[k]];
    }
    assert false;
  }

  lemma ClaimOfNext(keys: seq<bytes>, hash: Hash, slots: nat, k: nat)
    requires slots > 0 && k < |keys|
    ensures Claims(keys, hash, slots)[k]
         == Probe(hash(keys[k]) % slots, Taken(Claims(keys[..k], hash, slots)), slots, 0)
    ensures Taken(Claims(keys[..k + 1], hash, slots))
         == Taken(Claims(keys[..k], hash, slots)) + {Claims(keys, hash, slots)[k]}
  {
    hide Probe;
    assert keys[..k + 1][..k] == keys[..k];
    ClaimsOfPrefix(keys, hash, slots, k + 1);
  }

  lemma UniqueIndex(keys: seq<bytes>, key: bytes, k: nat)
    requires Ascending(keys) && k < |keys| && keys[k] == key
    ensures IndexOf(keys, key) == k
  {
    LessIsTotal(key, key);
  }

  method AssignSlot(preferred: nat, used: set<nat>, slots: nat) returns (slot: nat)
    requires preferred < slots
    ensures slot == Probe(preferred, used, slots, 0)
  {
    slot := preferred;
    for probe := 0 to slots
      invariant slot == preferred
      invariant Probe(preferred, used, slots, 0) == Probe(preferred, used, slots, probe)
    {
      var candidate := Candidate(preferred, probe, slots);
      if candidate in used {
        continue;
      }
      slot := candidate;
      break;
    }
  }

  // ---------------------------------------------------------------- agreement between calls

  lemma HostsDiffer(pool: set<bytes>, a: bytes, b: bytes, slots: nat, hash: Hash)
    requires 0 < slots && |pool| <= slots && a in pool && b in pool && a != b
    ensures HostIn(pool, a, slots, hash).Some? && HostIn(pool, b, slots, hash).Some?
    ensures HostIn(pool, a, slots, hash) != HostIn(pool, b, slots, hash)
    ensures FIRST_HOST <= HostIn(pool, a, slots, hash).value < FIRST_HOST + slots
  {
    var keys := Ordered(pool);
    AscendingCount(keys);
    ClaimsAreDistinct(keys, hash, slots);
    assert a in Elements(keys) && b in Elements(keys);
    var i, j := IndexOf(keys, a), IndexOf(keys, b);
    if i < j { assert Claims(keys, hash, slots)[i] != Claims(keys, hash, slots)[j]; }
    else { assert Claims(keys, hash, slots)[j] != Claims(keys, hash, slots)[i]; }
  }

  /** The host one interface of a container computes for itself. */
  ghost function HostOf(containers: seq<Container>, matches: Nic -> bool, ct: Container, index: nat,
                        slots: nat, hash: Hash): Option<nat>
    requires slots > 0
  {
    var target := EndpointKey(ct.id, index);
    HostIn(Pool(containers, matches, target), target, slots, hash)
  }

  /**
   Main theorem: as long as a network's interfaces fit its slots, the separate calls made for two
   different interfaces both succeed, in range, with different hosts.
   */
  lemma SeparateCallsAgree(containers: seq<Container>, matches: Nic -> bool, slots: nat, hash: Hash,
                           ct1: Container, index1: nat, ct2: Container, index2: nat)
    requires 0 < slots && |MatchingKeys(containers, matches)| <= slots
    requires Endpoint(containers, matches, ct1, index1) && Endpoint(containers, matches, ct2, index2)
    requires ct1.id != ct2.id || index1 != index2
    ensures var h1, h2 := HostOf(containers, matches, ct1, index1, slots, hash),
                          HostOf(containers, matches, ct2, index2, slots, hash);
      && h1.Some? && h2.Some? && h1 != h2
      && FIRST_HOST <= h1.value < FIRST_HOST + slots && FIRST_HOST <= h2.value < FIRST_HOST + slots
  {
    var k1, k2 := EndpointKey(ct1.id, index1), EndpointKey(ct2.id, index2);
    EndpointIsCollected(containers, matches, ct1, index1);
    EndpointIsCollected(containers, matches, ct2, index2);
    if k1 == k2 { EndpointKeyInjective(ct1.id, index1, ct2.id, index2); assert false; }
    var pool := MatchingKeys(containers, matches);
    assert Pool(containers, matches, k1) == pool && Pool(containers, matches, k2) == pool;
    HostsDiffer(pool, k1, k2, slots, hash);
    HostsDiffer(pool, k2, k1, slots, hash);
  }

  /** Success is exactly fitting: with more interfaces than slots every call of that network fails. */
  lemma FailsExactlyWhenOverfull(containers: seq<Container>, matches: Nic -> bool, slots: nat, hash: Hash,
                                 ct: Container, index: nat)
    requires 0 < slots && Endpoint(containers, matches, ct, index)
    ensures HostOf(containers, matches, ct, index, slots, hash).None?
       <==> |MatchingKeys(containers, matches)| > slots
  {
    EndpointIsCollected(containers, matches, ct, index);
    assert Pool(containers, matches, EndpointKey(ct.id, index)) == MatchingKeys(containers, matches);
  }

  /** Listing the containers in another order, or repeating one, moves nobody. */
  lemma OrderDoesNotMatter(a: seq<Container>, b: seq<Container>, matches: Nic -> bool, slots: nat, hash: Hash,
                           ct: Container, index: nat)
    requires slots > 0 && forall c :: c in a <==> c in b
    ensures HostOf(a, matches, ct, index, slots, hash) == HostOf(b, matches, ct, index, slots, hash)
  {
    hide HostIn;
    SameKeys(a, b, matches);
    SameKeys(b, a, matches);
    assert MatchingKeys(a, matches) == MatchingKeys(b, matches);
  }

  lemma SameKeys(a: seq<Container>, b: seq<Container>, matches: Nic -> bool)
    requires forall c :: c in a ==> c in b
    ensures MatchingKeys(a, matches) <= MatchingKeys(b, matches)
  {
    forall key | key in MatchingKeys(a, matches)
      ensures key in MatchingKeys(b, matches)
    {
      var ct, index := CollectedIsEndpoint(a, matches, key);
      EndpointIsCollected(b, matches, ct, index);
    }
  }

  // ---------------------------------------------------------------- addresses on a NAT switch

  datatype Lab = Lab(id: string, containers: seq<Container>)

  function SwitchPrefix(l: Lab, network: string, hash: Hash): bytes {
    "172.31." + Itoa(16 + hash(l.id + "/" + network) % 200)
  }

  function GatewayAddress(prefix: bytes): bytes { prefix + ".1" }
  function DhcpServerAddress(prefix: bytes): bytes { prefix + ".2/24" }
  function HostAddress(prefix: bytes, host: nat): bytes { prefix + ("." + Itoa(host)) + "/24" }

  function OnSwitch(network: string): Nic -> bool {
    (nic: Nic) => nic.network == network
  }

  method SwitchNatContainerAddress(l: Lab, network: string, ct: Container, index: nat, hash: Hash)
      returns (address: Option<bytes>)
    ensures address == SwitchAddress(l, network, ct, index, hash)
  {
    if ct.dhcp {
      return Some(DhcpServerAddress(SwitchPrefix(l, network, hash)));
    }
    var host := NatContainerHost(l.containers, ct.id, index, SWITCH_SLOTS, OnSwitch(network), hash);
    if host.None? {
      return None;
    }
    return Some(HostAddress(SwitchPrefix(l, network, hash), host.value));
  }

  ghost function SwitchAddress(l: Lab, network: string, ct: Container, index: nat, hash: Hash): Option<bytes> {
    var prefix := SwitchPrefix(l, network, hash);
    if ct.dhcp then Some(DhcpServerAddress(prefix))
    else match HostOf(l.containers, OnSwitch(network), ct, index, SWITCH_SLOTS, hash)
      case None => None
      case Some(host) => Some(HostAddress(prefix, host))
  }

  lemma HostAddressInjective(prefix: bytes, h1: nat, h2: nat)
    requires HostAddress(prefix, h1) == HostAddress(prefix, h2)
    ensures h1 == h2
  {
    var a1, a2 := HostAddress(prefix, h1), HostAddress(prefix, h2);
    assert Itoa(h1) == a1[|prefix| + 1..|a1| - 3] && Itoa(h2) == a2[|prefix| + 1..|a2| - 3];
    ItoaInjective(h1, h2);
  }

  /**
   On a switch with at most 80 attached interfaces, two of them get different addresses, neither is
   the gateway's or the DHCP server's, and both stay below the leases the DHCP service hands out (.100 to .254).
   */
  lemma SwitchAddressesDoNotClash(l: Lab, network: string, hash: Hash,
                                  ct1: Container, index1: nat, ct2: Container, index2: nat)
    requires |MatchingKeys(l.containers, OnSwitch(network))| <= SWITCH_SLOTS
    requires Endpoint(l.containers, OnSwitch(network), ct1, index1)
    requires Endpoint(l.containers, OnSwitch(network), ct2, index2)
    requires ct1.id != ct2.id || index1 != index2
    ensures var prefix := SwitchPrefix(l, network, hash);
      var a1, a2 := SwitchAddress(l, network, ct1, index1, hash), SwitchAddress(l, network, ct2, index2, hash);
      && a1.Some? && a2.Some? && a1 != a2
      && a1.value != DhcpServerAddress(prefix) && a1.value != GatewayAddress(prefix) + "/24"
      && exists host | 20 <= host < 100 :: a1.value == HostAddress(prefix, host)
  {
    SeparateCallsAgree(l.containers, OnSwitch(network), SWITCH_SLOTS, hash, ct1, index1, ct2, index2);
    var prefix := SwitchPrefix(l, network, hash);
    var h1 := HostOf(l.containers, OnSwitch(network), ct1, index1, SWITCH_SLOTS, hash).value;
    var h2 := HostOf(l.containers, OnSwitch(network), ct2, index2, SWITCH_SLOTS, hash).value;
    if HostAddress(prefix, h1) == HostAddress(prefix, h2) { HostAddressInjective(prefix, h1, h2); }
    DhcpIsHostTwo(prefix);
    if HostAddress(prefix, h1) == HostAddress(prefix, 2) { HostAddressInjective(prefix, h1, 2); }
    GatewayIsHostOne(prefix);
    if HostAddress(prefix, h1) == HostAddress(prefix, 1) { HostAddressInjective(prefix, h1, 1); }
    assert SwitchAddress(l, network, ct1, index1, hash).value == HostAddress(prefix, h1);
  }

  lemma GatewayIsHostOne(prefix: bytes)
    ensures GatewayAddress(prefix) + "/24" == HostAddress(prefix, 1)
  {
    assert Itoa(1) == "1";
    assert prefix + ".1" + "/24" == prefix + ("." + "1") + "/24";
  }

  lemma DhcpIsHostTwo(prefix: bytes)
    ensures DhcpServerAddress(prefix) == HostAddress(prefix, 2)
  {
    assert Itoa(2) == "2";
    assert "." + "2" + "/24" == ".2/24";
    assert prefix + ".2/24" == prefix + ("." + "2") + "/24";
  }
}
