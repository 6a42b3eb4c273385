/**
 * The keys of the kernel's longest-prefix-match tries. A key is eight bytes: the prefix length in
 * little-endian order, then the network in network order. One builder plans the first load, another
 * gives the keyset the integrity check expects; the classifier never looks at either.
 */
module LpmKeys {
  import opened Bytes
  import opened EgressPolicy
  import opened Collections

  const MAX_ALLOWED_KEYS := 4096
  const MAX_IGNORED_NETS := 128

  type Key = b: bytes | |b| == 8 witness [0, 0, 0, 0, 0, 0, 0, 0]

  function MakeKey(ones: nat, network: Addr): (k: Key)
    requires ones <= 32
    ensures U32LE(k, 0) == ones && U32(k, 4) == network
  {
    PutU32LE(ones) + PutU32(network)
  }

  /** The key of 10.1.2.0/24, byte by byte. */
  lemma KeyBytes()
    ensures MakeKey(24, 0x0A01_0200) == [24, 0, 0, 0, 10, 1, 2, 0]
  {
  }

  function NetKey(n: Net): (k: Key)
    requires n.Net4? && n.ones <= 32
  {
    MakeKey(n.ones, Masked(n.addr, n.ones))
  }

  /** The address starts with the bits of the key. */
  ghost predicate Covers(k: Key, a: Addr)
  {
    U32LE(k, 0) <= 32 && Masked(a, U32LE(k, 0)) == Masked(U32(k, 4), U32LE(k, 0))
  }

  /** A trie lookup finds something. */
  ghost predicate Hit(keys: set<Key>, a: Addr)
  {
    exists k :: k in keys && Covers(k, a)
  }

  ghost function HostKeys(ips: set<Addr>): (r: set<Key>)
  {
    set a | a in ips :: MakeKey(32, a)
  }

  /** Only entries with a 32-bit mask make a key. */
  ghost function NetKeys(nets: seq<Net>): (r: set<Key>)
    requires ValidNets(nets)
  {
    set n | n in nets && n.Net4? :: NetKey(n)
  }

  /** The keys of the first `n` networks. */
  ghost function NetKeysTo(nets: seq<Net>, n: nat): (r: set<Key>)
    requires ValidNets(nets) && n <= |nets|
  {
    set k | 0 <= k < n && nets[k].Net4? :: NetKey(nets[k])
  }

  lemma NetKeysStep(nets: seq<Net>, n: nat)
    requires ValidNets(nets) && n < |nets|
    ensures NetKeysTo(nets, 0) == {}
    ensures NetKeysTo(nets, n + 1) == NetKeysTo(nets, n) + (if nets[n].Net4? then {NetKey(nets[n])} else {})
  {
    hide NetKey;
  }

  lemma NetKeysAll(nets: seq<Net>)
    requires ValidNets(nets)
    ensures NetKeysTo(nets, |nets|) == NetKeys(nets)
  {
    hide NetKey;
  }

  ghost function Literals(pol: Option<Policy>): (r: set<Addr>)
  {
    if pol.Some? then pol.value.ips else {}
  }

  ghost function AllowedNets(pol: Option<Policy>): (r: seq<Net>)
  {
    if pol.Some? then pol.value.nets else []
  }

  ghost function IgnoredNets(pol: Option<Policy>): (r: seq<Net>)
  {
    if pol.Some? then pol.value.ignored else []
  }

  ghost predicate Usable(pol: Option<Policy>)
  {
    pol.Some? ==> ValidPolicy(pol.value)
  }

  ghost function ExpectedAllowed(compiled: set<Addr>, pol: Option<Policy>): (r: set<Key>)
    requires Usable(pol)
  {
    HostKeys(compiled + Literals(pol)) + NetKeys(AllowedNets(pol))
  }

  ghost function ExpectedIgnored(pol: Option<Policy>): (r: set<Key>)
    requires Usable(pol)
  {
    NetKeys(IgnoredNets(pol))
  }

  // ---------- The builder for the integrity check ----------

  method KeysOfNets(nets: seq<Net>) returns (keys: set<Key>)
    requires ValidNets(nets)
    ensures keys == NetKeys(nets)
  {
    keys := {};
    for i := 0 to |nets|
      invariant keys == NetKeysTo(nets, i)
    {
      NetKeysStep(nets, i);
      if nets[i].Net4? {
        keys := keys + {NetKey(nets[i])};
      }
    }
    NetKeysAll(nets);
  }

  method KeysOfHosts(ips: set<Addr>) returns (keys: set<Key>)
    ensures keys == HostKeys(ips)
  {
    hide HostKeys, MakeKey;
    keys := {};
    NoHostKeys();
    var todo := ips;
    ghost var done: set<Addr> := {};
    while todo != {}
      invariant todo <= ips && keys == HostKeys(done)
      invariant forall a :: a in done <==> a in ips && a !in todo
      decreases todo
    {
      var a :| a in todo;
      HostKeysMore(done, a);
      todo, done := todo - {a}, done + {a};
      keys := keys + {MakeKey(32, a)};
    }
    assert done == ips;
  }

  method ExpectedAllowedKeys(compiled: set<Addr>, pol: Option<Policy>) returns (keys: set<Key>)
    requires Usable(pol)
    ensures keys == ExpectedAllowed(compiled, pol)
  {
    hide HostKeys, NetKeys;
    var v4 := if pol.Some? then compiled + pol.value.ips else compiled;
    assert v4 == compiled + Literals(pol);
    keys := KeysOfHosts(v4);
    var netKeys := KeysOfNets(if pol.Some? then pol.value.nets else []);
    keys := keys + netKeys;
  }

  lemma NoHostKeys()
    ensures HostKeys({}) == {}
  {
  }

  lemma HostKeysMore(s: set<Addr>, a: Addr)
    ensures HostKeys(s + {a}) == HostKeys(s) + {MakeKey(32, a)}
  {
    hide MakeKey;
  }

  method ExpectedIgnoredKeys(pol: Option<Policy>) returns (keys: set<Key>)
    requires Usable(pol)
    ensures keys == ExpectedIgnored(pol)
  {
    if pol.None? {
      return {};
    }
    keys := KeysOfNets(pol.value.ignored);
  }

  // ---------- The builder for the first load ----------

  datatype Plan = Plan(singleIPKeys: seq<Key>, cidrKeys: seq<Key>, totalEntries: nat)

  ghost predicate AllIPv4(nets: seq<Net>)
  {
    forall n :: n in nets ==> n.Net4?
  }

  /** Nothing is planned twice, within a list or across them, and the total is the number of keys. */
  ghost predicate GoodPlan(p: Plan, keys: set<Key>)
  {
    && NoRepeats(p.singleIPKeys) && NoRepeats(p.cidrKeys)
    && Elements(p.singleIPKeys) !! Elements(p.cidrKeys)
    && Elements(p.singleIPKeys) + Elements(p.cidrKeys) == keys
    && p.totalEntries == |p.singleIPKeys| + |p.cidrKeys| == |keys|
  }

  ghost predicate AscendingAddresses(keys: seq<Key>)
  {
    forall i, j :: 0 <= i < j < |keys| ==> U32(keys[i], 4) < U32(keys[j], 4)
  }

  method PlanSingles(ipKeys: set<Addr>) returns (keys: seq<Key>)
    ensures NoRepeats(keys) && Elements(keys) == HostKeys(ipKeys)
    ensures AscendingAddresses(keys)
  {
    hide NoRepeats, Elements, HostKeys, AscendingAddresses, MakeKey;
    var addrs := SortSet(ipKeys);
    assert forall k :: 0 <= k < |addrs| ==> addrs[k] in ipKeys;
    keys := [];
    for i := 0 to |addrs|
      invariant |keys| == i && forall k :: 0 <= k < i ==> keys[k] == MakeKey(32, addrs[k])
    {
      keys := keys + [MakeKey(32, addrs[i])];
    }
    KeysOfSorted(ipKeys, addrs, keys);
    SortedKeysAscend(ipKeys, addrs, keys);
  }

  lemma KeysOfSorted(ipKeys: set<Addr>, addrs: seq<nat>, keys: seq<Key>)
    requires Enumerates(addrs, ipKeys) && |keys| == |addrs|
    requires forall k :: 0 <= k < |addrs| ==> addrs[k] in ipKeys && keys[k] == MakeKey(32, addrs[k])
    ensures Elements(keys) == HostKeys(ipKeys)
  {
    hide MakeKey;
    assert forall k :: 0 <= k < |keys| ==> keys[k] in HostKeys(ipKeys);
    forall x | x in HostKeys(ipKeys)
      ensures x in keys
    {
      var a :| a in ipKeys && x == MakeKey(32, a);
      var k :| 0 <= k < |addrs| && addrs[k] == a;
      assert keys[k] == x;
    }
  }

  lemma SortedKeysAscend(ipKeys: set<Addr>, addrs: seq<nat>, keys: seq<Key>)
    requires Enumerates(addrs, ipKeys) && |keys| == |addrs|
    requires forall k :: 0 <= k < |addrs| ==> addrs[k] in ipKeys && keys[k] == MakeKey(32, addrs[k])
    ensures AscendingAddresses(keys) && NoRepeats(keys)
  {
    hide MakeKey, U32;
    assert forall k :: 0 <= k < |keys| ==> U32(keys[k], 4) == addrs[k];
  }

  method BuildAllowedLPMPlan(ipKeys: set<Addr>, nets: seq<Net>) returns (plan: Option<Plan>)
    requires ValidNets(nets)
    ensures plan.Some? <==> AllIPv4(nets)
    ensures plan.Some? ==> GoodPlan(plan.value, HostKeys(ipKeys) + NetKeys(nets))
  {
    hide GoodPlan, HostKeys, PlannedTo, NetKeys, NetKey, Elements, NoRepeats, AscendingAddresses;
    var singles := PlanSingles(ipKeys);
    var cidrs: seq<Key> := [];
    var seen := Elements(singles);
    SinglesPlan(singles, HostKeys(ipKeys));
    PlannedAll(ipKeys, nets);
    for i := 0 to |nets|
      invariant forall k :: 0 <= k < i ==> nets[k].Net4?
      invariant seen == PlannedTo(ipKeys, nets, i)
      invariant GoodPlan(Plan(singles, cidrs, |seen|), seen)
    {
      if !nets[i].Net4? {
        return None;
      }
      var key := NetKey(nets[i]);
      PlannedStep(ipKeys, nets, i);
      if key !in seen {
        PlanOneMore(Plan(singles, cidrs, |seen|), seen, key);
        seen := seen + {key};
        cidrs := cidrs + [key];
      }
    }
    return Some(Plan(singles, cidrs, |seen|));
  }

  ghost function PlannedTo(ipKeys: set<Addr>, nets: seq<Net>, n: nat): (r: set<Key>)
    requires ValidNets(nets) && n <= |nets|
  {
    HostKeys(ipKeys) + NetKeysTo(nets, n)
  }

  lemma PlannedStep(ipKeys: set<Addr>, nets: seq<Net>, n: nat)
    requires ValidNets(nets) && n < |nets| && nets[n].Net4?
    ensures var before, key := PlannedTo(ipKeys, nets, n), NetKey(nets[n]);
            PlannedTo(ipKeys, nets, n + 1) == if key in before then before else before + {key}
  {
    hide HostKeys, NetKey;
    NetKeysStep(nets, n);
  }

  lemma PlannedAll(ipKeys: set<Addr>, nets: seq<Net>)
    requires ValidNets(nets)
    ensures PlannedTo(ipKeys, nets, |nets|) == HostKeys(ipKeys) + NetKeys(nets)
    ensures PlannedTo(ipKeys, nets, 0) == HostKeys(ipKeys)
  {
    NetKeysAll(nets);
  }

  lemma SinglesPlan(singles: seq<Key>, keys: set<Key>)
    requires NoRepeats(singles) && Elements(singles) == keys
    ensures GoodPlan(Plan(singles, [], |keys|), keys)
  {
    DistinctSize(singles);
  }

  lemma PlanOneMore(p: Plan, keys: set<Key>, key: Key)
    requires GoodPlan(p, keys) && key !in keys
    ensures GoodPlan(Plan(p.singleIPKeys, p.cidrKeys + [key], |keys + {key}|), keys + {key})
  {
    hide NoRepeats;
    ElementsMore(p.cidrKeys, key);
    assert key !in Elements(p.cidrKeys);
    MoreWithoutRepeats(p.cidrKeys, key);
  }

  lemma {:induction false} DistinctSize<T>(s: seq<T>)
    requires NoRepeats(s)
    ensures |Elements(s)| == |s|
  {
    if s != [] {
      var front, last := s[..|s| - 1], s[|s| - 1];
      DistinctSize(front);
      assert Elements(s) == Elements(front) + {last};
    }
  }

  /** Succeeds exactly when every allowed network is IPv4 and the keys fit the kernel map. */
  method BuildDefendAllowedPlan(compiled: set<Addr>, pol: Option<Policy>) returns (plan: Option<Plan>)
    requires Usable(pol)
    ensures plan.Some? <==> AllIPv4(AllowedNets(pol)) && |ExpectedAllowed(compiled, pol)| <= 4096
    ensures plan.Some? ==> GoodPlan(plan.value, ExpectedAllowed(compiled, pol))
  {
    hide HostKeys, NetKeys, NoRepeats, Elements;
    var v4 := if pol.Some? then compiled + pol.value.ips else compiled;
    assert v4 == compiled + Literals(pol);
    plan := BuildAllowedLPMPlan(v4, if pol.Some? then pol.value.nets else []);
    if plan.Some? && plan.value.totalEntries > MAX_ALLOWED_KEYS {
      return None;
    }
  }

  // ---------- The tries and the classifier ----------

  /** What the classifier says of a bare address, or the resolver found it. */
  ghost predicate LetThrough(fold: Fold, compiled: set<Addr>, pol: Option<Policy>, a: Addr)
    requires Usable(pol)
  {
    a in compiled || Classify(fold, pol, [], Some(a)) in {Allowed, Ignored}
  }

  ghost predicate InTries(compiled: set<Addr>, pol: Option<Policy>, a: Addr)
    requires Usable(pol)
  {
    Hit(ExpectedAllowed(compiled, pol), a) || Hit(ExpectedIgnored(pol), a)
  }

  /** In a network that the classifier scans but no builder can turn into a key. */
  ghost predicate InMapped(pol: Option<Policy>, a: Addr)
    requires Usable(pol)
  {
    exists n :: n in AllowedNets(pol) + IgnoredNets(pol) && n.Mapped? && Contains(n, a)
  }

  ghost predicate TriesAgree(fold: Fold, compiled: set<Addr>, pol: Option<Policy>)
    requires Usable(pol)
  {
    forall a :: LetThrough(fold, compiled, pol, a) <==> InTries(compiled, pol, a)
  }

  lemma CoversHost(h: Addr, a: Addr)
    ensures Covers(MakeKey(32, h), a) <==> a == h
  {
  }

  lemma CoversNet(n: Net, a: Addr)
    requires n.Net4? && n.ones <= 32
    ensures Covers(NetKey(n), a) <==> Contains(n, a)
  {
    ClearLowTwice(n.addr, 32 - n.ones);
  }

  lemma HitHosts(ips: set<Addr>, a: Addr)
    ensures Hit(HostKeys(ips), a) <==> a in ips
  {
    if a in ips {
      CoversHost(a, a);
      assert MakeKey(32, a) in HostKeys(ips);
    }
    if k :| k in HostKeys(ips) && Covers(k, a) {
      var h :| h in ips && k == MakeKey(32, h);
      CoversHost(h, a);
    }
  }

  lemma HitNets(nets: seq<Net>, a: Addr)
    requires ValidNets(nets)
    ensures Hit(NetKeys(nets), a) <==> exists n :: n in nets && n.Net4? && Contains(n, a)
  {
    if n :| n in nets && n.Net4? && Contains(n, a) {
      CoversNet(n, a);
      assert NetKey(n) in NetKeys(nets);
    }
    if k :| k in NetKeys(nets) && Covers(k, a) {
      var n :| n in nets && n.Net4? && k == NetKey(n);
      CoversNet(n, a);
    }
  }

  /** For one address: the classifier lets through what the tries hold, and what mapped networks hold. */
  lemma ClassifierIsTriesAndMapped(fold: Fold, compiled: set<Addr>, pol: Option<Policy>, a: Addr)
    requires Usable(pol)
    ensures LetThrough(fold, compiled, pol, a) <==> InTries(compiled, pol, a) || InMapped(pol, a)
  {
    hide Hit, Contains, HostKeys, NetKeys;
    HitUnion(HostKeys(compiled + Literals(pol)), NetKeys(AllowedNets(pol)), a);
    HitHosts(compiled + Literals(pol), a);
    HitNets(AllowedNets(pol), a);
    HitNets(IgnoredNets(pol), a);
    UnusableContainsNothing();
  }

  lemma HitUnion(s: set<Key>, t: set<Key>, a: Addr)
    ensures Hit(s + t, a) <==> Hit(s, a) || Hit(t, a)
  {
    hide Covers;
  }

  lemma UnusableContainsNothing()
    ensures forall a :: !Contains(Unusable, a)
  {
  }

  /**
   * The kernel tries and the classifier agree on every address exactly when each mapped network lies
   * inside the programmed prefixes; in particular whenever all networks have 32-bit masks.
   */
  lemma TriesAgreeWithClassifier(fold: Fold, compiled: set<Addr>, pol: Option<Policy>)
    requires Usable(pol)
    ensures TriesAgree(fold, compiled, pol) <==>
            (forall a :: InMapped(pol, a) ==> InTries(compiled, pol, a))
    ensures AllIPv4(AllowedNets(pol) + IgnoredNets(pol)) ==>
            TriesAgree(fold, compiled, pol)
  {
    hide LetThrough, InTries;
    forall a: Addr
      ensures LetThrough(fold, compiled, pol, a) <==> InTries(compiled, pol, a) || InMapped(pol, a)
    {
      ClassifierIsTriesAndMapped(fold, compiled, pol, a);
    }
  }

  ghost function Programmed(compiled: set<Addr>, pol: Option<Policy>): (r: set<Key>)
    requires Usable(pol)
  {
    ExpectedAllowed(compiled, pol) + ExpectedIgnored(pol)
  }

  ghost function MappedNets(pol: Option<Policy>): (r: set<Net>)
  {
    set n | n in AllowedNets(pol) + IgnoredNets(pol) && n.Mapped?
  }

  /** The key is a prefix of the network: no longer, and equal as far as it goes. */
  ghost predicate PrefixOf(k: Key, n: Net)
  {
    n.Mapped? && U32LE(k, 0) <= n.ones && Covers(k, n.addr)
  }

  /** The key lies inside the network and covers only a part of it. */
  ghost predicate PartOf(k: Key, n: Net)
  {
    n.Mapped? && n.ones < U32LE(k, 0) <= 32 && Contains(n, U32(k, 4))
  }

  lemma PrefixCovers(k: Key, n: Net, a: Addr)
    requires n.Mapped? && n.ones <= 32 && PrefixOf(k, n) && Contains(n, a)
    ensures Covers(k, a)
  {
    hide U32, U32LE, ClearLow;
    ClearMore(n.addr, a, 32 - n.ones, 32 - U32LE(k, 0));
  }

  lemma CoveringKey(k: Key, n: Net)
    requires n.Mapped? && n.ones <= 32 && Covers(k, n.addr)
    ensures PrefixOf(k, n) || PartOf(k, n)
  {
    hide U32, U32LE, ClearLow;
    if U32LE(k, 0) > n.ones {
      ClearMore(n.addr, U32(k, 4), 32 - U32LE(k, 0), 32 - n.ones);
    }
  }

  ghost predicate EachHasPrefix(compiled: set<Addr>, pol: Option<Policy>)
    requires Usable(pol)
  {
    forall n :: n in MappedNets(pol) ==> exists k :: k in Programmed(compiled, pol) && PrefixOf(k, n)
  }

  /**
   * A condition on the policy alone: it is enough that some programmed key is a prefix of each mapped
   * network, and as long as no programmed key covers only a part of a mapped network, it is necessary.
   */
  lemma MappedNetsNeedPrefixes(fold: Fold, compiled: set<Addr>, pol: Option<Policy>)
    requires Usable(pol)
    ensures EachHasPrefix(compiled, pol) ==> TriesAgree(fold, compiled, pol)
    ensures (forall n, k :: n in MappedNets(pol) && k in Programmed(compiled, pol) ==> !PartOf(k, n)) ==>
            (TriesAgree(fold, compiled, pol) ==> EachHasPrefix(compiled, pol))
  {
    hide LetThrough, InTries, PrefixOf, PartOf, Contains, Programmed, MappedNets, InMapped;
    TriesAgreeWithClassifier(fold, compiled, pol);
    if EachHasPrefix(compiled, pol) {
      forall a | InMapped(pol, a)
        ensures InTries(compiled, pol, a)
      {
        PrefixesHit(compiled, pol, a);
      }
    }
    if TriesAgree(fold, compiled, pol) {
      forall n | n in MappedNets(pol)
        ensures exists k :: k in Programmed(compiled, pol) && (PrefixOf(k, n) || PartOf(k, n))
      {
        NetOfMapped(compiled, pol, n);
      }
    }
  }

  lemma PrefixesHit(compiled: set<Addr>, pol: Option<Policy>, a: Addr)
    requires Usable(pol) && InMapped(pol, a)
    requires EachHasPrefix(compiled, pol)
    ensures InTries(compiled, pol, a)
  {
    hide Covers, Contains, ExpectedAllowed, ExpectedIgnored;
    var n :| n in AllowedNets(pol) + IgnoredNets(pol) && n.Mapped? && Contains(n, a);
    assert n in MappedNets(pol);
    var k :| k in Programmed(compiled, pol) && PrefixOf(k, n);
    PrefixCovers(k, n, a);
  }

  /** The address of a mapped network is in the tries, so some key covers it. */
  lemma NetOfMapped(compiled: set<Addr>, pol: Option<Policy>, n: Net)
    requires Usable(pol) && n in MappedNets(pol)
    requires forall a :: InMapped(pol, a) ==> InTries(compiled, pol, a)
    ensures exists k :: k in Programmed(compiled, pol) && (PrefixOf(k, n) || PartOf(k, n))
  {
    hide Covers, PrefixOf, PartOf, ExpectedAllowed, ExpectedIgnored;
    assert Contains(n, n.addr);
    assert InMapped(pol, n.addr);
    assert Hit(Programmed(compiled, pol), n.addr);
    var k :| k in Programmed(compiled, pol) && Covers(k, n.addr);
    CoveringKey(k, n);
  }

  /** Some key is a prefix of the block of addresses that agree with `a` above the lowest `n` bits. */
  ghost predicate HasPrefix(keys: set<Key>, a: Addr, n: nat)
    requires n <= 32
  {
    exists k :: k in keys && U32LE(k, 0) <= 32 - n && Covers(k, a)
  }

  ghost predicate IsBlock(a: nat, n: nat)
  {
    n <= 32 && ClearLow(a, n) == a && a + Pow2(n) <= 0x1_0000_0000
  }

  lemma HalvesOfBlock(a: nat, n: nat)
    requires IsBlock(a, n) && n > 0
    ensures IsBlock(a, n - 1) && IsBlock(a + Pow2(n - 1), n - 1)
  {
    hide ClearLow;
    Halves(a, a, n);
  }

  /** The keys cover a block: one key is a prefix of it, or they cover both of its halves. */
  ghost predicate Covered(keys: set<Key>, a: nat, n: nat)
    requires IsBlock(a, n)
    decreases n
  {
    hide ClearLow;
    || HasPrefix(keys, a, n)
    || (n > 0 && (HalvesOfBlock(a, n); Covered(keys, a, n - 1) && Covered(keys, a + Pow2(n - 1), n - 1)))
  }

  lemma PrefixHits(keys: set<Key>, a: Addr, n: nat, x: Addr)
    requires n <= 32 && HasPrefix(keys, a, n) && ClearLow(x, n) == ClearLow(a, n)
    ensures Hit(keys, x)
  {
    hide ClearLow, U32, U32LE;
    var k :| k in keys && U32LE(k, 0) <= 32 - n && Covers(k, a);
    ClearMore(x, a, n, 32 - U32LE(k, 0));
    assert Covers(k, x);
  }

  lemma BlockHas(a: nat, n: nat, x: Addr)
    requires IsBlock(a, n)
    ensures n <= 32 && ClearLow(a, n) == a < 0x1_0000_0000
    ensures n > 0 ==> (ClearLow(x, n) == a <==> ClearLow(x, n - 1) == a || ClearLow(x, n - 1) == a + Pow2(n - 1))
  {
    hide ClearLow;
    if n > 0 {
      Halves(x, a, n);
    }
  }

  lemma {:induction false} CoveredMeans(keys: set<Key>, a: nat, n: nat, x: Addr)
    requires IsBlock(a, n)
    requires Covered(keys, a, n) && ClearLow(x, n) == a
    ensures Hit(keys, x)
    decreases n
  {
    hide ClearLow, HasPrefix, Hit, IsBlock, Pow2;
    BlockHas(a, n, x);
    if HasPrefix(keys, a, n) {
      PrefixHits(keys, a, n, x);
    } else {
      HalvesOfBlock(a, n);
      if ClearLow(x, n - 1) == a {
        CoveredMeans(keys, a, n - 1, x);
      } else {
        CoveredMeans(keys, a + Pow2(n - 1), n - 1, x);
      }
    }
  }

  lemma {:induction false} AllHitIsCovered(keys: set<Key>, a: nat, n: nat)
    requires IsBlock(a, n)
    requires forall x: Addr :: ClearLow(x, n) == a ==> Hit(keys, x)
    ensures Covered(keys, a, n)
    decreases n
  {
    hide ClearLow, HasPrefix, Hit, IsBlock, Pow2;
    forall x: Addr
      ensures n > 0 ==> (ClearLow(x, n) == a <==> ClearLow(x, n - 1) == a || ClearLow(x, n - 1) == a + Pow2(n - 1))
    {
      BlockHas(a, n, x);
    }
    if n == 0 {
      OneAddress(keys, a);
    } else {
      HalvesOfBlock(a, n);
      AllHitIsCovered(keys, a, n - 1);
      AllHitIsCovered(keys, a + Pow2(n - 1), n - 1);
    }
  }

  lemma OneAddress(keys: set<Key>, a: nat)
    requires IsBlock(a, 0) && forall x: Addr :: ClearLow(x, 0) == a ==> Hit(keys, x)
    ensures HasPrefix(keys, a, 0)
  {
    assert Hit(keys, a);
  }

  lemma BlockOf(n: Net)
    requires n.Mapped? && n.ones <= 32
    ensures IsBlock(Masked(n.addr, n.ones), 32 - n.ones)
  {
    ClearLowTwice(n.addr, 32 - n.ones);
    Powers();
    BlockFits(Masked(n.addr, n.ones), 32 - n.ones, 32);
  }

  /** The keys cover the whole network. */
  ghost predicate NetCovered(keys: set<Key>, n: Net)
    requires n.Mapped? && n.ones <= 32
  {
    BlockOf(n);
    Covered(keys, Masked(n.addr, n.ones), 32 - n.ones)
  }

  lemma NetCoveredMeans(keys: set<Key>, n: Net)
    requires n.Mapped? && n.ones <= 32
    ensures NetCovered(keys, n) <==> forall x :: Contains(n, x) ==> Hit(keys, x)
  {
    hide Hit, Covered, IsBlock;
    BlockOf(n);
    var a := Masked(n.addr, n.ones);
    if NetCovered(keys, n) {
      forall x | Contains(n, x)
        ensures Hit(keys, x)
      {
        CoveredMeans(keys, a, 32 - n.ones, x);
      }
    }
    if forall x :: Contains(n, x) ==> Hit(keys, x) {
      assert forall x: Addr :: ClearLow(x, 32 - n.ones) == a ==> Contains(n, x);
      AllHitIsCovered(keys, a, 32 - n.ones);
    }
  }

  /**
   * The exact condition on the policy alone: tries and classifier agree on every address if and only if
   * the programmed keys cover each mapped network, by one prefix of it or by covering both its halves.
   */
  lemma AgreeIffCovered(fold: Fold, compiled: set<Addr>, pol: Option<Policy>)
    requires Usable(pol)
    ensures TriesAgree(fold, compiled, pol) <==>
            forall n :: n in MappedNets(pol) ==> n.ones <= 32 && NetCovered(Programmed(compiled, pol), n)
  {
    hide LetThrough, Contains, NetCovered, Hit, ExpectedAllowed, ExpectedIgnored, TriesAgree;
    TriesAgreeWithClassifier(fold, compiled, pol);
    forall n | n in MappedNets(pol)
      ensures n.ones <= 32
      ensures NetCovered(Programmed(compiled, pol), n) <==> forall x :: Contains(n, x) ==> InTries(compiled, pol, x)
    {
      NetCoveredMeans(Programmed(compiled, pol), n);
      forall x: Addr
        ensures Hit(Programmed(compiled, pol), x) <==> InTries(compiled, pol, x)
      {
        HitEither(compiled, pol, x);
      }
    }
    assert forall x: Addr, n :: n in MappedNets(pol) && Contains(n, x) ==> InMapped(pol, x);
  }

  lemma HitEither(compiled: set<Addr>, pol: Option<Policy>, x: Addr)
    requires Usable(pol)
    ensures Hit(Programmed(compiled, pol), x) <==> InTries(compiled, pol, x)
  {
    hide Hit, ExpectedAllowed, ExpectedIgnored;
    HitUnion(ExpectedAllowed(compiled, pol), ExpectedIgnored(pol), x);
  }

  const DEFAULT_IGNORED := [Net4(0x0A00_0000, 8), Net4(0xAC10_0000, 12)]

  /**
   * `::ffff:192.168.0.0/112` among the ignored networks, next to the defaults: 192.168.0.1 is ignored, and
   * in no trie.
   */
  lemma MappedIgnoredNetIsNotProgrammed(fold: Fold)
    ensures var nets := FirstPrinted(DEFAULT_IGNORED + [Mapped(0xC0A8_0000, 16)]);
            var pol := Some(Policy(false, {}, [], {}, [], nets));
            && Usable(pol)
            && LetThrough(fold, {}, pol, 0xC0A8_0001) && !InTries({}, pol, 0xC0A8_0001)
  {
    hide FirstPrinted, LetThrough, Contains, Hit, NetKeys, HostKeys;
    var a := 0xC0A8_0001;
    var nets := DEFAULT_IGNORED + [Mapped(0xC0A8_0000, 16)];
    NothingPrintsAlike();
    var pol := Some(Policy(false, {}, [], {}, [], nets));
    Prefixes();
    assert nets[2] in nets;
    ClassifierIsTriesAndMapped(fold, {}, pol, a);
    NoHit(nets, a);
  }

  lemma NoHit(ignored: seq<Net>, a: Addr)
    requires ValidNets(ignored) && forall n :: n in ignored && n.Net4? ==> !Contains(n, a)
    ensures !Hit(NetKeys(ignored), a) && !Hit(HostKeys({} + {}) + NetKeys([]), a)
  {
    hide Covers;
    HitNets(ignored, a);
    HitNets([], a);
    HitHosts({}, a);
  }

  lemma NothingPrintsAlike()
    ensures FirstPrinted(DEFAULT_IGNORED + [Mapped(0xC0A8_0000, 16)]) == DEFAULT_IGNORED + [Mapped(0xC0A8_0000, 16)]
  {
    hide FirstPrinted;
    var a, b, c := Net4(0x0A00_0000, 8), Net4(0xAC10_0000, 12), Mapped(0xC0A8_0000, 16);
    SeenNothing();
    OnePrinted([], a);
    assert [] + [a] == [a];
    OnePrinted([a], b);
    assert [a] + [b] == [a, b];
    OnePrinted([a, b], c);
  }

  lemma OnePrinted(front: seq<Net>, n: Net)
    requires FirstPrinted(front) == front && !n.Unusable? && forall m :: m in front ==> Printed(m) != Printed(n)
    ensures FirstPrinted(front + [n]) == front + [n]
  {
    assert (front + [n])[..|front|] == front;
  }

  lemma Prefixes()
    ensures Contains(Mapped(0xC0A8_0000, 16), 0xC0A8_0001)
    ensures !Contains(Net4(0x0A00_0000, 8), 0xC0A8_0001) && !Contains(Net4(0xAC10_0000, 12), 0xC0A8_0001)
  {
    assert ClearLow(0xC0A8_0001, 16) == 2 * ClearLow(0xC0A8_0000 / 2, 15);
    Powers();
    hide ClearLow, Pow2;
    ClearLowNear(0xC0A8_0001, 24);
    ClearLowNear(0xC0A8_0001, 20);
  }
}
