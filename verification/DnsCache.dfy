/**
 * The cache of address owners seen in DNS responses. Userspace entries carry an expiry; each
 * registered kernel map mirrors them as 256-byte values. A kernel map operation may fail, which is
 * counted and otherwise ignored. Times are Unix seconds.
 */
module DnsCache {
  import opened Bytes
  import opened Collections
  import opened DnsResponse
  import opened Faults

  const MAX_ENTRIES := 8192
  const MAX_TTL := 3600
  const DEFAULT_TTL := 300
  const MIN_TTL := 1
  const KERNEL_NAME_MAX := 255

  datatype Entry = Entry(name: bytes, expires: int)

  type Entries = map<IPv4, Entry>

  /** A kernel map as the cache sees it: what it holds, and which of its operations fail. */
  datatype KernelMap = KernelMap(held: map<IPv4, bytes>, tried: nat, refused: set<nat>)

  /** The time to live that is applied: 0 means the default, and the rest is clamped to 1..3600 s. */
  function Lifetime(ttl: nat): (sec: nat)
    ensures 1 <= sec <= 3600
    ensures ttl == 0 ==> sec == 300
    ensures 1 <= ttl <= 3600 ==> sec == ttl
    ensures ttl > 3600 ==> sec == 3600
  {
    var sec := if ttl == 0 then DEFAULT_TTL else ttl;
    Max(MIN_TTL, Min(sec, MAX_TTL))
  }

  /** The lower clamp never acts: nothing below one second is left to raise. */
  lemma LowerClampIsIdle(ttl: nat)
    ensures Lifetime(ttl) == Min(if ttl == 0 then DEFAULT_TTL else ttl, MAX_TTL)
  {
  }

  /** The name as the kernel holds it: at most 255 bytes, padded with NUL to 256. */
  function KernelValue(name: bytes): (v: bytes)
    ensures |v| == 256
    ensures v[..Min(255, |name|)] == name[..Min(255, |name|)]
    ensures forall i :: Min(255, |name|) <= i < 256 ==> v[i] == 0
  {
    var cut := if |name| <= KERNEL_NAME_MAX then name else name[..KERNEL_NAME_MAX];
    cut + seq(256 - |cut|, i => 0)
  }

  function KernelView(es: Entries): (m: map<IPv4, bytes>)
  {
    map ip | ip in es :: KernelValue(es[ip].name)
  }

  function Live(es: Entries, now: int): (r: Entries)
  {
    map ip | ip in es && now < es[ip].expires :: es[ip]
  }

  /** What an answer makes of the entry for its address. */
  function Absorb(fold: Fold, prev: Option<Entry>, a: Answer, now: int): (e: Entry)
  {
    var newer := Entry(ToLower(fold, a.name), now + Lifetime(a.ttl));
    if prev.Some? && now < prev.value.expires && |newer.name| > |prev.value.name| then prev.value else newer
  }

  function Find(es: Entries, ip: IPv4): (r: Option<Entry>)
  {
    if ip in es then Some(es[ip]) else None
  }

  function AbsorbAll(fold: Fold, es: Entries, m: map<IPv4, Answer>, now: int): (r: Entries)
  {
    map ip | ip in es.Keys + m.Keys ::
      if ip in m then Absorb(fold, Find(es, ip), m[ip], now) else es[ip]
  }

  function Answers(packet: bytes): (m: map<IPv4, Answer>)
  {
    Collect(RecordsReached(packet))
  }

  /** What a packet may do to the userspace entries; which excess entries go is not determined. */
  ghost predicate Step(fold: Fold, max: nat, es: Entries, packet: bytes, now: int, es': Entries)
  {
    var m := Answers(packet);
    if m == map[] then es' == es
    else
      var full := AbsorbAll(fold, Live(es, now), m, now);
      && (forall ip :: ip in es' ==> ip in full && es'[ip] == full[ip])
      && |es'| == Min(max, |full|)
  }

  /** A new expiry lies ahead, so absorbing answers into live entries leaves nothing to purge. */
  lemma AbsorbedIsLive(fold: Fold, es: Entries, m: map<IPv4, Answer>, now: int)
    requires Live(es, now) == es
    ensures Live(AbsorbAll(fold, es, m, now), now) == AbsorbAll(fold, es, m, now)
  {
    hide ToLower, Lifetime;
    var all := AbsorbAll(fold, es, m, now);
    forall ip | ip in all ensures now < all[ip].expires {
      assert ip in es ==> ip in Live(es, now);
    }
  }

  lemma StepIdle(fold: Fold, max: nat, es: Entries, packet: bytes, now: int)
    requires Answers(packet) == map[]
    ensures Step(fold, max, es, packet, now, es)
  {
  }

  /** Purging, absorbing and trimming make up one step. */
  lemma StepDone(fold: Fold, max: nat, es: Entries, packet: bytes, now: int, full: Entries, es': Entries)
    requires Answers(packet) != map[] && full == AbsorbAll(fold, Live(es, now), Answers(packet), now)
    requires |full| <= max ==> es' == full
    requires |full| > max ==>
             && (forall ip :: ip in es' ==> ip in full && es'[ip] == full[ip])
             && |es'| == Min(max, |Live(full, now)|)
    ensures Step(fold, max, es, packet, now, es') && |es'| <= max
  {
    hide Answers, AbsorbAll;
    LiveTwice(es, now);
    AbsorbedIsLive(fold, Live(es, now), Answers(packet), now);
  }

  lemma LiveTwice(es: Entries, now: int)
    ensures Live(Live(es, now), now) == Live(es, now)
  {
  }

  /** The addresses that a packet at `now` leaves work for: entries not yet expired, and answered ones. */
  ghost function Kept(es: Entries, packet: bytes, now: int): (r: set<IPv4>)
  {
    (set ip | ip in es && now < es[ip].expires) + Answers(packet).Keys
  }

  /**
   * What a packet with an answer does to the entries: none that has expired is left, nothing is left that
   * was neither live nor answered, and while live and answered addresses fit the cap they are all left,
   * the ones without an answer unchanged.
   */
  lemma StepPurges(fold: Fold, max: nat, es: Entries, packet: bytes, now: int, es': Entries)
    requires Step(fold, max, es, packet, now, es') && Answers(packet) != map[]
    ensures forall ip :: ip in es' ==> now < es'[ip].expires && ip in Kept(es, packet, now)
    ensures forall ip :: ip in es' && ip !in Answers(packet) ==> es'[ip] == es[ip]
    ensures |Kept(es, packet, now)| <= max ==> es'.Keys == Kept(es, packet, now)
  {
    hide Answers, Kept, Live, AbsorbAll;
    var m := Answers(packet);
    var full := AbsorbAll(fold, Live(es, now), m, now);
    AbsorbedAre(fold, es, packet, now);
    SubsetSize(es'.Keys, full.Keys);
  }

  /** A packet without an answer changes nothing. */
  lemma StepIdles(fold: Fold, max: nat, es: Entries, packet: bytes, now: int, es': Entries)
    requires Step(fold, max, es, packet, now, es') && Answers(packet) == map[]
    ensures es' == es
  {
  }

  lemma AbsorbedAre(fold: Fold, es: Entries, packet: bytes, now: int)
    ensures var full := AbsorbAll(fold, Live(es, now), Answers(packet), now);
            && full.Keys == Kept(es, packet, now)
            && (forall ip :: ip in full ==> now < full[ip].expires)
            && (forall ip :: ip in full && ip !in Answers(packet) ==> ip in es && full[ip] == es[ip])
  {
    hide Answers, ToLower, Lifetime;
  }

  lemma AbsorbNone(fold: Fold, es: Entries, now: int)
    ensures AbsorbAll(fold, es, map[], now) == es
  {
    hide Absorb;
  }

  /** Answers for different addresses are independent, so their order does not matter. */
  lemma AbsorbOneMore(fold: Fold, es: Entries, m: map<IPv4, Answer>, ip: IPv4, a: Answer, now: int)
    requires ip !in m
    ensures var part := AbsorbAll(fold, es, m, now);
            AbsorbAll(fold, es, m[ip := a], now) == part[ip := Absorb(fold, Find(part, ip), a, now)]
  {
    hide Absorb;
  }

  // ---------- Kernel maps ----------

  /** A deletion; that the key is missing is no error. */
  function Without(km: KernelMap, ip: IPv4): (r: KernelMap)
  {
    km.(tried := km.tried + 1, held := if km.tried in km.refused then km.held else km.held - {ip})
  }

  function With(km: KernelMap, ip: IPv4, value: bytes): (r: KernelMap)
  {
    km.(tried := km.tried + 1, held := if km.tried in km.refused then km.held else km.held[ip := value])
  }

  function WithoutIn(o: Option<KernelMap>, ip: IPv4): (r: Option<KernelMap>)
  {
    if o.Some? then Some(Without(o.value, ip)) else None
  }

  function WithIn(o: Option<KernelMap>, ip: IPv4, value: bytes): (r: Option<KernelMap>)
  {
    if o.Some? then Some(With(o.value, ip, value)) else None
  }

  ghost function FailedOn(o: Option<KernelMap>): (n: nat)
  {
    if o.Some? then Failed(o.value.refused, o.value.tried) else 0
  }

  /** All failures of kernel operations so far. */
  ghost function AllFailed(maps: seq<Option<KernelMap>>): (n: nat)
  {
    if maps == [] then 0 else AllFailed(maps[..|maps| - 1]) + FailedOn(maps[|maps| - 1])
  }

  lemma {:induction false} AllFailedUpdate(maps: seq<Option<KernelMap>>, i: nat, o: Option<KernelMap>)
    requires i < |maps|
    ensures AllFailed(maps[i := o]) + FailedOn(maps[i]) == AllFailed(maps) + FailedOn(o)
  {
    hide FailedOn;
    var last := |maps| - 1;
    if i < last {
      AllFailedUpdate(maps[..last], i, o);
      assert maps[i := o][..last] == maps[..last][i := o];
    } else {
      assert maps[i := o][..last] == maps[..last];
    }
  }

  /**
   * One kernel map while the entries went from `es` to `es'`: if it mirrored the entries and none of its
   * operations on the way failed, it mirrors them still, whatever became of other maps.
   */
  ghost predicate Follows(es: Entries, o: Option<KernelMap>, es': Entries, o': Option<KernelMap>)
  {
    && (o.None? <==> o'.None?)
    && (o.Some? ==>
          var km, km' := o.value, o'.value;
          && km'.refused == km.refused && km.tried <= km'.tried
          && (km.held == KernelView(es) && Clean(km.refused, km.tried, km'.tried) ==> km'.held == KernelView(es')))
  }

  ghost predicate AllFollow(es: Entries, maps: seq<Option<KernelMap>>, es': Entries, maps': seq<Option<KernelMap>>)
  {
    |maps'| == |maps| && forall i :: 0 <= i < |maps| ==> Follows(es, maps[i], es', maps'[i])
  }

  lemma FollowsNothing(es: Entries, maps: seq<Option<KernelMap>>, es': Entries)
    requires KernelView(es') == KernelView(es)
    ensures AllFollow(es, maps, es', maps)
  {
  }

  lemma RefreshKeepsView(es: Entries, ip: IPv4, expires: int)
    requires ip in es
    ensures KernelView(es[ip := Entry(es[ip].name, expires)]) == KernelView(es)
  {
    hide KernelValue;
  }

  lemma WriteFollows(es: Entries, maps: seq<Option<KernelMap>>, ip: IPv4, e: Entry, maps': seq<Option<KernelMap>>)
    requires |maps'| == |maps|
    requires forall i :: 0 <= i < |maps| ==> maps'[i] == WithIn(maps[i], ip, KernelValue(e.name))
    ensures AllFollow(es, maps, es[ip := e], maps')
  {
    hide KernelValue;
    assert KernelView(es[ip := e]) == KernelView(es)[ip := KernelValue(e.name)];
  }

  lemma FollowsOn(es: Entries, o: Option<KernelMap>, es1: Entries, o1: Option<KernelMap>, es2: Entries,
                  o2: Option<KernelMap>)
    requires Follows(es, o, es1, o1) && Follows(es1, o1, es2, o2)
    ensures Follows(es, o, es2, o2)
  {
    hide KernelView, Clean;
    if o.Some? {
      CleanJoin(o.value.refused, o.value.tried, o1.value.tried, o2.value.tried);
    }
  }

  lemma AllFollowOn(es: Entries, maps: seq<Option<KernelMap>>, es1: Entries, maps1: seq<Option<KernelMap>>,
                    es2: Entries, maps2: seq<Option<KernelMap>>)
    requires AllFollow(es, maps, es1, maps1) && AllFollow(es1, maps1, es2, maps2)
    ensures AllFollow(es, maps, es2, maps2)
  {
    hide Follows;
    forall i | 0 <= i < |maps|
      ensures Follows(es, maps[i], es2, maps2[i])
    {
      FollowsOn(es, maps[i], es1, maps1[i], es2, maps2[i]);
    }
  }

  /** The failure counter counts exactly the operations that failed on the way. */
  ghost predicate Counted(n: nat, maps: seq<Option<KernelMap>>, n': nat, maps': seq<Option<KernelMap>>)
  {
    n' + AllFailed(maps) == n + AllFailed(maps')
  }

  ghost predicate AllMirror(maps: seq<Option<KernelMap>>, es: Entries)
  {
    forall i :: 0 <= i < |maps| && maps[i].Some? ==> maps[i].value.held == KernelView(es)
  }

  /** A map in step holds the addresses of the entries and, for each, the bytes of its name. */
  lemma MirrorHolds(km: KernelMap, es: Entries)
    requires km.held == KernelView(es)
    ensures km.held.Keys == es.Keys
    ensures forall ip :: ip in es ==>
              var name := es[ip].name;
              |km.held[ip]| == 256 && km.held[ip][..Min(255, |name|)] == name[..Min(255, |name|)]
              && forall i :: Min(255, |name|) <= i < 256 ==> km.held[ip][i] == 0
  {
    hide KernelValue;
  }

  lemma {:induction false} FailuresOnlyGrow(es: Entries, maps: seq<Option<KernelMap>>, es': Entries,
                                            maps': seq<Option<KernelMap>>)
    requires AllFollow(es, maps, es', maps')
    ensures AllFailed(maps) <= AllFailed(maps')
    ensures AllFailed(maps) == AllFailed(maps') ==>
            forall i :: 0 <= i < |maps| ==> FailedOn(maps[i]) == FailedOn(maps'[i])
  {
    hide KernelView;
    if maps != [] {
      var last := |maps| - 1;
      FailuresOnlyGrow(es, maps[..last], es', maps'[..last]);
      var o, o' := maps[last], maps'[last];
      assert Follows(es, o, es', o');
      if o.Some? {
        CleanMeansNoneFailed(o.value.refused, o.value.tried, o'.value.tried);
      }
    }
  }

  /** A counter that stands still means that maps in step with the entries have stayed so. */
  lemma NoFailureKeepsMirrors(es: Entries, maps: seq<Option<KernelMap>>, es': Entries, maps': seq<Option<KernelMap>>)
    requires AllFollow(es, maps, es', maps') && AllFailed(maps) == AllFailed(maps') && AllMirror(maps, es)
    ensures AllMirror(maps', es')
  {
    hide KernelView;
    FailuresOnlyGrow(es, maps, es', maps');
    forall i | 0 <= i < |maps'| && maps'[i].Some?
      ensures maps'[i].value.held == KernelView(es')
    {
      var o, o' := maps[i], maps'[i];
      assert Follows(es, o, es', o') && FailedOn(o) == FailedOn(o');
      CleanMeansNoneFailed(o.value.refused, o.value.tried, o'.value.tried);
    }
  }

  // ---------- The cache as the source runs it ----------

  class Cache {
    const fold: Fold
    const maxEntries: nat
    var entries: Entries
    var kernelMaps: seq<Option<KernelMap>>
    var failures: nat

    constructor (fold: Fold)
      ensures entries == map[] && kernelMaps == [] && failures == 0
      ensures this.fold == fold && maxEntries == 8192
    {
      this.fold := fold;
      maxEntries := MAX_ENTRIES;
      entries, kernelMaps, failures := map[], [], 0;
    }

    method SetKernelMaps(maps: seq<Option<KernelMap>>)
      modifies this`kernelMaps
      ensures kernelMaps == maps
      ensures entries == map[] && (forall i :: 0 <= i < |maps| && maps[i].Some? ==> maps[i].value.held == map[])
              ==> AllMirror(kernelMaps, entries)
    {
      kernelMaps := maps;
    }

    /** Every registered map is asked to drop the address, also after one has failed; a failure is counted. */
    method DeleteFromKernel(ip: IPv4)
      modifies this`kernelMaps, this`failures
      ensures |kernelMaps| == |old(kernelMaps)|
      ensures forall i :: 0 <= i < |kernelMaps| ==> kernelMaps[i] == WithoutIn(old(kernelMaps)[i], ip)
      ensures Counted(old(failures), old(kernelMaps), failures, kernelMaps)
    {
      for i := 0 to |kernelMaps|
        invariant |kernelMaps| == |old(kernelMaps)|
        invariant forall j :: i <= j < |kernelMaps| ==> kernelMaps[j] == old(kernelMaps)[j]
        invariant forall j :: 0 <= j < i ==> kernelMaps[j] == WithoutIn(old(kernelMaps)[j], ip)
        invariant Counted(old(failures), old(kernelMaps), failures, kernelMaps)
      {
        if kernelMaps[i].Some? {
          var km := kernelMaps[i].value;
          AllFailedUpdate(kernelMaps, i, Some(Without(km, ip)));
          if km.tried in km.refused {
            failures := failures + 1;
          }
          kernelMaps := kernelMaps[i := Some(Without(km, ip))];
        }
      }
    }

    method WriteToKernel(ip: IPv4, value: bytes)
      modifies this`kernelMaps, this`failures
      ensures |kernelMaps| == |old(kernelMaps)|
      ensures forall i :: 0 <= i < |kernelMaps| ==> kernelMaps[i] == WithIn(old(kernelMaps)[i], ip, value)
      ensures Counted(old(failures), old(kernelMaps), failures, kernelMaps)
    {
      for i := 0 to |kernelMaps|
        invariant |kernelMaps| == |old(kernelMaps)|
        invariant forall j :: i <= j < |kernelMaps| ==> kernelMaps[j] == old(kernelMaps)[j]
        invariant forall j :: 0 <= j < i ==> kernelMaps[j] == WithIn(old(kernelMaps)[j], ip, value)
        invariant Counted(old(failures), old(kernelMaps), failures, kernelMaps)
      {
        if kernelMaps[i].Some? {
          var km := kernelMaps[i].value;
          AllFailedUpdate(kernelMaps, i, Some(With(km, ip, value)));
          if km.tried in km.refused {
            failures := failures + 1;
          }
          kernelMaps := kernelMaps[i := Some(With(km, ip, value))];
        }
      }
    }

    /** Removes one entry here and in the kernel. */
    method Evict(ip: IPv4)
      requires ip in entries
      modifies this`entries, this`kernelMaps, this`failures
      ensures entries == old(entries) - {ip} && |entries| == |old(entries)| - 1
      ensures AllFollow(old(entries), old(kernelMaps), entries, kernelMaps)
      ensures Counted(old(failures), old(kernelMaps), failures, kernelMaps)
    {
      hide Counted;
      ghost var view := KernelView(entries);
      ghost var keys := entries.Keys;
      entries := entries - {ip};
      assert KernelView(entries) == view - {ip};
      assert entries.Keys == keys - {ip};
      DeleteFromKernel(ip);
    }

    method PurgeExpired(now: int)
      modifies this`entries, this`kernelMaps, this`failures
      ensures entries == Live(old(entries), now)
      ensures AllFollow(old(entries), old(kernelMaps), entries, kernelMaps)
      ensures Counted(old(failures), old(kernelMaps), failures, kernelMaps)
    {
      hide AllFollow, AllFailed, KernelView;
      FollowsNothing(entries, kernelMaps, entries);
      var todo := entries.Keys;
      while todo != {}
        invariant todo <= old(entries).Keys
        invariant forall ip :: ip in entries <==> ip in old(entries) && (ip in todo || now < old(entries)[ip].expires)
        invariant forall ip :: ip in entries ==> entries[ip] == old(entries)[ip]
        invariant AllFollow(old(entries), old(kernelMaps), entries, kernelMaps)
        invariant Counted(old(failures), old(kernelMaps), failures, kernelMaps)
        decreases todo
      {
        var ip :| ip in todo;
        todo := todo - {ip};
        if entries[ip].expires <= now {
          ghost var es, maps := entries, kernelMaps;
          Evict(ip);
          AllFollowOn(old(entries), old(kernelMaps), es, maps, entries, kernelMaps);
        }
      }
    }

    method Trim(now: int)
      modifies this`entries, this`kernelMaps, this`failures
      ensures |old(entries)| <= maxEntries ==> entries == old(entries)
      ensures |old(entries)| > maxEntries ==>
              && (forall ip :: ip in entries ==> ip in old(entries) && entries[ip] == old(entries)[ip])
              && |entries| == Min(maxEntries, |Live(old(entries), now)|)
      ensures AllFollow(old(entries), old(kernelMaps), entries, kernelMaps)
      ensures Counted(old(failures), old(kernelMaps), failures, kernelMaps)
    {
      hide AllFollow, AllFailed, KernelView;
      FollowsNothing(entries, kernelMaps, entries);
      if |entries| <= maxEntries {
        return;
      }
      PurgeExpired(now);
      ghost var purged := entries;
      if |entries| <= maxEntries {
        return;
      }
      var excess := |entries| - maxEntries;
      while excess > 0
        invariant excess >= 0 && |entries| == maxEntries + excess
        invariant forall ip :: ip in entries ==> ip in purged && entries[ip] == purged[ip]
        invariant AllFollow(old(entries), old(kernelMaps), entries, kernelMaps)
        invariant Counted(old(failures), old(kernelMaps), failures, kernelMaps)
      {
        assert entries.Keys != {};
        var ip :| ip in entries;
        ghost var es, maps := entries, kernelMaps;
        Evict(ip);
        AllFollowOn(old(entries), old(kernelMaps), es, maps, entries, kernelMaps);
        excess := excess - 1;
      }
    }

    /** The body of the answer loop: refresh, keep the shorter owner, or replace and tell the kernel. */
    method AbsorbAnswer(ip: IPv4, a: Answer, now: int)
      modifies this`entries, this`kernelMaps, this`failures
      ensures entries == old(entries)[ip := Absorb(fold, Find(old(entries), ip), a, now)]
      ensures AllFollow(old(entries), old(kernelMaps), entries, kernelMaps)
      ensures Counted(old(failures), old(kernelMaps), failures, kernelMaps)
    {
      hide KernelValue, KernelView, ToLower, Lifetime, AllFailed, AllFollow, WithIn;
      var name := ToLower(fold, a.name);
      var exp := now + Lifetime(a.ttl);
      if ip in entries && now < entries[ip].expires {
        if name == entries[ip].name {
          RefreshKeepsView(entries, ip, exp);
          FollowsNothing(entries, kernelMaps, entries[ip := Entry(name, exp)]);
          entries := entries[ip := Entry(name, exp)];
          return;
        } else if |name| > |entries[ip].name| {
          FollowsNothing(entries, kernelMaps, entries);
          assert entries[ip := entries[ip]] == entries;
          return;
        }
      }
      entries := entries[ip := Entry(name, exp)];
      WriteToKernel(ip, KernelValue(name));
      WriteFollows(old(entries), old(kernelMaps), ip, Entry(name, exp), kernelMaps);
    }

    method AbsorbAnswers(m: map<IPv4, Answer>, now: int)
      modifies this`entries, this`kernelMaps, this`failures
      ensures entries == AbsorbAll(fold, old(entries), m, now)
      ensures AllFollow(old(entries), old(kernelMaps), entries, kernelMaps)
      ensures Counted(old(failures), old(kernelMaps), failures, kernelMaps)
    {
      hide AbsorbAll, Absorb, AllFollow, AllFailed, KernelView;
      FollowsNothing(entries, kernelMaps, entries);
      AbsorbNone(fold, entries, now);
      var todo := m.Keys;
      ghost var done: map<IPv4, Answer> := map[];
      while todo != {}
        invariant todo <= m.Keys
        invariant done.Keys == m.Keys - todo && (forall ip :: ip in done ==> done[ip] == m[ip])
        invariant entries == AbsorbAll(fold, old(entries), done, now)
        invariant AllFollow(old(entries), old(kernelMaps), entries, kernelMaps)
        invariant Counted(old(failures), old(kernelMaps), failures, kernelMaps)
        decreases todo
      {
        var ip :| ip in todo;
        AbsorbOneMore(fold, old(entries), done, ip, m[ip], now);
        todo := todo - {ip};
        done := done[ip := m[ip]];
        ghost var es, maps := entries, kernelMaps;
        AbsorbAnswer(ip, m[ip], now);
        AllFollowOn(old(entries), old(kernelMaps), es, maps, entries, kernelMaps);
      }
      assert done == m;
    }

    method AddFromPacket(packet: bytes, now: int)
      modifies this`entries, this`kernelMaps, this`failures
      ensures Step(fold, maxEntries, old(entries), packet, now, entries)
      ensures AllFollow(old(entries), old(kernelMaps), entries, kernelMaps)
      ensures Counted(old(failures), old(kernelMaps), failures, kernelMaps)
      ensures Answers(packet) != map[] ==> |entries| <= maxEntries
      ensures Answers(packet) != map[] ==> forall ip :: ip in entries ==> now < entries[ip].expires
    {
      hide AllFollow, AllFailed, KernelView, Collect, RecordsReached, AbsorbAll, Live, Step;
      FollowsNothing(entries, kernelMaps, entries);
      var m := ParseDNSResponseIPv4(packet);
      if |m| == 0 {
        assert m == map[];
        StepIdle(fold, maxEntries, entries, packet, now);
        return;
      }
      PurgeExpired(now);
      ghost var live, maps1 := entries, kernelMaps;
      AbsorbAnswers(m, now);
      AllFollowOn(old(entries), old(kernelMaps), live, maps1, entries, kernelMaps);
      ghost var full, maps2 := entries, kernelMaps;
      Trim(now);
      AllFollowOn(old(entries), old(kernelMaps), full, maps2, entries, kernelMaps);
      StepDone(fold, maxEntries, old(entries), packet, now, full, entries);
      StepPurges(fold, maxEntries, old(entries), packet, now, entries);
    }

    /**
     * Any run of packets: the entries go through a run, every kernel map follows them for as long as none
     * of its own operations fails, and the failure counter counts exactly the operations that failed. So
     * if the counter stood still, maps in step with the entries have stayed so.
     */
    method AddAll(ps: seq<Added>) returns (ghost ss: seq<Entries>)
      modifies this`entries, this`kernelMaps, this`failures
      ensures Run(fold, maxEntries, ss, ps) && ss[0] == old(entries) && ss[|ps|] == entries
      ensures AllFollow(old(entries), old(kernelMaps), entries, kernelMaps)
      ensures Counted(old(failures), old(kernelMaps), failures, kernelMaps)
      ensures failures == old(failures) && AllMirror(old(kernelMaps), old(entries)) ==> AllMirror(kernelMaps, entries)
    {
      hide Step, KernelView, AllFollow, AllMirror, AllFailed, Answers;
      FollowsNothing(entries, kernelMaps, entries);
      ss := [entries];
      for i := 0 to |ps|
        invariant |ss| == i + 1 && ss[0] == old(entries) && ss[i] == entries
        invariant forall k :: 0 <= k < i ==> Step(fold, maxEntries, ss[k], ps[k].packet, ps[k].now, ss[k + 1])
        invariant AllFollow(old(entries), old(kernelMaps), entries, kernelMaps)
        invariant Counted(old(failures), old(kernelMaps), failures, kernelMaps)
      {
        ghost var es, maps := entries, kernelMaps;
        AddFromPacket(ps[i].packet, ps[i].now);
        AllFollowOn(old(entries), old(kernelMaps), es, maps, entries, kernelMaps);
        ss := ss + [entries];
      }
      if failures == old(failures) && AllMirror(old(kernelMaps), old(entries)) {
        NoFailureKeepsMirrors(old(entries), old(kernelMaps), entries, kernelMaps);
      }
    }

    method LookupProvenance(ip: bytes, now: int) returns (fqdn: bytes, observed: bool)
      ensures var r := if To4(ip).Some? then LookupAt(entries, To4(ip).value, now) else None;
              observed == r.Some? && fqdn == if r.Some? then r.value else []
    {
      var v4 := To4(ip);
      if v4.None? || v4.value !in entries || now >= entries[v4.value].expires {
        return [], false;
      }
      return entries[v4.value].name, true;
    }
  }

  /** The answer a lookup at `now` gives. */
  ghost function LookupAt(es: Entries, ip: IPv4, now: int): (r: Option<bytes>)
  {
    if ip in es && now < es[ip].expires then Some(es[ip].name) else None
  }

  /** `net.IP.To4`: the four-byte form of an IPv4 or IPv4-mapped address. */
  function To4(ip: bytes): (r: Option<IPv4>)
  {
    if |ip| == 4 then Some(ip)
    else if |ip| == 16 && ip[..12] == [0, 0, 0, 0, 0, 0, 0, 0, 0, 0, 0xFF, 0xFF] then Some(ip[12..])
    else None
  }

  /** The four-byte form is the address itself, or the end of an IPv4-mapped one. */
  lemma To4Is(ip: bytes, x: IPv4)
    ensures To4(ip) == Some(x) <==> ip == x || ip == [0, 0, 0, 0, 0, 0, 0, 0, 0, 0, 0xFF, 0xFF] + x
  {
    var mapped: bytes := [0, 0, 0, 0, 0, 0, 0, 0, 0, 0, 0xFF, 0xFF];
    if |ip| == 16 {
      assert ip == ip[..12] + ip[12..];
    }
    assert (mapped + x)[..12] == mapped && (mapped + x)[12..] == x;
  }

  // ---------- Runs ----------

  /** A packet and the time it was added. */
  datatype Added = Added(packet: bytes, now: int)

  /** `ss[i]` holds the entries before `ps[i]` is added. */
  ghost predicate Run(fold: Fold, max: nat, ss: seq<Entries>, ps: seq<Added>)
  {
    && |ss| == |ps| + 1
    && forall i :: 0 <= i < |ps| ==> Step(fold, max, ss[i], ps[i].packet, ps[i].now, ss[i + 1])
  }

  /** The entry is the lower-cased answer of packet `i` for `ip`, with that packet's expiry. */
  ghost predicate CameFrom(fold: Fold, ps: seq<Added>, i: nat, ip: IPv4, e: Entry)
  {
    && i < |ps| && ip in Answers(ps[i].packet)
    && var a := Answers(ps[i].packet)[ip];
       e == Entry(ToLower(fold, a.name), ps[i].now + Lifetime(a.ttl))
  }

  lemma {:induction false} EveryEntryWasObserved(fold: Fold, max: nat, ss: seq<Entries>, ps: seq<Added>, n: nat,
                                                 ip: IPv4)
    requires Run(fold, max, ss, ps) && ss[0] == map[] && n <= |ps| && ip in ss[n]
    ensures exists i: nat :: i < n && CameFrom(fold, ps, i, ip, ss[n][ip])
  {
    hide Answers, ToLower, Lifetime;
    if n > 0 {
      var k := n - 1;
      assert Step(fold, max, ss[k], ps[k].packet, ps[k].now, ss[n]);
      if ip in ss[k] && ss[n][ip] == ss[k][ip] {
        EveryEntryWasObserved(fold, max, ss, ps, k, ip);
      } else {
        assert CameFrom(fold, ps, k, ip, ss[n][ip]);
      }
    }
  }

  /**
   * A name that a lookup returns is the lower-cased owner of an address record for that address in an
   * earlier packet, the first shortest one there, and the clamped time to live of that record has not
   * run out.
   */
  lemma LookupIsSound(fold: Fold, max: nat, ss: seq<Entries>, ps: seq<Added>, n: nat, ip: IPv4, now: int)
    requires Run(fold, max, ss, ps) && ss[0] == map[] && n <= |ps|
    requires LookupAt(ss[n], ip, now).Some?
    ensures exists i: nat, j: nat :: i < n && FirstShortest(RecordsReached(ps[i].packet), ip, j)
              && var r := RecordsReached(ps[i].packet)[j];
                 && LookupAt(ss[n], ip, now).value == ToLower(fold, r.name)
                 && now < ps[i].now + Lifetime(r.ttl)
  {
    hide RecordsReached, ToLower, Lifetime;
    EveryEntryWasObserved(fold, max, ss, ps, n, ip);
    var i: nat :| i < n && CameFrom(fold, ps, i, ip, ss[n][ip]);
    var rs := RecordsReached(ps[i].packet);
    CollectPicksFirstShortest(rs, ip);
    var j: nat :| FirstShortest(rs, ip, j) && Collect(rs)[ip] == Answer(rs[j].name, rs[j].ttl);
  }

  /** While an entry stays live and is not evicted, its name never gets longer. */
  lemma {:induction false} NamesOnlyShrink(fold: Fold, max: nat, ss: seq<Entries>, ps: seq<Added>, i: nat, n: nat,
                                           ip: IPv4)
    requires Run(fold, max, ss, ps) && i <= n <= |ps|
    requires forall k :: i <= k <= n ==> ip in ss[k]
    requires forall k :: i <= k < n ==> ps[k].now < ss[k][ip].expires
    ensures |ss[n][ip].name| <= |ss[i][ip].name|
    decreases n
  {
    hide Answers, ToLower, Lifetime;
    if i < n {
      NamesOnlyShrink(fold, max, ss, ps, i, n - 1, ip);
      assert Step(fold, max, ss[n - 1], ps[n - 1].packet, ps[n - 1].now, ss[n]);
    }
  }

  /** After every packet with an answer, the cache is within its cap; no other packet makes it grow. */
  lemma {:induction false} NeverOverCap(fold: Fold, max: nat, ss: seq<Entries>, ps: seq<Added>, n: nat)
    requires Run(fold, max, ss, ps) && ss[0] == map[] && n <= |ps|
    ensures |ss[n]| <= max
  {
    hide Answers, AbsorbAll;
    if n > 0 {
      NeverOverCap(fold, max, ss, ps, n - 1);
      assert Step(fold, max, ss[n - 1], ps[n - 1].packet, ps[n - 1].now, ss[n]);
    }
  }

  /**
   * What a packet leaves for an address it answers: the shorter of the live owner and the new one, the
   * new one on a tie. A new owner, and the same owner seen again, get a new expiry.
   */
  lemma ShorterOwnerWins(fold: Fold, max: nat, es: Entries, packet: bytes, now: int, es': Entries, ip: IPv4)
    requires Step(fold, max, es, packet, now, es') && ip in Answers(packet) && ip in es'
    ensures var a := Answers(packet)[ip];
            var name := ToLower(fold, a.name);
            if ip in es && now < es[ip].expires && |es[ip].name| < |name| then es'[ip] == es[ip]
            else es'[ip].name == name && es'[ip].expires == now + Lifetime(a.ttl)
  {
    hide Answers, ToLower, Lifetime;
    assert Answers(packet) != map[];
  }

  /** Right after a packet that answers an address and keeps it, a lookup finds it until its lifetime ends. */
  lemma AnsweredIsFound(fold: Fold, max: nat, es: Entries, packet: bytes, now: int, es': Entries, ip: IPv4, t: int)
    requires Step(fold, max, es, packet, now, es') && ip in Answers(packet) && ip in es'
    ensures var a := Answers(packet)[ip];
            var name := ToLower(fold, a.name);
            LookupAt(es', ip, t) ==
            if ip in es && now < es[ip].expires && |es[ip].name| < |name|
            then (if t < es[ip].expires then Some(es[ip].name) else None)
            else (if t < now + Lifetime(a.ttl) then Some(name) else None)
  {
    hide Answers, ToLower, Lifetime, Step;
    ShorterOwnerWins(fold, max, es, packet, now, es', ip);
  }

  /** While no packet answers an address and its entry is kept, the entry stays as it is. */
  lemma {:induction false} EntryStays(fold: Fold, max: nat, ss: seq<Entries>, ps: seq<Added>, i: nat, n: nat, ip: IPv4)
    requires Run(fold, max, ss, ps) && i <= n <= |ps|
    requires forall k :: i <= k <= n ==> ip in ss[k]
    requires forall k :: i <= k < n ==> ip !in Answers(ps[k].packet)
    ensures ss[n][ip] == ss[i][ip]
    decreases n
  {
    hide Answers, ToLower, Lifetime;
    if i < n {
      EntryStays(fold, max, ss, ps, i, n - 1, ip);
      assert Step(fold, max, ss[n - 1], ps[n - 1].packet, ps[n - 1].now, ss[n]);
    }
  }
}
