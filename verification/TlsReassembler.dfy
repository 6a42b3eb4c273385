/**
 * The bounded store that joins a ClientHello split over several write calls. It keeps one buffer per
 * (pid, destination, port), retries the server-name parser on the bytes gathered so far, drops
 * buffers that have not grown for `ttl`, and makes room for a new key by dropping the buffer that has
 * gone longest without growing. Clock readings are parameters; two readings in one call may differ.
 */
module TlsReassembler {
  import opened Bytes
  import opened Collections
  import ClientHello

  const DEFAULT_TTL := 30_000_000_000
  const DEFAULT_MAX_KEY := 1024
  const DEFAULT_BUFFER_CAP := 512

  datatype Key = Key(pid: nat, dst: bytes, dport: nat)
  datatype Entry = Entry(buf: bytes, createdAt: int, updatedAt: int)
  datatype AppendResult = AppendResult(sni: bytes, parsed: bool, bufferLen: nat, reassembly: bool)
  datatype Config = Config(ttl: int, maxKey: int, bufCap: int)

  type Store = map<Key, Entry>

  const NOTHING := AppendResult([], false, 0, false)

  ghost predicate ValidConfig(cfg: Config)
  {
    cfg.ttl > 0 && cfg.maxKey > 0 && cfg.bufCap > 0
  }

  // ---------- What one call may do ----------

  predicate Expired(cfg: Config, e: Entry, now: int)
  {
    e.updatedAt < now - cfg.ttl
  }

  function Unexpired(cfg: Config, s: Store, now: int): (r: Store)
  {
    map k | k in s && !Expired(cfg, s[k], now) :: s[k]
  }

  /** `k` went longest without an update; several keys may tie. */
  ghost predicate LeastRecent(s: Store, k: Key)
  {
    k in s && forall j :: j in s ==> s[k].updatedAt <= s[j].updatedAt
  }

  /** `r` is `s` with room for `key`. */
  ghost predicate MakesRoom(cfg: Config, s: Store, key: Key, r: Store)
  {
    if key in s || |s| < cfg.maxKey then r == s
    else exists k :: LeastRecent(s, k) && r == s - {k}
  }

  function Capped(cfg: Config, b: bytes): (r: bytes)
    requires cfg.bufCap >= 0
  {
    b[..Min(cfg.bufCap, |b|)]
  }

  /** The buffer after an append: a full one takes nothing more. */
  ghost function BufferAfter(cfg: Config, buf: bytes, payload: bytes): (r: bytes)
    requires ValidConfig(cfg)
  {
    if |buf| < cfg.bufCap then Capped(cfg, buf + payload) else buf
  }

  lemma AppendedBuffer(cfg: Config, buf: bytes, payload: bytes, r: bytes)
    requires ValidConfig(cfg)
    requires var remaining := cfg.bufCap - |buf|;
             r == if remaining <= 0 then buf
                  else buf + (if |payload| > remaining then payload[..remaining] else payload)
    ensures r == BufferAfter(cfg, buf, payload)
  {
    var all := buf + payload;
    if |buf| < cfg.bufCap < |all| {
      assert r == all[..cfg.bufCap];
    }
  }

  /** Appending to a store that has room: the new store and the answer. */
  ghost function Feed(cfg: Config, fold: Fold, s: Store, key: Key, payload: bytes, created: int, updated: int)
    : (r: (Store, AppendResult))
    requires ValidConfig(cfg)
  {
    var prior := if key in s then s[key] else Entry([], created, created);
    var buf := BufferAfter(cfg, prior.buf, payload);
    var answer := ClientHello.Sni(fold, buf);
    if buf != [] && buf[0] != 0x16 then (s - {key}, NOTHING.(bufferLen := |buf|))
    else if answer.Some? then (s - {key}, AppendResult(answer.value, true, |buf|, key in s))
    else (s[key := Entry(buf, prior.createdAt, updated)], NOTHING.(bufferLen := |buf|))
  }

  /** A call to the store, with the clock readings it takes. */
  datatype Call =
    | Append(key: Key, payload: bytes, evictAt: int, createAt: int, updateAt: int)
    | Sweep(evictAt: int)

  ghost predicate Step(cfg: Config, fold: Fold, s: Store, c: Call, s': Store, r: AppendResult)
    requires ValidConfig(cfg)
  {
    match c
    case Sweep(now) => s' == Unexpired(cfg, s, now) && r == NOTHING
    case Append(key, payload, evictAt, createAt, updateAt) =>
      if payload == [] then s' == s && r == NOTHING
      else exists room :: MakesRoom(cfg, Unexpired(cfg, s, evictAt), key, room)
                          && (s', r) == Feed(cfg, fold, room, key, payload, createAt, updateAt)
  }

  /** The answer and the store after an append, by the cases the source distinguishes. */
  lemma FeedIs(cfg: Config, fold: Fold, room: Store, key: Key, payload: bytes, created: int, updated: int,
               buf: bytes, s': Store, r: AppendResult)
    requires ValidConfig(cfg)
    requires var prior := if key in room then room[key] else Entry([], created, created);
             var stored := room[key := Entry(buf, prior.createdAt, updated)];
             var answer := ClientHello.Sni(fold, buf);
             && buf == BufferAfter(cfg, prior.buf, payload)
             && (if buf != [] && buf[0] != 0x16 then s' == stored - {key} && r == NOTHING.(bufferLen := |buf|)
                 else if answer.Some? then
                   s' == stored - {key} && r == AppendResult(answer.value, true, |buf|, key in room)
                 else s' == stored && r == NOTHING.(bufferLen := |buf|))
    ensures (s', r) == Feed(cfg, fold, room, key, payload, created, updated)
  {
    hide ClientHello.Sni, BufferAfter;
    var prior := if key in room then room[key] else Entry([], created, created);
    assert room[key := Entry(buf, prior.createdAt, updated)] - {key} == room - {key};
  }

  lemma FeedIsStep(cfg: Config, fold: Fold, s: Store, key: Key, payload: bytes, evictAt: int, createAt: int,
                   updateAt: int, room: Store, s': Store, r: AppendResult)
    requires ValidConfig(cfg) && payload != []
    requires MakesRoom(cfg, Unexpired(cfg, s, evictAt), key, room)
    requires (s', r) == Feed(cfg, fold, room, key, payload, createAt, updateAt)
    ensures Step(cfg, fold, s, Append(key, payload, evictAt, createAt, updateAt), s', r)
  {
  }

  // ---------- The store as the source runs it ----------

  class Reassembler {
    const cfg: Config
    const fold: Fold
    var store: Store

    constructor (fold: Fold, ttl: int, maxKey: int, bufCap: int)
      ensures ValidConfig(cfg) && store == map[] && this.fold == fold
      ensures cfg.ttl == (if ttl > 0 then ttl else 30_000_000_000)
      ensures cfg.maxKey == (if maxKey > 0 then maxKey else 1024)
      ensures cfg.bufCap == (if bufCap > 0 then bufCap else 512)
    {
      this.fold := fold;
      cfg := Config(if ttl <= 0 then DEFAULT_TTL else ttl,
                    if maxKey <= 0 then DEFAULT_MAX_KEY else maxKey,
                    if bufCap <= 0 then DEFAULT_BUFFER_CAP else bufCap);
      store := map[];
    }

    method EvictExpired(now: int) returns (n: nat)
      requires ValidConfig(cfg)
      modifies this
      ensures store == Unexpired(cfg, old(store), now)
      ensures forall k :: k in old(store) ==> (k in store <==> now <= old(store)[k].updatedAt + cfg.ttl)
      ensures n == |old(store)| - |store|
    {
      n := 0;
      if |store| == 0 {
        assert store == map[];
        return;
      }
      var todo := store.Keys;
      while todo != {}
        invariant todo <= old(store).Keys
        invariant forall k :: k in store <==> k in old(store) && (k in todo || !Expired(cfg, old(store)[k], now))
        invariant forall k :: k in store ==> store[k] == old(store)[k]
        invariant n == |old(store)| - |store|
        decreases todo
      {
        var k :| k in todo;
        todo := todo - {k};
        if Expired(cfg, store[k], now) {
          ghost var before := store.Keys;
          store := store - {k};
          assert store.Keys == before - {k};
          n := n + 1;
        }
      }
    }

    method EvictOldest()
      modifies this
      ensures if old(store) == map[] then store == map[]
              else exists k :: LeastRecent(old(store), k) && store == old(store) - {k}
    {
      if store == map[] {
        return;
      }
      var oldestKey :| oldestKey in store;
      var todo := store.Keys - {oldestKey};
      while todo != {}
        invariant todo <= store.Keys && oldestKey in store
        invariant forall j :: j in store && j !in todo ==> store[oldestKey].updatedAt <= store[j].updatedAt
        decreases todo
      {
        var k :| k in todo;
        todo := todo - {k};
        if store[k].updatedAt < store[oldestKey].updatedAt {
          oldestKey := k;
        }
      }
      assert LeastRecent(store, oldestKey);
      store := store - {oldestKey};
    }

    method AppendAndParse(key: Key, payload: bytes, evictAt: int, createAt: int, updateAt: int)
      returns (r: AppendResult)
      requires ValidConfig(cfg)
      modifies this
      ensures Step(cfg, fold, old(store), Append(key, payload, evictAt, createAt, updateAt), store, r)
    {
      if |payload| == 0 {
        return NOTHING;
      }
      hide ClientHello.Sni, Step, Feed, Capped, BufferAfter, LeastRecent;
      var _ := EvictExpired(evictAt);
      ghost var live := store;
      var hadEntry := key in store;
      if !hadEntry && |store| >= cfg.maxKey {
        EvictOldest();
      }
      ghost var room := store;
      assert MakesRoom(cfg, live, key, room);
      var entry := if hadEntry then store[key] else Entry([], createAt, createAt);
      var remaining := cfg.bufCap - |entry.buf|;
      ghost var prior := entry;
      if remaining > 0 {
        var take := payload;
        if |take| > remaining {
          take := take[..remaining];
        }
        entry := entry.(buf := entry.buf + take);
      }
      AppendedBuffer(cfg, prior.buf, payload, entry.buf);
      entry := entry.(updatedAt := updateAt);
      store := store[key := entry];
      if |entry.buf| >= 1 && entry.buf[0] != 0x16 {
        store := store - {key};
        r := NOTHING.(bufferLen := |entry.buf|);
      } else {
        var sni, ok := ClientHello.ParseClientHelloSNI(fold, entry.buf);
        if ok {
          store := store - {key};
          r := AppendResult(sni, true, |entry.buf|, hadEntry);
        } else {
          r := NOTHING.(bufferLen := |entry.buf|);
        }
      }
      FeedIs(cfg, fold, room, key, payload, createAt, updateAt, entry.buf, store, r);
      FeedIsStep(cfg, fold, old(store), key, payload, evictAt, createAt, updateAt, room, store, r);
    }

    method RunSweep(now: int) returns (n: nat)
      requires ValidConfig(cfg)
      modifies this
      ensures Step(cfg, fold, old(store), Sweep(now), store, NOTHING)
      ensures n == |old(store)| - |store|
    {
      n := EvictExpired(now);
    }
  }

  // ---------- Every reachable store ----------

  ghost predicate Sound(cfg: Config, fold: Fold, s: Store)
  {
    && |s| <= cfg.maxKey
    && forall k :: k in s ==> SoundBuffer(cfg, fold, s[k].buf)
  }

  /** Non-empty, within the cap, the start of a handshake record, and not yet enough to parse. */
  ghost predicate SoundBuffer(cfg: Config, fold: Fold, b: bytes)
  {
    0 < |b| <= cfg.bufCap && b[0] == 0x16 && ClientHello.Sni(fold, b).None?
  }

  /** A run: `ss[i]` is the store before call `cs[i]`, and `rs[i]` its answer. */
  ghost predicate Run(cfg: Config, fold: Fold, ss: seq<Store>, cs: seq<Call>, rs: seq<AppendResult>)
    requires ValidConfig(cfg)
  {
    && |ss| == |cs| + 1 && |rs| == |cs|
    && forall i :: 0 <= i < |cs| ==> Step(cfg, fold, ss[i], cs[i], ss[i + 1], rs[i])
  }

  lemma RoomIsSound(cfg: Config, fold: Fold, s: Store, now: int, key: Key, room: Store)
    requires ValidConfig(cfg) && Sound(cfg, fold, s)
    requires MakesRoom(cfg, Unexpired(cfg, s, now), key, room)
    ensures Sound(cfg, fold, room) && (key in room || |room| < cfg.maxKey)
    ensures forall k :: k in room ==> k in s && room[k] == s[k]
  {
    var live := Unexpired(cfg, s, now);
    SubsetSize(live.Keys, s.Keys);
    if key !in live && |live| >= cfg.maxKey {
      var k :| LeastRecent(live, k) && room == live - {k};
      assert room.Keys == live.Keys - {k};
    }
  }

  lemma FeedIsSound(cfg: Config, fold: Fold, s: Store, key: Key, payload: bytes, created: int, updated: int)
    requires ValidConfig(cfg) && Sound(cfg, fold, s) && payload != []
    requires key in s || |s| < cfg.maxKey
    ensures Sound(cfg, fold, Feed(cfg, fold, s, key, payload, created, updated).0)
  {
    hide ClientHello.Sni;
    var (s', r) := Feed(cfg, fold, s, key, payload, created, updated);
    if key in s' {
      assert s'.Keys == s.Keys + {key};
    } else {
      SubsetSize(s'.Keys, s.Keys);
    }
  }

  lemma StepIsSound(cfg: Config, fold: Fold, s: Store, c: Call, s': Store, r: AppendResult)
    requires ValidConfig(cfg) && Sound(cfg, fold, s) && Step(cfg, fold, s, c, s', r)
    ensures Sound(cfg, fold, s')
  {
    match c
    case Sweep(now) => SubsetSize(s'.Keys, s.Keys);
    case Append(key, payload, evictAt, createAt, updateAt) =>
      if payload != [] {
        var room :| MakesRoom(cfg, Unexpired(cfg, s, evictAt), key, room)
                    && (s', r) == Feed(cfg, fold, room, key, payload, createAt, updateAt);
        RoomIsSound(cfg, fold, s, evictAt, key, room);
        FeedIsSound(cfg, fold, room, key, payload, createAt, updateAt);
      }
  }

  /** From an empty store, every store of every run is sound. */
  lemma {:induction false} RunIsSound(cfg: Config, fold: Fold, ss: seq<Store>, cs: seq<Call>, rs: seq<AppendResult>,
                                      n: nat)
    requires ValidConfig(cfg) && Run(cfg, fold, ss, cs, rs) && ss[0] == map[] && n <= |cs|
    ensures Sound(cfg, fold, ss[n])
  {
    if n > 0 {
      RunIsSound(cfg, fold, ss, cs, rs, n - 1);
      StepIsSound(cfg, fold, ss[n - 1], cs[n - 1], ss[n], rs[n - 1]);
    }
  }

  /**
   * An entry leaves a sound store in three ways only: its own call parses; it is older than the ttl; or
   * it is a least recently updated one when a new key meets a store that is full of unexpired entries.
   */
  lemma WhyEntriesLeave(cfg: Config, fold: Fold, s: Store, c: Call, s': Store, r: AppendResult, k: Key)
    requires ValidConfig(cfg) && Sound(cfg, fold, s) && Step(cfg, fold, s, c, s', r)
    requires k in s && k !in s'
    ensures || (c.Append? && c.key == k && r.parsed && r.reassembly)
            || Expired(cfg, s[k], c.evictAt)
            || (c.Append? && c.key !in s && c.key != k && |s| == cfg.maxKey && LeastRecent(s, k))
  {
    hide ClientHello.Sni, Feed, LeastRecent, SoundBuffer;
    if c.Append? && !Expired(cfg, s[k], c.evictAt) {
      var live := Unexpired(cfg, s, c.evictAt);
      var room :| MakesRoom(cfg, live, c.key, room)
                  && (s', r) == Feed(cfg, fold, room, c.key, c.payload, c.createAt, c.updateAt);
      if k in room {
        RoomIsSound(cfg, fold, s, c.evictAt, c.key, room);
        FeedRemoves(cfg, fold, room, c.key, c.payload, c.createAt, c.updateAt, k);
      } else {
        SubsetSize(live.Keys, s.Keys);
        assert live == s;
      }
    }
  }

  lemma FeedRemoves(cfg: Config, fold: Fold, s: Store, key: Key, payload: bytes, created: int, updated: int, k: Key)
    requires ValidConfig(cfg) && Sound(cfg, fold, s)
    requires k in s && k !in Feed(cfg, fold, s, key, payload, created, updated).0
    ensures var r := Feed(cfg, fold, s, key, payload, created, updated).1;
            k == key && r.parsed && r.reassembly
  {
    hide ClientHello.Sni;
    assert SoundBuffer(cfg, fold, s[k].buf);
  }

  // ---------- Expiry and eviction, by the times of the calls ----------

  ghost predicate Feeds(c: Call, key: Key)
  {
    c.Append? && c.key == key && c.payload != []
  }

  /** The last of the first `n` calls that handed over bytes for `key`; -1 when there is none. */
  ghost function LastFed(cs: seq<Call>, key: Key, n: nat): (i: int)
    requires n <= |cs|
    ensures -1 <= i < n && (i >= 0 ==> Feeds(cs[i], key))
    ensures forall j :: i < j < n ==> !Feeds(cs[j], key)
  {
    if n == 0 then -1 else if Feeds(cs[n - 1], key) then n - 1 else LastFed(cs, key, n - 1)
  }

  /** Until when the entry of `key` is kept: the ttl runs from the last call that fed it. */
  ghost function Deadline(cfg: Config, cs: seq<Call>, key: Key, n: nat): (t: int)
    requires n <= |cs| && LastFed(cs, key, n) >= 0
  {
    cs[LastFed(cs, key, n)].updateAt + cfg.ttl
  }

  lemma StepStamps(cfg: Config, fold: Fold, s: Store, c: Call, s': Store, r: AppendResult, k: Key)
    requires ValidConfig(cfg) && Step(cfg, fold, s, c, s', r) && k in s'
    ensures if Feeds(c, k) then s'[k].updatedAt == c.updateAt else k in s && s'[k] == s[k]
  {
    hide ClientHello.Sni, BufferAfter;
  }

  /** In every run, an entry is stamped with the time of the last call that fed its key. */
  lemma {:induction false} StampIsLastFed(cfg: Config, fold: Fold, ss: seq<Store>, cs: seq<Call>,
                                          rs: seq<AppendResult>, k: Key, n: nat)
    requires ValidConfig(cfg) && Run(cfg, fold, ss, cs, rs) && k !in ss[0] && n <= |cs| && k in ss[n]
    ensures LastFed(cs, k, n) >= 0 && ss[n][k].updatedAt == cs[LastFed(cs, k, n)].updateAt
  {
    hide Step;
    if n > 0 {
      StepStamps(cfg, fold, ss[n - 1], cs[n - 1], ss[n], rs[n - 1], k);
      if !Feeds(cs[n - 1], k) {
        StampIsLastFed(cfg, fold, ss, cs, rs, k, n - 1);
      }
    }
  }

  /** A call that looks at the clock: every sweep, and every append that brings bytes. */
  ghost predicate Looks(c: Call)
  {
    c.Sweep? || c.payload != []
  }

  /** What an append leaves when its key has no entry: a buffer of its own bytes alone. */
  ghost predicate StartsAfresh(cfg: Config, s': Store, c: Call, r: AppendResult)
    requires c.Append?
  {
    && !r.reassembly && r.bufferLen == Min(cfg.bufCap, |c.payload|)
    && (c.key in s' ==> s'[c.key].buf == c.payload[..Min(cfg.bufCap, |c.payload|)])
  }

  lemma StaleLeaves(cfg: Config, fold: Fold, s: Store, c: Call, s': Store, r: AppendResult, k: Key)
    requires ValidConfig(cfg) && Step(cfg, fold, s, c, s', r) && Looks(c)
    requires k in s && s[k].updatedAt + cfg.ttl < c.evictAt
    ensures if Feeds(c, k) then StartsAfresh(cfg, s', c, r) else k !in s'
  {
    hide ClientHello.Sni, Feed, StartsAfresh;
    if c.Append? {
      var live := Unexpired(cfg, s, c.evictAt);
      var room :| MakesRoom(cfg, live, c.key, room)
                  && (s', r) == Feed(cfg, fold, room, c.key, c.payload, c.createAt, c.updateAt);
      assert k !in room;
      if k == c.key {
        FeedNewKey(cfg, fold, room, c, s', r);
      } else {
        FeedKeepsOthers(cfg, fold, room, c.key, c.payload, c.createAt, c.updateAt, k);
      }
    }
  }

  lemma FeedNewKey(cfg: Config, fold: Fold, s: Store, c: Call, s': Store, r: AppendResult)
    requires ValidConfig(cfg) && c.Append? && c.key !in s
    requires (s', r) == Feed(cfg, fold, s, c.key, c.payload, c.createAt, c.updateAt)
    ensures StartsAfresh(cfg, s', c, r)
  {
    hide ClientHello.Sni;
    assert [] + c.payload == c.payload;
  }

  /** An entry whose deadline has passed at a call is gone after it; its own call starts afresh. */
  lemma PastDeadlineLeaves(cfg: Config, fold: Fold, ss: seq<Store>, cs: seq<Call>, rs: seq<AppendResult>, k: Key,
                           n: nat)
    requires ValidConfig(cfg) && Run(cfg, fold, ss, cs, rs) && k !in ss[0] && n < |cs| && k in ss[n] && Looks(cs[n])
    ensures LastFed(cs, k, n) >= 0
    ensures Deadline(cfg, cs, k, n) < cs[n].evictAt ==>
            if Feeds(cs[n], k) then StartsAfresh(cfg, ss[n + 1], cs[n], rs[n]) else k !in ss[n + 1]
  {
    hide Step, StartsAfresh;
    StampIsLastFed(cfg, fold, ss, cs, rs, k, n);
    if Deadline(cfg, cs, k, n) < cs[n].evictAt {
      StaleLeaves(cfg, fold, ss[n], cs[n], ss[n + 1], rs[n], k);
    }
  }

  /**
   * Before its deadline an entry leaves only when its own call parses, or when a new key meets a full
   * store and no key in it was fed longer ago.
   */
  lemma BeforeDeadlineStays(cfg: Config, fold: Fold, ss: seq<Store>, cs: seq<Call>, rs: seq<AppendResult>, k: Key,
                            n: nat)
    requires ValidConfig(cfg) && Run(cfg, fold, ss, cs, rs) && ss[0] == map[]
    requires n < |cs| && k in ss[n] && k !in ss[n + 1]
    ensures LastFed(cs, k, n) >= 0
    ensures cs[n].evictAt <= Deadline(cfg, cs, k, n) ==>
            || (Feeds(cs[n], k) && rs[n].parsed && rs[n].reassembly)
            || (&& cs[n].Append? && cs[n].key !in ss[n] && cs[n].key != k && |ss[n]| == cfg.maxKey
                && forall j :: j in ss[n] ==>
                     LastFed(cs, j, n) >= 0 && cs[LastFed(cs, k, n)].updateAt <= cs[LastFed(cs, j, n)].updateAt)
  {
    hide Step, Sound;
    RunIsSound(cfg, fold, ss, cs, rs, n);
    WhyEntriesLeave(cfg, fold, ss[n], cs[n], ss[n + 1], rs[n], k);
    forall j | j in ss[n]
      ensures LastFed(cs, j, n) >= 0 && ss[n][j].updatedAt == cs[LastFed(cs, j, n)].updateAt
    {
      StampIsLastFed(cfg, fold, ss, cs, rs, j, n);
    }
    PayloadOfLeaver(cfg, fold, ss[n], cs[n], ss[n + 1], rs[n], k);
  }

  lemma PayloadOfLeaver(cfg: Config, fold: Fold, s: Store, c: Call, s': Store, r: AppendResult, k: Key)
    requires ValidConfig(cfg) && Step(cfg, fold, s, c, s', r) && k in s && k !in s'
    ensures c.Append? ==> c.payload != []
  {
    hide Feed, MakesRoom;
  }

  /** Without a host there is no answer, and an append without bytes does nothing at all. */
  lemma AnswerShape(cfg: Config, fold: Fold, s: Store, c: Call, s': Store, r: AppendResult)
    requires ValidConfig(cfg) && Step(cfg, fold, s, c, s', r)
    ensures !r.parsed ==> r.sni == [] && !r.reassembly
    ensures c.Append? && c.payload == [] ==> s' == s && !r.parsed && r.bufferLen == 0
  {
    hide ClientHello.Sni, BufferAfter, MakesRoom;
  }

  /** Bytes that start something other than a handshake record are not kept and have no answer. */
  lemma OtherRecordsAreDropped(cfg: Config, fold: Fold, s: Store, c: Call, s': Store, r: AppendResult)
    requires ValidConfig(cfg) && Step(cfg, fold, s, c, s', r)
    requires c.Append? && c.payload != [] && c.key !in s && c.payload[0] != 0x16
    ensures c.key !in s' && !r.parsed && r.bufferLen == Min(cfg.bufCap, |c.payload|)
  {
    hide ClientHello.Sni, LeastRecent, Feed;
    var live := Unexpired(cfg, s, c.evictAt);
    var room :| MakesRoom(cfg, live, c.key, room)
                && (s', r) == Feed(cfg, fold, room, c.key, c.payload, c.createAt, c.updateAt);
    assert c.key !in room;
    FeedDrops(cfg, fold, room, c);
  }

  lemma FeedDrops(cfg: Config, fold: Fold, s: Store, c: Call)
    requires ValidConfig(cfg) && c.Append? && c.payload != [] && c.key !in s && c.payload[0] != 0x16
    ensures var (s', r) := Feed(cfg, fold, s, c.key, c.payload, c.createAt, c.updateAt);
            c.key !in s' && !r.parsed && r.bufferLen == Min(cfg.bufCap, |c.payload|)
  {
    hide ClientHello.Sni;
    assert [] + c.payload == c.payload;
  }

  /** Room is made by dropping one entry, no more. */
  lemma OneMakesRoom(cfg: Config, fold: Fold, s: Store, c: Call, s': Store, r: AppendResult, j: Key, k: Key)
    requires ValidConfig(cfg) && Sound(cfg, fold, s) && Step(cfg, fold, s, c, s', r)
    requires j in s && k in s && j != k && j !in s' && k !in s' && !Feeds(c, j) && !Feeds(c, k)
    ensures s[j].updatedAt + cfg.ttl < c.evictAt || s[k].updatedAt + cfg.ttl < c.evictAt
  {
    hide ClientHello.Sni, SoundBuffer, Feed, LeastRecent;
    if c.Append? && c.payload != [] {
      var live := Unexpired(cfg, s, c.evictAt);
      var room :| MakesRoom(cfg, live, c.key, room)
                  && (s', r) == Feed(cfg, fold, room, c.key, c.payload, c.createAt, c.updateAt);
      FeedKeepsOthers(cfg, fold, room, c.key, c.payload, c.createAt, c.updateAt, j);
      FeedKeepsOthers(cfg, fold, room, c.key, c.payload, c.createAt, c.updateAt, k);
    }
  }

  lemma FeedKeepsOthers(cfg: Config, fold: Fold, s: Store, key: Key, payload: bytes, created: int, updated: int, k: Key)
    requires ValidConfig(cfg) && k != key
    ensures k in Feed(cfg, fold, s, key, payload, created, updated).0 <==> k in s
  {
    hide ClientHello.Sni, BufferAfter;
  }

  /** A new key that meets a full store is let in all the same: some entry leaves. */
  lemma FullStoreMakesRoom(cfg: Config, fold: Fold, s: Store, c: Call, s': Store, r: AppendResult)
    requires ValidConfig(cfg) && Step(cfg, fold, s, c, s', r)
    requires c.Append? && c.payload != [] && c.key !in s && |s| >= cfg.maxKey
    ensures exists k :: k in s && k !in s'
  {
    hide ClientHello.Sni, Feed;
    var live := Unexpired(cfg, s, c.evictAt);
    var room :| MakesRoom(cfg, live, c.key, room)
                && (s', r) == Feed(cfg, fold, room, c.key, c.payload, c.createAt, c.updateAt);
    if |live| >= cfg.maxKey {
      var k :| LeastRecent(live, k) && room == live - {k};
      FeedKeepsOthers(cfg, fold, room, c.key, c.payload, c.createAt, c.updateAt, k);
    } else {
      var gone := s.Keys - live.Keys;
      assert s.Keys == live.Keys + gone;
      var k :| k in gone;
      FeedKeepsOthers(cfg, fold, room, c.key, c.payload, c.createAt, c.updateAt, k);
    }
  }

  // ---------- Fragmentation does not matter ----------

  /** The bytes handed over for `key` by the first `n` calls. */
  ghost function Sent(cs: seq<Call>, key: Key, n: nat): (b: bytes)
    requires n <= |cs|
  {
    if n == 0 then []
    else Sent(cs, key, n - 1) + (if Feeds(cs[n - 1], key) then cs[n - 1].payload else [])
  }

  /** No call evicts `key`: its own fragments come before its deadline, and the other calls leave it in the store. */
  ghost predicate Undisturbed(cfg: Config, ss: seq<Store>, cs: seq<Call>, key: Key)
    requires |ss| == |cs| + 1
  {
    && (forall i :: 0 <= i < |cs| && key in ss[i] && Feeds(cs[i], key) ==> InTime(cfg, cs, key, i))
    && (forall i :: 0 <= i < |cs| && key in ss[i] && !Feeds(cs[i], key) ==> key in ss[i + 1])
  }

  ghost predicate InTime(cfg: Config, cs: seq<Call>, key: Key, i: nat)
    requires i < |cs|
  {
    LastFed(cs, key, i) >= 0 && cs[i].evictAt <= Deadline(cfg, cs, key, i)
  }

  lemma UndisturbedIsLive(cfg: Config, fold: Fold, ss: seq<Store>, cs: seq<Call>, rs: seq<AppendResult>, key: Key,
                          i: nat)
    requires ValidConfig(cfg) && Fragments(cfg, fold, ss, cs, rs, key) && i < |cs| && key in ss[i] && Feeds(cs[i], key)
    ensures !Expired(cfg, ss[i][key], cs[i].evictAt)
  {
    hide Step, Sent;
    StampIsLastFed(cfg, fold, ss, cs, rs, key, i);
    assert InTime(cfg, cs, key, i);
  }

  ghost predicate NoSuccessBefore(cs: seq<Call>, rs: seq<AppendResult>, key: Key, n: nat)
    requires n <= |cs| == |rs|
  {
    forall i :: 0 <= i < n && Feeds(cs[i], key) ==> !rs[i].parsed
  }

  ghost predicate FirstSuccess(cs: seq<Call>, rs: seq<AppendResult>, key: Key, i: nat)
    requires |cs| == |rs|
  {
    i < |cs| && Feeds(cs[i], key) && rs[i].parsed && NoSuccessBefore(cs, rs, key, i)
  }

  /** A run that starts without `key`, never evicts it, and hands it a handshake record. */
  ghost predicate Fragments(cfg: Config, fold: Fold, ss: seq<Store>, cs: seq<Call>, rs: seq<AppendResult>, key: Key)
    requires ValidConfig(cfg)
  {
    && Run(cfg, fold, ss, cs, rs) && key !in ss[0] && Undisturbed(cfg, ss, cs, key)
    && (Sent(cs, key, |cs|) != [] ==> Sent(cs, key, |cs|)[0] == 0x16)
  }

  lemma {:induction false} SentGrows(cs: seq<Call>, key: Key, m: nat, n: nat)
    requires m <= n <= |cs|
    ensures Sent(cs, key, m) <= Sent(cs, key, n)
    decreases n
  {
    if m < n {
      SentGrows(cs, key, m, n - 1);
    }
  }

  lemma CappedTwice(cfg: Config, a: bytes, b: bytes)
    requires ValidConfig(cfg)
    ensures Capped(cfg, a + b) ==
            if |Capped(cfg, a)| < cfg.bufCap then Capped(cfg, Capped(cfg, a) + b) else Capped(cfg, a)
  {
    if |a| < cfg.bufCap {
      assert Capped(cfg, a) == a;
    }
  }

  /** The buffer `key` has gathered before call `n`, while nothing has parsed. */
  ghost predicate Gathered(cfg: Config, s: Store, key: Key, sent: bytes)
    requires ValidConfig(cfg)
  {
    if sent == [] then key !in s else key in s && s[key].buf == Capped(cfg, sent)
  }

  /** A call that does not feed `key` leaves its buffer alone. */
  lemma OthersKeepBuffer(cfg: Config, fold: Fold, s: Store, c: Call, s': Store, r: AppendResult, key: Key, sent: bytes)
    requires ValidConfig(cfg) && Step(cfg, fold, s, c, s', r)
    requires !Feeds(c, key) && (key in s ==> key in s')
    requires Gathered(cfg, s, key, sent)
    ensures Gathered(cfg, s', key, sent)
  {
    hide ClientHello.Sni, Capped;
  }

  lemma RoomKeepsKey(cfg: Config, s: Store, now: int, key: Key, room: Store)
    requires MakesRoom(cfg, Unexpired(cfg, s, now), key, room)
    requires key in s ==> !Expired(cfg, s[key], now)
    ensures key in room <==> key in s
    ensures key in s ==> room[key] == s[key]
  {
  }

  lemma CappedStart(cfg: Config, b: bytes)
    requires ValidConfig(cfg) && b != []
    ensures Capped(cfg, b) != [] && Capped(cfg, b)[0] == b[0] && Capped(cfg, []) == []
  {
  }

  /** A call that feeds `key` parses exactly the capped concatenation of everything sent so far. */
  lemma OwnCallParsesAll(cfg: Config, fold: Fold, s: Store, c: Call, s': Store, r: AppendResult, key: Key, sent: bytes)
    requires ValidConfig(cfg) && Step(cfg, fold, s, c, s', r) && Feeds(c, key)
    requires Gathered(cfg, s, key, sent)
    requires key in s ==> !Expired(cfg, s[key], c.evictAt)
    requires (sent + c.payload)[0] == 0x16
    ensures var buf := Capped(cfg, sent + c.payload);
            && r.parsed == ClientHello.Sni(fold, buf).Some?
            && (r.parsed ==> Some(r.sni) == ClientHello.Sni(fold, buf) && r.reassembly == (sent != []))
            && (!r.parsed ==> Gathered(cfg, s', key, sent + c.payload))
            && r.bufferLen == |buf|
  {
    hide ClientHello.Sni, MakesRoom, Unexpired, Capped;
    var room :| MakesRoom(cfg, Unexpired(cfg, s, c.evictAt), key, room)
                && (s', r) == Feed(cfg, fold, room, key, c.payload, c.createAt, c.updateAt);
    RoomKeepsKey(cfg, s, c.evictAt, key, room);
    CappedStart(cfg, sent + c.payload);
    CappedTwice(cfg, sent, c.payload);
    assert [] + c.payload == c.payload;
  }

  lemma {:induction false} BufferIsWhatWasSent(cfg: Config, fold: Fold, ss: seq<Store>, cs: seq<Call>,
                                               rs: seq<AppendResult>, key: Key, n: nat)
    requires ValidConfig(cfg) && Fragments(cfg, fold, ss, cs, rs, key)
    requires n <= |cs| && NoSuccessBefore(cs, rs, key, n)
    ensures Gathered(cfg, ss[n], key, Sent(cs, key, n))
    ensures ClientHello.Sni(fold, Capped(cfg, Sent(cs, key, n))).None?
  {
    hide ClientHello.Sni, Capped, Gathered, Step;
    if n == 0 {
      NothingGathered(cfg, fold, ss[0], key);
    } else {
      BufferIsWhatWasSent(cfg, fold, ss, cs, rs, key, n - 1);
      var i, sent := n - 1, Sent(cs, key, n - 1);
      if Feeds(cs[i], key) {
        SentGrows(cs, key, n, |cs|);
        if key in ss[i] {
          UndisturbedIsLive(cfg, fold, ss, cs, rs, key, i);
        }
        OwnCallParsesAll(cfg, fold, ss[i], cs[i], ss[n], rs[i], key, sent);
      } else {
        assert sent + [] == sent;
        OthersKeepBuffer(cfg, fold, ss[i], cs[i], ss[n], rs[i], key, sent);
      }
    }
  }

  lemma NothingGathered(cfg: Config, fold: Fold, s: Store, key: Key)
    requires ValidConfig(cfg) && key !in s
    ensures Gathered(cfg, s, key, []) && ClientHello.Sni(fold, Capped(cfg, [])).None?
  {
  }

  /** The answer to the fragment at call `i`, while nothing has parsed before it. */
  lemma FragmentAnswer(cfg: Config, fold: Fold, ss: seq<Store>, cs: seq<Call>, rs: seq<AppendResult>, key: Key, i: nat)
    requires ValidConfig(cfg) && Fragments(cfg, fold, ss, cs, rs, key)
    requires i < |cs| && Feeds(cs[i], key) && NoSuccessBefore(cs, rs, key, i)
    ensures var buf := Capped(cfg, Sent(cs, key, i + 1));
            && rs[i].parsed == ClientHello.Sni(fold, buf).Some?
            && (rs[i].parsed ==> Some(rs[i].sni) == ClientHello.Sni(fold, buf))
            && (rs[i].parsed ==> rs[i].reassembly == (Sent(cs, key, i) != []))
            && rs[i].bufferLen == |buf|
  {
    hide ClientHello.Sni, Capped, Gathered, Step;
    BufferIsWhatWasSent(cfg, fold, ss, cs, rs, key, i);
    SentGrows(cs, key, i + 1, |cs|);
    if key in ss[i] {
      UndisturbedIsLive(cfg, fold, ss, cs, rs, key, i);
    }
    OwnCallParsesAll(cfg, fold, ss[i], cs[i], ss[i + 1], rs[i], key, Sent(cs, key, i));
  }

  lemma {:induction false} FirstSuccessExists(cs: seq<Call>, rs: seq<AppendResult>, key: Key, n: nat) returns (i: nat)
    requires n <= |cs| == |rs| && !NoSuccessBefore(cs, rs, key, n)
    ensures i < n && FirstSuccess(cs, rs, key, i)
  {
    i := n - 1;
    if !NoSuccessBefore(cs, rs, key, n - 1) {
      i := FirstSuccessExists(cs, rs, key, n - 1);
    }
  }

  lemma FirstSuccessAnswer(cfg: Config, fold: Fold, ss: seq<Store>, cs: seq<Call>, rs: seq<AppendResult>, key: Key,
                           i: nat)
    requires ValidConfig(cfg) && Fragments(cfg, fold, ss, cs, rs, key) && FirstSuccess(cs, rs, key, i)
    ensures Some(rs[i].sni) == ClientHello.Sni(fold, Capped(cfg, Sent(cs, key, |cs|)))
    ensures rs[i].reassembly == (Sent(cs, key, i) != [])
  {
    hide ClientHello.Sni, Run, Undisturbed, Sent;
    FragmentAnswer(cfg, fold, ss, cs, rs, key, i);
    SentGrows(cs, key, i + 1, |cs|);
    var part, all := Capped(cfg, Sent(cs, key, i + 1)), Capped(cfg, Sent(cs, key, |cs|));
    assert part <= all;
    ClientHello.SniMonotone(fold, part, all);
  }

  /**
   * However a record is cut into fragments, and whatever other calls come between them, some fragment
   * parses exactly when the first `bufCap` bytes parse in one piece. The first one to parse gives that
   * same host, and is marked as reassembled exactly when it is not the first fragment.
   */
  lemma FragmentationDoesNotMatter(cfg: Config, fold: Fold, ss: seq<Store>, cs: seq<Call>, rs: seq<AppendResult>,
                                   key: Key)
    requires ValidConfig(cfg) && Fragments(cfg, fold, ss, cs, rs, key)
    ensures (exists i: nat :: FirstSuccess(cs, rs, key, i)) <==>
            ClientHello.Sni(fold, Capped(cfg, Sent(cs, key, |cs|))).Some?
    ensures forall i: nat :: FirstSuccess(cs, rs, key, i) ==>
              && Some(rs[i].sni) == ClientHello.Sni(fold, Capped(cfg, Sent(cs, key, |cs|)))
              && rs[i].reassembly == (Sent(cs, key, i) != [])
  {
    hide ClientHello.Sni, Capped, Undisturbed, Step, NoSuccessBefore;
    forall i: nat | FirstSuccess(cs, rs, key, i)
      ensures Some(rs[i].sni) == ClientHello.Sni(fold, Capped(cfg, Sent(cs, key, |cs|)))
      ensures rs[i].reassembly == (Sent(cs, key, i) != [])
    {
      FirstSuccessAnswer(cfg, fold, ss, cs, rs, key, i);
    }
    if NoSuccessBefore(cs, rs, key, |cs|) {
      BufferIsWhatWasSent(cfg, fold, ss, cs, rs, key, |cs|);
      forall i: nat | FirstSuccess(cs, rs, key, i) ensures false {
        FirstSuccessAnswer(cfg, fold, ss, cs, rs, key, i);
      }
    } else {
      var i := FirstSuccessExists(cs, rs, key, |cs|);
    }
  }
}
