/**
 * Loading the kernel maps of defend mode and repairing them. Other processes may write anything into
 * the maps between two ticks of the integrity check; any map operation may fail.
 */
module Integrity {
  import opened Bytes
  import opened Collections
  import opened EgressPolicy
  import opened Faults
  import opened LpmKeys

  // ---------- Kernel maps ----------

  /** A change to the keys of a trie. */
  datatype Op = Put(key: Key) | Del(key: Key)

  datatype DeleteOutcome = Deleted | Missing | DeleteFailed

  /**
   * A trie, with a record of the changes made to it through this object. Its operations are numbered
   * in the order they are tried, and `refused` are the numbers of those that fail.
   */
  class Trie {
    const refused: set<nat>
    var m: map<Key, byte>
    var tried: nat
    ghost var log: seq<Op>

    constructor (refused: set<nat>)
      ensures m == map[] && log == [] && tried == 0 && this.refused == refused
    {
      this.refused := refused;
      m, log, tried := map[], [], 0;
    }

    /** The keys, by iteration. */
    method Survey() returns (keys: set<Key>, ok: bool)
      modifies this`tried
      ensures tried == old(tried) + 1 && (ok <==> old(tried) !in refused)
      ensures ok ==> keys == m.Keys
    {
      keys, ok := {}, tried !in refused;
      tried := tried + 1;
      if ok {
        keys := m.Keys;
      }
    }

    method Update(k: Key, v: byte) returns (ok: bool)
      modifies this
      ensures tried == old(tried) + 1 && (ok <==> old(tried) !in refused)
      ensures ok ==> m == old(m)[k := v] && log == old(log) + [Put(k)]
      ensures !ok ==> m == old(m) && log == old(log)
    {
      ok := tried !in refused;
      tried := tried + 1;
      if ok {
        m, log := m[k := v], log + [Put(k)];
      }
    }

    method Delete(k: Key) returns (r: DeleteOutcome)
      modifies this
      ensures tried == old(tried) + 1 && (r == DeleteFailed <==> old(tried) in refused)
      ensures r == Deleted ==> k in old(m) && m == old(m) - {k} && log == old(log) + [Del(k)]
      ensures r == Missing ==> k !in old(m)
      ensures r != Deleted ==> m == old(m) && log == old(log)
    {
      var ok := tried !in refused;
      tried := tried + 1;
      if !ok {
        return DeleteFailed;
      }
      if k !in m {
        return Missing;
      }
      m, log := m - {k}, log + [Del(k)];
      return Deleted;
    }
  }

  ghost function Apply(keys: set<Key>, op: Op): (r: set<Key>)
  {
    if op.Put? then keys + {op.key} else keys - {op.key}
  }

  ghost function Replay(keys: set<Key>, ops: seq<Op>): (r: set<Key>)
  {
    if ops == [] then keys else Apply(Replay(keys, ops[..|ops| - 1]), ops[|ops| - 1])
  }

  /** Wanted keys first: no key is deleted before every wanted key is in, and no wanted key is deleted. */
  ghost predicate OrderlyRepair(keys: set<Key>, wanted: set<Key>, ops: seq<Op>)
  {
    forall j :: 0 <= j < |ops| ==>
      match ops[j]
      case Put(k) => k in wanted
      case Del(k) => k in keys && k !in wanted && wanted <= Replay(keys, ops[..j])
  }

  /**
   * At every moment of an orderly repair, also of one that was cut short: no wanted key that was there
   * at the start is missing, and the trie holds nothing but old and wanted keys.
   */
  lemma {:induction false} RepairNeverDropsWanted(keys: set<Key>, wanted: set<Key>, ops: seq<Op>, n: nat)
    requires OrderlyRepair(keys, wanted, ops) && n <= |ops|
    ensures keys * wanted <= Replay(keys, ops[..n]) <= keys + wanted
  {
    if n > 0 {
      RepairNeverDropsWanted(keys, wanted, ops, n - 1);
      assert ops[..n][..n - 1] == ops[..n - 1];
    }
  }

  /** The changes so far are an orderly repair of `start` that has led to `now`. */
  ghost predicate Repairing(start: set<Key>, wanted: set<Key>, ops: seq<Op>, now: set<Key>)
  {
    OrderlyRepair(start, wanted, ops) && Replay(start, ops) == now
  }

  lemma RepairStarts(start: set<Key>, wanted: set<Key>)
    ensures Repairing(start, wanted, [], start)
  {
  }

  lemma RepairGoesOn(start: set<Key>, wanted: set<Key>, ops: seq<Op>, now: set<Key>, op: Op)
    requires Repairing(start, wanted, ops, now)
    requires op.Put? ==> op.key in wanted
    requires op.Del? ==> op.key in start && op.key !in wanted && wanted <= now
    ensures Repairing(start, wanted, ops + [op], Apply(now, op))
  {
    var more := ops + [op];
    assert more[..|ops|] == ops;
    assert forall j :: 0 <= j < |ops| ==> more[j] == ops[j] && more[..j] == ops[..j];
  }

  // ---------- Reconciling one trie ----------

  /** What the record `log` has beyond `before` is an orderly repair of `start` that has led to `now`. */
  ghost predicate Repaired(before: seq<Op>, log: seq<Op>, start: set<Key>, wanted: set<Key>, now: set<Key>)
  {
    before <= log && Repairing(start, wanted, log[|before|..], now)
  }

  lemma RepairedNothing(log: seq<Op>, start: set<Key>, wanted: set<Key>)
    ensures Repaired(log, log, start, wanted, start)
  {
    assert log[|log|..] == [];
    RepairStarts(start, wanted);
  }

  lemma RepairedMore(before: seq<Op>, log: seq<Op>, start: set<Key>, wanted: set<Key>, now: set<Key>, op: Op)
    requires Repaired(before, log, start, wanted, now)
    requires op.Put? ==> op.key in wanted
    requires op.Del? ==> op.key in start && op.key !in wanted && wanted <= now
    ensures Repaired(before, log + [op], start, wanted, Apply(now, op))
  {
    hide Repairing;
    RepairGoesOn(start, wanted, log[|before|..], now, op);
    assert (log + [op])[|before|..] == log[|before|..] + [op];
  }

  /** How many elements of `a` are not in `b`. */
  ghost function Beyond<T>(a: set<T>, b: set<T>): (n: nat)
  {
    |a - b|
  }

  lemma BeyondMore<T>(a: set<T>, b: set<T>, x: T)
    ensures Beyond(a + {x}, b) == Beyond(a, b) + Count(x !in a && x !in b)
  {
    if x in a || x in b {
      assert (a + {x}) - b == a - b;
    } else {
      assert (a + {x}) - b == (a - b) + {x};
    }
  }

  lemma BeyondLess<T>(a: set<T>, b: set<T>, x: T)
    requires x in a && x in b
    ensures Beyond(a, b - {x}) == Beyond(a, b) + 1
  {
    assert a - (b - {x}) == (a - b) + {x};
  }

  lemma BeyondSame<T>(a: set<T>, b: set<T>, c: set<T>)
    requires b <= a && a - c <= b
    ensures Beyond(a, c) == Beyond(b, c)
  {
    assert a - c == b - c;
  }

  lemma BeyondNone<T>(a: set<T>, b: set<T>)
    requires a <= b
    ensures Beyond(a, b) == 0
  {
    assert a - b == {};
  }

  /** All wanted keys but those in `todo` have been put into a trie that held `existing`, `added` of them new. */
  ghost predicate PutSoFar(m: map<Key, byte>, existing: set<Key>, wanted: set<Key>, todo: set<Key>, added: nat)
  {
    && todo <= wanted
    && (forall x :: x in m <==> x in existing || (x in wanted && x !in todo))
    && (forall x :: x in wanted && x !in todo ==> m[x] == 1)
    && added == Beyond(m.Keys, existing)
  }

  lemma PutStarts(m: map<Key, byte>, wanted: set<Key>)
    ensures PutSoFar(m, m.Keys, wanted, wanted, 0)
  {
    BeyondNone(m.Keys, m.Keys);
  }

  lemma PutOne(m: map<Key, byte>, existing: set<Key>, wanted: set<Key>, todo: set<Key>, added: nat, k: Key)
    requires PutSoFar(m, existing, wanted, todo, added) && k in todo
    ensures PutSoFar(m[k := 1], existing, wanted, todo - {k}, added + Count(k !in existing))
  {
    hide Beyond;
    assert m[k := 1].Keys == m.Keys + {k};
    BeyondMore(m.Keys, existing, k);
  }

  lemma PutEnds(m: map<Key, byte>, existing: set<Key>, wanted: set<Key>, todo: set<Key>, added: nat)
    requires PutSoFar(m, existing, wanted, todo, added)
    ensures existing <= m.Keys <= existing + wanted && added == Beyond(m.Keys, existing)
    ensures todo == {} ==> m.Keys == existing + wanted && forall x :: x in wanted ==> m[x] == 1
  {
  }

  /** The insertion loop: every wanted key, whether it is there or not. */
  method PutAll(t: Trie, wanted: set<Key>, existing: set<Key>, ghost before: seq<Op>) returns (added: nat, ok: bool)
    requires Repaired(before, t.log, existing, wanted, t.m.Keys) && t.m.Keys == existing
    modifies t
    ensures t.tried >= old(t.tried) && (ok <==> Clean(t.refused, old(t.tried), t.tried))
    ensures Repaired(before, t.log, existing, wanted, t.m.Keys)
    ensures existing <= t.m.Keys <= existing + wanted && added == Beyond(t.m.Keys, existing)
    ensures ok ==> t.m.Keys == existing + wanted && forall k :: k in wanted ==> t.m[k] == 1
  {
    hide Repaired, Clean, PutSoFar, Beyond;
    CleanStep(t.refused, t.tried, t.tried);
    PutStarts(t.m, wanted);
    added := 0;
    var todo := wanted;
    while todo != {}
      invariant todo <= wanted
      invariant t.tried >= old(t.tried) && Clean(t.refused, old(t.tried), t.tried)
      invariant Repaired(before, t.log, existing, wanted, t.m.Keys)
      invariant PutSoFar(t.m, existing, wanted, todo, added)
      decreases todo
    {
      var k :| k in todo;
      ghost var keys := t.m.Keys;
      CleanStep(t.refused, old(t.tried), t.tried);
      RepairedMore(before, t.log, existing, wanted, keys, Put(k));
      PutOne(t.m, existing, wanted, todo, added, k);
      ok := t.Update(k, 1);
      if !ok {
        PutEnds(t.m, existing, wanted, todo, added);
        return;
      }
      assert t.m.Keys == Apply(keys, Put(k));
      todo := todo - {k};
      if k !in existing {
        added := added + 1;
      }
    }
    PutEnds(t.m, existing, wanted, todo, added);
    ok := true;
  }

  /** The deletion loop over the keys that the survey found and nobody wants. */
  method DeleteStale(t: Trie, stale: set<Key>, ghost start: set<Key>, ghost wanted: set<Key>, ghost before: seq<Op>)
    returns (removed: nat, ok: bool)
    requires Repaired(before, t.log, start, wanted, t.m.Keys)
    requires t.m.Keys == start + wanted && stale == start - wanted
    modifies t
    ensures t.tried >= old(t.tried) && (ok <==> Clean(t.refused, old(t.tried), t.tried))
    ensures Repaired(before, t.log, start, wanted, t.m.Keys)
    ensures wanted <= t.m.Keys <= start + wanted && removed == Beyond(start, t.m.Keys)
    ensures ok ==> t.m.Keys == wanted
    ensures forall k :: k in wanted ==> t.m[k] == old(t.m)[k]
  {
    hide Repaired, Clean, Beyond;
    CleanStep(t.refused, t.tried, t.tried);
    BeyondNone(start, t.m.Keys);
    removed := 0;
    var todo := stale;
    while todo != {}
      invariant todo <= stale && t.m.Keys == wanted + todo
      invariant t.tried >= old(t.tried) && Clean(t.refused, old(t.tried), t.tried)
      invariant Repaired(before, t.log, start, wanted, t.m.Keys)
      invariant forall k :: k in wanted ==> t.m[k] == old(t.m)[k]
      invariant removed == Beyond(start, t.m.Keys)
      decreases todo
    {
      var k :| k in todo;
      ghost var keys := t.m.Keys;
      CleanStep(t.refused, old(t.tried), t.tried);
      RepairedMore(before, t.log, start, wanted, keys, Del(k));
      var r := t.Delete(k);
      if r == DeleteFailed {
        ok := false;
        return;
      }
      assert t.m.Keys == Apply(keys, Del(k));
      BeyondLess(start, keys, k);
      todo := todo - {k};
      if r == Deleted {
        removed := removed + 1;
      }
    }
    ok := true;
  }

  /**
   * Brings a trie back to the wanted keys. It succeeds unless one of its own map operations fails, and
   * then the keys are exactly the wanted ones, all with value 1. Whether or not it succeeds, what it did
   * was an orderly repair, and the counts are the numbers of keys gained and lost.
   */
  method ReconcileLPMMap(t: Trie?, wanted: set<Key>) returns (added: nat, removed: nat, ok: bool)
    modifies t
    ensures t == null ==> (ok <==> wanted == {}) && added == removed == 0
    ensures t != null ==>
            && t.tried > old(t.tried) && (ok <==> Clean(t.refused, old(t.tried), t.tried))
            && Repaired(old(t.log), t.log, old(t.m).Keys, wanted, t.m.Keys)
            && added == Beyond(t.m.Keys, old(t.m).Keys) && removed == Beyond(old(t.m).Keys, t.m.Keys)
    ensures t != null && ok ==> t.m.Keys == wanted && forall k :: k in wanted ==> t.m[k] == 1
  {
    hide Repaired, Clean, Beyond;
    if t == null {
      return 0, 0, |wanted| == 0;
    }
    ghost var n, log, start := t.tried, t.log, t.m.Keys;
    CleanStep(t.refused, n, n);
    RepairedNothing(log, start, wanted);
    BeyondNone(start, start);
    var existing, surveyed := t.Survey();
    if !surveyed {
      return 0, 0, false;
    }
    added, ok := PutAll(t, wanted, existing, log);
    CleanJoin(t.refused, n, n + 1, t.tried);
    BeyondNone(start, t.m.Keys);
    removed := 0;
    if ok {
      ghost var mid, between := t.tried, t.m.Keys;
      removed, ok := DeleteStale(t, existing - wanted, existing, wanted, log);
      CleanJoin(t.refused, n, mid, t.tried);
      BeyondSame(between, t.m.Keys, start);
    }
  }

  // ---------- Comparing keysets ----------

  /** Equal size and one inclusion are enough. */
  method LpmKeysetsEqual(a: set<Key>, b: set<Key>) returns (r: bool)
    ensures r == (a == b)
  {
    if |a| != |b| {
      return false;
    }
    var todo := a;
    while todo != {}
      invariant todo <= a && a - todo <= b
      decreases todo
    {
      var k :| k in todo;
      if k !in b {
        return false;
      }
      todo := todo - {k};
    }
    SubsetSize(a, b);
    return true;
  }

  // ---------- One tick of the watcher ----------

  /** The one-slot map whose value 1 turns defend mode on; an absent key reads as off. */
  class ConfigMap {
    const refused: set<nat>
    var mode: Option<int>
    var tried: nat

    constructor (refused: set<nat>)
      ensures mode == None && tried == 0 && this.refused == refused
    {
      this.refused := refused;
      mode, tried := None, 0;
    }

    /** Nothing when the key is absent or cannot be read. */
    method Lookup() returns (r: Option<int>)
      modifies this`tried
      ensures tried == old(tried) + 1
      ensures r == if old(tried) in refused then None else mode
    {
      r := if tried in refused then None else mode;
      tried := tried + 1;
    }

    method Update(v: int) returns (ok: bool)
      modifies this
      ensures tried == old(tried) + 1 && (ok <==> old(tried) !in refused)
      ensures mode == if ok then Some(v) else old(mode)
    {
      ok := tried !in refused;
      tried := tried + 1;
      if ok {
        mode := Some(v);
      }
    }
  }

  /**
   * Turns defend mode back on. The alarm goes off exactly when the mode is off, absent or unreadable, and
   * the mode is on afterwards unless the write, the second operation, fails.
   */
  method CheckMode(cfg: ConfigMap) returns (alarm: bool, ok: bool)
    modifies cfg
    ensures alarm <==> old(cfg.mode) != Some(1) || old(cfg.tried) in cfg.refused
    ensures ok <==> !alarm || old(cfg.tried) + 1 !in cfg.refused
    ensures cfg.mode == if ok then Some(1) else old(cfg.mode)
    ensures cfg.tried == old(cfg.tried) + if alarm then 2 else 1
  {
    var val := cfg.Lookup();
    if val != Some(1) {
      ok := cfg.Update(1);
      return true, ok;
    }
    return false, true;
  }

  /**
   * Compares one trie with its expected keys and repairs it. The alarm goes off exactly when the keys
   * differ or the survey fails; the trie is in line afterwards unless one of its operations failed.
   */
  method CheckTrie(t: Trie, expected: set<Key>) returns (alarm: bool, ok: bool)
    modifies t
    ensures alarm <==> old(t.m).Keys != expected || old(t.tried) in t.refused
    ensures t.tried > old(t.tried) && (ok <==> Clean(t.refused, old(t.tried), t.tried))
    ensures ok ==> t.m.Keys == expected
    ensures Repaired(old(t.log), t.log, old(t.m).Keys, expected, t.m.Keys)
    ensures !alarm ==> t.m == old(t.m) && t.log == old(t.log)
  {
    hide Repaired, Clean, Beyond;
    ghost var n := t.tried;
    CleanStep(t.refused, n, n);
    RepairedNothing(t.log, t.m.Keys, expected);
    var actual, surveyed := t.Survey();
    if !surveyed {
      return true, false;
    }
    var same := LpmKeysetsEqual(actual, expected);
    if same {
      return false, true;
    }
    var _, _, repaired := ReconcileLPMMap(t, expected);
    CleanJoin(t.refused, n, n + 1, t.tried);
    return true, repaired;
  }

  /**
   * One tick. Whatever the maps held, each of them is in line afterwards unless one of its own
   * operations failed: defend mode is on, and each trie holds exactly its expected keys. There is one
   * alarm for each map that was out of line or could not be read. A change to a trie is always an
   * orderly repair, also when it was cut short by an error.
   */
  method CheckMapIntegrity(cfg: ConfigMap, allowed: Trie, ignored: Trie, compiled: set<Addr>, pol: Option<Policy>)
    returns (alarms: nat, ok: bool)
    requires Usable(pol) && allowed != ignored
    modifies cfg, allowed, ignored
    ensures alarms ==
            Count(old(cfg.mode) != Some(1) || old(cfg.tried) in cfg.refused)
            + Count(old(allowed.m).Keys != ExpectedAllowed(compiled, pol) || old(allowed.tried) in allowed.refused)
            + Count(old(ignored.m).Keys != ExpectedIgnored(pol) || old(ignored.tried) in ignored.refused)
    ensures cfg.tried > old(cfg.tried) && allowed.tried > old(allowed.tried) && ignored.tried > old(ignored.tried)
    ensures Clean(cfg.refused, old(cfg.tried), cfg.tried) ==> cfg.mode == Some(1)
    ensures Clean(allowed.refused, old(allowed.tried), allowed.tried) ==>
            allowed.m.Keys == ExpectedAllowed(compiled, pol)
    ensures Clean(ignored.refused, old(ignored.tried), ignored.tried) ==>
            ignored.m.Keys == ExpectedIgnored(pol)
    ensures alarms == 0 ==> cfg.mode == old(cfg.mode) && allowed.m == old(allowed.m) && ignored.m == old(ignored.m)
    ensures Repaired(old(allowed.log), allowed.log, old(allowed.m).Keys, ExpectedAllowed(compiled, pol), allowed.m.Keys)
    ensures Repaired(old(ignored.log), ignored.log, old(ignored.m).Keys, ExpectedIgnored(pol), ignored.m.Keys)
    ensures ok <==>
            && ((old(cfg.mode) == Some(1) && old(cfg.tried) !in cfg.refused) || old(cfg.tried) + 1 !in cfg.refused)
            && Clean(allowed.refused, old(allowed.tried), allowed.tried)
            && Clean(ignored.refused, old(ignored.tried), ignored.tried)
    ensures ok ==> cfg.mode == Some(1)
  {
    hide Repaired, ExpectedAllowed, ExpectedIgnored, Usable, ValidPolicy;
    var alarm0, ok0 := CheckMode(cfg);
    var expected := ExpectedAllowedKeys(compiled, pol);
    var alarm1, ok1 := CheckTrie(allowed, expected);
    var expectedIgnored := ExpectedIgnoredKeys(pol);
    var alarm2, ok2 := CheckTrie(ignored, expectedIgnored);
    ok := ok0 && ok1 && ok2;
    alarms := Count(alarm0) + Count(alarm1) + Count(alarm2);
  }

  // ---------- The first load ----------

  /** Every value is 1. */
  ghost predicate AllOnes<K>(m: map<K, byte>)
  {
    forall k :: k in m ==> m[k] == 1
  }

  method LoadKeys(t: Trie, keys: seq<Key>) returns (ok: bool)
    modifies t
    ensures t.tried >= old(t.tried) && (ok <==> Clean(t.refused, old(t.tried), t.tried))
    ensures ok ==> t.m.Keys == old(t.m).Keys + Elements(keys)
    ensures AllOnes(old(t.m)) ==> AllOnes(t.m)
  {
    hide Clean;
    CleanStep(t.refused, t.tried, t.tried);
    for i := 0 to |keys|
      invariant t.tried >= old(t.tried) && Clean(t.refused, old(t.tried), t.tried)
      invariant AllOnes(old(t.m)) ==> AllOnes(t.m)
      invariant t.m.Keys == old(t.m).Keys + Elements(keys[..i])
    {
      CleanStep(t.refused, old(t.tried), t.tried);
      ok := t.Update(keys[i], 1);
      if !ok {
        return;
      }
      assert keys[..i + 1] == keys[..i] + [keys[i]];
      ElementsMore(keys[..i], keys[i]);
    }
    assert keys[..|keys|] == keys;
    ok := true;
  }

  /** Fails only when a map operation does, or there is no map for the planned keys. */
  method LoadAllowedLPMMap(t: Trie?, plan: Plan) returns (ok: bool)
    modifies t
    ensures t == null ==> (ok <==> plan.totalEntries == 0)
    ensures t != null ==> t.tried >= old(t.tried) && (ok <==> Clean(t.refused, old(t.tried), t.tried))
    ensures t != null && ok ==>
            t.m.Keys == old(t.m).Keys + Elements(plan.singleIPKeys) + Elements(plan.cidrKeys)
    ensures t != null && AllOnes(old(t.m)) ==> AllOnes(t.m)
  {
    if t == null {
      return plan.totalEntries == 0;
    }
    hide Clean;
    ok := LoadKeys(t, plan.singleIPKeys);
    if ok {
      ghost var mid := t.tried;
      ok := LoadKeys(t, plan.cidrKeys);
      CleanJoin(t.refused, old(t.tried), mid, t.tried);
    }
  }

  /** How many of the first `n` networks make a key. */
  ghost function Programmable(nets: seq<Net>, n: nat): (c: nat)
    requires n <= |nets|
    ensures c <= n
  {
    if n == 0 then 0 else Programmable(nets, n - 1) + Count(nets[n - 1].Net4?)
  }

  lemma {:induction false} ProgrammableIs(nets: seq<Net>, n: nat)
    requires n <= |nets|
    ensures Programmable(nets, n) == |set i | 0 <= i < n && nets[i].Net4?|
  {
    var upTo := set i | 0 <= i < n && nets[i].Net4?;
    if n == 0 {
      assert upTo == {};
    } else {
      ProgrammableIs(nets, n - 1);
      var before := set i | 0 <= i < n - 1 && nets[i].Net4?;
      assert upTo == before + (if nets[n - 1].Net4? then {n - 1} else {});
    }
  }

  /**
   * Loads the key of every network with a 32-bit mask and counts them. Too many networks, or none to put
   * them into, is an error before anything is written.
   */
  method LoadIgnoredLPMMap(t: Trie?, nets: seq<Net>) returns (programmed: nat, ok: bool)
    requires ValidNets(nets)
    modifies t
    ensures t == null ==> (ok <==> nets == [])
    ensures t != null ==>
            && t.tried >= old(t.tried)
            && (ok <==> |nets| <= 128 && Clean(t.refused, old(t.tried), t.tried))
            && (ok ==> t.m.Keys == old(t.m).Keys + NetKeys(nets))
            && (|nets| > 128 ==> t.m == old(t.m))
            && (AllOnes(old(t.m)) ==> AllOnes(t.m))
    ensures programmed == if ok then Programmable(nets, |nets|) else 0
  {
    hide NetKey, NetKeys, NetKeysTo, Clean;
    programmed := 0;
    NetKeysAll(nets);
    NoNetKeys(nets);
    if t != null {
      CleanStep(t.refused, t.tried, t.tried);
    }
    if |nets| == 0 {
      return 0, true;
    }
    if t == null || |nets| > MAX_IGNORED_NETS {
      return 0, false;
    }
    for i := 0 to |nets|
      invariant t.tried >= old(t.tried) && Clean(t.refused, old(t.tried), t.tried)
      invariant t.m.Keys == old(t.m).Keys + NetKeysTo(nets, i)
      invariant programmed == Programmable(nets, i)
      invariant AllOnes(old(t.m)) ==> AllOnes(t.m)
    {
      NetKeysStep(nets, i);
      if nets[i].Net4? {
        CleanStep(t.refused, old(t.tried), t.tried);
        ok := t.Update(NetKey(nets[i]), 1);
        if !ok {
          return 0, false;
        }
        programmed := programmed + 1;
      }
    }
    ok := true;
  }

  lemma NoNetKeys(nets: seq<Net>)
    requires ValidNets(nets)
    ensures NetKeysTo(nets, 0) == {}
  {
  }

  lemma UsableNets(pol: Option<Policy>)
    requires Usable(pol)
    ensures ValidNets(IgnoredNets(pol))
  {
  }

  lemma PlannedKeys(plan: Plan, keys: set<Key>)
    requires GoodPlan(plan, keys)
    ensures Elements(plan.singleIPKeys) + Elements(plan.cidrKeys) == keys && plan.totalEntries == |keys|
  {
  }

  /** The map of allowed host names, looked up by the whole key. */
  class DomainMap {
    const refused: set<nat>
    var m: map<bytes, byte>
    var tried: nat

    constructor (refused: set<nat>)
      ensures m == map[] && tried == 0 && this.refused == refused
    {
      this.refused := refused;
      m, tried := map[], 0;
    }

    method Update(k: bytes, v: byte) returns (ok: bool)
      modifies this
      ensures tried == old(tried) + 1 && (ok <==> old(tried) !in refused)
      ensures m == if ok then old(m)[k := v] else old(m)
    {
      ok := tried !in refused;
      tried := tried + 1;
      if ok {
        m := m[k := v];
      }
    }
  }

  /** The 256-byte key of a host name: cut if it is longer, else padded with NUL. */
  function DomainKey(host: bytes): (k: bytes)
    ensures |k| == 256 && k[..Min(256, |host|)] == host[..Min(256, |host|)]
    ensures forall i :: Min(256, |host|) <= i < 256 ==> k[i] == 0
  {
    var cut := if |host| <= 256 then host else host[..256];
    cut + seq(256 - |cut|, i => 0)
  }

  ghost function DomainKeys(hosts: set<bytes>): (r: set<bytes>)
  {
    set h | h in hosts :: DomainKey(h)
  }

  ghost function ExactHosts(pol: Option<Policy>): (r: set<bytes>)
  {
    if pol.Some? then pol.value.exactHosts else {}
  }

  /** One key for each exact host name; wildcards make none. */
  method LoadAllowedDomainsMap(t: DomainMap, pol: Option<Policy>) returns (ok: bool)
    modifies t
    ensures t.tried >= old(t.tried) && (ok <==> Clean(t.refused, old(t.tried), t.tried))
    ensures ok ==> t.m.Keys == old(t.m).Keys + DomainKeys(ExactHosts(pol))
    ensures AllOnes(old(t.m)) ==> AllOnes(t.m)
  {
    hide Clean, DomainKeys, DomainKey;
    CleanStep(t.refused, t.tried, t.tried);
    NoDomainKeys();
    var todo := if pol.Some? then pol.value.exactHosts else {};
    ghost var done: set<bytes> := {};
    while todo != {}
      invariant forall h :: h in ExactHosts(pol) <==> h in done || h in todo
      invariant t.tried >= old(t.tried) && Clean(t.refused, old(t.tried), t.tried)
      invariant t.m.Keys == old(t.m).Keys + DomainKeys(done)
      invariant AllOnes(old(t.m)) ==> AllOnes(t.m)
      decreases todo
    {
      var host :| host in todo;
      CleanStep(t.refused, old(t.tried), t.tried);
      DomainKeysMore(done, host);
      ok := t.Update(DomainKey(host), 1);
      if !ok {
        return;
      }
      todo, done := todo - {host}, done + {host};
    }
    assert done == ExactHosts(pol);
    ok := true;
  }

  lemma NoDomainKeys()
    ensures DomainKeys({}) == {}
  {
  }

  lemma DomainKeysMore(s: set<bytes>, host: bytes)
    ensures DomainKeys(s + {host}) == DomainKeys(s) + {DomainKey(host)}
  {
    hide DomainKey;
  }

  /** The two tries of the load: the ignored networks first, then the plan for the allowed keys. */
  method LoadTries(allowed: Trie, ignored: Trie, compiled: set<Addr>, pol: Option<Policy>)
    returns (entries: nat, ignoredCount: nat, ok: bool)
    requires Usable(pol) && allowed != ignored && allowed.m == ignored.m == map[]
    modifies allowed, ignored
    ensures allowed.tried >= old(allowed.tried) && ignored.tried >= old(ignored.tried)
    ensures ok <==>
            && Clean(allowed.refused, old(allowed.tried), allowed.tried)
            && Clean(ignored.refused, old(ignored.tried), ignored.tried)
            && AllIPv4(AllowedNets(pol)) && |ExpectedAllowed(compiled, pol)| <= 4096 && |IgnoredNets(pol)| <= 128
    ensures ok ==> allowed.m.Keys == ExpectedAllowed(compiled, pol) && ignored.m.Keys == ExpectedIgnored(pol)
    ensures AllOnes(allowed.m) && AllOnes(ignored.m)
    ensures entries == if ok then |ExpectedAllowed(compiled, pol)| else 0
    ensures ignoredCount == if ok then Programmable(IgnoredNets(pol), |IgnoredNets(pol)|) else 0
  {
    hide GoodPlan, ExpectedAllowed, NetKeys, Elements, ValidPolicy, ValidNets, Clean, AllIPv4, Programmable;
    UsableNets(pol);
    CleanStep(allowed.refused, allowed.tried, allowed.tried);
    CleanStep(ignored.refused, ignored.tried, ignored.tried);
    entries := 0;
    ignoredCount, ok := LoadIgnoredLPMMap(ignored, if pol.Some? then pol.value.ignored else []);
    if !ok {
      return;
    }
    var plan := BuildDefendAllowedPlan(compiled, pol);
    if plan.None? {
      return 0, 0, false;
    }
    PlannedKeys(plan.value, ExpectedAllowed(compiled, pol));
    ok := LoadAllowedLPMMap(allowed, plan.value);
    if !ok {
      return 0, 0, false;
    }
    entries := plan.value.totalEntries;
  }

  /**
   * The load at start-up. It succeeds exactly when no map operation fails, every allowed network is IPv4
   * and both keysets fit their maps. Then fresh maps hold exactly what the integrity check expects of
   * them, so a tick over untouched maps finds nothing to repair.
   */
  method LoadDefendMaps(cfg: ConfigMap, allowed: Trie, ignored: Trie, domains: DomainMap, compiled: set<Addr>,
                        pol: Option<Policy>)
    returns (entries: nat, ignoredCount: nat, ok: bool)
    requires Usable(pol) && allowed != ignored && allowed.m == ignored.m == map[] && domains.m == map[]
    modifies cfg, allowed, ignored, domains
    ensures cfg.tried > old(cfg.tried) && allowed.tried >= old(allowed.tried)
    ensures ignored.tried >= old(ignored.tried) && domains.tried >= old(domains.tried)
    ensures ok <==>
            && Clean(cfg.refused, old(cfg.tried), cfg.tried)
            && Clean(allowed.refused, old(allowed.tried), allowed.tried)
            && Clean(ignored.refused, old(ignored.tried), ignored.tried)
            && Clean(domains.refused, old(domains.tried), domains.tried)
            && AllIPv4(AllowedNets(pol)) && |ExpectedAllowed(compiled, pol)| <= 4096 && |IgnoredNets(pol)| <= 128
    ensures ok ==>
            && cfg.mode == Some(1) && allowed.m.Keys == ExpectedAllowed(compiled, pol)
            && ignored.m.Keys == ExpectedIgnored(pol) && domains.m.Keys == DomainKeys(ExactHosts(pol))
    ensures AllOnes(allowed.m) && AllOnes(ignored.m) && AllOnes(domains.m)
    ensures entries == if ok then |ExpectedAllowed(compiled, pol)| else 0
    ensures ignoredCount == if ok then Programmable(IgnoredNets(pol), |IgnoredNets(pol)|) else 0
  {
    hide ExpectedAllowed, ExpectedIgnored, ValidPolicy, Clean, AllIPv4, DomainKeys, ExactHosts, IgnoredNets;
    hide Programmable;
    CleanStep(cfg.refused, cfg.tried, cfg.tried);
    CleanStep(domains.refused, domains.tried, domains.tried);
    CleanStep(allowed.refused, allowed.tried, allowed.tried);
    CleanStep(ignored.refused, ignored.tried, ignored.tried);
    ok := cfg.Update(1);
    if !ok {
      return 0, 0, false;
    }
    entries, ignoredCount, ok := LoadTries(allowed, ignored, compiled, pol);
    if !ok {
      return;
    }
    ok := LoadAllowedDomainsMap(domains, pol);
    if !ok {
      return 0, 0, false;
    }
  }
}
