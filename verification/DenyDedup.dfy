/**
 * Folding the deny reports of several hook families. On some kernels one blocked call is reported by
 * two families; a report is emitted unless, within a second of the last report on the same key, another
 * family had opened. Times are wall-clock nanoseconds and may step back.
 */
module DenyDedup {
  import opened Collections

  const WINDOW := 1_000_000_000
  const MAX_ENTRIES := 4096

  datatype Key = Key(tgid: nat, tid: nat, dst: string, dport: nat, protocol: string)
  datatype Entry = Entry(family: string, nano: int)
  datatype Report = Report(key: Key, family: string, nano: int)

  type Table = map<Key, Entry>

  // ---------- One decision ----------

  /** The report comes within a second of the previous one on its key; a step back does not count. */
  predicate InWindow(prev: int, now: int)
  {
    prev <= now && now - prev <= WINDOW
  }

  predicate IsTwin(t: Table, r: Report)
  {
    && r.key in t && InWindow(t[r.key].nano, r.nano)
    && t[r.key].family != "" && r.family != "" && t[r.key].family != r.family
  }

  /** The table after a report, before any pruning. A twin keeps the family that emitted. */
  function Noted(t: Table, r: Report): (t': Table)
  {
    t[r.key := Entry(if IsTwin(t, r) then t[r.key].family else r.family, r.nano)]
  }

  function Pruned(t: Table, now: int): (t': Table)
  {
    map k | k in t && now - t[k].nano <= WINDOW :: t[k]
  }

  /** The table after a report: an emitted one that overfills it also prunes it. */
  function Next(t: Table, r: Report): (t': Table)
  {
    if !IsTwin(t, r) && |Noted(t, r)| > MAX_ENTRIES then Pruned(Noted(t, r), r.nano) else Noted(t, r)
  }

  // ---------- The state as the source runs it ----------

  ghost function TableAfter(rs: seq<Report>): (t: Table)
  {
    if rs == [] then map[] else Next(TableAfter(rs[..|rs| - 1]), rs[|rs| - 1])
  }

  /** Whether report `i` of a run is emitted. */
  ghost predicate Emitted(rs: seq<Report>, i: nat)
    requires i < |rs|
  {
    !IsTwin(TableAfter(rs[..i]), rs[i])
  }

  ghost function EmittedCount(rs: seq<Report>): (n: nat)
  {
    if rs == [] then 0
    else EmittedCount(rs[..|rs| - 1]) + if Emitted(rs, |rs| - 1) then 1 else 0
  }

  ghost function EmittedUpTo(rs: seq<Report>, n: nat): (r: set<nat>)
    requires n <= |rs|
  {
    set i: nat | i < n && Emitted(rs, i)
  }

  lemma EmittedUpToNext(rs: seq<Report>, n: nat)
    requires n < |rs|
    ensures EmittedUpTo(rs, n + 1) == EmittedUpTo(rs, n) + (if Emitted(rs, n) then {n} else {})
    ensures EmittedUpTo(rs, 0) == {}
  {
    hide Emitted;
  }

  lemma EmittedInPrefix(rs: seq<Report>, n: nat)
    requires n <= |rs|
    ensures EmittedUpTo(rs[..n], n) == EmittedUpTo(rs, n)
  {
    hide TableAfter, IsTwin;
    forall i: nat | i < n
      ensures Emitted(rs[..n], i) == Emitted(rs, i)
    {
      assert rs[..n][..i] == rs[..i];
    }
  }

  /** The count is the number of reports that are emitted. */
  lemma {:induction false} EmittedCountIs(rs: seq<Report>)
    ensures EmittedCount(rs) == |EmittedUpTo(rs, |rs|)|
  {
    hide Emitted;
    if rs == [] {
      assert EmittedUpTo(rs, 0) == {};
    } else {
      var n := |rs| - 1;
      EmittedCountIs(rs[..n]);
      EmittedInPrefix(rs, n);
      EmittedUpToNext(rs, n);
    }
  }

  class DefendState {
    var denyDedup: Table
    var denyCountN: nat
    var denyCorroboratedN: nat
    ghost var reports: seq<Report>
    ghost var unlogged: nat

    ghost predicate Valid()
      reads this
    {
      && denyDedup == TableAfter(reports)
      && denyCorroboratedN + EmittedCount(reports) == |reports|
      && denyCountN + unlogged == EmittedCount(reports)
    }

    constructor ()
      ensures Valid() && reports == []
    {
      denyDedup, denyCountN, denyCorroboratedN, reports, unlogged := map[], 0, 0, [], 0;
    }

    method Prune(now: int)
      modifies this`denyDedup
      ensures denyDedup == Pruned(old(denyDedup), now)
    {
      var todo := denyDedup.Keys;
      while todo != {}
        invariant todo <= old(denyDedup).Keys
        invariant forall k :: k in denyDedup <==>
                    k in old(denyDedup) && (k in todo || now - old(denyDedup)[k].nano <= WINDOW)
        invariant forall k :: k in denyDedup ==> denyDedup[k] == old(denyDedup)[k]
        decreases todo
      {
        var k :| k in todo;
        todo := todo - {k};
        if now - denyDedup[k].nano > WINDOW {
          denyDedup := denyDedup - {k};
        }
      }
    }

    method ShouldEmitDeny(key: Key, family: string, nowNano: int) returns (emit: bool)
      modifies this`denyDedup, this`denyCorroboratedN
      ensures emit == !IsTwin(old(denyDedup), Report(key, family, nowNano))
      ensures denyDedup == Next(old(denyDedup), Report(key, family, nowNano))
      ensures denyCorroboratedN == old(denyCorroboratedN) + if emit then 0 else 1
    {
      var recent := key in denyDedup && nowNano >= denyDedup[key].nano && nowNano - denyDedup[key].nano <= WINDOW;
      if recent && denyDedup[key].family != "" && family != "" && denyDedup[key].family != family {
        denyCorroboratedN := denyCorroboratedN + 1;
        denyDedup := denyDedup[key := Entry(denyDedup[key].family, nowNano)];
        return false;
      }
      denyDedup := denyDedup[key := Entry(family, nowNano)];
      if |denyDedup| > MAX_ENTRIES {
        Prune(nowNano);
      }
      return true;
    }

    /**
     * What follows the decoding of a report: every report is counted as corroborated, counted as a deny,
     * or was emitted but could not be written to the log.
     */
    method AppendDeny(r: Report, logging: bool) returns (emitted: bool, ok: bool)
      requires Valid()
      modifies this
      ensures Valid() && reports == old(reports) + [r]
      ensures emitted == Emitted(reports, |reports| - 1)
      ensures denyCountN + denyCorroboratedN + unlogged == |reports|
      ensures denyCountN == old(denyCountN) + if emitted && ok then 1 else 0
      ensures unlogged == old(unlogged) + if emitted && !ok then 1 else 0
    {
      ok := true;
      emitted := ShouldEmitDeny(r.key, r.family, r.nano);
      reports := reports + [r];
      assert reports[..|reports| - 1] == old(reports);
      if !emitted {
        return;
      }
      if logging {
        ok := *;
        if !ok {
          unlogged := unlogged + 1;
          return;
        }
      }
      denyCountN := denyCountN + 1;
    }
  }

  // ---------- What the bounded table remembers ----------

  /** Report `j` overfills the table and so prunes it. */
  ghost predicate Prunes(rs: seq<Report>, j: nat)
    requires j < |rs|
  {
    Emitted(rs, j) && |Noted(TableAfter(rs[..j]), rs[j])| > 4096
  }

  /** Between reports `p` and `n`, one stamped more than a second after `p` prunes the table. */
  ghost predicate Forgotten(rs: seq<Report>, p: nat, n: nat)
    requires p <= n <= |rs|
  {
    exists j :: p < j < n && Prunes(rs, j) && rs[j].nano > rs[p].nano + 1_000_000_000
  }

  /** The previous report on the key of report `i`, searched from `j - 1` down; -1 when there is none. */
  ghost function Previous(rs: seq<Report>, i: nat, j: nat): (p: int)
    requires j <= i < |rs|
    ensures -1 <= p < j
    ensures p >= 0 ==> rs[p].key == rs[i].key
    ensures forall m :: p < m < j ==> rs[m].key != rs[i].key
  {
    if j == 0 then -1 else if rs[j - 1].key == rs[i].key then j - 1 else Previous(rs, i, j - 1)
  }

  /** Report `i` starts a chain: it is the first on its key, comes late or early, or a family is unnamed. */
  ghost predicate Opens(rs: seq<Report>, i: nat)
    requires i < |rs|
  {
    var p := Previous(rs, i, i);
    p < 0 || !(0 <= rs[i].nano - rs[p].nano <= 1_000_000_000) || rs[i].family == "" || rs[p].family == ""
  }

  /** The report that opened the chain of report `i`. */
  ghost function Opener(rs: seq<Report>, i: nat): (o: nat)
    requires i < |rs|
    ensures o <= i && Opens(rs, o) && rs[o].key == rs[i].key
  {
    if Opens(rs, i) then i else Opener(rs, Previous(rs, i, i))
  }

  /** As `Opener`, but a chain also starts anew where the table has forgotten the previous report. */
  ghost function HeldOpener(rs: seq<Report>, i: nat): (o: nat)
    requires i < |rs|
    ensures o <= i && rs[o].key == rs[i].key
  {
    if Opens(rs, i) || Forgotten(rs, Previous(rs, i, i), i) then i else HeldOpener(rs, Previous(rs, i, i))
  }

  lemma {:induction false} OpenersAreNamed(rs: seq<Report>, i: nat)
    requires i < |rs| && rs[i].family != ""
    ensures rs[Opener(rs, i)].family != "" && rs[HeldOpener(rs, i)].family != ""
  {
    if !Opens(rs, i) {
      OpenersAreNamed(rs, Previous(rs, i, i));
    }
  }

  lemma TableSnoc(rs: seq<Report>, n: nat)
    requires n < |rs|
    ensures var noted := Noted(TableAfter(rs[..n]), rs[n]);
            TableAfter(rs[..n + 1]) == if Prunes(rs, n) then Pruned(noted, rs[n].nano) else noted
  {
    assert rs[..n + 1][..n] == rs[..n];
  }

  lemma PreviousStep(rs: seq<Report>, i: nat, n: nat)
    requires 0 < n <= i < |rs|
    ensures Previous(rs, i, n) == if rs[n - 1].key == rs[i].key then n - 1 else Previous(rs, i, n - 1)
  {
  }

  lemma ForgottenStep(rs: seq<Report>, p: nat, n: nat)
    requires p <= n < |rs|
    ensures Forgotten(rs, p, n + 1) <==>
            Forgotten(rs, p, n) || (Prunes(rs, n) && rs[n].nano > rs[p].nano + 1_000_000_000)
    ensures n == p ==> !Forgotten(rs, p, n + 1)
  {
    hide Prunes;
  }

  /** The entry of a key before report `n`: present unless forgotten, with the last time and the held family. */
  ghost predicate EntryIs(rs: seq<Report>, n: nat, i: nat)
    requires n <= i < |rs|
  {
    var t, k, p := TableAfter(rs[..n]), rs[i].key, Previous(rs, i, n);
    if p < 0 || Forgotten(rs, p, n) then k !in t
    else k in t && t[k] == Entry(rs[HeldOpener(rs, p)].family, rs[p].nano)
  }

  /** A report on the key itself: what is stored is the family that holds its chain. */
  lemma OwnReport(rs: seq<Report>, i: nat)
    requires i < |rs| && EntryIs(rs, i, i)
    ensures Emitted(rs, i) <==> rs[i].family == rs[HeldOpener(rs, i)].family
    ensures Noted(TableAfter(rs[..i]), rs[i])[rs[i].key] == Entry(rs[HeldOpener(rs, i)].family, rs[i].nano)
  {
    hide TableAfter, Previous, Forgotten;
    var p := Previous(rs, i, i);
    if p >= 0 && rs[p].family != "" {
      OpenersAreNamed(rs, p);
    }
  }

  /**
   * Exactly what the table holds before a report, for every run: the entry of the previous report on
   * the key is missing if and only if a later report, stamped more than a second after it, pruned.
   */
  lemma {:induction false} TableRemembers(rs: seq<Report>, n: nat, i: nat)
    requires n <= i < |rs|
    ensures EntryIs(rs, n, i)
    decreases n
  {
    hide TableAfter, Previous, Forgotten, Prunes, HeldOpener;
    if n == 0 {
      NothingRemembered(rs, i);
    } else {
      var m := n - 1;
      TableSnoc(rs, m);
      PreviousStep(rs, i, n);
      if rs[m].key == rs[i].key {
        TableRemembers(rs, m, m);
        OwnReport(rs, m);
        ForgottenStep(rs, m, m);
      } else {
        TableRemembers(rs, m, i);
        var p := Previous(rs, i, m);
        if p >= 0 {
          ForgottenStep(rs, p, m);
        }
      }
    }
  }

  lemma NothingRemembered(rs: seq<Report>, i: nat)
    requires i < |rs|
    ensures EntryIs(rs, 0, i)
  {
    assert rs[..0] == [];
  }

  /** In every run, a report is emitted exactly when its family is the one that holds its chain. */
  lemma HeldFamilyIsEmitted(rs: seq<Report>, i: nat)
    requires i < |rs|
    ensures Emitted(rs, i) <==> rs[i].family == rs[HeldOpener(rs, i)].family
  {
    hide Emitted, HeldOpener, EntryIs;
    TableRemembers(rs, i, i);
    OwnReport(rs, i);
  }

  // ---------- When the family that opened a chain is the one emitted ----------

  /** Report `i` belongs to a chain that another family opened, and the table has forgotten that. */
  ghost predicate LosesTwin(rs: seq<Report>, i: nat)
    requires i < |rs|
  {
    && !Opens(rs, i) && Forgotten(rs, Previous(rs, i, i), i)
    && rs[i].family != rs[Opener(rs, i)].family
  }

  ghost predicate OpenerEmitsAt(rs: seq<Report>, i: nat)
    requires i < |rs|
  {
    Emitted(rs, i) <==> rs[i].family == rs[Opener(rs, i)].family
  }

  lemma {:induction false} HeldFamilyOpened(rs: seq<Report>, i: nat)
    requires i < |rs| && forall j :: 0 <= j <= i ==> !LosesTwin(rs, j)
    ensures rs[HeldOpener(rs, i)].family == rs[Opener(rs, i)].family
  {
    hide Forgotten;
    assert !LosesTwin(rs, i);
    if !Opens(rs, i) && !Forgotten(rs, Previous(rs, i, i), i) {
      HeldFamilyOpened(rs, Previous(rs, i, i));
    }
  }

  /**
   * The promise, and exactly when a run keeps it: every report is emitted if and only if its family
   * opened its chain, precisely when no report of another family finds its chain forgotten. A chain is
   * the longest stretch of reports on one key with gaps from 0 to 1 s and named families.
   */
  lemma OpenerFamilyIsEmitted(rs: seq<Report>)
    ensures (forall i :: 0 <= i < |rs| ==> OpenerEmitsAt(rs, i)) <==>
            (forall i :: 0 <= i < |rs| ==> !LosesTwin(rs, i))
  {
    hide Emitted, Forgotten, Opens;
    if forall i :: 0 <= i < |rs| ==> !LosesTwin(rs, i) {
      forall i | 0 <= i < |rs|
        ensures OpenerEmitsAt(rs, i)
      {
        HeldFamilyIsEmitted(rs, i);
        HeldFamilyOpened(rs, i);
      }
    }
    forall i | 0 <= i < |rs| && LosesTwin(rs, i)
      ensures !OpenerEmitsAt(rs, i)
    {
      HeldFamilyIsEmitted(rs, i);
    }
  }

  /**
   * Along the chain of report `i`, no report between two neighbours is stamped more than a second after
   * the earlier one. Other keys may be any number, and the clock may step back.
   */
  ghost predicate Steady(rs: seq<Report>, i: nat)
    requires i < |rs|
  {
    var p := Previous(rs, i, i);
    Opens(rs, i) || ((forall j :: p < j < i ==> rs[j].nano <= rs[p].nano + 1_000_000_000) && Steady(rs, p))
  }

  /** On a steady chain exactly the reports of the family that opened it are emitted. */
  lemma {:induction false} SteadyChainEmitsOpener(rs: seq<Report>, i: nat)
    requires i < |rs| && Steady(rs, i)
    ensures OpenerEmitsAt(rs, i) && HeldOpener(rs, i) == Opener(rs, i)
  {
    hide Emitted, Prunes;
    HeldFamilyIsEmitted(rs, i);
    if !Opens(rs, i) {
      SteadyChainEmitsOpener(rs, Previous(rs, i, i));
    }
  }

  ghost predicate NonDecreasing(rs: seq<Report>)
  {
    forall i, j :: 0 <= i < j < |rs| ==> rs[i].nano <= rs[j].nano
  }

  /** A clock that never goes back makes every chain steady. */
  lemma {:induction false} ForwardClockIsSteady(rs: seq<Report>, i: nat)
    requires NonDecreasing(rs) && i < |rs|
    ensures Steady(rs, i)
  {
    if !Opens(rs, i) {
      ForwardClockIsSteady(rs, Previous(rs, i, i));
    }
  }

  ghost function KeysOf(rs: seq<Report>): (r: set<Key>)
  {
    set x | x in rs :: x.key
  }

  lemma {:induction false} TableKeys(rs: seq<Report>)
    ensures TableAfter(rs).Keys <= KeysOf(rs)
  {
    if rs != [] {
      var n := |rs| - 1;
      TableKeys(rs[..n]);
      assert forall x :: x in rs[..n] ==> x in rs;
      assert rs[n] in rs;
    }
  }

  /** At most 4096 keys: nothing is ever pruned, and no twin is lost, whatever the clock does. */
  lemma FewKeysLoseNothing(rs: seq<Report>, i: nat)
    requires |KeysOf(rs)| <= 4096 && i < |rs|
    ensures !Prunes(rs, i) && !LosesTwin(rs, i)
  {
    hide TableAfter, IsTwin, KeysOf;
    forall j: nat | j < |rs|
      ensures !Prunes(rs, j)
    {
      FewKeysNoPrune(rs, j);
    }
  }

  lemma FewKeysNoPrune(rs: seq<Report>, j: nat)
    requires |KeysOf(rs)| <= 4096 && j < |rs|
    ensures !Prunes(rs, j)
  {
    hide TableAfter;
    TableKeys(rs[..j]);
    assert forall x :: x in rs[..j] ==> x in rs;
    assert rs[j] in rs;
    SubsetSize(Noted(TableAfter(rs[..j]), rs[j]).Keys, KeysOf(rs));
  }

  // ---------- The bounded table against one that never forgets ----------

  ghost function FullAfter(rs: seq<Report>): (t: Table)
  {
    if rs == [] then map[] else Noted(FullAfter(rs[..|rs| - 1]), rs[|rs| - 1])
  }

  lemma FullSnoc(rs: seq<Report>, n: nat)
    requires n <= |rs|
    ensures FullAfter(rs[..n]) == if n == 0 then map[] else Noted(FullAfter(rs[..n - 1]), rs[n - 1])
  {
    if n > 0 {
      assert rs[..n][..n - 1] == rs[..n - 1];
    }
  }

  /** The full table holds the last report on each key and the family that opened its chain. */
  lemma {:induction false} FullEntry(rs: seq<Report>, n: nat, i: nat)
    requires n <= i < |rs|
    ensures var k, p := rs[i].key, Previous(rs, i, n);
            if p < 0 then k !in FullAfter(rs[..n])
            else k in FullAfter(rs[..n])
                 && FullAfter(rs[..n])[k] == Entry(rs[Opener(rs, p)].family, rs[p].nano)
    decreases n
  {
    hide Previous, FullAfter, HeldOpener;
    FullSnoc(rs, n);
    if n > 0 {
      PreviousStep(rs, i, n);
      if rs[n - 1].key == rs[i].key {
        FullEntry(rs, n - 1, n - 1);
        var p := Previous(rs, n - 1, n - 1);
        if !Opens(rs, n - 1) {
          OpenersAreNamed(rs, p);
        }
      } else {
        FullEntry(rs, n - 1, i);
      }
    }
  }

  /** Without a bound, the family that opened a chain is the one emitted, in every run. */
  lemma UnboundedEmitsOpener(rs: seq<Report>, i: nat)
    requires i < |rs|
    ensures !IsTwin(FullAfter(rs[..i]), rs[i]) <==> rs[i].family == rs[Opener(rs, i)].family
  {
    hide FullAfter, HeldOpener;
    FullEntry(rs, i, i);
    if !Opens(rs, i) {
      OpenersAreNamed(rs, Previous(rs, i, i));
    }
  }

  /** Pruning changes no answer of a run exactly when no twin is lost. */
  lemma PruningIsInvisible(rs: seq<Report>)
    ensures (forall i :: 0 <= i < |rs| ==> (Emitted(rs, i) <==> !IsTwin(FullAfter(rs[..i]), rs[i]))) <==>
            (forall i :: 0 <= i < |rs| ==> !LosesTwin(rs, i))
  {
    hide Emitted, FullAfter, IsTwin, LosesTwin, Opener;
    OpenerFamilyIsEmitted(rs);
    forall i | 0 <= i < |rs|
      ensures OpenerEmitsAt(rs, i) <==> (Emitted(rs, i) <==> !IsTwin(FullAfter(rs[..i]), rs[i]))
    {
      UnboundedEmitsOpener(rs, i);
    }
  }

  // ---------- A run that loses a twin ----------

  ghost function KeyOf(n: nat): (k: Key)
  {
    Key(n, 0, "", 0, "")
  }

  /** `n` reports at time 0, each on its own key. */
  ghost function Filling(n: nat): (rs: seq<Report>)
    ensures |rs| == n
  {
    seq(n, i requires 0 <= i < n => Report(KeyOf(i), "cgroup", 0))
  }

  /**
   * A full table, then a report two seconds ahead on another key, and after a step back of the clock the
   * second family reports on the first key, half a second after the first.
   */
  ghost function LossyRun(): (rs: seq<Report>)
  {
    Filling(4096) + [Report(KeyOf(4096), "cgroup", 2_000_000_000), Report(KeyOf(0), "lsm", 500_000_000)]
  }

  lemma {:induction false} FillingFills(n: nat)
    requires n <= MAX_ENTRIES
    ensures |TableAfter(Filling(n))| == n
    ensures forall i: nat :: n <= i ==> KeyOf(i) !in TableAfter(Filling(n))
  {
    if n > 0 {
      FillingFills(n - 1);
      assert Filling(n)[..n - 1] == Filling(n - 1);
      NewKeyNoted(TableAfter(Filling(n - 1)), Filling(n)[n - 1]);
    }
  }

  lemma NewKeyNoted(t: Table, r: Report)
    requires r.key !in t
    ensures !IsTwin(t, r) && Noted(t, r).Keys == t.Keys + {r.key} && |Noted(t, r)| == |t| + 1
  {
    assert Noted(t, r).Keys == t.Keys + {r.key};
  }

  /** The twin in it is emitted, although another family had opened its chain. */
  lemma LossyRunLosesTwin()
    ensures |LossyRun()| == 4098 && Opener(LossyRun(), 4097) == 0 && LosesTwin(LossyRun(), 4097)
    ensures Emitted(LossyRun(), 4097)
  {
    hide TableAfter, IsTwin, Prunes;
    var rs := LossyRun();
    FirstOnKeyZero(rs);
    PrunesAt4096(rs);
    assert Forgotten(rs, 0, 4097);
    HeldFamilyIsEmitted(rs, 4097);
  }

  lemma FirstOnKeyZero(rs: seq<Report>)
    requires rs == LossyRun()
    ensures Previous(rs, 4097, 4097) == 0 && Previous(rs, 0, 0) == -1
  {
    hide Previous;
    assert forall i :: 1 <= i < 4097 ==> rs[i].key == KeyOf(i) != KeyOf(0);
    assert rs[0].key == rs[4097].key == KeyOf(0);
  }

  lemma PrunesAt4096(rs: seq<Report>)
    requires rs == LossyRun()
    ensures Prunes(rs, 4096)
  {
    hide TableAfter;
    FillingFills(4096);
    assert rs[..4096] == Filling(4096);
    NewKeyNoted(TableAfter(rs[..4096]), rs[4096]);
  }
}
