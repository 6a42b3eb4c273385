/**
 * The tracker of sockets whose TLS encryption was handed to the kernel. A mark is live for 60 s.
 * Expired marks are only thrown away when a new one arrives, so the table at any time depends on when
 * marks came in; the answers must not. Two clocks: `at` drives expiry, `markedAt` orders events.
 */
module KtlsTracker {

  const TTL := 60_000_000_000

  datatype Key = Key(pid: nat, fd: nat)
  datatype Entry = Entry(at: int, markedAt: int)
  datatype Mark = Mark(key: Key, at: int, markedAt: int)

  type Table = map<Key, Entry>

  predicate Live(e: Entry, now: int)
  {
    e.at > now - TTL
  }

  function Evict(t: Table, now: int): (r: Table)
  {
    map k | k in t && Live(t[k], now) :: t[k]
  }

  // ---------- The answer, from a table ----------

  /** `fd == 0` asks about any socket of the process. */
  ghost predicate Answer(t: Table, pid: nat, fd: nat, tlsTime: int, now: int)
  {
    exists k :: k in t && k.pid == pid && (fd == 0 || k.fd == fd) && Live(t[k], now) && t[k].markedAt <= tlsTime
  }

  // ---------- Histories ----------

  /** The clock has not gone back behind a mark. Marks among themselves may come in any clock order. */
  ghost predicate NotBehind(h: seq<Mark>, now: int)
  {
    forall i :: 0 <= i < |h| ==> h[i].at <= now
  }

  /** The table after the marks of a history, as the tracker keeps it. */
  ghost function Kept(h: seq<Mark>): (t: Table)
  {
    if h == [] then map[]
    else
      var m := h[|h| - 1];
      Evict(Kept(h[..|h| - 1]), m.at)[m.key := Entry(m.at, m.markedAt)]
  }

  /** Mark `i` is the latest one of its socket. */
  ghost predicate Latest(h: seq<Mark>, i: nat)
  {
    i < |h| && forall j :: i < j < |h| ==> h[j].key != h[i].key
  }

  /** The answer as it should be: from the full history, by the latest mark of each socket. */
  ghost predicate Truth(h: seq<Mark>, pid: nat, fd: nat, tlsTime: int, now: int)
  {
    exists i: nat :: Latest(h, i) && h[i].key.pid == pid && (fd == 0 || h[i].key.fd == fd)
                     && h[i].at > now - 60_000_000_000 && h[i].markedAt <= tlsTime
  }

  // ---------- The tracker as the source runs it ----------

  class Tracker {
    var marks: Table
    ghost var history: seq<Mark>

    ghost predicate Valid()
      reads this
    {
      marks == Kept(history)
    }

    constructor ()
      ensures Valid() && history == []
    {
      marks, history := map[], [];
    }

    method EvictAll(now: int)
      modifies this`marks
      ensures marks == Evict(old(marks), now)
    {
      var todo := marks.Keys;
      while todo != {}
        invariant todo <= old(marks).Keys
        invariant forall k :: k in marks <==> k in old(marks) && (k in todo || Live(old(marks)[k], now))
        invariant forall k :: k in marks ==> marks[k] == old(marks)[k]
        decreases todo
      {
        var k :| k in todo;
        todo := todo - {k};
        if !Live(marks[k], now) {
          marks := marks - {k};
        }
      }
    }

    method RecordMark(pid: nat, fd: nat, markedAtNs: int, now: int)
      requires Valid()
      modifies this
      ensures Valid() && history == old(history) + [Mark(Key(pid, fd), now, markedAtNs)]
    {
      EvictAll(now);
      marks := marks[Key(pid, fd) := Entry(now, markedAtNs)];
      history := history + [Mark(Key(pid, fd), now, markedAtNs)];
      assert history[..|history| - 1] == old(history);
    }

    /** With a clock that did not go back, the answer is that of the full history. */
    method IsKTLS(pid: nat, fd: nat, tlsTimestampNs: int, now: int) returns (r: bool)
      requires Valid()
      ensures r == Answer(marks, pid, fd, tlsTimestampNs, now)
      ensures NotBehind(history, now) ==>
              r == Truth(history, pid, fd, tlsTimestampNs, now)
    {
      if NotBehind(history, now) {
        EvictionIsInvisible(history, pid, fd, tlsTimestampNs, now);
      }
      hide Truth, Kept;
      if fd != 0 {
        var k := Key(pid, fd);
        if k in marks && Live(marks[k], now) {
          return tlsTimestampNs >= marks[k].markedAt;
        }
        return false;
      }
      var found, earliest := false, 0;
      var todo := marks.Keys;
      while todo != {}
        invariant todo <= marks.Keys
        invariant found ==>
                    exists k :: k in marks && k.pid == pid && Live(marks[k], now) && marks[k].markedAt == earliest
        invariant forall k :: k in marks && k !in todo && k.pid == pid && Live(marks[k], now) ==>
                    found && earliest <= marks[k].markedAt
        decreases todo
      {
        var k :| k in todo;
        todo := todo - {k};
        if k.pid == pid && Live(marks[k], now) && (!found || marks[k].markedAt < earliest) {
          earliest, found := marks[k].markedAt, true;
        }
      }
      return found && tlsTimestampNs >= earliest;
    }
  }

  // ---------- Eviction is invisible ----------

  /** A later mark came in when mark `i` had expired. */
  ghost predicate ExpiredSince(h: seq<Mark>, i: nat)
    requires i < |h|
  {
    exists j :: i < j < |h| && h[i].at <= h[j].at - 60_000_000_000
  }

  lemma LatestSnoc(h: seq<Mark>, i: nat)
    requires h != [] && i < |h| - 1
    ensures var n := |h| - 1;
            && (Latest(h, i) <==> Latest(h[..n], i) && h[n].key != h[i].key)
            && (ExpiredSince(h, i) <==> ExpiredSince(h[..n], i) || h[i].at <= h[n].at - 60_000_000_000)
  {
    var n := |h| - 1;
    assert forall j :: 0 <= j < n ==> h[..n][j] == h[j];
    if ExpiredSince(h[..n], i) {
      var j :| i < j < n && h[..n][i].at <= h[..n][j].at - 60_000_000_000;
      assert h[i].at <= h[j].at - 60_000_000_000;
    }
    if ExpiredSince(h, i) {
      var j :| i < j < |h| && h[i].at <= h[j].at - 60_000_000_000;
      assert j < n ==> h[..n][i].at <= h[..n][j].at - 60_000_000_000;
    }
  }

  /**
   * Exactly what the table holds, for every history: of each socket its latest mark, unless some later
   * mark came in when that one had expired.
   */
  lemma {:induction false} KeptIsLatest(h: seq<Mark>, i: nat)
    requires Latest(h, i)
    ensures h[i].key in Kept(h) <==> !ExpiredSince(h, i)
    ensures h[i].key in Kept(h) ==> Kept(h)[h[i].key] == Entry(h[i].at, h[i].markedAt)
  {
    var n := |h| - 1;
    if i < n {
      LatestSnoc(h, i);
      KeptIsLatest(h[..n], i);
    }
  }

  lemma {:induction false} KeptWasMarked(h: seq<Mark>, k: Key) returns (i: nat)
    requires k in Kept(h)
    ensures Latest(h, i) && h[i].key == k
  {
    var n := |h| - 1;
    if h[n].key == k {
      i := n;
    } else {
      i := KeptWasMarked(h[..n], k);
      LatestSnoc(h, i);
    }
  }

  ghost predicate LiveLatest(h: seq<Mark>, i: nat, now: int)
  {
    Latest(h, i) && h[i].at > now - 60_000_000_000
  }

  /**
   * A mark recorded for fd 0 can only be asked for together with all sockets of its process, so one that
   * is kept, live and no later hides its loss.
   */
  ghost predicate Shadowed(h: seq<Mark>, i: nat, now: int)
    requires i < |h|
  {
    h[i].key.fd == 0 &&
    exists j: nat :: LiveLatest(h, j, now) && !ExpiredSince(h, j)
                     && h[j].key.pid == h[i].key.pid && h[j].markedAt <= h[i].markedAt
  }

  /** What the table answers, in terms of the history. */
  lemma AnswerIs(h: seq<Mark>, pid: nat, fd: nat, tlsTime: int, now: int)
    ensures Answer(Kept(h), pid, fd, tlsTime, now) <==>
            exists i: nat :: LiveLatest(h, i, now) && !ExpiredSince(h, i)
                             && h[i].key.pid == pid && (fd == 0 || h[i].key.fd == fd) && h[i].markedAt <= tlsTime
  {
    hide Kept, ExpiredSince;
    if Answer(Kept(h), pid, fd, tlsTime, now) {
      var k :| k in Kept(h) && k.pid == pid && (fd == 0 || k.fd == fd) && Live(Kept(h)[k], now)
               && Kept(h)[k].markedAt <= tlsTime;
      var i := KeptWasMarked(h, k);
      KeptIsLatest(h, i);
      assert LiveLatest(h, i, now);
    }
    if i: nat :| LiveLatest(h, i, now) && !ExpiredSince(h, i)
                 && h[i].key.pid == pid && (fd == 0 || h[i].key.fd == fd) && h[i].markedAt <= tlsTime {
      KeptIsLatest(h, i);
    }
  }

  /**
   * When eviction is invisible, for any clock: every question at `now` gets the answer of the full history
   * if and only if each live latest mark that was evicted is shadowed.
   */
  lemma EvictionDecided(h: seq<Mark>, now: int)
    ensures (forall pid, fd, tlsTime ::
               Answer(Kept(h), pid, fd, tlsTime, now) <==> Truth(h, pid, fd, tlsTime, now)) <==>
            (forall i: nat :: LiveLatest(h, i, now) && ExpiredSince(h, i) ==> Shadowed(h, i, now))
  {
    hide Kept, ExpiredSince, Answer, Truth, Shadowed;
    if forall i: nat :: LiveLatest(h, i, now) && ExpiredSince(h, i) ==> Shadowed(h, i, now) {
      forall pid, fd, tlsTime
        ensures Answer(Kept(h), pid, fd, tlsTime, now) <==> Truth(h, pid, fd, tlsTime, now)
      {
        ShadowsHide(h, pid, fd, tlsTime, now);
      }
    }
    forall i: nat | LiveLatest(h, i, now) && ExpiredSince(h, i) && !Shadowed(h, i, now)
      ensures var k := h[i].key;
              !Answer(Kept(h), k.pid, k.fd, h[i].markedAt, now) && Truth(h, k.pid, k.fd, h[i].markedAt, now)
    {
      LostMarkShows(h, i, now);
    }
  }

  lemma ShadowsHide(h: seq<Mark>, pid: nat, fd: nat, tlsTime: int, now: int)
    requires forall i: nat :: LiveLatest(h, i, now) && ExpiredSince(h, i) ==> Shadowed(h, i, now)
    ensures Answer(Kept(h), pid, fd, tlsTime, now) <==> Truth(h, pid, fd, tlsTime, now)
  {
    hide Kept, ExpiredSince, Answer;
    AnswerIs(h, pid, fd, tlsTime, now);
    if Truth(h, pid, fd, tlsTime, now) {
      var i: nat :| Latest(h, i) && h[i].key.pid == pid && (fd == 0 || h[i].key.fd == fd)
                    && h[i].at > now - 60_000_000_000 && h[i].markedAt <= tlsTime;
      assert LiveLatest(h, i, now);
    }
  }

  lemma LostMarkShows(h: seq<Mark>, i: nat, now: int)
    requires LiveLatest(h, i, now) && ExpiredSince(h, i) && !Shadowed(h, i, now)
    ensures var k := h[i].key;
            !Answer(Kept(h), k.pid, k.fd, h[i].markedAt, now) && Truth(h, k.pid, k.fd, h[i].markedAt, now)
  {
    hide Kept, ExpiredSince, Answer;
    var k := h[i].key;
    AnswerIs(h, k.pid, k.fd, h[i].markedAt, now);
    assert forall j: nat :: Latest(h, j) && h[j].key == k ==> j == i;
  }

  /** In particular, as long as the clock is not behind a mark: no evicted mark is live. */
  lemma EvictionIsInvisible(h: seq<Mark>, pid: nat, fd: nat, tlsTime: int, now: int)
    requires NotBehind(h, now)
    ensures Answer(Kept(h), pid, fd, tlsTime, now) <==> Truth(h, pid, fd, tlsTime, now)
  {
    hide Kept, Answer, Truth;
    ShadowsHide(h, pid, fd, tlsTime, now);
  }
}
