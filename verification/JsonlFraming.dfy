/**
 * Reading the event stream. Records end with a newline; the reader hands them over in pieces no larger
 * than its window, and a record above the size limit is dropped without losing the ones after it.
 */
module JsonlFraming {
  import opened Bytes

  // ---------- The records of a stream ----------

  /** The length of the first record, its newline included. */
  function FirstLength(s: bytes): (n: nat)
    ensures n <= |s| && (s != [] ==> n > 0)
    ensures LF !in s ==> n == |s|
    ensures LF in s ==> s[n - 1] == LF && LF !in s[..n - 1]
  {
    if s == [] then 0 else if s[0] == LF then 1 else 1 + FirstLength(s[1..])
  }

  /** Every newline ends a record; what follows the last newline, maybe nothing, is the last record. */
  function Records(s: bytes): (r: seq<bytes>)
    ensures |r| > 0
    decreases |s|
  {
    if LF !in s then [s] else [s[..FirstLength(s)]] + Records(s[FirstLength(s)..])
  }

  // ---------- The buffered reader ----------

  datatype Status = Found | WindowFull | Ended

  /** How a stream ends: at its end of file, or with a read error. */
  datatype Ending = EOF | ReadError

  /** The unread stream behind a window of some size. */
  class Reader {
    const window: nat
    const ending: Ending
    var rest: bytes

    constructor (stream: bytes, ending: Ending, window: nat)
      requires window > 0
      ensures rest == stream && this.ending == ending && this.window == window
    {
      rest, this.ending, this.window := stream, ending, window;
    }

    /** Up to the next newline, unless the window fills up or the stream ends before it. */
    method ReadSlice() returns (chunk: bytes, st: Status)
      requires window > 0
      modifies this
      ensures old(rest) == chunk + rest && |chunk| <= window
      ensures st == Found ==> chunk != [] && chunk[|chunk| - 1] == LF && LF !in chunk[..|chunk| - 1]
      ensures st == WindowFull ==> |chunk| == window && LF !in chunk
      ensures st == Ended ==> rest == [] && LF !in chunk
    {
      var n := 0;
      while n < |rest| && n < window && rest[n] != LF
        invariant 0 <= n <= |rest| && n <= window
        invariant LF !in rest[..n]
      {
        n := n + 1;
      }
      if n < |rest| && n < window {
        chunk, st := rest[..n + 1], Found;
      } else if n < window {
        chunk, st := rest[..n], Ended;
      } else {
        // A stream that fills the window exactly may or may not report its end at once.
        var known: bool := *;
        chunk, st := rest[..n], if n == |rest| && known then Ended else WindowFull;
      }
      rest := rest[|chunk|..];
    }

    /**
     * The next record, whatever the window: empty and flagged when it is longer than `max`. Together with
     * the last record it returns how the stream ended.
     */
    method ReadEventLine(max: nat) returns (line: bytes, oversize: bool, err: Option<Ending>)
      requires window > 0
      modifies this
      ensures var n := FirstLength(old(rest));
              && rest == old(rest)[n..]
              && oversize == (n > max)
              && line == (if n > max then [] else old(rest)[..n])
      ensures err == if LF in old(rest) then None else Some(ending)
    {
      hide FirstLength;
      line, oversize := [], false;
      ghost var taken: bytes := [];
      while true
        invariant old(rest) == taken + rest && LF !in taken
        invariant oversize == (|taken| > max)
        invariant line == if oversize then [] else taken
        decreases |rest|
      {
        var chunk, st := ReadSlice();
        if !oversize {
          if |line| + |chunk| > max {
            oversize, line := true, [];
          } else {
            line := line + chunk;
          }
        }
        if st != WindowFull {
          FirstIs(old(rest), taken, chunk, rest, st == Found);
          err := if st == Found then None else Some(ending);
          return;
        }
        OneMoreChunk(old(rest), taken, chunk, rest);
        taken := taken + chunk;
      }
    }
  }

  lemma OneMoreChunk(s: bytes, taken: bytes, chunk: bytes, rest: bytes)
    requires s == taken + (chunk + rest) && LF !in taken && LF !in chunk
    ensures s == (taken + chunk) + rest && LF !in taken + chunk
  {
  }

  lemma FirstIs(s: bytes, taken: bytes, chunk: bytes, rest: bytes, found: bool)
    requires s == taken + (chunk + rest) && LF !in taken
    requires found ==> chunk != [] && chunk[|chunk| - 1] == LF && LF !in chunk[..|chunk| - 1]
    requires !found ==> rest == [] && LF !in chunk
    ensures var n := FirstLength(s);
            n == |taken| + |chunk| && s[..n] == taken + chunk && s[n..] == rest
    ensures LF in s <==> found
  {
    hide FirstLength;
    var n := |taken| + |chunk|;
    assert s[..n] == taken + chunk;
    if found {
      assert s[..n - 1] == taken + chunk[..|chunk| - 1];
      FirstEndsAt(s, n);
      assert s[n - 1] == LF;
    }
  }

  lemma {:induction false} FirstEndsAt(s: bytes, n: nat)
    requires 0 < n <= |s| && s[n - 1] == LF && LF !in s[..n - 1]
    ensures FirstLength(s) == n
    decreases n
  {
    if n > 1 {
      assert s[..n - 1][0] == s[0];
      assert s[1..][..n - 2] == s[..n - 1][1..];
      FirstEndsAt(s[1..], n - 1);
    }
  }

  // ---------- Rolling up ----------

  /** What decoding a line gives: None for malformed JSON, else the type of the event. */
  type Decoder = bytes -> Option<bytes>

  datatype Aggregate = Aggregate(totalEvents: nat, parseErrors: nat, nonMetaEvents: nat, seen: set<bytes>)

  const META: bytes := [0x6D, 0x65, 0x74, 0x61]
  const EMPTY := Aggregate(0, 0, 0, {})

  function TrimEol(s: bytes): (r: bytes)
    ensures r <= s && (r == [] || (r[|r| - 1] != LF && r[|r| - 1] != CR))
    ensures forall i :: |r| <= i < |s| ==> s[i] == LF || s[i] == CR
  {
    if s != [] && (s[|s| - 1] == LF || s[|s| - 1] == CR) then TrimEol(s[..|s| - 1]) else s
  }

  function ConsumeLine(decode: Decoder, a: Aggregate, line: bytes): (a': Aggregate)
  {
    match decode(line)
    case None => a.(parseErrors := a.parseErrors + 1)
    case Some(t) =>
      a.(totalEvents := a.totalEvents + 1,
         nonMetaEvents := a.nonMetaEvents + (if t != META then 1 else 0),
         seen := a.seen + {t})
  }

  /** What one record adds to the roll-up. */
  function Consume(decode: Decoder, max: nat, a: Aggregate, record: bytes): (a': Aggregate)
  {
    if |record| > max then a.(parseErrors := a.parseErrors + 1)
    else if TrimEol(record) == [] then a
    else ConsumeLine(decode, a, TrimEol(record))
  }

  function ConsumeAll(decode: Decoder, max: nat, a: Aggregate, records: seq<bytes>): (a': Aggregate)
    decreases |records|
  {
    if records == [] then a else ConsumeAll(decode, max, Consume(decode, max, a, records[0]), records[1..])
  }

  /**
   * The roll-up of a stream depends on its records alone, not on the window it was read through. A read
   * error is reported, and the records before it are rolled up all the same.
   */
  method Parse(decode: Decoder, stream: bytes, ending: Ending, window: nat, max: nat) returns (a: Aggregate, ok: bool)
    requires window > 0
    ensures a == ConsumeAll(decode, max, EMPTY, Records(stream))
    ensures ok <==> ending == EOF
  {
    hide ConsumeLine, FirstLength, ConsumeAll, Records;
    a := EMPTY;
    var r := new Reader(stream, ending, window);
    var rerr: Option<Ending> := None;
    while rerr.None?
      invariant rerr.None? ==>
                  ConsumeAll(decode, max, a, Records(r.rest)) == ConsumeAll(decode, max, EMPTY, Records(stream))
      invariant rerr.Some? ==> a == ConsumeAll(decode, max, EMPTY, Records(stream)) && rerr.value == ending
      decreases rerr.None?, |r.rest|
    {
      ghost var s := r.rest;
      var raw, oversize;
      raw, oversize, rerr := r.ReadEventLine(max);
      RecordsStep(decode, max, a, s);
      assert s[..|s|] == s;
      if oversize {
        a := a.(parseErrors := a.parseErrors + 1);
      } else {
        var line := TrimEol(raw);
        if |line| > 0 {
          a := ConsumeLine(decode, a, line);
        }
      }
    }
    ok := rerr.value == EOF;
  }

  lemma RecordsStep(decode: Decoder, max: nat, a: Aggregate, s: bytes)
    ensures var n := FirstLength(s);
            ConsumeAll(decode, max, a, Records(s)) ==
            if LF !in s then Consume(decode, max, a, s)
            else ConsumeAll(decode, max, Consume(decode, max, a, s[..n]), Records(s[n..]))
  {
    if LF in s {
      assert Records(s)[1..] == Records(s[FirstLength(s)..]);
    }
  }

  // ---------- What the records are ----------

  ghost function Concat(rs: seq<bytes>): (s: bytes)
  {
    if rs == [] then [] else rs[0] + Concat(rs[1..])
  }

  ghost predicate IsRecord(r: bytes)
  {
    r != [] && r[|r| - 1] == LF && LF !in r[..|r| - 1]
  }

  /** All but the last end with their only newline; the last has none. */
  ghost predicate IsSplit(rs: seq<bytes>)
  {
    && |rs| > 0 && LF !in rs[|rs| - 1]
    && forall i :: 0 <= i < |rs| - 1 ==> IsRecord(rs[i])
  }

  /** The records are the one way to cut the stream at its newlines. */
  lemma {:induction false} RecordsAreTheSplit(s: bytes, rs: seq<bytes>)
    ensures IsSplit(rs) && Concat(rs) == s <==> rs == Records(s)
    decreases |s|
  {
    RecordsSplit(s);
    if IsSplit(rs) && Concat(rs) == s {
      SplitUnique(rs);
    }
  }

  lemma SplitCons(r: bytes, tail: seq<bytes>)
    requires IsRecord(r) && IsSplit(tail)
    ensures IsSplit([r] + tail) && Concat([r] + tail) == r + Concat(tail)
  {
    hide IsRecord;
    var rs := [r] + tail;
    assert rs[1..] == tail;
    assert forall i :: 1 <= i < |rs| ==> rs[i] == tail[i - 1];
  }

  lemma {:induction false} RecordsSplit(s: bytes)
    ensures IsSplit(Records(s)) && Concat(Records(s)) == s
    decreases |s|
  {
    hide FirstLength, IsSplit, Concat;
    if LF in s {
      var n := FirstLength(s);
      RecordsSplit(s[n..]);
      assert s[..n][..n - 1] == s[..n - 1];
      SplitCons(s[..n], Records(s[n..]));
    } else {
      SplitOne(s);
    }
  }

  lemma SplitOne(s: bytes)
    requires LF !in s
    ensures IsSplit([s]) && Concat([s]) == s
  {
    ConcatOne(s);
  }

  lemma {:induction false} SplitUnique(rs: seq<bytes>)
    requires IsSplit(rs)
    ensures Records(Concat(rs)) == rs
    decreases |rs|
  {
    var s := Concat(rs);
    if |rs| == 1 {
      assert Concat(rs[1..]) == [];
      assert s == rs[0];
    } else {
      assert IsSplit(rs[1..]);
      SplitUnique(rs[1..]);
      assert IsRecord(rs[0]);
      assert s[|rs[0]| - 1] == LF && s[..|rs[0]| - 1] == rs[0][..|rs[0]| - 1];
      FirstEndsAt(s, |rs[0]|);
      assert s[..|rs[0]|] == rs[0] && s[|rs[0]|..] == Concat(rs[1..]);
    }
  }

  // ---------- Nothing is lost ----------

  ghost predicate Matters(max: nat, record: bytes)
  {
    |record| > max || TrimEol(record) != []
  }

  ghost function CountMattering(max: nat, records: seq<bytes>): (n: nat)
  {
    if records == [] then 0 else (if Matters(max, records[0]) then 1 else 0) + CountMattering(max, records[1..])
  }

  lemma {:induction false} CountsFrom(decode: Decoder, max: nat, a: Aggregate, records: seq<bytes>)
    ensures var b := ConsumeAll(decode, max, a, records);
            && b.totalEvents + b.parseErrors == a.totalEvents + a.parseErrors + CountMattering(max, records)
            && (a.nonMetaEvents <= a.totalEvents ==> b.nonMetaEvents <= b.totalEvents)
    decreases |records|
  {
    if records != [] {
      CountsFrom(decode, max, Consume(decode, max, a, records[0]), records[1..]);
    }
  }

  /** Every record that is oversize or not blank is counted once, as an event or as an error. */
  lemma EveryRecordIsCounted(decode: Decoder, max: nat, stream: bytes)
    ensures var a := ConsumeAll(decode, max, EMPTY, Records(stream));
            && a.totalEvents + a.parseErrors == CountMattering(max, Records(stream))
            && a.nonMetaEvents <= a.totalEvents
  {
    CountsFrom(decode, max, EMPTY, Records(stream));
  }

  ghost function CountIf(f: bytes -> bool, records: seq<bytes>): (n: nat)
  {
    if records == [] then 0 else (if f(records[0]) then 1 else 0) + CountIf(f, records[1..])
  }

  lemma {:induction false} CountersFrom(decode: Decoder, max: nat, a: Aggregate, records: seq<bytes>)
    ensures var b := ConsumeAll(decode, max, a, records);
            && b.totalEvents == a.totalEvents + CountIf(r => EventIn(decode, max, r).Some?, records)
            && b.parseErrors == a.parseErrors + CountIf(r => IsBad(decode, max, r), records)
            && b.nonMetaEvents == a.nonMetaEvents
               + CountIf(r => EventIn(decode, max, r).Some? && EventIn(decode, max, r) != Some(META), records)
    decreases |records|
  {
    if records != [] {
      CountersFrom(decode, max, Consume(decode, max, a, records[0]), records[1..]);
    }
  }

  /** Over its limit, or with something on its line that does not decode. */
  ghost predicate IsBad(decode: Decoder, max: nat, record: bytes)
  {
    |record| > max || (TrimEol(record) != [] && decode(TrimEol(record)).None?)
  }

  /**
   * Each counter by itself: events are the records that decode, errors the oversize and the malformed
   * ones, and non-meta events the events of any type but `meta`.
   */
  lemma CountersAre(decode: Decoder, max: nat, stream: bytes)
    ensures var a := ConsumeAll(decode, max, EMPTY, Records(stream));
            && a.totalEvents == CountIf(r => EventIn(decode, max, r).Some?, Records(stream))
            && a.parseErrors == CountIf(r => IsBad(decode, max, r), Records(stream))
            && a.nonMetaEvents ==
               CountIf(r => EventIn(decode, max, r).Some? && EventIn(decode, max, r).value != [0x6D, 0x65, 0x74, 0x61],
                       Records(stream))
  {
    CountersFrom(decode, max, EMPTY, Records(stream));
    SameCount(r => EventIn(decode, max, r).Some? && EventIn(decode, max, r) != Some(META),
              r => EventIn(decode, max, r).Some? && EventIn(decode, max, r).value != [0x6D, 0x65, 0x74, 0x61],
              Records(stream));
  }

  lemma {:induction false} SameCount(f: bytes -> bool, g: bytes -> bool, records: seq<bytes>)
    requires forall r :: f(r) == g(r)
    ensures CountIf(f, records) == CountIf(g, records)
  {
    if records != [] {
      SameCount(f, g, records[1..]);
    }
  }

  /** The type of the event in a record, if the record is one. */
  ghost function EventIn(decode: Decoder, max: nat, record: bytes): (t: Option<bytes>)
  {
    if |record| > max || TrimEol(record) == [] then None else decode(TrimEol(record))
  }

  ghost predicate OnlyMeta(decode: Decoder, max: nat, records: seq<bytes>)
  {
    forall i :: 0 <= i < |records| ==> EventIn(decode, max, records[i]) in {None, Some(META)}
  }

  ghost predicate HasType(decode: Decoder, max: nat, records: seq<bytes>, t: bytes)
  {
    exists i :: 0 <= i < |records| && EventIn(decode, max, records[i]) == Some(t)
  }

  lemma TypesSplit(decode: Decoder, max: nat, records: seq<bytes>, t: bytes)
    requires records != []
    ensures HasType(decode, max, records, t) <==>
            EventIn(decode, max, records[0]) == Some(t) || HasType(decode, max, records[1..], t)
    ensures OnlyMeta(decode, max, records) <==>
            EventIn(decode, max, records[0]) in {None, Some(META)} && OnlyMeta(decode, max, records[1..])
  {
    hide EventIn;
    var tail := records[1..];
    assert forall i :: 0 <= i < |tail| ==> tail[i] == records[i + 1];
    if i :| 0 <= i < |records| && EventIn(decode, max, records[i]) == Some(t) {
      assert i > 0 ==> tail[i - 1] == records[i];
    }
    if OnlyMeta(decode, max, tail) && EventIn(decode, max, records[0]) in {None, Some(META)} {
      forall i | 0 <= i < |records|
        ensures EventIn(decode, max, records[i]) in {None, Some(META)}
      {
        assert i > 0 ==> tail[i - 1] == records[i];
      }
    }
  }

  lemma {:induction false} TypesFrom(decode: Decoder, max: nat, a: Aggregate, records: seq<bytes>, t: bytes)
    ensures var b := ConsumeAll(decode, max, a, records);
            && (b.nonMetaEvents == 0 <==> a.nonMetaEvents == 0 && OnlyMeta(decode, max, records))
            && (t in b.seen <==> t in a.seen || HasType(decode, max, records, t))
    decreases |records|
  {
    hide OnlyMeta, HasType;
    if records == [] {
      NoTypes(decode, max, t);
    } else {
      TypesSplit(decode, max, records, t);
      TypesFrom(decode, max, Consume(decode, max, a, records[0]), records[1..], t);
    }
  }

  lemma NoTypes(decode: Decoder, max: nat, t: bytes)
    ensures OnlyMeta(decode, max, []) && !HasType(decode, max, [], t)
  {
  }

  /** The report says "captured nothing" exactly when every event in the stream is a meta row. */
  lemma CapturedNothingMeans(decode: Decoder, max: nat, stream: bytes, t: bytes)
    ensures var a := ConsumeAll(decode, max, EMPTY, Records(stream));
            && (a.nonMetaEvents == 0 <==> OnlyMeta(decode, max, Records(stream)))
            && (t in a.seen <==> HasType(decode, max, Records(stream), t))
  {
    TypesFrom(decode, max, EMPTY, Records(stream), t);
  }

  // ---------- One bad record costs nothing else ----------

  lemma {:induction false} ConsumeConcat(decode: Decoder, max: nat, a: Aggregate, xs: seq<bytes>, ys: seq<bytes>)
    ensures ConsumeAll(decode, max, a, xs + ys) == ConsumeAll(decode, max, ConsumeAll(decode, max, a, xs), ys)
    decreases |xs|
  {
    if xs == [] {
      assert xs + ys == ys;
    } else {
      assert (xs + ys)[1..] == xs[1..] + ys;
      ConsumeConcat(decode, max, Consume(decode, max, a, xs[0]), xs[1..], ys);
    }
  }

  lemma {:induction false} ErrorsCarryOver(decode: Decoder, max: nat, a: Aggregate, records: seq<bytes>)
    ensures var b := ConsumeAll(decode, max, a, records);
            ConsumeAll(decode, max, a.(parseErrors := a.parseErrors + 1), records) ==
            b.(parseErrors := b.parseErrors + 1)
    decreases |records|
  {
    if records != [] {
      ErrorsCarryOver(decode, max, Consume(decode, max, a, records[0]), records[1..]);
    }
  }

  lemma {:induction false} ConcatSplits(xs: seq<bytes>, ys: seq<bytes>)
    ensures Concat(xs + ys) == Concat(xs) + Concat(ys)
    decreases |xs|
  {
    if xs == [] {
      assert xs + ys == ys;
    } else {
      assert (xs + ys)[1..] == xs[1..] + ys;
      ConcatSplits(xs[1..], ys);
    }
  }

  /** Whole records in front of a stream are its first records. */
  lemma WholeRecordsFirst(xs: seq<bytes>, stream: bytes)
    requires forall i :: 0 <= i < |xs| ==> IsRecord(xs[i])
    ensures Records(Concat(xs) + stream) == xs + Records(stream)
  {
    RecordsSplit(stream);
    ConcatSplits(xs, Records(stream));
    SplitUnique(xs + Records(stream));
  }

  /** An oversize or malformed line between whole records adds one error and changes nothing else. */
  lemma OneBadRecordCostsOneError(decode: Decoder, max: nat, xs: seq<bytes>, bad: bytes, stream: bytes)
    requires forall i :: 0 <= i < |xs| ==> IsRecord(xs[i])
    requires IsRecord(bad) && (|bad| > max || (TrimEol(bad) != [] && decode(TrimEol(bad)).None?))
    ensures var without := ConsumeAll(decode, max, EMPTY, Records(Concat(xs) + stream));
            ConsumeAll(decode, max, EMPTY, Records(Concat(xs) + bad + stream)) ==
            without.(parseErrors := without.parseErrors + 1)
  {
    hide Records, ConsumeAll, Concat, IsRecord;
    var rest := Records(stream);
    WholeRecordsFirst(xs, stream);
    WholeRecordsFirst(xs + [bad], stream);
    ConcatSplits(xs, [bad]);
    ConcatOne(bad);
    ConsumeConcat(decode, max, EMPTY, xs, rest);
    ConsumeConcat(decode, max, EMPTY, xs + [bad], rest);
    ConsumeConcat(decode, max, EMPTY, xs, [bad]);
    var a := ConsumeAll(decode, max, EMPTY, xs);
    ConsumeOne(decode, max, a, bad);
    ErrorsCarryOver(decode, max, a, rest);
  }

  lemma ConcatOne(r: bytes)
    ensures Concat([r]) == r
  {
    assert [r][1..] == [];
  }

  lemma ConsumeOne(decode: Decoder, max: nat, a: Aggregate, r: bytes)
    ensures ConsumeAll(decode, max, a, [r]) == Consume(decode, max, a, r)
  {
  }
}
